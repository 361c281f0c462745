/** The sonar subsystem object: its configuration, the readings it publishes, and the loop of
    its serial reading thread over the chunks the serial port hands it. */
module Sonar {
  import opened Units
  import opened FrameParser

  /** The bytes of `data` from `index` on; none once `index` has run past the end (which happens
      when an empty read follows a consumed buffer, since the read does not reset `index`). */
  function Rest(data: seq<Byte>, index: nat): (r: seq<Byte>)
    ensures |r| == if index < |data| then |data| - index else 0
    ensures forall i :: 0 <= i < |r| ==> r[i] == data[index + i]
  {
    if index < |data| then data[index..] else []
  }

  class MaxBotixSonar {
    const model: Model
    /** Whether a serial port, resp. an analog input, was supplied (non-null) at construction. */
    const hasSerial: bool
    const hasAnalog: bool
    /** 0.0, Java's default, when the corresponding channel is absent. */
    const serialRangeFactor: real
    const analogRangeFactor: real
    /** The latest serial range in inches, -1 before any frame. */
    var serialRange: real
    /** How many frames the sample-rate counter has recorded. */
    var sampleCount: nat

    /** The factors are those of the model, for each channel that is present. */
    ghost predicate FactorsMatch()
    {
      serialRangeFactor == (if hasSerial then SerialFactor(model) else 0.0)
      && analogRangeFactor == (if hasAnalog then AnalogFactor(model) else 0.0)
    }

    /** Besides, no sample is recorded without a serial port, and the range is still -1 while
        no sample is recorded. */
    ghost predicate Valid()
      reads this
    {
      FactorsMatch()
      && (!hasSerial ==> sampleCount == 0)
      && (sampleCount == 0 ==> serialRange == -1.0)
    }

    constructor (model: Model, hasSerial: bool, hasAnalog: bool)
      ensures Valid()
      ensures this.model == model && this.hasSerial == hasSerial && this.hasAnalog == hasAnalog
      ensures hasSerial ==> serialRangeFactor == SerialFactor(model)
      ensures hasAnalog ==> analogRangeFactor == AnalogFactor(model)
      ensures serialRange == -1.0 && sampleCount == 0
    {
      this.model := model;
      this.hasSerial := hasSerial;
      this.hasAnalog := hasAnalog;
      serialRange := -1.0;
      sampleCount := 0;
      serialRangeFactor := if hasSerial then SerialFactor(model) else 0.0;
      analogRangeFactor := if hasAnalog then AnalogFactor(model) else 0.0;
    }

    /** The analog range in inches for the code the analog input reads, or -1 without one. */
    function AnalogRange(code: int): (r: real)
      requires FactorsMatch()
      ensures !hasAnalog ==> r == -1.0
      ensures hasAnalog ==> r == AnalogInches(model, code) && r * AnalogFactor(model) == code as real
    {
      if !hasAnalog then -1.0 else code as real / analogRangeFactor
    }

    /** The latest serial range; -1 without a serial port and until the first frame has completed. */
    method GetSerialRange() returns (r: real)
      requires Valid()
      ensures r == serialRange
      ensures !hasSerial ==> r == -1.0
      ensures sampleCount == 0 ==> r == -1.0
    {
      r := serialRange;
    }

    /** The body of the reading thread, over the finite run of chunks successive reads return.
        Its locals start afresh; the object's range and sample count end as the parser leaves
        them after all the bytes, whatever the chunk boundaries. */
    method Run(chunks: seq<seq<Byte>>)
      requires Valid() && hasSerial
      modifies this
      ensures Valid()
      ensures var final := FeedChunks(model, Idle(old(serialRange), old(sampleCount)), chunks);
              serialRange == final.range && sampleCount == final.samples
      ensures var final := Feed(model, Idle(old(serialRange), old(sampleCount)), Flatten(chunks));
              serialRange == final.range && sampleCount == final.samples
    {
      ghost var goal := FeedChunks(model, Idle(serialRange, sampleCount), chunks);
      var value: Int32 := 0;
      var data: seq<Byte> := [];
      var index: nat := 0;
      var startByteFound := false;
      var k := 0;
      while k < |chunks| || index < |data|
        invariant 0 <= k <= |chunks|
        invariant Valid()
        invariant FeedChunks(model, Feed(model, State(value, startByteFound, serialRange, sampleCount),
                                         Rest(data, index)), chunks[k..]) == goal
        decreases |chunks| - k, if index < |data| then |data| - index else 0
      {
        if index >= |data| {
          // the buffer is used up: read the next chunk
          assert chunks[k..][0] == chunks[k] && chunks[k..][1..] == chunks[k + 1..];
          data := chunks[k];
          k := k + 1;
          if 0 == |data| {
            continue;
          }
          index := 0;
          assert Rest(data, index) == data;
        }
        ghost var before := State(value, startByteFound, serialRange, sampleCount);
        assert Rest(data, index)[0] == data[index] && Rest(data, index)[1..] == Rest(data, index + 1);
        var c := data[index];
        index := index + 1;
        if startByteFound {
          if CR == c {
            serialRange := value as real / serialRangeFactor;
            value := 0;
            startByteFound := false;
            sampleCount := sampleCount + 1;
          } else {
            value := Wrap32(value * 10 + (c - ZERO));
          }
        } else {
          startByteFound := START == c;
        }
        assert State(value, startByteFound, serialRange, sampleCount) == Step(model, before, c);
      }
      ChunkBoundaryInvariance(model, Idle(old(serialRange), old(sampleCount)), chunks);
    }
  }
}
