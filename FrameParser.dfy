/** The serial frame parser of the sonar driver as a pure state machine: one byte at a time, then
    a run of bytes, then a run of chunks as the serial port delivers them. The parser is the one
    the driver runs, with no digit validation: inside a frame every byte other than the
    terminator is folded into the accumulator as (byte - '0'). */
module FrameParser {
  import opened Units

  /** A Java `byte`: signed, so bytes 0x80..0xFF read as -128..-1. */
  type Byte = b: int | -128 <= b < 128

  /** A Java `int`. */
  type Int32 = x: int | -0x8000_0000 <= x < 0x8000_0000

  const START: Byte := 82  // 'R'
  const CR: Byte := 13     // '\r'
  const ZERO: Byte := 48   // '0'

  /** Java's two's-complement `int` arithmetic: x reduced into the 32-bit range. */
  function Wrap32(x: int): (r: Int32)
    ensures (r - x) % 0x1_0000_0000 == 0
    ensures -0x8000_0000 <= x < 0x8000_0000 ==> r == x
  {
    (x + 0x8000_0000) % 0x1_0000_0000 - 0x8000_0000
  }

  /** What the reading thread works on: its locals `value` and `startByteFound`, and the
      object's published `serialRange` with the number of samples recorded so far. */
  datatype State = State(value: Int32, started: bool, range: real, samples: nat)

  /** The locals as the reading thread initialises them, beside a published reading. */
  function Idle(range: real, samples: nat): State
  {
    State(0, false, range, samples)
  }

  /** Outside a frame the accumulator is zero. */
  predicate Consistent(s: State)
  {
    !s.started ==> s.value == 0
  }

  /** One byte through the parser. */
  function Step(m: Model, s: State, c: Byte): (t: State)
    // seeking a start byte: only `started` can change, and it becomes (c == 'R')
    ensures !s.started ==> t.started == (c == START) && t.value == s.value
                           && t.range == s.range && t.samples == s.samples
    // terminator inside a frame: publish value / factor, reset, record one sample
    ensures s.started && c == CR ==>
              t.range * SerialFactor(m) == s.value as real
              && t.value == 0 && !t.started && t.samples == s.samples + 1
    // any other byte inside a frame: value*10 + (c - '0') in 32-bit arithmetic, frame goes on
    ensures s.started && c != CR ==>
              t.started && t.range == s.range && t.samples == s.samples
              && (t.value - (s.value * 10 + (c - ZERO))) % 0x1_0000_0000 == 0
  {
    if s.started then
      if c == CR then State(0, false, SerialInches(m, s.value), s.samples + 1)
      else s.(value := Wrap32(s.value * 10 + (c - ZERO)))
    else
      s.(started := c == START)
  }

  /** A run of bytes through the parser, in order. Each byte records at most one sample. */
  function Feed(m: Model, s: State, bs: seq<Byte>): (r: State)
    ensures s.samples <= r.samples <= s.samples + |bs|
    decreases |bs|
  {
    if bs == [] then s else Feed(m, Step(m, s, bs[0]), bs[1..])
  }

  /** A run of chunks through the parser; the parser state carries over from chunk to chunk,
      and no more samples are recorded than there are bytes in all the chunks. */
  function FeedChunks(m: Model, s: State, cs: seq<seq<Byte>>): (r: State)
    ensures s.samples <= r.samples <= s.samples + |Flatten(cs)|
    decreases |cs|
  {
    if cs == [] then s else FeedChunks(m, Feed(m, s, cs[0]), cs[1..])
  }

  /** The bytes of a run of chunks, in order. */
  function Flatten(cs: seq<seq<Byte>>): seq<Byte>
    decreases |cs|
  {
    if cs == [] then [] else cs[0] + Flatten(cs[1..])
  }

  /** Feeding a + b is feeding a, then b from where a left off. */
  lemma {:induction false} FeedAppend(m: Model, s: State, a: seq<Byte>, b: seq<Byte>)
    ensures Feed(m, s, a + b) == Feed(m, Feed(m, s, a), b)
    decreases |a|
  {
    if a == [] {
      assert a + b == b;
    } else {
      assert (a + b)[0] == a[0];
      assert (a + b)[1..] == a[1..] + b;
      FeedAppend(m, Step(m, s, a[0]), a[1..], b);
    }
  }

  /** Chunk boundaries do not matter: a run of chunks has the effect of their concatenation. */
  lemma {:induction false} ChunkBoundaryInvariance(m: Model, s: State, cs: seq<seq<Byte>>)
    ensures FeedChunks(m, s, cs) == Feed(m, s, Flatten(cs))
    decreases |cs|
  {
    if cs != [] {
      ChunkBoundaryInvariance(m, Feed(m, s, cs[0]), cs[1..]);
      FeedAppend(m, s, cs[0], Flatten(cs[1..]));
    }
  }

  /** Two ways of cutting the same bytes into chunks end in the same state. */
  lemma AnySplit(m: Model, s: State, cs: seq<seq<Byte>>, ds: seq<seq<Byte>>)
    requires Flatten(cs) == Flatten(ds)
    ensures FeedChunks(m, s, cs) == FeedChunks(m, s, ds)
  {
    ChunkBoundaryInvariance(m, s, cs);
    ChunkBoundaryInvariance(m, s, ds);
  }

  /** An empty read changes nothing, wherever it comes in the run of chunks. */
  lemma {:induction false} EmptyChunkInert(m: Model, s: State, cs: seq<seq<Byte>>, i: nat)
    requires i <= |cs|
    ensures Feed(m, s, []) == s
    ensures FeedChunks(m, s, cs[..i] + [[]] + cs[i..]) == FeedChunks(m, s, cs)
    decreases i
  {
    var with := cs[..i] + [[]] + cs[i..];
    if i == 0 {
      assert with == [[]] + cs;
      assert with[1..] == cs;
    } else {
      assert with[0] == cs[0];
      assert with[1..] == cs[1..][..i - 1] + [[]] + cs[1..][i - 1..];
      EmptyChunkInert(m, Feed(m, s, cs[0]), cs[1..], i - 1);
    }
  }

  /** The accumulator is zero whenever no frame is open, after any run of bytes. */
  lemma {:induction false} FeedKeepsConsistent(m: Model, s: State, bs: seq<Byte>)
    requires Consistent(s)
    ensures Consistent(Feed(m, s, bs))
    decreases |bs|
  {
    if bs != [] {
      FeedKeepsConsistent(m, Step(m, s, bs[0]), bs[1..]);
    }
  }

  /** The sample count never goes down, and the published range changes only when a sample is
      recorded: until the first frame completes, the range stays what it was (initially -1). */
  lemma {:induction false} RangeChangesOnlyWithSample(m: Model, s: State, bs: seq<Byte>)
    ensures Feed(m, s, bs).samples >= s.samples
    ensures Feed(m, s, bs).samples == s.samples ==> Feed(m, s, bs).range == s.range
    decreases |bs|
  {
    if bs != [] {
      RangeChangesOnlyWithSample(m, Step(m, s, bs[0]), bs[1..]);
    }
  }

  /** Every byte is an ASCII decimal digit. */
  predicate IsDigits(ds: seq<Byte>)
  {
    forall i :: 0 <= i < |ds| ==> ZERO <= ds[i] <= ZERO + 9
  }

  /** The number a string of decimal digits denotes (most significant first). */
  function DigitsValue(ds: seq<Byte>): nat
    requires IsDigits(ds)
    decreases |ds|
  {
    if ds == [] then 0 else 10 * DigitsValue(ds[..|ds| - 1]) + (ds[|ds| - 1] - ZERO)
  }

  /** The shortest decimal digits of v. */
  function DecimalDigits(v: nat): (ds: seq<Byte>)
    ensures IsDigits(ds) && DigitsValue(ds) == v
    ensures |ds| >= 1 && (ds[0] == ZERO ==> v == 0)
    decreases v
  {
    if v < 10 then [ZERO + v]
    else
      var prefix := DecimalDigits(v / 10);
      var ds := prefix + [ZERO + v % 10];
      assert ds[..|ds| - 1] == prefix;
      ds
  }

  /** Inside a frame that starts from zero, digits accumulate to their decimal value, as long as
      that value fits in a Java int. */
  lemma {:induction false} AccumulateDigits(m: Model, s: State, ds: seq<Byte>)
    requires s.started && s.value == 0
    requires IsDigits(ds) && DigitsValue(ds) < 0x8000_0000
    ensures Feed(m, s, ds) == s.(value := DigitsValue(ds))
    decreases |ds|
  {
    if ds != [] {
      var init, d := ds[..|ds| - 1], ds[|ds| - 1];
      assert ds == init + [d];
      assert IsDigits(init);
      AccumulateDigits(m, s, init);
      FeedAppend(m, s, init, [d]);
    }
  }

  /** Decoding: from outside a frame, 'R', decimal digits and '\r' publish the digits' value
      divided by the serial factor, record exactly one sample, and leave the parser idle. */
  lemma DecodeFrame(m: Model, s: State, ds: seq<Byte>)
    requires Consistent(s) && !s.started
    requires IsDigits(ds) && DigitsValue(ds) < 0x8000_0000
    ensures Feed(m, s, [START] + ds + [CR]) == Idle(SerialInches(m, DigitsValue(ds)), s.samples + 1)
    ensures Feed(m, s, [START] + ds + [CR]).range * SerialFactor(m) == DigitsValue(ds) as real
  {
    var inFrame := Step(m, s, START);
    assert Feed(m, s, [START]) == inFrame;
    FeedAppend(m, s, [START], ds);
    AccumulateDigits(m, inFrame, ds);
    FeedAppend(m, s, [START] + ds, [CR]);
  }

  /** The same for a number v written in its decimal digits: the published range is v / factor. */
  lemma DecodeValue(m: Model, s: State, v: nat)
    requires Consistent(s) && !s.started
    requires v < 0x8000_0000
    ensures Feed(m, s, [START] + DecimalDigits(v) + [CR]) == Idle(SerialInches(m, v), s.samples + 1)
  {
    DecodeFrame(m, s, DecimalDigits(v));
  }

  /** Appending a digit multiplies the value by ten and adds the digit. */
  lemma DigitsSnoc(ds: seq<Byte>, d: Byte)
    requires IsDigits(ds) && ZERO <= d <= ZERO + 9
    ensures IsDigits(ds + [d]) && DigitsValue(ds + [d]) == 10 * DigitsValue(ds) + (d - ZERO)
  {
    assert (ds + [d])[..|ds|] == ds;
  }

  /** Feeding one byte, then the rest. */
  lemma FeedCons(m: Model, s: State, c: Byte, bs: seq<Byte>)
    ensures Feed(m, s, [c] + bs) == Feed(m, Step(m, s, c), bs)
  {
    assert ([c] + bs)[1..] == bs;
  }

  /** As written, a byte inside a frame that is not a digit is folded in arithmetically:
      "RX\r" publishes ('X' - '0') = 40, and a second 'R' does not restart the frame:
      "RR\r" publishes ('R' - '0') = 34. */
  lemma NoDigitCheck(m: Model, s: State)
    requires Consistent(s) && !s.started
    ensures Feed(m, s, [START, 88, CR]) == Idle(SerialInches(m, 40), s.samples + 1)
    ensures Feed(m, s, [START, START, CR]) == Idle(SerialInches(m, 34), s.samples + 1)
  {
    var inFrame := Step(m, s, START);
    FeedCons(m, inFrame.(value := 40), CR, []);
    FeedCons(m, inFrame, 88, [CR]);
    FeedCons(m, s, START, [88, CR]);
    assert [START] + ([88] + [CR]) == [START, 88, CR];
    FeedCons(m, inFrame.(value := 34), CR, []);
    FeedCons(m, inFrame, START, [CR]);
    FeedCons(m, s, START, [START, CR]);
    assert [START] + ([START] + [CR]) == [START, START, CR];
  }

  /** A malformed frame "RXY12\r" is published (as 44112) rather than dropped, yet the parser is
      idle again afterwards, so the following "R0100\r" still publishes 100. */
  lemma MalformedThenValid(m: Model, s: State)
    requires Consistent(s) && !s.started
    ensures var bad := [START, 88, 89, 49, 50, CR];
            var good := [START, 48, 49, 48, 48, CR];
            Feed(m, s, bad) == Idle(SerialInches(m, 44112), s.samples + 1)
            && Feed(m, s, bad + good) == Idle(SerialInches(m, 100), s.samples + 2)
  {
    var inFrame := Step(m, s, START);
    FeedCons(m, inFrame.(value := 44112), CR, []);
    FeedCons(m, inFrame.(value := 4411), 50, [CR]);
    FeedCons(m, inFrame.(value := 441), 49, [50, CR]);
    FeedCons(m, inFrame.(value := 40), 89, [49, 50, CR]);
    FeedCons(m, inFrame, 88, [89, 49, 50, CR]);
    FeedCons(m, s, START, [88, 89, 49, 50, CR]);
    var bad: seq<Byte> := [START, 88, 89, 49, 50, CR];
    assert bad == [START] + [88, 89, 49, 50, CR];
    var after := Feed(m, s, bad);
    assert after == Idle(SerialInches(m, 44112), s.samples + 1);

    var d1: seq<Byte> := [48];
    assert d1[..0] == [];
    DigitsSnoc(d1, 49);
    DigitsSnoc(d1 + [49], 48);
    DigitsSnoc(d1 + [49] + [48], 48);
    var digits := d1 + [49] + [48] + [48];
    assert IsDigits(digits) && DigitsValue(digits) == 100;
    DecodeFrame(m, after, digits);
    var good := [START] + digits + [CR];
    assert good == [START, 48, 49, 48, 48, CR];
    FeedAppend(m, s, bad, good);
  }
}
