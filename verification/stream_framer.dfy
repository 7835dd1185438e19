/**
 * The incremental framer: `impl Write for NalUnitParser`, a byte-at-a-time
 * state machine over `zero_byte_count`, `byte_buf` and `nal_units`.
 *
 * Every byte is appended to the byte buffer. A 0x00 byte increments the zero
 * counter; a 0x01 byte with the counter at 2 or more is taken for a start
 * code; any other byte, and a 0x01 with the counter below 2, resets the
 * counter. The counter is not reset after a start code. At a start code the
 * first three bytes of the buffer (not the unit that ends there) are handed
 * to `NalUnitParser::parse`, its unit if any is appended, and the buffer is
 * cleared. When the buffer holds fewer than three bytes at that point the
 * slice `byte_buf[..3]` panics; the model returns that as `Err`.
 *
 * `Step` and `Feed` are the specification; the class `NalUnitParser` holds
 * the three fields and its `Write` loop is proved to follow `Feed`.
 */
module StreamFramer {
  import opened Wrappers
  import opened NalTypes
  import opened BufferFramer

  /** The three fields of `NalUnitParser`. */
  datatype WriterState = WriterState(zeroByteCount: nat, byteBuf: seq<bv8>, nalUnits: seq<NalUnit>)

  /**
   * The panic of `byte_buf[..3]`: the buffer had only `len` bytes; `state`
   * holds the fields as they were when it happened.
   */
  datatype Panic = ShortBuffer(len: nat, state: WriterState)

  /** A fresh parser: no zeros counted, empty buffer, no units. */
  const Initial := WriterState(0, [], [])

  /** True when a 0x01 byte would be taken for a start code in state `s`. */
  predicate Detects(s: WriterState, b: bv8)
  {
    b == 1 && s.zeroByteCount >= 2
  }

  /** One iteration of the loop of `write`. */
  function Step(s: WriterState, b: bv8): (r: Result<WriterState, Panic>)
    ensures r.Err? <==> Detects(s, b) && |s.byteBuf| < 2
    ensures r.Err? ==> r.error.len == |s.byteBuf| + 1 && r.error.state.byteBuf == s.byteBuf + [b]
    ensures r.Ok? && !Detects(s, b) ==>
      r.value.byteBuf == s.byteBuf + [b] && r.value.nalUnits == s.nalUnits
    ensures r.Ok? && Detects(s, b) ==>
      && r.value.byteBuf == []
      && r.value.zeroByteCount == s.zeroByteCount
      && r.value.nalUnits == s.nalUnits + Found(ParseUnit((s.byteBuf + [b])[..3]))
    ensures r.Ok? ==> r.value.zeroByteCount == (if b == 0 then s.zeroByteCount + 1 else if Detects(s, b) then s.zeroByteCount else 0)
  {
    var byteBuf := s.byteBuf + [b];
    var zeroByteCount :=
      if b == 0 then s.zeroByteCount + 1
      else if b != 1 || s.zeroByteCount < 2 then 0
      else s.zeroByteCount;
    if b == 1 && zeroByteCount >= 2 then
      if |byteBuf| < 3 then Err(ShortBuffer(|byteBuf|, WriterState(zeroByteCount, byteBuf, s.nalUnits)))
      else
        Ok(WriterState(zeroByteCount, [], s.nalUnits + Found(ParseUnit(byteBuf[..3]))))
    else
      Ok(WriterState(zeroByteCount, byteBuf, s.nalUnits))
  }

  /** The unit `parse` returned, as zero or one units to append. */
  function Found(r: Option<NalUnit>): (us: seq<NalUnit>)
    ensures |us| <= 1
    ensures us == [] <==> r.None?
    ensures us != [] ==> us[0] == r.value
  {
    if r.Some? then [r.value] else []
  }

  /** `write` over a whole buffer: the bytes one at a time, stopping at a panic. */
  function Feed(s: WriterState, bs: seq<bv8>): (r: Result<WriterState, Panic>)
    ensures r.Ok? ==> s.nalUnits <= r.value.nalUnits
    ensures r.Err? ==> 1 <= r.error.len <= 2
    decreases |bs|
  {
    if bs == [] then Ok(s)
    else
      match Feed(s, bs[..|bs| - 1])
      case Err(e) => Err(e)
      case Ok(t) => Step(t, bs[|bs| - 1])
  }

  // ---------------------------------------------------------------------------
  // The parser object

  /** `NalUnitParser` with its three fields. */
  class NalUnitParser {
    var zeroByteCount: nat
    var byteBuf: seq<bv8>
    var nalUnits: seq<NalUnit>

    function State(): WriterState
      reads this
    {
      WriterState(zeroByteCount, byteBuf, nalUnits)
    }

    /**
     * The source declares no constructor (nor `Default`); this is the
     * initial state its users would have to build by hand.
     */
    constructor ()
      ensures State() == Initial
    {
      zeroByteCount := 0;
      byteBuf := [];
      nalUnits := [];
    }

    /**
     * `Write::write`: consumes every byte and returns the length, or panics
     * in `byte_buf[..3]`, leaving the fields as they were at that point.
     */
    method Write(buf: seq<bv8>) returns (r: Result<nat, Panic>)
      modifies this
      ensures Feed(old(State()), buf).Ok? ==> r == Ok(|buf|) && State() == Feed(old(State()), buf).value
      ensures Feed(old(State()), buf).Err? ==>
        r == Err(Feed(old(State()), buf).error) && State() == Feed(old(State()), buf).error.state
    {
      for i := 0 to |buf|
        invariant Feed(old(State()), buf[..i]) == Ok(State())
      {
        assert buf[..i + 1][..i] == buf[..i];
        ghost var before := State();
        var byte := buf[i];
        byteBuf := byteBuf + [byte];
        if byte == 0x00 {
          zeroByteCount := zeroByteCount + 1;
        } else if byte != 0x01 || zeroByteCount < 2 {
          zeroByteCount := 0;
        }
        if byte == 0x01 && zeroByteCount >= 2 {
          if |byteBuf| < 3 {
            FeedStops(old(State()), buf, i + 1);
            return Err(ShortBuffer(|byteBuf|, State()));
          }
          var nalBytes := byteBuf[..3];
          var unit := ParseUnit(nalBytes);
          if unit.Some? {
            nalUnits := nalUnits + [unit.value];
          }
          byteBuf := [];
        }
        assert State().nalUnits == Step(before, byte).value.nalUnits;
        assert State().byteBuf == Step(before, byte).value.byteBuf;
        assert State().zeroByteCount == Step(before, byte).value.zeroByteCount;
        assert Step(before, byte) == Ok(State());
      }
      assert buf[..|buf|] == buf;
      return Ok(|buf|);
    }

    /** `Write::flush`: nothing is buffered for output, so it succeeds and changes nothing. */
    method Flush() returns (r: Result<(), Panic>)
      ensures r == Ok(())
    {
      return Ok(());
    }
  }

  /** A panic ends the feed: what comes after it is never looked at. */
  lemma {:induction false} FeedStops(s: WriterState, bs: seq<bv8>, n: nat)
    requires 0 < n <= |bs| && Feed(s, bs[..n]).Err?
    ensures Feed(s, bs) == Feed(s, bs[..n])
    decreases |bs| - n
  {
    if n < |bs| {
      assert bs[..n + 1][..n] == bs[..n];
      FeedStops(s, bs, n + 1);
    } else {
      assert bs[..n] == bs;
    }
  }

  // ---------------------------------------------------------------------------
  // Properties of the state machine

  /** Writing in two calls is writing once: the split of the input does not matter. */
  lemma {:induction false} FeedConcat(s: WriterState, a: seq<bv8>, b: seq<bv8>)
    ensures Feed(s, a + b) == (match Feed(s, a) case Err(e) => Err(e) case Ok(t) => Feed(t, b))
    decreases |b|
  {
    if b == [] {
      assert a + b == a;
    } else {
      assert (a + b)[..|a + b| - 1] == a + b[..|b| - 1];
      FeedConcat(s, a, b[..|b| - 1]);
    }
  }

  /** The number of 0x01 bytes in `bs`. */
  function Ones(bs: seq<bv8>): (n: nat)
    ensures n <= |bs|
  {
    if bs == [] then 0 else Ones(bs[..|bs| - 1]) + (if bs[|bs| - 1] == 1 then 1 else 0)
  }

  /**
   * The unit list only grows, keeps what it had, and gains at most one unit
   * per 0x01 byte written.
   */
  lemma {:induction false} FeedUnits(s: WriterState, bs: seq<bv8>)
    requires Feed(s, bs).Ok?
    ensures |s.nalUnits| <= |Feed(s, bs).value.nalUnits| <= |s.nalUnits| + Ones(bs)
    ensures Feed(s, bs).value.nalUnits[..|s.nalUnits|] == s.nalUnits
    decreases |bs|
  {
    if bs != [] {
      var t := Feed(s, bs[..|bs| - 1]).value;
      FeedUnits(s, bs[..|bs| - 1]);
      var u := Feed(s, bs).value.nalUnits;
      assert u[..|t.nalUnits|] == t.nalUnits;
      assert u[..|s.nalUnits|] == t.nalUnits[..|s.nalUnits|];
    }
  }

  /**
   * Every unit `write` emits has a two-byte payload: it is parsed from the
   * first three bytes of the buffer, whatever the unit's real length.
   */
  lemma {:induction false} FeedPayloads(s: WriterState, bs: seq<bv8>)
    requires Feed(s, bs).Ok?
    ensures forall k :: |s.nalUnits| <= k < |Feed(s, bs).value.nalUnits| ==>
      |Feed(s, bs).value.nalUnits[k].payload| == 2
    decreases |bs|
  {
    if bs != [] {
      var t := Feed(s, bs[..|bs| - 1]).value;
      FeedPayloads(s, bs[..|bs| - 1]);
      FeedUnits(s, bs[..|bs| - 1]);
      var u := Feed(s, bs).value.nalUnits;
      assert u[..|t.nalUnits|] == t.nalUnits;
      forall k | |s.nalUnits| <= k < |u|
        ensures |u[k].payload| == 2
      {
        if k < |t.nalUnits| {
          assert u[k] == t.nalUnits[k];
        }
      }
    }
  }

  // ---------------------------------------------------------------------------
  // Which 0x01 bytes are taken for start codes

  /** Every byte of `bs` is 0x00. */
  predicate AllZero(bs: seq<bv8>)
  {
    forall k :: 0 <= k < |bs| ==> bs[k] == 0
  }

  /**
   * The counter against the buffer: either it is the zero run at the end of
   * the buffer, or the buffer holds only zeros written since a start code
   * and the counter still carries that start code's count of at least two.
   */
  predicate Consistent(s: WriterState)
  {
    || s.zeroByteCount == ZeroRunBefore(s.byteBuf, |s.byteBuf|)
    || (AllZero(s.byteBuf) && s.zeroByteCount >= |s.byteBuf| + 2)
  }

  /** Every step that does not panic keeps a consistent state consistent. */
  lemma StepConsistent(s: WriterState, b: bv8)
    requires Consistent(s) && Step(s, b).Ok?
    ensures Consistent(Step(s, b).value)
  {
    var bs := s.byteBuf + [b];
    if b == 0 {
      assert bs[..|s.byteBuf|] == s.byteBuf;
      if !AllZero(bs) {
        ZeroRunExtends(s.byteBuf);
      }
    } else if !Detects(s, b) {
      assert ZeroRunBefore(bs, |bs|) == 0;
    }
  }

  /** One more zero byte lengthens the final zero run by one. */
  lemma ZeroRunExtends(bs: seq<bv8>)
    ensures ZeroRunBefore(bs + [0], |bs| + 1) == ZeroRunBefore(bs, |bs|) + 1
  {
    var cs := bs + [0];
    ZeroRunPrefix(cs, |bs|);
    assert cs[..|bs|] == bs;
  }

  /** The zero run before position `i` only looks at the bytes before `i`. */
  lemma {:induction false} ZeroRunPrefix(bs: seq<bv8>, i: nat)
    requires i <= |bs|
    ensures ZeroRunBefore(bs, i) == ZeroRunBefore(bs[..i], i)
    decreases i
  {
    if i > 0 && bs[i - 1] == 0 {
      ZeroRunPrefix(bs, i - 1);
      assert bs[..i][..i - 1] == bs[..i - 1];
      ZeroRunPrefix(bs[..i], i - 1);
    }
  }

  /**
   * In a consistent state a 0x01 byte is taken for a start code exactly when
   * it ends a start code of the buffer (two or more zeros before it), or
   * when it follows a start code with fewer than two zeros between them; in
   * that second case the buffer is too short and `write` panics.
   */
  lemma StartCodeDetection(s: WriterState, b: bv8)
    requires Consistent(s)
    ensures Step(s, b).Ok? && Detects(s, b) <==> IsStartCode(s.byteBuf + [b], |s.byteBuf|)
    ensures Step(s, b).Err? <==> Detects(s, b) && !IsStartCode(s.byteBuf + [b], |s.byteBuf|)
  {
    var bs := s.byteBuf + [b];
    assert bs[..|s.byteBuf|] == s.byteBuf;
    ZeroRunPrefix(bs, |s.byteBuf|);
    if AllZero(s.byteBuf) && s.zeroByteCount != ZeroRunBefore(s.byteBuf, |s.byteBuf|) {
      AllZeroRun(s.byteBuf, |s.byteBuf|);
    }
  }

  /** In a buffer of zeros, the run before `i` is all of the first `i` bytes. */
  lemma {:induction false} AllZeroRun(bs: seq<bv8>, i: nat)
    requires AllZero(bs) && i <= |bs|
    ensures ZeroRunBefore(bs, i) == i
    decreases i
  {
    if i > 0 {
      AllZeroRun(bs, i - 1);
    }
  }

  /** Consistency over a whole write, from a fresh parser or any consistent state. */
  lemma {:induction false} FeedConsistent(s: WriterState, bs: seq<bv8>)
    requires Consistent(s) && Feed(s, bs).Ok?
    ensures Consistent(Feed(s, bs).value)
    decreases |bs|
  {
    if bs != [] {
      FeedConsistent(s, bs[..|bs| - 1]);
      StepConsistent(Feed(s, bs[..|bs| - 1]).value, bs[|bs| - 1]);
    }
  }

  /** A fresh parser is consistent. */
  lemma InitialConsistent()
    ensures Consistent(Initial)
  {
  }

  // ---------------------------------------------------------------------------
  // Examples

  /** `Feed` on one more byte. */
  lemma FeedSnoc(s: WriterState, bs: seq<bv8>, b: bv8)
    ensures Feed(s, bs + [b]) == (match Feed(s, bs) case Err(e) => Err(e) case Ok(t) => Step(t, b))
  {
    assert (bs + [b])[..|bs|] == bs;
  }

  /**
   * The first start code of a stream emits a unit parsed from `00 00 01`
   * itself: type 0 with the payload `00 01`.
   */
  lemma FirstStartCode(bs: seq<bv8>)
    requires bs == [0x00, 0x00, 0x01]
    ensures Feed(Initial, bs) == Ok(WriterState(2, [], [NalUnit.Other(0, [0x00, 0x01])]))
  {
    var one, two := bs[..1], bs[..2];
    assert one == [] + [0x00] && two == one + [0x00] && bs == two + [0x01];
    FeedSnoc(Initial, [], 0x00);
    assert Feed(Initial, one) == Ok(WriterState(1, one, []));
    FeedSnoc(Initial, one, 0x00);
    assert Feed(Initial, two) == Ok(WriterState(2, two, []));
    FeedSnoc(Initial, two, 0x01);
    assert bs[..3] == bs && bs[1..] == [0x00, 0x01];
    assert ParseUnit(bs) == Some(NalUnit.Other(0, [0x00, 0x01]));
    assert Step(WriterState(2, two, []), 0x01) == Ok(WriterState(2, [], [] + Found(ParseUnit(bs))));
    assert [] + [NalUnit.Other(0, [0x00, 0x01])] == [NalUnit.Other(0, [0x00, 0x01])];
  }

  /** A 0x01 right after a start code is taken for another one, and `byte_buf[..3]` panics. */
  lemma PanicAfterStartCode(bs: seq<bv8>)
    requires bs == [0x00, 0x00, 0x01, 0x01]
    ensures Feed(Initial, bs).Err? && Feed(Initial, bs).error.len == 1
  {
    FirstStartCode(bs[..3]);
    FeedSnoc(Initial, bs[..3], 0x01);
    assert bs[..3] + [0x01] == bs;
  }
}
