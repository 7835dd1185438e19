/**
 * The free function `parse`: frames a whole Annex-B byte buffer (ITU-T H.264
 * Annex B, sections B.1-B.2) into classified NAL units.
 *
 * A start code is a 0x01 byte preceded by at least two 0x00 bytes (a longer
 * zero run is allowed). For each pair of consecutive start codes the unit
 * between them is emitted: its header is the byte right after the first
 * start code, its payload runs up to, and excludes, the whole zero run
 * before the second. The unit after the last start code is never emitted.
 *
 * `ParseSpec` defines the outcome from the positions of the start codes;
 * `Parse` is the source's single loop, proved to compute it.
 */
module BufferFramer {
  import opened Wrappers
  import opened NalTypes

  /**
   * The slice `buf[from..to]` with `from > to`, which panics in the source:
   * it happens when the byte after a start code already begins the zero run
   * of the next start code (`00 00 01 00 00 01`).
   */
  datatype SliceError = SliceOrder(from: nat, to: nat)

  // ---------------------------------------------------------------------------
  // Start codes

  /** The length of the run of 0x00 bytes that ends just before position `i`. */
  function ZeroRunBefore(buf: seq<bv8>, i: nat): (n: nat)
    requires i <= |buf|
    ensures n <= i
    ensures forall k :: i - n <= k < i ==> buf[k] == 0
    ensures n < i ==> buf[i - n - 1] != 0
  {
    if i == 0 || buf[i - 1] != 0 then 0 else 1 + ZeroRunBefore(buf, i - 1)
  }

  /** A non-zero byte bounds every later zero run. */
  lemma ZeroRunStopsAt(buf: seq<bv8>, p: nat, q: nat)
    requires p < q <= |buf| && buf[p] != 0
    ensures ZeroRunBefore(buf, q) <= q - p - 1
  {
  }

  /** A 0x01 byte at position `i` preceded by at least two 0x00 bytes. */
  predicate IsStartCode(buf: seq<bv8>, i: nat)
    requires i < |buf|
  {
    buf[i] == 1 && ZeroRunBefore(buf, i) >= 2
  }

  /**
   * Start codes of `buf`, strictly ascending (stated on the last one and,
   * recursively, on the rest).
   */
  predicate ValidCodes(buf: seq<bv8>, cs: seq<nat>)
    decreases |cs|
  {
    cs == [] ||
    (&& ValidCodes(buf, cs[..|cs| - 1])
     && cs[|cs| - 1] < |buf|
     && IsStartCode(buf, cs[|cs| - 1])
     && (|cs| >= 2 ==> cs[|cs| - 2] < cs[|cs| - 1]))
  }

  /** The positions of the start codes among the first `n` bytes, ascending. */
  function StartCodes(buf: seq<bv8>, n: nat): (cs: seq<nat>)
    requires n <= |buf|
    ensures ValidCodes(buf, cs)
    ensures cs != [] ==> cs[|cs| - 1] < n
  {
    if n == 0 then []
    else
      var cs := StartCodes(buf, n - 1);
      if IsStartCode(buf, n - 1) then
        assert (cs + [n - 1])[..|cs|] == cs;
        cs + [n - 1]
      else cs
  }

  /** `StartCodes` lists every start code among the first `n` bytes, and nothing else. */
  lemma {:induction false} StartCodesComplete(buf: seq<bv8>, n: nat, i: nat)
    requires n <= |buf|
    ensures i in StartCodes(buf, n) <==> i < n && IsStartCode(buf, i)
  {
    if n > 0 {
      StartCodesComplete(buf, n - 1, i);
      var cs := StartCodes(buf, n - 1);
      if IsStartCode(buf, n - 1) {
        assert StartCodes(buf, n) == cs + [n - 1];
        assert i in cs + [n - 1] <==> i in cs || i == n - 1;
      } else {
        assert StartCodes(buf, n) == cs;
      }
    }
  }

  /** Every listed position is a start code, and they ascend. */
  lemma {:induction false} ValidCodesAt(buf: seq<bv8>, cs: seq<nat>, k: nat)
    requires ValidCodes(buf, cs) && k < |cs|
    ensures cs[k] < |buf| && IsStartCode(buf, cs[k])
    ensures k + 1 < |cs| ==> cs[k] < cs[k + 1]
    decreases |cs|
  {
    if k + 1 < |cs| {
      ValidCodesAt(buf, cs[..|cs| - 1], k);
      if k + 2 < |cs| {
        ValidCodesAt(buf, cs[..|cs| - 1], k + 1);
      }
    }
  }

  /** The header position of the unit between start codes `k` and `k + 1`. */
  function SegStart(buf: seq<bv8>, cs: seq<nat>, k: nat): (h: nat)
    requires ValidCodes(buf, cs) && k + 1 < |cs|
    ensures h < |buf|
  {
    ValidCodesAt(buf, cs, k);
    ValidCodesAt(buf, cs, k + 1);
    cs[k] + 1
  }

  /**
   * The end (exclusive) of the unit between start codes `k` and `k + 1`: the
   * start of the zero run before start code `k + 1`.
   */
  function SegEnd(buf: seq<bv8>, cs: seq<nat>, k: nat): (e: nat)
    requires ValidCodes(buf, cs) && k + 1 < |cs|
    ensures SegStart(buf, cs, k) <= e && e + 2 <= cs[k + 1] < |buf|
  {
    ValidCodesAt(buf, cs, k);
    ValidCodesAt(buf, cs, k + 1);
    ZeroRunStopsAt(buf, cs[k], cs[k + 1]);
    cs[k + 1] - ZeroRunBefore(buf, cs[k + 1])
  }

  // ---------------------------------------------------------------------------
  // The reference outcome

  /**
   * The state reached after the start codes `cs`: still `Open` (emitting),
   * `Blocked` by a header with forbidden_zero_bit set (its start is never
   * replaced, so nothing more is emitted), or `Failed` on an empty unit
   * (one whose header byte belongs to the next start code's zero run).
   */
  datatype Progress = Open(units: seq<NalUnit>) | Blocked(units: seq<NalUnit>) | Failed(err: SliceError)

  /**
   * One more start code, given the pending header position `h` and the end
   * `e` of the unit before the new start code's zero run: a rejected header
   * blocks, an empty unit fails, any other unit is emitted.
   */
  function Advance(buf: seq<bv8>, prev: Progress, h: nat, e: nat): (p: Progress)
    requires h < |buf| && e <= |buf|
  {
    if !prev.Open? then prev
    else if buf[h] >= 0x80 then Blocked(prev.units)
    else if h + 1 > e then Failed(SliceOrder(h + 1, e))
    else Open(prev.units + [Classify(NalUnitTypeCode(buf[h]), buf[h + 1..e])])
  }

  /** The outcome after the start codes `cs`, one pair of consecutive codes at a time. */
  function Frames(buf: seq<bv8>, cs: seq<nat>): (p: Progress)
    requires ValidCodes(buf, cs)
    decreases |cs|
  {
    if |cs| < 2 then Open([])
    else
      var q := cs[|cs| - 1];
      Advance(buf, Frames(buf, cs[..|cs| - 1]), cs[|cs| - 2] + 1, q - ZeroRunBefore(buf, q))
  }

  /** What the free `parse` returns for `buf`, or the slice panic it hits. */
  function ParseSpec(buf: seq<bv8>): Result<seq<NalUnit>, SliceError>
  {
    match Frames(buf, StartCodes(buf, |buf|))
    case Open(us) => Ok(us)
    case Blocked(us) => Ok(us)
    case Failed(e) => Err(e)
  }

  /** At the byte level a start code is the three bytes `00 00 01` ending at `i`. */
  lemma StartCodeBytes(buf: seq<bv8>, i: nat)
    requires i < |buf|
    ensures IsStartCode(buf, i) <==> i >= 2 && buf[i - 2] == 0 && buf[i - 1] == 0 && buf[i] == 1
  {
    if i >= 2 && buf[i - 1] == 0 {
      assert ZeroRunBefore(buf, i) == 1 + ZeroRunBefore(buf, i - 1);
    }
  }

  /**
   * One framing step: a stopped walk stays as it is; an open walk stays open
   * exactly when the header has its top bit clear and the segment is not
   * inverted, and then gains one unit carrying the segment as its payload;
   * a set top bit stops the walk keeping the units so far; an inverted
   * segment is the slicing error for that range.
   */
  lemma AdvanceOutcome(buf: seq<bv8>, prev: Progress, h: nat, e: nat)
    requires h < |buf| && e <= |buf|
    ensures var p := Advance(buf, prev, h, e);
      && (!prev.Open? ==> p == prev)
      && (prev.Open? ==> (p.Open? <==> buf[h] < 0x80 && h + 1 <= e))
      && (p.Open? ==>
            && |p.units| == |prev.units| + 1
            && p.units[..|prev.units|] == prev.units
            && p.units[|prev.units|].payload == buf[h + 1..e])
      && (p.Blocked? ==> !prev.Failed? && p.units == prev.units)
      && (p.Failed? && prev.Open? ==> buf[h] < 0x80 && h + 1 > e && p.err == SliceOrder(h + 1, e))
  {
  }

  /** A walk over `k >= 2` start codes yields at most `k - 1` units. */
  lemma {:induction false} FramesBound(buf: seq<bv8>, cs: seq<nat>)
    requires ValidCodes(buf, cs)
    ensures !Frames(buf, cs).Failed? ==>
      |Frames(buf, cs).units| <= (if |cs| < 2 then 0 else |cs| - 1)
    decreases |cs|
  {
    if |cs| >= 2 {
      FramesBound(buf, cs[..|cs| - 1]);
    }
  }

  /** Parsing a buffer yields at most one unit fewer than it has start codes. */
  lemma ParseSpecBound(buf: seq<bv8>)
    ensures var n := |StartCodes(buf, |buf|)|;
      ParseSpec(buf).Ok? ==> |ParseSpec(buf).value| <= (if n < 2 then 0 else n - 1)
  {
    FramesBound(buf, StartCodes(buf, |buf|));
  }

  // ---------------------------------------------------------------------------
  // What the outcome means

  /**
   * The unit between start codes `k` and `k + 1` is emitted: its header is
   * valid and lies before the next start code's zero run (the payload may be
   * empty).
   */
  predicate SegOk(buf: seq<bv8>, cs: seq<nat>, k: nat)
    requires ValidCodes(buf, cs) && k + 1 < |cs|
  {
    buf[SegStart(buf, cs, k)] < 0x80 && SegStart(buf, cs, k) + 1 <= SegEnd(buf, cs, k)
  }

  /** The unit between start codes `k` and `k + 1`. */
  function SegUnit(buf: seq<bv8>, cs: seq<nat>, k: nat): (u: NalUnit)
    requires ValidCodes(buf, cs) && k + 1 < |cs| && SegOk(buf, cs, k)
    ensures u.payload == buf[SegStart(buf, cs, k) + 1..SegEnd(buf, cs, k)]
  {
    Classify(NalUnitTypeCode(buf[SegStart(buf, cs, k)]), buf[SegStart(buf, cs, k) + 1..SegEnd(buf, cs, k)])
  }

  /** Dropping the last start code leaves the earlier units as they are. */
  lemma SegPrefix(buf: seq<bv8>, cs: seq<nat>, k: nat)
    requires ValidCodes(buf, cs) && |cs| >= 2 && k + 2 < |cs|
    ensures ValidCodes(buf, cs[..|cs| - 1])
    ensures SegStart(buf, cs[..|cs| - 1], k) == SegStart(buf, cs, k)
    ensures SegEnd(buf, cs[..|cs| - 1], k) == SegEnd(buf, cs, k)
    ensures SegOk(buf, cs[..|cs| - 1], k) == SegOk(buf, cs, k)
  {
    assert cs[..|cs| - 1][k] == cs[k] && cs[..|cs| - 1][k + 1] == cs[k + 1];
  }

  /** `Frames` unfolded once, in terms of the last unit. */
  lemma FramesLast(buf: seq<bv8>, cs: seq<nat>)
    requires ValidCodes(buf, cs) && |cs| >= 2
    ensures ValidCodes(buf, cs[..|cs| - 1])
    ensures Frames(buf, cs) == Advance(buf, Frames(buf, cs[..|cs| - 1]), SegStart(buf, cs, |cs| - 2), SegEnd(buf, cs, |cs| - 2))
  {
    FramesUnfold(buf, cs);
  }

  /** `us` are, in order, the units between the first `|us| + 1` start codes, all emitted. */
  predicate Emitted(buf: seq<bv8>, cs: seq<nat>, us: seq<NalUnit>)
    requires ValidCodes(buf, cs)
  {
    |us| < |cs| &&
    forall k :: 0 <= k < |us| ==> SegOk(buf, cs, k) && us[k] == SegUnit(buf, cs, k)
  }

  /** Emitted units stay emitted when a start code is added. */
  lemma EmittedExtend(buf: seq<bv8>, cs: seq<nat>, us: seq<NalUnit>)
    requires ValidCodes(buf, cs) && |cs| >= 2
    requires ValidCodes(buf, cs[..|cs| - 1]) && Emitted(buf, cs[..|cs| - 1], us)
    ensures Emitted(buf, cs, us)
  {
    forall k | 0 <= k < |us|
      ensures SegOk(buf, cs, k) && us[k] == SegUnit(buf, cs, k)
    {
      SegPrefix(buf, cs, k);
    }
  }

  /** The unit ending at the last start code, once emitted, follows the others. */
  lemma EmittedAppend(buf: seq<bv8>, cs: seq<nat>, us: seq<NalUnit>)
    requires ValidCodes(buf, cs) && |cs| >= 2 && Emitted(buf, cs, us)
    requires |us| == |cs| - 2 && SegOk(buf, cs, |cs| - 2)
    ensures Emitted(buf, cs, us + [SegUnit(buf, cs, |cs| - 2)])
  {
  }

  /** Every emitted unit is, in order, the unit between two consecutive start codes. */
  lemma {:induction false} FramesEmitted(buf: seq<bv8>, cs: seq<nat>)
    requires ValidCodes(buf, cs)
    ensures !Frames(buf, cs).Failed? ==> Frames(buf, cs).units == [] || Emitted(buf, cs, Frames(buf, cs).units)
    decreases |cs|
  {
    if |cs| >= 2 {
      var pre := cs[..|cs| - 1];
      FramesLast(buf, cs);
      FramesEmitted(buf, pre);
      var prev := Frames(buf, pre);
      if !prev.Failed? {
        if prev.units == [] {
          assert Emitted(buf, pre, []);
        }
        EmittedExtend(buf, cs, prev.units);
        if prev.Open? {
          FramesOpen(buf, pre);
          if SegOk(buf, cs, |cs| - 2) {
            EmittedAppend(buf, cs, prev.units);
          }
        }
      }
    }
  }

  /** An open outcome emits one unit per pair of consecutive start codes. */
  lemma {:induction false} FramesOpen(buf: seq<bv8>, cs: seq<nat>)
    requires ValidCodes(buf, cs) && Frames(buf, cs).Open?
    ensures |Frames(buf, cs).units| == if cs == [] then 0 else |cs| - 1
    ensures forall k :: 0 <= k < |cs| - 1 ==> SegOk(buf, cs, k)
    decreases |cs|
  {
    if |cs| >= 2 {
      var pre := cs[..|cs| - 1];
      FramesLast(buf, cs);
      FramesOpen(buf, pre);
      forall k | 0 <= k < |cs| - 2
        ensures SegOk(buf, cs, k)
      {
        SegPrefix(buf, cs, k);
      }
    }
  }

  /** A blocked outcome stopped at a rejected header, right after its last unit. */
  lemma {:induction false} FramesBlocked(buf: seq<bv8>, cs: seq<nat>)
    requires ValidCodes(buf, cs) && Frames(buf, cs).Blocked?
    ensures |Frames(buf, cs).units| + 1 < |cs|
    ensures buf[SegStart(buf, cs, |Frames(buf, cs).units|)] >= 0x80
    decreases |cs|
  {
    var pre := cs[..|cs| - 1];
    FramesLast(buf, cs);
    var prev := Frames(buf, pre);
    if prev.Blocked? {
      FramesBlocked(buf, pre);
      SegPrefix(buf, cs, |prev.units|);
    } else {
      FramesOpen(buf, pre);
    }
  }

  /** A failed outcome stopped at an empty unit, every unit before it emitted. */
  lemma {:induction false} FramesFailed(buf: seq<bv8>, cs: seq<nat>)
    requires ValidCodes(buf, cs) && Frames(buf, cs).Failed?
    ensures exists j :: 0 <= j < |cs| - 1 && FirstEmpty(buf, cs, j, Frames(buf, cs).err)
    decreases |cs|
  {
    var pre := cs[..|cs| - 1];
    FramesLast(buf, cs);
    var prev := Frames(buf, pre);
    if prev.Failed? {
      FramesFailed(buf, pre);
      var j :| 0 <= j < |pre| - 1 && FirstEmpty(buf, pre, j, prev.err);
      forall k | 0 <= k <= j
        ensures SegOk(buf, pre, k) == SegOk(buf, cs, k)
        ensures SegStart(buf, pre, k) == SegStart(buf, cs, k) && SegEnd(buf, pre, k) == SegEnd(buf, cs, k)
      {
        SegPrefix(buf, cs, k);
      }
      assert FirstEmpty(buf, cs, j, prev.err);
    } else {
      FramesOpen(buf, pre);
      forall k | 0 <= k < |cs| - 2
        ensures SegOk(buf, cs, k)
      {
        SegPrefix(buf, cs, k);
      }
      assert FirstEmpty(buf, cs, |cs| - 2, Frames(buf, cs).err);
    }
  }

  /** All units are emitted exactly when each passes `SegOk`. */
  lemma FramesOpenIff(buf: seq<bv8>, cs: seq<nat>)
    requires ValidCodes(buf, cs)
    ensures Frames(buf, cs).Open? <==> forall k :: 0 <= k < |cs| - 1 ==> SegOk(buf, cs, k)
  {
    var p := Frames(buf, cs);
    if p.Open? {
      FramesOpen(buf, cs);
    } else if p.Blocked? {
      FramesBlocked(buf, cs);
      FramesEmitted(buf, cs);
      assert !SegOk(buf, cs, |p.units|);
    } else {
      FramesFailed(buf, cs);
      var j :| 0 <= j < |cs| - 1 && FirstEmpty(buf, cs, j, p.err);
      assert !SegOk(buf, cs, j);
    }
  }

  /** Unit `j` is the first one not emitted, and it is empty: the slice `err` fails. */
  predicate FirstEmpty(buf: seq<bv8>, cs: seq<nat>, j: nat, err: SliceError)
    requires ValidCodes(buf, cs) && j + 1 < |cs|
  {
    && (forall k :: 0 <= k < j ==> SegOk(buf, cs, k))
    && buf[SegStart(buf, cs, j)] < 0x80
    && SegStart(buf, cs, j) + 1 > SegEnd(buf, cs, j)
    && err == SliceOrder(SegStart(buf, cs, j) + 1, SegEnd(buf, cs, j))
  }

  /**
   * The first unit not emitted decides the outcome: a rejected header blocks
   * after the units before it, an empty unit fails with its slice.
   */
  lemma {:induction false} FirstBad(buf: seq<bv8>, cs: seq<nat>, j: nat)
    requires ValidCodes(buf, cs) && j + 1 < |cs|
    requires forall k :: 0 <= k < j ==> SegOk(buf, cs, k)
    requires !SegOk(buf, cs, j)
    ensures buf[SegStart(buf, cs, j)] >= 0x80 ==> Frames(buf, cs).Blocked? && |Frames(buf, cs).units| == j
    ensures buf[SegStart(buf, cs, j)] < 0x80 ==>
      Frames(buf, cs) == Failed(SliceOrder(SegStart(buf, cs, j) + 1, SegEnd(buf, cs, j)))
    decreases |cs|
  {
    var pre := cs[..|cs| - 1];
    FramesLast(buf, cs);
    if j + 2 == |cs| {
      forall k | 0 <= k < |pre| - 1
        ensures SegOk(buf, pre, k)
      {
        SegPrefix(buf, cs, k);
      }
      FramesOpenIff(buf, pre);
      FramesOpen(buf, pre);
    } else {
      forall k | 0 <= k <= j
        ensures SegOk(buf, pre, k) == SegOk(buf, cs, k)
        ensures SegStart(buf, pre, k) == SegStart(buf, cs, k) && SegEnd(buf, pre, k) == SegEnd(buf, cs, k)
      {
        SegPrefix(buf, cs, k);
      }
      FirstBad(buf, pre, j);
    }
  }

  // ---------------------------------------------------------------------------
  // The outcome of `parse`, stated on the whole buffer

  /**
   * Whatever `parse` returns is, in order, the units between consecutive
   * start codes: at most one fewer than there are start codes, and none
   * after the last start code.
   */
  lemma ParseEmitted(buf: seq<bv8>)
    ensures ParseSpec(buf).Ok? ==>
      ParseSpec(buf).value == [] || Emitted(buf, StartCodes(buf, |buf|), ParseSpec(buf).value)
  {
    FramesEmitted(buf, StartCodes(buf, |buf|));
  }

  /**
   * Every unit between consecutive start codes is emitted exactly when each
   * has forbidden_zero_bit clear and a header that is not part of the next
   * start code's zero run (the payload may be empty).
   */
  lemma ParseAllEmitted(buf: seq<bv8>)
    ensures var cs := StartCodes(buf, |buf|);
      (ParseSpec(buf).Ok? && |ParseSpec(buf).value| + 1 == |cs|) <==> |cs| >= 1 && forall k :: 0 <= k < |cs| - 1 ==> SegOk(buf, cs, k)
  {
    var cs := StartCodes(buf, |buf|);
    FramesOpenIff(buf, cs);
    var p := Frames(buf, cs);
    if p.Open? {
      FramesOpen(buf, cs);
    } else if p.Blocked? {
      FramesBlocked(buf, cs);
    }
  }

  /**
   * A header with forbidden_zero_bit set drops its unit and every later one:
   * `parse` returns the units before it.
   */
  lemma ParseBlocked(buf: seq<bv8>, j: nat)
    requires j + 1 < |StartCodes(buf, |buf|)|
    requires forall k :: 0 <= k < j ==> SegOk(buf, StartCodes(buf, |buf|), k)
    requires buf[SegStart(buf, StartCodes(buf, |buf|), j)] >= 0x80
    ensures ParseSpec(buf).Ok? && |ParseSpec(buf).value| == j
    ensures forall k :: 0 <= k < j ==> ParseSpec(buf).value[k] == SegUnit(buf, StartCodes(buf, |buf|), k)
  {
    var cs := StartCodes(buf, |buf|);
    FirstBad(buf, cs, j);
    FramesEmitted(buf, cs);
  }

  /**
   * `parse` panics only at the first unit not emitted, when it has a valid
   * header and is empty; the panic names that unit's slice.
   */
  lemma ParseFails(buf: seq<bv8>)
    requires ParseSpec(buf).Err?
    ensures exists j :: 0 <= j < |StartCodes(buf, |buf|)| - 1 && FirstEmpty(buf, StartCodes(buf, |buf|), j, ParseSpec(buf).error)
  {
    FramesFailed(buf, StartCodes(buf, |buf|));
  }

  /** Conversely, such a unit makes `parse` panic with its slice. */
  lemma EmptyUnitFails(buf: seq<bv8>, j: nat, e: SliceError)
    requires j + 1 < |StartCodes(buf, |buf|)| && FirstEmpty(buf, StartCodes(buf, |buf|), j, e)
    ensures ParseSpec(buf) == Err(e)
  {
    FirstBad(buf, StartCodes(buf, |buf|), j);
  }

  // ---------------------------------------------------------------------------
  // One byte at a time

  /** `cs` and `p` are the start codes and the outcome after the first `n` bytes. */
  ghost predicate Tracks(buf: seq<bv8>, n: nat, cs: seq<nat>, p: Progress)
    requires n <= |buf|
  {
    cs == StartCodes(buf, n) && p == Frames(buf, cs)
  }

  /** The start codes after byte `i`. */
  ghost function NextCodes(buf: seq<bv8>, i: nat, cs: seq<nat>): seq<nat>
    requires i < |buf|
  {
    if IsStartCode(buf, i) then cs + [i] else cs
  }

  /** The outcome after byte `i`: it advances only at a start code that closes a unit. */
  ghost function NextProgress(buf: seq<bv8>, i: nat, cs: seq<nat>, p: Progress): Progress
    requires i < |buf| && (cs != [] ==> cs[|cs| - 1] < i)
  {
    if !IsStartCode(buf, i) || cs == [] then p
    else Advance(buf, p, cs[|cs| - 1] + 1, i - ZeroRunBefore(buf, i))
  }

  /** Tracking carries over one more byte. */
  lemma Scan(buf: seq<bv8>, i: nat, cs: seq<nat>, p: Progress)
    requires i < |buf| && Tracks(buf, i, cs, p)
    ensures cs != [] ==> cs[|cs| - 1] < i
    ensures Tracks(buf, i + 1, NextCodes(buf, i, cs), NextProgress(buf, i, cs, p))
  {
    if !IsStartCode(buf, i) {
      ScanNoCode(buf, i, cs, p);
    } else if cs == [] {
      ScanFirstCode(buf, i, p);
    } else {
      ScanNextCode(buf, i, cs, p);
    }
  }

  /** A byte that is not a start code changes neither. */
  lemma ScanNoCode(buf: seq<bv8>, i: nat, cs: seq<nat>, p: Progress)
    requires i < |buf| && Tracks(buf, i, cs, p) && !IsStartCode(buf, i)
    ensures Tracks(buf, i + 1, cs, p)
  {
  }

  /** The first start code opens the first unit and emits nothing. */
  lemma ScanFirstCode(buf: seq<bv8>, i: nat, p: Progress)
    requires i < |buf| && Tracks(buf, i, [], p) && IsStartCode(buf, i)
    ensures Tracks(buf, i + 1, [i], p)
  {
    assert StartCodes(buf, i + 1) == [] + [i];
  }

  /** A later start code closes the pending unit. */
  lemma ScanNextCode(buf: seq<bv8>, i: nat, cs: seq<nat>, p: Progress)
    requires i < |buf| && Tracks(buf, i, cs, p) && IsStartCode(buf, i) && cs != []
    ensures cs[|cs| - 1] < i
    ensures Tracks(buf, i + 1, cs + [i], Advance(buf, p, cs[|cs| - 1] + 1, i - ZeroRunBefore(buf, i)))
  {
    FramesAppend(buf, cs, i);
  }

  /** `Frames` on one more start code, unfolded once. */
  lemma FramesAppend(buf: seq<bv8>, cs: seq<nat>, i: nat)
    requires ValidCodes(buf, cs + [i]) && cs != []
    ensures ValidCodes(buf, cs)
    ensures Frames(buf, cs + [i]) == Advance(buf, Frames(buf, cs), cs[|cs| - 1] + 1, i - ZeroRunBefore(buf, i))
  {
    var cs' := cs + [i];
    assert cs'[..|cs'| - 1] == cs;
    FramesUnfold(buf, cs');
  }

  lemma FramesUnfold(buf: seq<bv8>, cs: seq<nat>)
    requires ValidCodes(buf, cs) && |cs| >= 2
    ensures ValidCodes(buf, cs[..|cs| - 1])
    ensures Frames(buf, cs) == Advance(buf, Frames(buf, cs[..|cs| - 1]), cs[|cs| - 2] + 1,
                                       cs[|cs| - 1] - ZeroRunBefore(buf, cs[|cs| - 1]))
  {
  }

  /** Once the outcome has failed, it is what the whole buffer gives. */
  lemma {:induction false} FailedPersists(buf: seq<bv8>, n: nat, cs: seq<nat>, p: Progress)
    requires n <= |buf| && Tracks(buf, n, cs, p) && p.Failed?
    ensures ParseSpec(buf) == Err(p.err)
    decreases |buf| - n
  {
    if n == |buf| {
      assert cs == StartCodes(buf, |buf|);
    } else {
      Scan(buf, n, cs, p);
      assert NextProgress(buf, n, cs, p) == p;
      FailedPersists(buf, n + 1, NextCodes(buf, n, cs), p);
    }
  }

  // ---------------------------------------------------------------------------
  // The loop

  /**
   * The free `parse`, a single pass with a zero-run counter and a pending
   * start. Once a rejected header is pending, the counter is no longer reset
   * at start codes, so the loop may take a 0x01 byte for a start code that is
   * not one; nothing is emitted from then on either way.
   */
  method Parse(buf: seq<bv8>) returns (r: Result<seq<NalUnit>, SliceError>)
    ensures r == ParseSpec(buf)
  {
    var nalUnits: seq<NalUnit> := [];
    var paddingBytes: nat := 0;
    var startIndex: Option<nat> := None;
    for i := 0 to |buf|
      invariant Agrees(buf, i, nalUnits, paddingBytes, startIndex)
    {
      if buf[i] == 0x00 {
        ScanZero(buf, i, nalUnits, paddingBytes, startIndex);
        paddingBytes := paddingBytes + 1;
        continue;
      } else if buf[i] != 0x01 || paddingBytes < 2 {
        ScanOther(buf, i, nalUnits, paddingBytes, startIndex);
        paddingBytes := 0;
        continue;
      }
      if startIndex.Some? {
        var start := startIndex.value;
        var header := buf[start];
        // nal_ref_idc is computed by the source and never used
        var forbiddenZeroBit := ForbiddenZeroBit(header);
        var nalUnitType := NalUnitTypeCode(header);
        if forbiddenZeroBit == 1 {
          ScanBlocked(buf, i, nalUnits, paddingBytes, start);
          continue;
        }
        if start + 1 > i - paddingBytes {
          ScanFailed(buf, i, nalUnits, paddingBytes, start);
          return Err(SliceOrder(start + 1, i - paddingBytes));
        }
        ScanEmit(buf, i, nalUnits, paddingBytes, start);
        nalUnits := nalUnits + [Classify(nalUnitType, buf[start + 1..i - paddingBytes])];
      } else {
        ScanFirst(buf, i, nalUnits, paddingBytes);
      }
      startIndex := Some(i + 1);
      paddingBytes := 0;
    }
    ScanDone(buf, nalUnits, paddingBytes, startIndex);
    return Ok(nalUnits);
  }

  // ---------------------------------------------------------------------------
  // The loop invariant and its preservation

  /**
   * The loop state after `i` bytes agrees with the outcome of the start
   * codes among them: while open, the counter is the current zero run
   * and the pending start is just after the last start code; once blocked,
   * the pending start holds the rejected header.
   */
  ghost predicate Agrees(buf: seq<bv8>, i: nat, units: seq<NalUnit>, padding: nat, start: Option<nat>)
    requires i <= |buf|
  {
    Matches(buf, i, StartCodes(buf, i), Frames(buf, StartCodes(buf, i)), units, padding, start)
  }

  /** `Agrees`, given the start codes `cs` and their outcome `p`. */
  ghost predicate Matches(buf: seq<bv8>, i: nat, cs: seq<nat>, p: Progress,
                         units: seq<NalUnit>, padding: nat, start: Option<nat>)
    requires i <= |buf|
  {
    (p.Open? || p.Blocked?) && units == p.units && Pending(buf, i, cs, p, padding, start)
  }

  /** The counter and the pending start, while open and once blocked. */
  ghost predicate Pending(buf: seq<bv8>, i: nat, cs: seq<nat>, p: Progress, padding: nat, start: Option<nat>)
    requires i <= |buf|
  {
    && (cs != [] ==> cs[|cs| - 1] < i && buf[cs[|cs| - 1]] == 1)
    && (start.Some? ==> start.value <= i)
    && (p.Open? ==>
          && padding == ZeroRunBefore(buf, i)
          && start == (if cs == [] then None else Some(cs[|cs| - 1] + 1)))
    && (p.Blocked? ==> start.Some? && start.value < i && buf[start.value] >= 0x80)
  }

  // The loop body, branch by branch, on the start codes and the outcome so far

  /** A zero byte extends the zero run and changes nothing else. */
  lemma MatchZero(buf: seq<bv8>, i: nat, cs: seq<nat>, p: Progress,
                 units: seq<NalUnit>, padding: nat, start: Option<nat>)
    requires i < |buf| && Matches(buf, i, cs, p, units, padding, start)
    requires buf[i] == 0
    ensures Matches(buf, i + 1, NextCodes(buf, i, cs), NextProgress(buf, i, cs, p), units, padding + 1, start)
  {
  }

  /** Any other byte that the loop does not take for a start code ends the zero run. */
  lemma MatchOther(buf: seq<bv8>, i: nat, cs: seq<nat>, p: Progress,
                  units: seq<NalUnit>, padding: nat, start: Option<nat>)
    requires i < |buf| && Matches(buf, i, cs, p, units, padding, start)
    requires buf[i] != 0 && (buf[i] != 1 || padding < 2)
    ensures Matches(buf, i + 1, NextCodes(buf, i, cs), NextProgress(buf, i, cs, p), units, 0, start)
  {
  }

  /** With a rejected header pending, nothing changes at a start code. */
  lemma MatchBlocked(buf: seq<bv8>, i: nat, cs: seq<nat>, p: Progress,
                    units: seq<NalUnit>, padding: nat, start: Option<nat>)
    requires i < |buf| && Matches(buf, i, cs, p, units, padding, start)
    requires buf[i] == 1 && padding >= 2
    requires start.Some? && buf[start.value] >= 0x80
    ensures Matches(buf, i + 1, NextCodes(buf, i, cs), NextProgress(buf, i, cs, p), units, padding, start)
  {
  }

  /** The first start code opens the first unit. */
  lemma MatchFirst(buf: seq<bv8>, i: nat, cs: seq<nat>, p: Progress, units: seq<NalUnit>, padding: nat)
    requires i < |buf| && Matches(buf, i, cs, p, units, padding, None)
    requires buf[i] == 1 && padding >= 2
    ensures Matches(buf, i + 1, NextCodes(buf, i, cs), NextProgress(buf, i, cs, p), units, 0, Some(i + 1))
  {
  }

  /** An empty pending unit with a valid header: the slice error. */
  lemma MatchFailed(buf: seq<bv8>, i: nat, cs: seq<nat>, p: Progress,
                   units: seq<NalUnit>, padding: nat, start: nat)
    requires i < |buf| && Matches(buf, i, cs, p, units, padding, Some(start))
    requires buf[i] == 1 && padding >= 2
    requires buf[start] < 0x80 && start + 1 > i - padding
    ensures NextProgress(buf, i, cs, p) == Failed(SliceOrder(start + 1, i - padding))
  {
  }

  /** A pending unit with a valid header before the zero run is emitted and the next one opens. */
  lemma MatchEmit(buf: seq<bv8>, i: nat, cs: seq<nat>, p: Progress,
                 units: seq<NalUnit>, padding: nat, start: nat)
    requires i < |buf| && Matches(buf, i, cs, p, units, padding, Some(start))
    requires buf[i] == 1 && padding >= 2
    requires buf[start] < 0x80 && start + 1 <= i - padding
    ensures Matches(buf, i + 1, NextCodes(buf, i, cs), NextProgress(buf, i, cs, p),
                   units + [Classify(NalUnitTypeCode(buf[start]), buf[start + 1..i - padding])], 0, Some(i + 1))
  {
  }

  // The same, on the loop state alone

  /** A zero byte. */
  lemma ScanZero(buf: seq<bv8>, i: nat, units: seq<NalUnit>, padding: nat, start: Option<nat>)
    requires i < |buf| && Agrees(buf, i, units, padding, start)
    requires buf[i] == 0
    ensures Agrees(buf, i + 1, units, padding + 1, start)
  {
    var cs := StartCodes(buf, i);
    var p := Frames(buf, cs);
    Scan(buf, i, cs, p);
    MatchZero(buf, i, cs, p, units, padding, start);
  }

  /** A byte that neither extends the zero run nor completes a start code. */
  lemma ScanOther(buf: seq<bv8>, i: nat, units: seq<NalUnit>, padding: nat, start: Option<nat>)
    requires i < |buf| && Agrees(buf, i, units, padding, start)
    requires buf[i] != 0 && (buf[i] != 1 || padding < 2)
    ensures Agrees(buf, i + 1, units, 0, start)
  {
    var cs := StartCodes(buf, i);
    var p := Frames(buf, cs);
    Scan(buf, i, cs, p);
    MatchOther(buf, i, cs, p, units, padding, start);
  }

  /** A start code with a rejected header pending. */
  lemma ScanBlocked(buf: seq<bv8>, i: nat, units: seq<NalUnit>, padding: nat, start: nat)
    requires i < |buf| && Agrees(buf, i, units, padding, Some(start))
    requires buf[i] == 1 && padding >= 2 && buf[start] >= 0x80
    ensures Agrees(buf, i + 1, units, padding, Some(start))
  {
    var cs := StartCodes(buf, i);
    var p := Frames(buf, cs);
    Scan(buf, i, cs, p);
    MatchBlocked(buf, i, cs, p, units, padding, Some(start));
  }

  /** The first start code. */
  lemma ScanFirst(buf: seq<bv8>, i: nat, units: seq<NalUnit>, padding: nat)
    requires i < |buf| && Agrees(buf, i, units, padding, None)
    requires buf[i] == 1 && padding >= 2
    ensures Agrees(buf, i + 1, units, 0, Some(i + 1))
  {
    var cs := StartCodes(buf, i);
    var p := Frames(buf, cs);
    Scan(buf, i, cs, p);
    MatchFirst(buf, i, cs, p, units, padding);
  }

  /** An empty pending unit with a valid header: the slice error is the outcome of the whole buffer. */
  lemma ScanFailed(buf: seq<bv8>, i: nat, units: seq<NalUnit>, padding: nat, start: nat)
    requires i < |buf| && Agrees(buf, i, units, padding, Some(start))
    requires buf[i] == 1 && padding >= 2
    requires buf[start] < 0x80 && start + 1 > i - padding
    ensures padding <= i
    ensures ParseSpec(buf) == Err(SliceOrder(start + 1, i - padding))
  {
    var cs := StartCodes(buf, i);
    var p := Frames(buf, cs);
    Scan(buf, i, cs, p);
    MatchFailed(buf, i, cs, p, units, padding, start);
    var p' := NextProgress(buf, i, cs, p);
    FailedPersists(buf, i + 1, NextCodes(buf, i, cs), p');
  }

  /** A pending unit with a valid header before the zero run. */
  lemma ScanEmit(buf: seq<bv8>, i: nat, units: seq<NalUnit>, padding: nat, start: nat)
    requires i < |buf| && Agrees(buf, i, units, padding, Some(start))
    requires buf[i] == 1 && padding >= 2
    requires buf[start] < 0x80 && start + 1 <= i - padding
    ensures Agrees(buf, i + 1, units + [Classify(NalUnitTypeCode(buf[start]), buf[start + 1..i - padding])],
                   0, Some(i + 1))
  {
    var cs := StartCodes(buf, i);
    var p := Frames(buf, cs);
    Scan(buf, i, cs, p);
    MatchEmit(buf, i, cs, p, units, padding, start);
  }

  /** After the last byte, the units the loop holds are the outcome. */
  lemma ScanDone(buf: seq<bv8>, units: seq<NalUnit>, padding: nat, start: Option<nat>)
    requires Agrees(buf, |buf|, units, padding, start)
    ensures ParseSpec(buf) == Ok(units)
  {
  }

  // ---------------------------------------------------------------------------
  // Examples

  /** A 0x01 byte after two zero bytes is the next start code. */
  lemma StartCodeAt(buf: seq<bv8>, n: nat)
    requires 2 <= n < |buf| && buf[n - 2] == 0 && buf[n - 1] == 0 && buf[n] == 1
    ensures StartCodes(buf, n + 1) == StartCodes(buf, n) + [n]
  {
    assert ZeroRunBefore(buf, n - 1) >= 1;
  }

  /** A byte other than 0x01 is not a start code. */
  lemma NotStartCodeAt(buf: seq<bv8>, n: nat)
    requires n < |buf| && buf[n] != 1
    ensures StartCodes(buf, n + 1) == StartCodes(buf, n)
  {
  }

  /**
   * A unit with a valid header that is not part of the next zero run is
   * emitted at the next start code (the payload may be empty).
   */
  lemma EmitNext(buf: seq<bv8>, cs: seq<nat>, q: nat, us: seq<NalUnit>, h: nat, e: nat)
    requires ValidCodes(buf, cs + [q]) && cs != [] && Frames(buf, cs) == Open(us)
    requires h == cs[|cs| - 1] + 1 && e == q - ZeroRunBefore(buf, q)
    requires h < |buf| && buf[h] < 0x80 && h + 1 <= e <= |buf|
    ensures Frames(buf, cs + [q]) == Open(us + [Classify(NalUnitTypeCode(buf[h]), buf[h + 1..e])])
  {
    FramesAppend(buf, cs, q);
  }

  /** An SPS, a PPS and a slice, each behind a start code; the last start code has three zeros. */
  const ExampleBytes: seq<bv8> :=
    [0x00, 0x00, 0x01, 0x67, 0xAA, 0xBB, 0x00, 0x00, 0x01, 0x68, 0xCC,
     0x00, 0x00, 0x00, 0x01, 0x65, 0xDD, 0xEE]

  /** The example, one byte at a time. */
  predicate ExampleLayout(buf: seq<bv8>)
  {
    && |buf| == 18
    && buf[0] == 0x00 && buf[1] == 0x00 && buf[2] == 0x01 && buf[3] == 0x67 && buf[4] == 0xAA && buf[5] == 0xBB
    && buf[6] == 0x00 && buf[7] == 0x00 && buf[8] == 0x01 && buf[9] == 0x68 && buf[10] == 0xCC
    && buf[11] == 0x00 && buf[12] == 0x00 && buf[13] == 0x00 && buf[14] == 0x01 && buf[15] == 0x65
    && buf[16] == 0xDD && buf[17] == 0xEE
  }

  /** The example's bytes, one fact per position. */
  lemma ExampleLayoutOf(buf: seq<bv8>)
    requires buf == ExampleBytes
    ensures ExampleLayout(buf)
  {
  }

  /** The example's start codes, a few bytes at a time. */
  lemma ExampleCodes9(buf: seq<bv8>)
    requires ExampleLayout(buf)
    ensures StartCodes(buf, 9) == [2, 8]
  {
    NotStartCodeAt(buf, 0);
    NotStartCodeAt(buf, 1);
    StartCodeAt(buf, 2);
    NotStartCodeAt(buf, 3);
    NotStartCodeAt(buf, 4);
    NotStartCodeAt(buf, 5);
    NotStartCodeAt(buf, 6);
    NotStartCodeAt(buf, 7);
    StartCodeAt(buf, 8);
  }

  lemma ExampleCodes15(buf: seq<bv8>)
    requires ExampleLayout(buf)
    ensures StartCodes(buf, 15) == [2, 8, 14]
  {
    ExampleCodes9(buf);
    NotStartCodeAt(buf, 9);
    NotStartCodeAt(buf, 10);
    NotStartCodeAt(buf, 11);
    NotStartCodeAt(buf, 12);
    NotStartCodeAt(buf, 13);
    StartCodeAt(buf, 14);
    assert [2, 8] + [14] == [2, 8, 14];
  }

  /** The start codes of the example sit at positions 2, 8 and 14. */
  lemma ExampleStartCodes(buf: seq<bv8>)
    requires ExampleLayout(buf)
    ensures StartCodes(buf, |buf|) == [2, 8, 14]
  {
    ExampleCodes15(buf);
    NotStartCodeAt(buf, 15);
    NotStartCodeAt(buf, 16);
    NotStartCodeAt(buf, 17);
  }

  /** The SPS's header and payload, and the zero run that ends it. */
  lemma ExampleSpsBytes(buf: seq<bv8>)
    requires ExampleLayout(buf)
    ensures buf[3] == 0x67 && buf[4..6] == [0xAA, 0xBB] && ZeroRunBefore(buf, 8) == 2
  {
    assert buf[5] == 0xBB && buf[6] == 0 && buf[7] == 0;
  }

  /** The PPS's header and payload, and the zero run that ends it. */
  lemma ExamplePpsBytes(buf: seq<bv8>)
    requires ExampleLayout(buf)
    ensures buf[9] == 0x68 && buf[10..11] == [0xCC] && ZeroRunBefore(buf, 14) == 3
  {
    assert buf[10] == 0xCC && buf[11] == 0 && buf[12] == 0 && buf[13] == 0;
  }

  /** The SPS is the unit between the first two start codes. */
  lemma ExampleSps(buf: seq<bv8>)
    requires ExampleLayout(buf)
    ensures ValidCodes(buf, [2, 8])
    ensures Frames(buf, [2, 8]) == Open([NalUnit.Sps([0xAA, 0xBB])])
  {
    ExampleCodes9(buf);
    ExampleSpsBytes(buf);
    assert NalUnitTypeCode(0x67) == 7;
    EmitNext(buf, [2], 8, [], 3, 6);
  }

  /** The SPS and the PPS are emitted; the slice after the last start code is not. */
  lemma ExampleOutcome(buf: seq<bv8>)
    requires ExampleLayout(buf)
    ensures ParseSpec(buf) == Ok([NalUnit.Sps([0xAA, 0xBB]), NalUnit.Pps([0xCC])])
  {
    ExampleStartCodes(buf);
    ExampleSps(buf);
    ExamplePpsBytes(buf);
    assert NalUnitTypeCode(0x68) == 8;
    EmitNext(buf, [2, 8], 14, [NalUnit.Sps([0xAA, 0xBB])], 9, 11);
    assert [2, 8] + [14] == [2, 8, 14];
    assert Classify(8, [0xCC]) == NalUnit.Pps([0xCC]);
    assert [NalUnit.Sps([0xAA, 0xBB])] + [NalUnit.Pps([0xCC])] == [NalUnit.Sps([0xAA, 0xBB]), NalUnit.Pps([0xCC])];
  }

  /** The stream of the example: an SPS and a PPS come out. */
  lemma ExampleStream(buf: seq<bv8>)
    requires buf == ExampleBytes
    ensures ParseSpec(buf) == Ok([NalUnit.Sps([0xAA, 0xBB]), NalUnit.Pps([0xCC])])
  {
    ExampleLayoutOf(buf);
    ExampleOutcome(buf);
  }

  /** Two start codes with nothing between them: the unit's slice is reversed. */
  lemma ExampleEmptyUnit(buf: seq<bv8>)
    requires buf == [0x00, 0x00, 0x01, 0x00, 0x00, 0x01]
    ensures ParseSpec(buf) == Err(SliceOrder(4, 3))
  {
    NotStartCodeAt(buf, 0);
    NotStartCodeAt(buf, 1);
    StartCodeAt(buf, 2);
    NotStartCodeAt(buf, 3);
    NotStartCodeAt(buf, 4);
    StartCodeAt(buf, 5);
    assert ZeroRunBefore(buf, 5) == 2;
    FramesAppend(buf, [2], 5);
    assert [2] + [5] == [2, 5];
  }

  /** An SPS header directly followed by the next start code, one byte at a time. */
  predicate EmptyPayloadLayout(buf: seq<bv8>)
  {
    && |buf| == 7
    && buf[0] == 0x00 && buf[1] == 0x00 && buf[2] == 0x01 && buf[3] == 0x67
    && buf[4] == 0x00 && buf[5] == 0x00 && buf[6] == 0x01
  }

  /** Its start codes. */
  lemma EmptyPayloadCodes(buf: seq<bv8>)
    requires EmptyPayloadLayout(buf)
    ensures StartCodes(buf, |buf|) == [2, 6]
  {
    NotStartCodeAt(buf, 0);
    NotStartCodeAt(buf, 1);
    StartCodeAt(buf, 2);
    NotStartCodeAt(buf, 3);
    NotStartCodeAt(buf, 4);
    NotStartCodeAt(buf, 5);
    StartCodeAt(buf, 6);
  }

  /** The outcome of that stream, from its bytes. */
  lemma EmptyPayloadOutcome(buf: seq<bv8>)
    requires EmptyPayloadLayout(buf)
    ensures ParseSpec(buf) == Ok([NalUnit.Sps([])])
  {
    EmptyPayloadCodes(buf);
    assert [2] + [6] == [2, 6];
    assert ZeroRunBefore(buf, 6) == 2;
    FramesAppend(buf, [2], 6);
    assert NalUnitTypeCode(buf[3]) == 7;
    assert buf[4..4] == [];
    assert [] + [NalUnit.Sps([])] == [NalUnit.Sps([])];
  }

  /** A header right before the next zero run: the unit is emitted with an empty payload. */
  lemma ExampleEmptyPayload(buf: seq<bv8>)
    requires buf == [0x00, 0x00, 0x01, 0x67, 0x00, 0x00, 0x01]
    ensures ParseSpec(buf) == Ok([NalUnit.Sps([])])
  {
    assert EmptyPayloadLayout(buf);
    EmptyPayloadOutcome(buf);
  }

  /** A stream whose first unit has forbidden_zero_bit set, followed by an SPS. */
  const BlockedBytes: seq<bv8> := [0x00, 0x00, 0x01, 0x80, 0x00, 0x00, 0x01, 0x67, 0x00, 0x00, 0x01]

  /** That stream, one byte at a time. */
  predicate BlockedLayout(buf: seq<bv8>)
  {
    && |buf| == 11
    && buf[0] == 0x00 && buf[1] == 0x00 && buf[2] == 0x01 && buf[3] == 0x80
    && buf[4] == 0x00 && buf[5] == 0x00 && buf[6] == 0x01 && buf[7] == 0x67
    && buf[8] == 0x00 && buf[9] == 0x00 && buf[10] == 0x01
  }

  /** Its start codes, a few bytes at a time. */
  lemma BlockedCodes7(buf: seq<bv8>)
    requires BlockedLayout(buf)
    ensures StartCodes(buf, 7) == [2, 6]
  {
    NotStartCodeAt(buf, 0);
    NotStartCodeAt(buf, 1);
    StartCodeAt(buf, 2);
    NotStartCodeAt(buf, 3);
    NotStartCodeAt(buf, 4);
    NotStartCodeAt(buf, 5);
    StartCodeAt(buf, 6);
  }

  lemma BlockedCodes(buf: seq<bv8>)
    requires BlockedLayout(buf)
    ensures StartCodes(buf, |buf|) == [2, 6, 10]
  {
    BlockedCodes7(buf);
    NotStartCodeAt(buf, 7);
    NotStartCodeAt(buf, 8);
    NotStartCodeAt(buf, 9);
    StartCodeAt(buf, 10);
    assert [2, 6] + [10] == [2, 6, 10];
  }

  /** The outcome of that stream, from its bytes. */
  lemma BlockedOutcome(buf: seq<bv8>)
    requires BlockedLayout(buf)
    ensures ParseSpec(buf) == Ok([])
  {
    BlockedCodes(buf);
    assert [2] + [6] == [2, 6] && [2, 6] + [10] == [2, 6, 10];
    assert buf[3] == 0x80;
    FramesAppend(buf, [2], 6);
    FramesAppend(buf, [2, 6], 10);
  }

  /** The rejected header stops the output: the SPS after it is never emitted. */
  lemma ExampleBlocked(buf: seq<bv8>)
    requires buf == BlockedBytes
    ensures ParseSpec(buf) == Ok([])
  {
    assert BlockedLayout(buf);
    BlockedOutcome(buf);
  }
}
