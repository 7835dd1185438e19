/**
 * `NalUnitCount`: a map from unit type to the number of units of that type
 * seen so far, updated in place one unit at a time, and rendered as
 * `"{key:?}: {count}"` entries joined by `", "`.
 *
 * The rendering order is the iteration order of a `HashMap`, which nothing
 * fixes; `Format` takes the order as a parameter (any listing of the keys
 * without repeats) and `FormatOrderFree` shows that the (key, count) pairs
 * it renders do not depend on it.
 */
module Counting {
  import opened NalTypes

  // ---------------------------------------------------------------------------
  // Counting

  /** `*count.entry(t).or_insert(0) += 1`: the entry for `t` goes up by one. */
  function Bump(m: map<NalUnitType, nat>, t: NalUnitType): (r: map<NalUnitType, nat>)
    ensures r.Keys == m.Keys + {t}
    ensures r[t] == (if t in m then m[t] else 0) + 1
    ensures forall k :: k in m && k != t ==> r[k] == m[k]
  {
    m[t := (if t in m then m[t] else 0) + 1]
  }

  /**
   * A fixed numbering of the keys, used only to sum over a map: `Other`
   * codes first, then `Slice`, `Sps`, `Pps`.
   */
  function Rank(t: NalUnitType): (r: nat)
    ensures r < KeyCount
  {
    match t
    case Other(c) => c as nat
    case Slice => 256
    case Sps => 257
    case Pps => 258
  }

  /** The number of distinct keys. */
  const KeyCount: nat := 259

  /** The key numbered `r`. */
  function RankKey(r: nat): (t: NalUnitType)
    requires r < KeyCount
  {
    if r < 256 then NalUnitType.Other(r as bv8)
    else if r == 256 then NalUnitType.Slice
    else if r == 257 then NalUnitType.Sps
    else NalUnitType.Pps
  }

  /** The numbering is one-to-one: each key is the key of its number. */
  lemma RankRoundTrip(t: NalUnitType, r: nat)
    requires r < KeyCount
    ensures RankKey(Rank(t)) == t
    ensures Rank(RankKey(r)) == r
  {
  }

  /** The count of `t`, zero when it has no entry. */
  function CountOf(m: map<NalUnitType, nat>, t: NalUnitType): nat
  {
    if t in m then m[t] else 0
  }

  /** The sum of the counts of the keys numbered below `n`. */
  function SumBelow(m: map<NalUnitType, nat>, n: nat): nat
    requires n <= KeyCount
  {
    if n == 0 then 0 else SumBelow(m, n - 1) + CountOf(m, RankKey(n - 1))
  }

  /** The sum of all counts. */
  function Total(m: map<NalUnitType, nat>): nat
  {
    SumBelow(m, KeyCount)
  }

  /** An empty map sums to zero. */
  lemma {:induction false} SumBelowEmpty(n: nat)
    requires n <= KeyCount
    ensures SumBelow(map[], n) == 0
  {
    if n > 0 {
      SumBelowEmpty(n - 1);
    }
  }

  /** An update adds one to every partial sum that covers its key. */
  lemma {:induction false} BumpSumBelow(m: map<NalUnitType, nat>, t: NalUnitType, n: nat)
    requires n <= KeyCount
    ensures SumBelow(Bump(m, t), n) == SumBelow(m, n) + (if Rank(t) < n then 1 else 0)
  {
    if n > 0 {
      BumpSumBelow(m, t, n - 1);
      RankRoundTrip(t, n - 1);
    }
  }

  /** One update adds exactly one to the sum of the counts. */
  lemma BumpTotal(m: map<NalUnitType, nat>, t: NalUnitType)
    ensures Total(Bump(m, t)) == Total(m) + 1
  {
    BumpSumBelow(m, t, KeyCount);
  }

  /** The counts after updating a fresh counter with `us`, in order. */
  function Counts(us: seq<NalUnit>): (m: map<NalUnitType, nat>)
  {
    if us == [] then map[] else Bump(Counts(us[..|us| - 1]), ToType(us[|us| - 1]))
  }

  /** The number of units in `us` whose type is `t`. */
  function Occurrences(us: seq<NalUnit>, t: NalUnitType): (n: nat)
    ensures n <= |us|
  {
    if us == [] then 0 else Occurrences(us[..|us| - 1], t) + (if ToType(us[|us| - 1]) == t then 1 else 0)
  }

  /**
   * After the updates `us` from a fresh counter, each type seen has an entry
   * holding its number of occurrences, and no other type has one.
   */
  lemma {:induction false} CountsAreOccurrences(us: seq<NalUnit>, t: NalUnitType)
    ensures t in Counts(us) <==> Occurrences(us, t) > 0
    ensures t in Counts(us) ==> Counts(us)[t] == Occurrences(us, t)
    decreases |us|
  {
    if us != [] {
      CountsAreOccurrences(us[..|us| - 1], t);
    }
  }

  /** After `n` updates from a fresh counter, the counts sum to `n`. */
  lemma {:induction false} CountsTotal(us: seq<NalUnit>)
    ensures Total(Counts(us)) == |us|
    decreases |us|
  {
    if us == [] {
      SumBelowEmpty(KeyCount);
    } else {
      CountsTotal(us[..|us| - 1]);
      BumpTotal(Counts(us[..|us| - 1]), ToType(us[|us| - 1]));
    }
  }

  // ---------------------------------------------------------------------------
  // Rendering

  /** The character of a decimal digit. */
  function DigitChar(d: nat): (c: char)
    requires d < 10
    ensures '0' <= c <= '9'
    ensures (c as int) - ('0' as int) == d
  {
    (('0' as int) + d) as char
  }

  /** `{}` of a number: its decimal digits, without leading zeros. */
  function Decimal(n: nat): (s: string)
    ensures |s| >= 1
    ensures forall i :: 0 <= i < |s| ==> '0' <= s[i] <= '9'
    ensures |s| > 1 ==> s[0] != '0'
  {
    if n < 10 then [DigitChar(n)] else Decimal(n / 10) + [DigitChar(n % 10)]
  }

  /** The number written by a string of decimal digits. */
  function DecimalValue(s: string): nat
    requires forall i :: 0 <= i < |s| ==> '0' <= s[i] <= '9'
  {
    if s == [] then 0 else DecimalValue(s[..|s| - 1]) * 10 + ((s[|s| - 1] as int) - ('0' as int))
  }

  /** Reading a rendered count back gives the count. */
  lemma {:induction false} DecimalRoundTrip(n: nat)
    ensures DecimalValue(Decimal(n)) == n
    decreases n
  {
    if n >= 10 {
      DecimalRoundTrip(n / 10);
      var s := Decimal(n);
      assert s[..|s| - 1] == Decimal(n / 10);
    }
  }

  /** `{:?}` of a unit type: the variant name, with the code for `Other`. */
  function DebugName(t: NalUnitType): (s: string)
    ensures |s| >= 3
    ensures forall i :: 0 <= i < |s| ==> s[i] != ':'
  {
    match t
    case Slice => "Slice"
    case Sps => "Sps"
    case Pps => "Pps"
    case Other(c) => "Other(" + Decimal(c as nat) + ")"
  }

  /**
   * One entry, `"{key:?}: {count}"`: the first colon ends the key's name and
   * everything after the following space is the count's digits.
   */
  function Entry(t: NalUnitType, c: nat): (s: string)
    ensures |s| >= |DebugName(t)| + 3
    ensures forall i :: 0 <= i < |DebugName(t)| ==> s[i] != ':'
    ensures s[|DebugName(t)|] == ':'
    ensures forall i :: |DebugName(t)| + 2 <= i < |s| ==> '0' <= s[i] <= '9'
  {
    DebugName(t) + ": " + Decimal(c)
  }

  /** Different decimal renderings come from different numbers. */
  lemma DecimalInjective(a: nat, b: nat)
    ensures Decimal(a) == Decimal(b) ==> a == b
  {
    DecimalRoundTrip(a);
    DecimalRoundTrip(b);
  }

  /** Distinct unit types have distinct debug names. */
  lemma DebugNameInjective(t1: NalUnitType, t2: NalUnitType)
    ensures DebugName(t1) == DebugName(t2) ==> t1 == t2
  {
    if DebugName(t1) == DebugName(t2) && t1.Other? && t2.Other? {
      var d1, d2 := Decimal(t1.code as nat), Decimal(t2.code as nat);
      assert d1 == DebugName(t1)[6..|DebugName(t1)| - 1];
      assert d2 == DebugName(t2)[6..|DebugName(t2)| - 1];
      DecimalInjective(t1.code as nat, t2.code as nat);
    } else if DebugName(t1) == DebugName(t2) {
      assert DebugName(t1)[1] == DebugName(t2)[1];
    }
  }

  /** An entry determines both its key and its count. */
  lemma EntryInjective(t1: NalUnitType, c1: nat, t2: NalUnitType, c2: nat)
    ensures Entry(t1, c1) == Entry(t2, c2) ==> t1 == t2 && c1 == c2
  {
    var s1, s2 := Entry(t1, c1), Entry(t2, c2);
    var n1, n2 := |DebugName(t1)|, |DebugName(t2)|;
    if s1 == s2 {
      if n1 != n2 {
        assert false;
      }
      assert DebugName(t1) == s1[..n1] == s2[..n2] == DebugName(t2);
      assert Decimal(c1) == s1[n1 + 2..] == s2[n2 + 2..] == Decimal(c2);
      DebugNameInjective(t1, t2);
      DecimalInjective(c1, c2);
    }
  }

  /** The parts separated by `sep`, as `join` does. */
  function Join(parts: seq<string>, sep: string): (s: string)
    ensures parts == [] ==> s == ""
    ensures |parts| == 1 ==> s == parts[0]
  {
    if parts == [] then ""
    else if |parts| == 1 then parts[0]
    else Join(parts[..|parts| - 1], sep) + sep + parts[|parts| - 1]
  }

  /** A non-empty last part makes a non-empty result. */
  lemma {:induction false} JoinNonEmpty(parts: seq<string>, sep: string)
    requires parts != [] && parts[|parts| - 1] != ""
    ensures Join(parts, sep) != ""
  {
    if |parts| > 1 {
      var s := Join(parts, sep);
      assert s[|s| - 1] == parts[|parts| - 1][|parts[|parts| - 1]| - 1];
    }
  }

  /** `order` lists the keys of `m`, each once: a possible `HashMap` iteration order. */
  predicate KeyOrder(m: map<NalUnitType, nat>, order: seq<NalUnitType>)
  {
    && (forall k :: k in order ==> k in m)
    && (forall k :: k in m ==> k in order)
    && (forall i, j :: 0 <= i < j < |order| ==> order[i] != order[j])
  }

  /** The (key, count) pairs of the keys in `order`, in that order. */
  function Pairs(m: map<NalUnitType, nat>, order: seq<NalUnitType>): (ps: seq<(NalUnitType, nat)>)
    requires forall k :: k in order ==> k in m
    ensures |ps| == |order|
    ensures forall i :: 0 <= i < |order| ==> ps[i] == (order[i], m[order[i]])
  {
    if order == [] then [] else Pairs(m, order[..|order| - 1]) + [(order[|order| - 1], m[order[|order| - 1]])]
  }

  /** Each pair rendered as its entry. */
  function Rendered(ps: seq<(NalUnitType, nat)>): (es: seq<string>)
    ensures |es| == |ps|
    ensures forall i :: 0 <= i < |ps| ==> es[i] == Entry(ps[i].0, ps[i].1)
  {
    if ps == [] then [] else Rendered(ps[..|ps| - 1]) + [Entry(ps[|ps| - 1].0, ps[|ps| - 1].1)]
  }

  /** The number of places in `xs` that hold `x`. */
  function Occurs<T(==)>(x: T, xs: seq<T>): nat
  {
    if xs == [] then 0 else Occurs(x, xs[..|xs| - 1]) + (if xs[|xs| - 1] == x then 1 else 0)
  }

  /** `Occurs` counts what the multiset of a sequence counts. */
  lemma {:induction false} OccursMultiset<T>(x: T, xs: seq<T>)
    ensures multiset(xs)[x] == Occurs(x, xs)
  {
    if xs != [] {
      OccursMultiset(x, xs[..|xs| - 1]);
      assert xs == xs[..|xs| - 1] + [xs[|xs| - 1]];
    }
  }

  /** True when `t` has an entry in `m` and `p` is its pair. */
  predicate HasPair(m: map<NalUnitType, nat>, t: NalUnitType, p: (NalUnitType, nat))
  {
    t in m && p == (t, m[t])
  }

  /** The number of keys numbered below `n` whose pair is `p`. */
  function PairCount(m: map<NalUnitType, nat>, p: (NalUnitType, nat), n: nat): nat
    requires n <= KeyCount
  {
    if n == 0 then 0 else PairCount(m, p, n - 1) + (if HasPair(m, RankKey(n - 1), p) then 1 else 0)
  }

  /** Removing a key removes its pair from every count that covers it. */
  lemma {:induction false} PairCountRemove(m: map<NalUnitType, nat>, k: NalUnitType, p: (NalUnitType, nat), n: nat)
    requires n <= KeyCount
    ensures PairCount(m, p, n) == PairCount(m - {k}, p, n) + (if Rank(k) < n && HasPair(m, k, p) then 1 else 0)
  {
    if n > 0 {
      PairCountRemove(m, k, p, n - 1);
      RankRoundTrip(k, n - 1);
      var j := RankKey(n - 1);
      assert HasPair(m - {k}, j, p) == (j != k && HasPair(m, j, p));
      assert j == k <==> Rank(k) == n - 1;
    }
  }

  /** An empty map has no pairs. */
  lemma {:induction false} PairCountEmpty(p: (NalUnitType, nat), n: nat)
    requires n <= KeyCount
    ensures PairCount(map[], p, n) == 0
  {
    if n > 0 {
      PairCountEmpty(p, n - 1);
    }
  }

  /** A key of the map has its pair counted once. */
  lemma {:induction false} PairCountKey(m: map<NalUnitType, nat>, k: NalUnitType, n: nat)
    requires k in m && n <= KeyCount
    ensures PairCount(m, (k, m[k]), n) == (if Rank(k) < n then 1 else 0)
  {
    if n > 0 {
      PairCountKey(m, k, n - 1);
      RankRoundTrip(k, n - 1);
      if RankKey(n - 1) != k {
        assert !HasPair(m, RankKey(n - 1), (k, m[k]));
      }
    }
  }

  /** An order without its last key is an order of the map without that key. */
  lemma KeyOrderInit(m: map<NalUnitType, nat>, order: seq<NalUnitType>)
    requires KeyOrder(m, order) && order != []
    ensures order[|order| - 1] in m
    ensures KeyOrder(m - {order[|order| - 1]}, order[..|order| - 1])
  {
    var last := order[|order| - 1];
    var rest := order[..|order| - 1];
    assert last in order;
    forall k | k in rest
      ensures k in m - {last}
    {
      var i :| 0 <= i < |rest| && rest[i] == k;
      assert order[i] == k;
    }
    forall k | k in m - {last}
      ensures k in rest
    {
      assert k in order;
      var i :| 0 <= i < |order| && order[i] == k;
      assert rest[i] == k;
    }
  }

  /**
   * Whatever the order, each pair occurs in the listing as often as there
   * are keys whose pair it is.
   */
  lemma {:induction false} PairsCount(m: map<NalUnitType, nat>, order: seq<NalUnitType>, p: (NalUnitType, nat))
    requires KeyOrder(m, order)
    ensures Occurs(p, Pairs(m, order)) == PairCount(m, p, KeyCount)
    decreases |order|
  {
    if order == [] {
      assert m == map[];
      PairCountEmpty(p, KeyCount);
    } else {
      var last := order[|order| - 1];
      var rest := order[..|order| - 1];
      KeyOrderInit(m, order);
      PairsCount(m - {last}, rest, p);
      assert Pairs(m - {last}, rest) == Pairs(m, rest);
      assert Pairs(m, order)[..|order| - 1] == Pairs(m, rest);
      PairCountRemove(m, last, p, KeyCount);
    }
  }

  /**
   * Two `HashMap` iteration orders list the same (key, count) pairs, so the
   * entries of `format` are determined by the map up to their order.
   */
  lemma FormatOrderFree(m: map<NalUnitType, nat>, o1: seq<NalUnitType>, o2: seq<NalUnitType>)
    requires KeyOrder(m, o1) && KeyOrder(m, o2)
    ensures multiset(Pairs(m, o1)) == multiset(Pairs(m, o2))
  {
    forall p
      ensures multiset(Pairs(m, o1))[p] == multiset(Pairs(m, o2))[p]
    {
      PairsCount(m, o1, p);
      PairsCount(m, o2, p);
      OccursMultiset(p, Pairs(m, o1));
      OccursMultiset(p, Pairs(m, o2));
    }
  }

  /** Every key of the map is listed with its count exactly once. */
  lemma FormatOnePerKey(m: map<NalUnitType, nat>, order: seq<NalUnitType>, k: NalUnitType)
    requires KeyOrder(m, order) && k in m
    ensures Occurs((k, m[k]), Pairs(m, order)) == 1
  {
    PairsCount(m, order, (k, m[k]));
    PairCountKey(m, k, KeyCount);
  }

  /** The joined entries are empty exactly when the map is. */
  lemma JoinedEntriesEmpty(m: map<NalUnitType, nat>, order: seq<NalUnitType>)
    requires KeyOrder(m, order)
    ensures Join(Rendered(Pairs(m, order)), ", ") == "" <==> |m| == 0
  {
    if order != [] {
      JoinNonEmpty(Rendered(Pairs(m, order)), ", ");
      assert order[0] in m;
    } else {
      assert m == map[];
    }
  }

  // ---------------------------------------------------------------------------
  // The counter object

  /** `NalUnitCount` with its map. Counts are unbounded here. */
  class NalUnitCount {
    var count: map<NalUnitType, nat>

    /** `NalUnitCount::new`: no entries. */
    constructor ()
      ensures count == map[]
    {
      count := map[];
    }

    /** `NalUnitCount::update`: one more unit of the unit's type; nothing else changes. */
    method Update(unit: NalUnit)
      modifies this
      ensures count == Bump(old(count), ToType(unit))
    {
      var key := ToType(unit);
      var current := if key in count then count[key] else 0;
      count := count[key := current + 1];
    }

    /**
     * `NalUnitCount::format`, read-only: the entries of the keys in the
     * iteration order `order`, joined by `", "`; empty exactly when there
     * are no entries.
     */
    function Format(order: seq<NalUnitType>): (r: string)
      reads this
      requires KeyOrder(count, order)
      ensures r == "" <==> |count| == 0
    {
      JoinedEntriesEmpty(count, order);
      Join(Rendered(Pairs(count, order)), ", ")
    }
  }

  /** Updating a fresh counter with `us`, one unit at a time, gives `Counts(us)`. */
  method Tally(us: seq<NalUnit>) returns (c: NalUnitCount)
    ensures fresh(c) && c.count == Counts(us)
  {
    c := new NalUnitCount();
    for i := 0 to |us|
      invariant c.count == Counts(us[..i])
    {
      assert us[..i + 1][..i] == us[..i];
      c.Update(us[i]);
    }
    assert us[..|us|] == us;
  }
}
