/** The `offset -> count` dictionary that LEEncoder.py consumes and
    LEDecoder.py produces.  A Python dict keeps its keys in insertion order,
    so it is modelled as a sequence of distinct-offset tallies; two dicts
    compare equal here exactly when they hold the same pairs in the same
    order. */
module OffsetCounts {

  datatype Tally = Tally(offset: int, count: int)

  type Counts = seq<Tally>

  /** No offset occurs twice: the shape every Python dict has. */
  predicate IsDict(d: Counts) {
    forall i, j :: 0 <= i < j < |d| ==> d[i].offset != d[j].offset
  }

  function Keys(d: Counts): set<int> {
    set i | 0 <= i < |d| :: d[i].offset
  }

  /** `d.get(k, 0)`. */
  function Get(d: Counts, k: int): int {
    if d == [] then 0
    else if d[0].offset == k then d[0].count
    else Get(d[1..], k)
  }

  /** Sum of all counts. */
  function Total(d: Counts): int {
    if d == [] then 0 else d[0].count + Total(d[1..])
  }

  /** `d[k] = d.get(k, 0) + 1`: an existing key keeps its place, a new key
      is appended with count 1. */
  function Bump(d: Counts, k: int): (r: Counts)
    ensures Total(r) == Total(d) + 1
  {
    if d == [] then [Tally(k, 1)]
    else if d[0].offset == k then [Tally(k, d[0].count + 1)] + d[1..]
    else [d[0]] + Bump(d[1..], k)
  }

  /** Bumping raises the count of `k` by one and of no other offset. */
  lemma {:induction false} BumpGet(d: Counts, k: int, j: int)
    ensures Get(Bump(d, k), j) == Get(d, j) + (if j == k then 1 else 0)
  {
    if d != [] && d[0].offset != k {
      BumpGet(d[1..], k, j);
      assert Bump(d, k)[1..] == Bump(d[1..], k);
    }
  }

  /** A key not yet present goes to the end with count 1. */
  lemma {:induction false} BumpFresh(d: Counts, k: int)
    requires k !in Keys(d)
    ensures Bump(d, k) == d + [Tally(k, 1)]
  {
    if d != [] {
      BumpFresh(d[1..], k);
    }
  }

  /** Bumping keeps every offset in its place and adds `k` at the end
      when it is new. */
  lemma {:induction false} BumpShape(d: Counts, k: int)
    ensures |d| <= |Bump(d, k)| <= |d| + 1
    ensures forall i :: 0 <= i < |d| ==> Bump(d, k)[i].offset == d[i].offset
    ensures |Bump(d, k)| == |d| + 1 ==> Bump(d, k)[|d|].offset == k
    ensures Keys(Bump(d, k)) == Keys(d) + {k}
    ensures k in Keys(d) ==> |Bump(d, k)| == |d|
  {
    BumpPlaces(d, k);
    if k in Keys(d) {
      BumpPresent(d, k);
      SameOffsetsSameKeys(d, Bump(d, k));
    } else {
      BumpFresh(d, k);
      KeysAppend(d, Tally(k, 1));
    }
  }

  lemma SameOffsetsSameKeys(a: Counts, b: Counts)
    requires |a| == |b|
    requires forall i :: 0 <= i < |a| ==> a[i].offset == b[i].offset
    ensures Keys(a) == Keys(b)
  {
    forall x | x in Keys(a)
      ensures x in Keys(b)
    {
      var i :| 0 <= i < |a| && a[i].offset == x;
    }
    forall x | x in Keys(b)
      ensures x in Keys(a)
    {
      var i :| 0 <= i < |b| && b[i].offset == x;
    }
  }

  lemma KeysAppend(d: Counts, t: Tally)
    ensures Keys(d + [t]) == Keys(d) + {t.offset}
  {
    var r := d + [t];
    assert r[|d|] == t;
    forall x | x in Keys(d)
      ensures x in Keys(r)
    {
      var i :| 0 <= i < |d| && d[i].offset == x;
      assert r[i] == d[i];
    }
  }

  lemma {:induction false} BumpPresent(d: Counts, k: int)
    requires k in Keys(d)
    ensures |Bump(d, k)| == |d|
  {
    if d[0].offset != k {
      var i :| 0 <= i < |d| && d[i].offset == k;
      assert d[1..][i - 1].offset == k;
      BumpPresent(d[1..], k);
    }
  }

  lemma {:induction false} BumpPlaces(d: Counts, k: int)
    ensures |d| <= |Bump(d, k)| <= |d| + 1
    ensures forall i :: 0 <= i < |d| ==> Bump(d, k)[i].offset == d[i].offset
    ensures |Bump(d, k)| == |d| + 1 ==> Bump(d, k)[|d|].offset == k
  {
    if d != [] && d[0].offset != k {
      BumpPlaces(d[1..], k);
      var r := Bump(d, k);
      assert r == [d[0]] + Bump(d[1..], k);
      forall i | 1 <= i < |d|
        ensures r[i].offset == d[i].offset
      {
        assert r[i] == Bump(d[1..], k)[i - 1];
        assert d[i] == d[1..][i - 1];
      }
    }
  }

  lemma {:induction false} BumpKeepsDict(d: Counts, k: int)
    requires IsDict(d)
    ensures IsDict(Bump(d, k))
  {
    BumpShape(d, k);
    var r := Bump(d, k);
    forall i, j | 0 <= i < j < |r|
      ensures r[i].offset != r[j].offset
    {
      if j == |d| {
        assert d[i].offset in Keys(d);
      }
    }
  }

  /** `count` successive bumps of the same key. */
  function BumpN(d: Counts, k: int, count: nat): Counts
    decreases count
  {
    if count == 0 then d else BumpN(Bump(d, k), k, count - 1)
  }

  /** Bumping a key that sits last, and nowhere earlier, raises its count
      in place. */
  lemma {:induction false} BumpLast(d: Counts, k: int, c: int)
    requires k !in Keys(d)
    ensures Bump(d + [Tally(k, c)], k) == d + [Tally(k, c + 1)]
  {
    if d != [] {
      assert (d + [Tally(k, c)])[1..] == d[1..] + [Tally(k, c)];
      assert d[0].offset in Keys(d);
      BumpLast(d[1..], k, c);
    }
  }

  /** Repeated bumps of a fresh key append one tally with the full count. */
  lemma {:induction false} BumpNFresh(d: Counts, k: int, count: nat)
    requires k !in Keys(d)
    requires count >= 1
    ensures BumpN(d, k, count) == d + [Tally(k, count)]
  {
    if count == 1 {
      BumpFresh(d, k);
      assert BumpN(d, k, 1) == BumpN(Bump(d, k), k, 0);
    } else {
      BumpNFresh(d, k, count - 1);
      BumpNShift(d, k, count - 1);
      BumpLast(d, k, count - 1);
      assert BumpN(d, k, count) == Bump(d + [Tally(k, count - 1)], k);
    }
  }

  /** One more bump can be taken at the end instead of at the start. */
  lemma {:induction false} BumpNShift(d: Counts, k: int, count: nat)
    decreases count
    ensures BumpN(d, k, count + 1) == Bump(BumpN(d, k, count), k)
  {
    if count > 0 {
      BumpNShift(Bump(d, k), k, count - 1);
    }
  }
}
