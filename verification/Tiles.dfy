/** Tiles of the pyramid (pyramid.go): binary-searched slices of a tier's buckets,
    and the promise of the sealed flag. */
module Tiles {
  import opened Quotients
  import opened Pyramid

  function TStart(b: Bucket, w: real): real { b.key as real * w }

  /** The buckets with keys from `a` up to `b`. */
  function Within(cols: seq<Bucket>, a: int, b: int): seq<Bucket> {
    if cols == [] then []
    else
      var rest, last := Within(cols[..|cols| - 1], a, b), cols[|cols| - 1];
      if a <= last.key < b then rest + [last] else rest
  }

  /** The key at which tile `index` starts. */
  function Edge(index: int): int { index * BUCKETS_PER_TILE }

  function TileBuckets(cols: seq<Bucket>, index: int): seq<Bucket> {
    Within(cols, Edge(index), Edge(index + 1))
  }

  /** Newer data exists past the end of the tile. */
  predicate Sealed(cols: seq<Bucket>, index: int) {
    cols != [] && cols[|cols| - 1].key >= Edge(index + 1)
  }

  lemma StartsAt(b: Bucket, w: real, key: int)
    requires w > 0.0
    ensures TStart(b, w) >= key as real * w <==> b.key >= key
  {
    Multiplied(key as real, b.key as real, w);
  }

  /** In an ascending sequence the buckets of a key range lie together. */
  lemma {:induction false} SliceIsWithin(cols: seq<Bucket>, lo: nat, hi: nat, a: int, b: int)
    requires lo <= hi <= |cols|
    requires forall i :: 0 <= i < lo ==> cols[i].key < a
    requires forall i :: lo <= i < hi ==> a <= cols[i].key < b
    requires forall i :: hi <= i < |cols| ==> cols[i].key >= b
    ensures cols[lo..hi] == Within(cols, a, b)
  {
    if cols != [] {
      var n := |cols| - 1;
      if hi == n + 1 {
        if lo == n + 1 {
          SliceIsWithin(cols[..n], n, n, a, b);
        } else {
          SliceIsWithin(cols[..n], lo, n, a, b);
          assert cols[lo..hi] == cols[..n][lo..n] + [cols[n]];
        }
      } else {
        SliceIsWithin(cols[..n], lo, hi, a, b);
        assert cols[..n][lo..hi] == cols[lo..hi];
      }
    }
  }

  lemma BoundsInOrder(cols: seq<Bucket>, lo: nat, hi: nat, a: int, b: int)
    requires lo <= |cols| && hi <= |cols| && a <= b
    requires forall i :: 0 <= i < lo ==> cols[i].key < a
    requires forall i :: hi <= i < |cols| ==> cols[i].key >= b
    ensures lo <= hi
  {
    if hi < |cols| { assert cols[hi].key >= b; }
  }

  lemma PushKeepsAscending(cols: seq<Bucket>, w: real, s: Sample)
    requires w > 0.0 && Ascending(cols)
    ensures Ascending(Pushed(cols, w, s))
  {}

  // ------------------------------------------------------------ pyramid

  const DEFAULT_BUCKET_SECS := [0.001, 0.020, 0.500, 10.0]

  class Index {
    const tiers: seq<Tier>

    ghost predicate Valid()
      reads this, tiers
    {
      && |tiers| == |DEFAULT_BUCKET_SECS|
      && (forall i, j :: 0 <= i < j < |tiers| ==> tiers[i] != tiers[j])
      && (forall i :: 0 <= i < |tiers| ==>
            tiers[i].Valid() && tiers[i].bucketSec == DEFAULT_BUCKET_SECS[i] && Ascending(tiers[i].cols))
    }

    constructor ()
      ensures Valid() && fresh(tiers)
      ensures forall i :: 0 <= i < |tiers| ==> tiers[i].cols == []
    {
      var t0 := new Tier(DEFAULT_BUCKET_SECS[0]);
      var t1 := new Tier(DEFAULT_BUCKET_SECS[1]);
      var t2 := new Tier(DEFAULT_BUCKET_SECS[2]);
      var t3 := new Tier(DEFAULT_BUCKET_SECS[3]);
      tiers := [t0, t1, t2, t3];
    }

    method PushInto(k: nat, t: real, v: Values)
      requires Valid() && k < |tiers|
      modifies tiers[k]
      ensures Valid()
      ensures tiers[k].cols == Pushed(old(tiers[k].cols), DEFAULT_BUCKET_SECS[k], Sample(t, v))
    {
      PushKeepsAscending(tiers[k].cols, tiers[k].bucketSec, Sample(t, v));
      tiers[k].Push(t, v);
    }

    /** Folds one sample into every tier. */
    method Push(t: real, v: Values)
      requires Valid()
      modifies tiers
      ensures Valid()
      ensures forall i :: 0 <= i < |tiers| ==>
                tiers[i].cols == Pushed(old(tiers[i].cols), DEFAULT_BUCKET_SECS[i], Sample(t, v))
    {
      for k := 0 to |tiers|
        invariant Valid()
        invariant forall i :: 0 <= i < k ==>
          tiers[i].cols == Pushed(old(tiers[i].cols), DEFAULT_BUCKET_SECS[i], Sample(t, v))
        invariant forall i :: k <= i < |tiers| ==> tiers[i].cols == old(tiers[i].cols)
      {
        PushInto(k, t, v);
      }
    }

    method Reset()
      requires Valid()
      modifies tiers
      ensures Valid() && forall i :: 0 <= i < |tiers| ==> tiers[i].cols == []
    {
      for k := 0 to |tiers|
        invariant Valid() && forall i :: 0 <= i < k ==> tiers[i].cols == []
      {
        tiers[k].Reset();
      }
    }

    /** The coarsest tier that still has a bucket for every pixel. */
    method SelectTier(secPerPx: real) returns (best: int)
      requires Valid()
      ensures -1 <= best < |tiers|
      ensures best >= 0 ==> tiers[best].bucketSec <= secPerPx
      ensures forall i :: best < i < |tiers| ==> tiers[i].bucketSec > secPerPx
    {
      best := -1;
      for i := 0 to |tiers|
        invariant -1 <= best < i
        invariant best >= 0 ==> tiers[best].bucketSec <= secPerPx
        invariant forall j :: best < j < i ==> tiers[j].bucketSec > secPerPx
      {
        if tiers[i].bucketSec <= secPerPx {
          best := i;
        }
      }
    }

    /** The first bucket that starts at `from` or later. */
    method Search(cols: seq<Bucket>, w: real, from: int) returns (lo: nat)
      requires Ascending(cols) && w > 0.0
      ensures lo <= |cols|
      ensures forall i :: 0 <= i < lo ==> cols[i].key < from
      ensures forall i :: lo <= i < |cols| ==> cols[i].key >= from
    {
      lo := 0;
      var hi := |cols|;
      while lo < hi
        invariant 0 <= lo <= hi <= |cols|
        invariant forall i :: 0 <= i < lo ==> cols[i].key < from
        invariant forall i :: hi <= i < |cols| ==> cols[i].key >= from
      {
        var h := (lo + hi) / 2;
        StartsAt(cols[h], w, from);
        if TStart(cols[h], w) >= from as real * w {
          hi := h;
        } else {
          lo := h + 1;
        }
      }
    }

    /** The nominal start of a tile: none of its buckets starts earlier. */
    method TileStartSec(tier: int, index: int) returns (start: real)
      requires Valid()
      ensures if 0 <= tier < |tiers|
              then start == Edge(index) as real * DEFAULT_BUCKET_SECS[tier]
                   && forall b :: b in TileBuckets(tiers[tier].cols, index) ==>
                        TStart(b, DEFAULT_BUCKET_SECS[tier]) >= start
              else start == 0.0
    {
      if tier < 0 || tier >= |tiers| {
        return 0.0;
      }
      var w := tiers[tier].bucketSec;
      start := Edge(index) as real * w;
      WithinRange(tiers[tier].cols, Edge(index), Edge(index + 1));
      forall b | b in TileBuckets(tiers[tier].cols, index)
        ensures TStart(b, w) >= start
      {
        StartsAt(b, w, Edge(index));
      }
    }

    method Slice(cols: seq<Bucket>, w: real, index: int) returns (out: seq<Bucket>)
      requires Ascending(cols) && w > 0.0
      ensures out == TileBuckets(cols, index)
    {
      var lo := Search(cols, w, Edge(index));
      var hi := Search(cols, w, Edge(index + 1));
      BoundsInOrder(cols, lo, hi, Edge(index), Edge(index + 1));
      SliceIsWithin(cols, lo, hi, Edge(index), Edge(index + 1));
      out := cols[lo..hi];
    }

    method Tile(tier: int, index: int) returns (out: seq<Bucket>, sealed: bool)
      requires Valid()
      ensures if 0 <= tier < |tiers| && index >= 0
              then out == TileBuckets(tiers[tier].cols, index) && sealed == Sealed(tiers[tier].cols, index)
              else out == [] && !sealed
    {
      if tier < 0 || tier >= |tiers| || index < 0 {
        return [], false;
      }
      var tr := tiers[tier];
      out := Slice(tr.cols, tr.bucketSec, index);
      if tr.have { StartsAt(tr.cols[|tr.cols| - 1], tr.bucketSec, Edge(index + 1)); }
      sealed := tr.have && TStart(tr.cols[|tr.cols| - 1], tr.bucketSec) >= Edge(index + 1) as real * tr.bucketSec;
    }
  }

  lemma {:induction false} WithinRange(cols: seq<Bucket>, a: int, b: int)
    ensures forall x :: x in Within(cols, a, b) ==> x in cols && a <= x.key < b
  {
    if cols != [] { WithinRange(cols[..|cols| - 1], a, b); }
  }

  lemma {:induction false} WithinHasAll(cols: seq<Bucket>, a: int, b: int, x: Bucket)
    requires x in cols && a <= x.key < b
    ensures x in Within(cols, a, b)
  {
    var n := |cols| - 1;
    if x != cols[n] {
      assert x in cols[..n];
      WithinHasAll(cols[..n], a, b, x);
    }
  }

  lemma {:induction false} WithinAscends(cols: seq<Bucket>, a: int, b: int)
    requires Ascending(cols)
    ensures Ascending(Within(cols, a, b))
  {
    if cols != [] {
      var n := |cols| - 1;
      WithinAscends(cols[..n], a, b);
      WithinRange(cols[..n], a, b);
      var rest := Within(cols[..n], a, b);
      forall i | 0 <= i < |rest|
        ensures rest[i].key < cols[n].key
      {
        assert rest[i] in rest && rest[i] in cols[..n];
      }
    }
  }

  /** A tile holds exactly the buckets whose keys are its 1024, in their order. */
  lemma TileHolds(cols: seq<Bucket>, index: int)
    requires Ascending(cols)
    ensures Ascending(TileBuckets(cols, index))
    ensures forall x :: x in TileBuckets(cols, index) <==>
              x in cols && 1024 * index <= x.key < 1024 * index + 1024
  {
    WithinAscends(cols, Edge(index), Edge(index + 1));
    WithinRange(cols, Edge(index), Edge(index + 1));
    forall x | x in cols && 1024 * index <= x.key < 1024 * index + 1024
      ensures x in TileBuckets(cols, index)
    {
      WithinHasAll(cols, Edge(index), Edge(index + 1), x);
    }
  }

  // ------------------------------------------------------------ sealed tiles

  function After(cols: seq<Bucket>, w: real, more: seq<Sample>): seq<Bucket>
    requires w > 0.0
  {
    if more == [] then cols else Pushed(After(cols, w, more[..|more| - 1]), w, more[|more| - 1])
  }

  lemma WithinOfMore(cols: seq<Bucket>, b: Bucket, lo: int, hi: int)
    ensures Within(cols + [b], lo, hi)
         == if lo <= b.key < hi then Within(cols, lo, hi) + [b] else Within(cols, lo, hi)
  {
    assert (cols + [b])[..|cols|] == cols;
  }

  lemma PushKeepsSealed(cols: seq<Bucket>, w: real, s: Sample, index: int)
    requires w > 0.0 && Sealed(cols, index)
    ensures Sealed(Pushed(cols, w, s), index)
    ensures TileBuckets(Pushed(cols, w, s), index) == TileBuckets(cols, index)
  {
    var n := |cols| - 1;
    assert cols == cols[..n] + [cols[n]];
    WithinOfMore(cols[..n], cols[n], Edge(index), Edge(index + 1));
    WithinOfMore(cols[..n], Fold(cols[n], s.v), Edge(index), Edge(index + 1));
    WithinOfMore(cols, Fresh(Key(s, w), s.v), Edge(index), Edge(index + 1));
  }

  /** Once sealed, a tile never changes again, whatever is pushed. */
  lemma {:induction false} SealedNeverChanges(cols: seq<Bucket>, w: real, more: seq<Sample>, index: int)
    requires w > 0.0 && Sealed(cols, index)
    ensures Sealed(After(cols, w, more), index)
    ensures TileBuckets(After(cols, w, more), index) == TileBuckets(cols, index)
  {
    if more != [] {
      SealedNeverChanges(cols, w, more[..|more| - 1], index);
      PushKeepsSealed(After(cols, w, more[..|more| - 1]), w, more[|more| - 1], index);
    }
  }

  /** A sample at the start of a bucket has that bucket's key. */
  lemma KeyAtStart(key: int, w: real, v: Values)
    requires w > 0.0 && key >= 0
    ensures Key(Sample(key as real * w, v), w) == key
  {
    DivideBack(key as real * w, w);
    Multiplied(key as real * w / w, key as real, w);
    Multiplied(key as real, key as real * w / w, w);
  }

  lemma NotSealedChanges(cols: seq<Bucket>, w: real, index: int, v: Values) returns (s: Sample)
    requires w > 0.0 && index >= 0 && !Sealed(cols, index)
    ensures TileBuckets(Pushed(cols, w, s), index) != TileBuckets(cols, index)
  {
    var n := |cols|;
    var key := if n > 0 && cols[n - 1].key > Edge(index) then cols[n - 1].key else Edge(index);
    s := Sample(key as real * w, v);
    KeyAtStart(key, w, v);
    WithinOfMore(cols, Fresh(key, v), Edge(index), Edge(index + 1));
    if n > 0 && cols[n - 1].key == key {
      assert cols == cols[..n - 1] + [cols[n - 1]];
      WithinOfMore(cols[..n - 1], cols[n - 1], Edge(index), Edge(index + 1));
      WithinOfMore(cols[..n - 1], Fold(cols[n - 1], v), Edge(index), Edge(index + 1));
      var rest := Within(cols[..n - 1], Edge(index), Edge(index + 1));
      assert (rest + [cols[n - 1]])[|rest|] != (rest + [Fold(cols[n - 1], v)])[|rest|];
    }
  }

  /** The sealed flag is exact: a tile is sealed if and only if no sample could
      change it. */
  lemma SealedExactly(cols: seq<Bucket>, w: real, index: int)
    requires w > 0.0 && index >= 0
    ensures Sealed(cols, index) <==>
              forall s :: TileBuckets(Pushed(cols, w, s), index) == TileBuckets(cols, index)
  {
    if Sealed(cols, index) {
      forall s
        ensures TileBuckets(Pushed(cols, w, s), index) == TileBuckets(cols, index)
      {
        PushKeepsSealed(cols, w, s, index);
      }
    } else {
      var s := NotSealedChanges(cols, w, index, seq(NUM_CHANNELS, _ => 0.0));
    }
  }

  // ------------------------------------------------------------ partition

  function TilesUpTo(cols: seq<Bucket>, n: nat): seq<Bucket> {
    if n == 0 then [] else TilesUpTo(cols, n - 1) + TileBuckets(cols, n - 1)
  }

  /** Neighbouring ranges of an ascending sequence join without loss. */
  lemma {:induction false} RangesJoin(cols: seq<Bucket>, a: int, b: int, c: int)
    requires Ascending(cols) && a <= b <= c
    ensures Within(cols, a, b) + Within(cols, b, c) == Within(cols, a, c)
  {
    if cols != [] {
      var n := |cols| - 1;
      RangesJoin(cols[..n], a, b, c);
      if cols[n].key < b {
        NoneAbove(cols[..n], b, c);
      }
    }
  }

  lemma {:induction false} NoneAbove(cols: seq<Bucket>, b: int, c: int)
    requires forall i :: 0 <= i < |cols| ==> cols[i].key < b
    ensures Within(cols, b, c) == []
  {
    if cols != [] { NoneAbove(cols[..|cols| - 1], b, c); }
  }

  /** The first `n` tiles, one after the other, are the buckets of their range. */
  lemma {:induction false} TilesPartition(cols: seq<Bucket>, n: nat)
    requires Ascending(cols)
    ensures TilesUpTo(cols, n) == Within(cols, 0, Edge(n))
  {
    if n == 0 {
      EmptyRange(cols, 0);
    } else {
      TilesPartition(cols, n - 1);
      RangesJoin(cols, 0, Edge(n - 1), Edge(n));
    }
  }

  lemma {:induction false} EmptyRange(cols: seq<Bucket>, a: int)
    ensures Within(cols, a, a) == []
  {
    if cols != [] { EmptyRange(cols[..|cols| - 1], a); }
  }

  lemma {:induction false} AllWithin(cols: seq<Bucket>, a: int, b: int)
    requires forall i :: 0 <= i < |cols| ==> a <= cols[i].key < b
    ensures Within(cols, a, b) == cols
  {
    if cols != [] { AllWithin(cols[..|cols| - 1], a, b); }
  }

  /** Together the tiles hold every bucket of the tier once, in order, if and only
      if no bucket precedes time zero or lies behind the tiles. */
  lemma TilesAreEverything(cols: seq<Bucket>, n: nat)
    requires Ascending(cols)
    ensures TilesUpTo(cols, n) == cols
       <==> (cols != [] ==> cols[0].key >= 0 && cols[|cols| - 1].key < Edge(n))
  {
    TilesPartition(cols, n);
    if cols != [] {
      if cols[0].key >= 0 && cols[|cols| - 1].key < Edge(n) {
        AllWithin(cols, 0, Edge(n));
      }
      WithinRange(cols, 0, Edge(n));
      assert cols[0] in cols && cols[|cols| - 1] in cols;
    }
  }

  /** The tier of width `coarse` is that of width `w` merged `r` buckets at a time,
      if and only if no sample is late for the finer one only. */
  ghost predicate MergesExactly(ss: seq<Sample>, w: real, r: int, coarse: real)
    requires w > 0.0 && r > 0 && coarse > 0.0
  {
    && Counted(Built(ss, w))
    && (Built(ss, coarse) == Merged(Built(ss, w), r) <==> LateTogether(ss, w, coarse))
  }

  lemma TiersMergeExactly(ss: seq<Sample>, w: real, r: int, coarse: real)
    requires w > 0.0 && r > 0 && w * r as real == coarse > 0.0
    ensures MergesExactly(ss, w, r, coarse)
  {
    TiersAgreeExactly(ss, w, r);
  }

  /** How many buckets of a default tier the next one merges. */
  const MERGED_AT_A_TIME := [20, 25, 20]

  /** The index's tiers run from a millisecond to ten seconds, and each is the one
      below merged 20, 25 and 20 buckets at a time, under exactly that condition. */
  lemma DefaultTiersAgreeExactly(ss: seq<Sample>, i: nat)
    requires i + 1 < |DEFAULT_BUCKET_SECS|
    ensures DEFAULT_BUCKET_SECS[0] == 0.001 && DEFAULT_BUCKET_SECS[3] == 10.0 && |DEFAULT_BUCKET_SECS| == 4
    ensures MergesExactly(ss, DEFAULT_BUCKET_SECS[i], MERGED_AT_A_TIME[i], DEFAULT_BUCKET_SECS[i + 1])
  {
    TiersMergeExactly(ss, DEFAULT_BUCKET_SECS[i], MERGED_AT_A_TIME[i], DEFAULT_BUCKET_SECS[i + 1]);
  }

  /** Out of order the tiers can part: a late sample too old for a fine tier may
      still be in the current bucket of a coarse one. */
  lemma LateSampleSplitsTiers(v: Values)
    ensures var ss := [Sample(0.0015, v), Sample(0.0005, v)];
            Counted(Built(ss, 0.001)) && Built(ss, 0.020) != Merged(Built(ss, 0.001), 20)
  {
    var a, b := Sample(0.0015, v), Sample(0.0005, v);
    var ss := [a, b];
    assert ss[..1] == [a] && [a][..0] == [];
    assert Key(a, 0.001) == 1 && Key(b, 0.001) == 0;
    assert Key(a, 0.020) == 0 && Key(b, 0.020) == 0;
    assert Built([a], 0.001) == [] + [Fresh(1, v)] && Built(ss, 0.001) == [Fresh(1, v)];
    assert Built([a], 0.020) == [] + [Fresh(0, v)];
    assert Built(ss, 0.020)[0].count == 2;
    MergedOfMore([], Fresh(1, v), 20);
    assert [] + [Fresh(1, v)] == [Fresh(1, v)];
  }
}
