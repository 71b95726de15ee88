/** The multi-resolution envelope of the display channels (pyramid.go). Time and
    values are exact reals. */
module Pyramid {
  import opened Quotients
  import Arith

  const NUM_CHANNELS := 8
  const BUCKETS_PER_TILE := 1024

  type Values = v: seq<real> | |v| == NUM_CHANNELS witness seq(NUM_CHANNELS, _ => 0.0)

  datatype Sample = Sample(t: real, v: Values)

  /** The envelope of one time bucket; `key` is its start in bucket widths. */
  datatype Bucket = Bucket(key: int, min: Values, max: Values, mean: Values, count: nat)

  // ------------------------------------------------------------ one tier

  function Key(s: Sample, w: real): int
    requires w > 0.0
  {
    Trunc(s.t / w)
  }

  function Fresh(key: int, v: Values): Bucket { Bucket(key, v, v, v, 1) }

  function Lower(a: real, b: real): real { if b < a then b else a }

  function Upper(a: real, b: real): real { if b > a then b else a }

  function Fold(b: Bucket, v: Values): Bucket {
    var n := (b.count + 1) as real;
    Bucket(b.key,
           seq(NUM_CHANNELS, c requires 0 <= c < NUM_CHANNELS => Lower(b.min[c], v[c])),
           seq(NUM_CHANNELS, c requires 0 <= c < NUM_CHANNELS => Upper(b.max[c], v[c])),
           seq(NUM_CHANNELS, c requires 0 <= c < NUM_CHANNELS => b.mean[c] + (v[c] - b.mean[c]) / n),
           b.count + 1)
  }

  /** The buckets after one more sample. */
  function Pushed(cols: seq<Bucket>, w: real, s: Sample): seq<Bucket>
    requires w > 0.0
  {
    var n, idx := |cols|, Key(s, w);
    if n > 0 && idx < cols[n - 1].key then cols
    else if n == 0 || idx != cols[n - 1].key then cols + [Fresh(idx, s.v)]
    else cols[..n - 1] + [Fold(cols[n - 1], s.v)]
  }

  class Tier {
    const bucketSec: real
    var cols: seq<Bucket>
    var curIndex: int
    var have: bool

    ghost predicate Valid()
      reads this
    {
      && bucketSec > 0.0
      && (have <==> cols != []) && (have ==> curIndex == cols[|cols| - 1].key)
    }

    constructor (bucketSec: real)
      requires bucketSec > 0.0
      ensures Valid() && cols == [] && this.bucketSec == bucketSec
    {
      this.bucketSec := bucketSec;
      cols, curIndex, have := [], -1, false;
    }

    method Push(ts: real, v: Values)
      requires Valid()
      modifies this
      ensures Valid() && cols == Pushed(old(cols), bucketSec, Sample(ts, v))
    {
      var idx := Trunc(ts / bucketSec);
      if have && idx < curIndex {
        return;
      }
      if !have || idx != curIndex {
        cols := cols + [Bucket(idx, v, v, v, 1)];
        curIndex := idx;
        have := true;
        return;
      }
      var last := |cols| - 1;
      var b := FoldInto(cols[last], v);
      cols := cols[..last] + [b];
    }

    method FoldInto(b: Bucket, v: Values) returns (r: Bucket)
      ensures r == Fold(b, v)
    {
      var min, max, mean := b.min, b.max, b.mean;
      var count := b.count + 1;
      var n := count as real;
      for i := 0 to NUM_CHANNELS
        invariant |min| == |max| == |mean| == NUM_CHANNELS
        invariant forall c :: 0 <= c < NUM_CHANNELS ==>
          min[c] == if c < i then Lower(b.min[c], v[c]) else b.min[c]
        invariant forall c :: 0 <= c < NUM_CHANNELS ==>
          max[c] == if c < i then Upper(b.max[c], v[c]) else b.max[c]
        invariant forall c :: 0 <= c < NUM_CHANNELS ==>
          mean[c] == if c < i then b.mean[c] + (v[c] - b.mean[c]) / n else b.mean[c]
      {
        if v[i] < min[i] {
          min := min[i := v[i]];
        }
        if v[i] > max[i] {
          max := max[i := v[i]];
        }
        mean := mean[i := mean[i] + (v[i] - mean[i]) / n];
      }
      r := Bucket(b.key, min, max, mean, count);
      assert min == Fold(b, v).min && max == Fold(b, v).max && mean == Fold(b, v).mean;
    }

    method Reset()
      modifies this
      requires bucketSec > 0.0
      ensures Valid() && cols == []
    {
      cols, curIndex, have := [], -1, false;
    }
  }

  // ------------------------------------------------------------ group by

  /** The buckets after a run of samples. */
  function Built(ss: seq<Sample>, w: real): seq<Bucket>
    requires w > 0.0
  {
    if ss == [] then [] else Pushed(Built(ss[..|ss| - 1], w), w, ss[|ss| - 1])
  }

  /** The samples that are not dropped: those not before the last one taken. */
  function Accepted(ss: seq<Sample>, w: real): seq<Sample>
    requires w > 0.0
  {
    if ss == [] then []
    else
      var before, s := Accepted(ss[..|ss| - 1], w), ss[|ss| - 1];
      if before != [] && Key(s, w) < Key(before[|before| - 1], w) then before else before + [s]
  }

  /** The values of the samples with one key, in order. */
  function Group(ss: seq<Sample>, w: real, key: int): seq<Values>
    requires w > 0.0
  {
    if ss == [] then []
    else if Key(ss[|ss| - 1], w) == key then Group(ss[..|ss| - 1], w, key) + [ss[|ss| - 1].v]
    else Group(ss[..|ss| - 1], w, key)
  }

  function Sum(g: seq<Values>, c: nat): real
    requires c < NUM_CHANNELS
  {
    if g == [] then 0.0 else Sum(g[..|g| - 1], c) + g[|g| - 1][c]
  }

  /** `x` is the least value of a channel in the group: a bound that is attained. */
  ghost predicate IsLeast(x: real, g: seq<Values>, c: nat)
    requires c < NUM_CHANNELS
  {
    (forall i :: 0 <= i < |g| ==> x <= g[i][c]) && (exists i :: 0 <= i < |g| && g[i][c] == x)
  }

  ghost predicate IsGreatest(x: real, g: seq<Values>, c: nat)
    requires c < NUM_CHANNELS
  {
    (forall i :: 0 <= i < |g| ==> x >= g[i][c]) && (exists i :: 0 <= i < |g| && g[i][c] == x)
  }

  /** A bucket is the envelope of a group: its count, and for every channel its
      least and greatest value and its mean. */
  ghost predicate IsEnvelope(b: Bucket, g: seq<Values>) {
    && b.count == |g| > 0
    && forall c :: 0 <= c < NUM_CHANNELS ==> ChannelEnvelope(b, g, c)
  }

  ghost predicate ChannelEnvelope(b: Bucket, g: seq<Values>, c: nat)
    requires c < NUM_CHANNELS
  {
    IsLeast(b.min[c], g, c) && IsGreatest(b.max[c], g, c) && b.mean[c] * b.count as real == Sum(g, c)
  }

  ghost predicate Ascending(cols: seq<Bucket>) {
    forall i, j :: 0 <= i < j < |cols| ==> cols[i].key < cols[j].key
  }

  ghost predicate HasKey(cols: seq<Bucket>, key: int) {
    exists i :: 0 <= i < |cols| && cols[i].key == key
  }

  /** The buckets are the samples grouped by key: one bucket a key, ascending, each
      the envelope of its group, and no sample without a bucket. */
  ghost predicate IsGroupBy(cols: seq<Bucket>, ss: seq<Sample>, w: real)
    requires w > 0.0
  {
    && Ascending(cols)
    && (forall i :: 0 <= i < |cols| ==> IsEnvelope(cols[i], Group(ss, w, cols[i].key)))
    && (forall j :: 0 <= j < |ss| ==> HasKey(cols, Key(ss[j], w)))
    && (ss != [] ==> cols != [] && cols[|cols| - 1].key == Key(ss[|ss| - 1], w))
    && (ss == [] ==> cols == [])
  }

  lemma RunningMean(m: real, x: real, n: nat)
    requires n >= 1
    ensures (m + (x - m) / (n + 1) as real) * (n + 1) as real == m * n as real + x
  {
    DivideBack(x - m, (n + 1) as real);
    var d := (x - m) / (n + 1) as real;
    assert (m + d) * (n + 1) as real == m * (n + 1) as real + d * (n + 1) as real;
  }

  lemma LeastOfMore(x: real, g: seq<Values>, v: Values, c: nat)
    requires c < NUM_CHANNELS && IsLeast(x, g, c)
    ensures IsLeast(Lower(x, v[c]), g + [v], c)
  {
    var i :| 0 <= i < |g| && g[i][c] == x;
    assert (g + [v])[i][c] == x && (g + [v])[|g|][c] == v[c];
  }

  lemma GreatestOfMore(x: real, g: seq<Values>, v: Values, c: nat)
    requires c < NUM_CHANNELS && IsGreatest(x, g, c)
    ensures IsGreatest(Upper(x, v[c]), g + [v], c)
  {
    var i :| 0 <= i < |g| && g[i][c] == x;
    assert (g + [v])[i][c] == x && (g + [v])[|g|][c] == v[c];
  }

  lemma SumOfMore(g: seq<Values>, v: Values, c: nat)
    requires c < NUM_CHANNELS
    ensures Sum(g + [v], c) == Sum(g, c) + v[c]
  {
    assert (g + [v])[..|g|] == g;
  }

  lemma FoldedChannel(b: Bucket, v: Values, c: nat)
    requires c < NUM_CHANNELS && b.count >= 1
    ensures var f := Fold(b, v);
      && f.min[c] == Lower(b.min[c], v[c]) && f.max[c] == Upper(b.max[c], v[c])
      && f.mean[c] * f.count as real == b.mean[c] * b.count as real + v[c]
  {
    RunningMean(b.mean[c], v[c], b.count);
  }

  lemma FoldKeepsChannel(b: Bucket, g: seq<Values>, v: Values, c: nat)
    requires c < NUM_CHANNELS && b.count == |g| > 0 && ChannelEnvelope(b, g, c)
    ensures ChannelEnvelope(Fold(b, v), g + [v], c)
  {
    LeastOfMore(b.min[c], g, v, c);
    GreatestOfMore(b.max[c], g, v, c);
    SumOfMore(g, v, c);
    FoldedChannel(b, v, c);
  }

  lemma FoldKeepsEnvelope(b: Bucket, g: seq<Values>, v: Values)
    requires IsEnvelope(b, g)
    ensures IsEnvelope(Fold(b, v), g + [v])
  {
    forall c | 0 <= c < NUM_CHANNELS
      ensures ChannelEnvelope(Fold(b, v), g + [v], c)
    {
      FoldKeepsChannel(b, g, v, c);
    }
  }

  lemma FreshIsEnvelope(key: int, v: Values)
    ensures IsEnvelope(Fresh(key, v), [v])
  {
    forall c | 0 <= c < NUM_CHANNELS
      ensures ChannelEnvelope(Fresh(key, v), [v], c)
    {
      assert [v][0][c] == v[c] && [v][..0] == [];
    }
  }

  lemma GroupOfMore(ss: seq<Sample>, s: Sample, w: real, key: int)
    requires w > 0.0
    ensures Group(ss + [s], w, key) == if Key(s, w) == key then Group(ss, w, key) + [s.v] else Group(ss, w, key)
  {
    assert (ss + [s])[..|ss|] == ss;
  }

  lemma {:induction false} NoGroup(ss: seq<Sample>, w: real, key: int)
    requires w > 0.0 && forall j :: 0 <= j < |ss| ==> Key(ss[j], w) != key
    ensures Group(ss, w, key) == []
  {
    if ss != [] { NoGroup(ss[..|ss| - 1], w, key); }
  }

  /** A sample with a new, later key opens a bucket. */
  lemma OpenKeepsGroupBy(cols: seq<Bucket>, ss: seq<Sample>, w: real, s: Sample)
    requires w > 0.0 && IsGroupBy(cols, ss, w)
    requires cols != [] ==> cols[|cols| - 1].key < Key(s, w)
    ensures IsGroupBy(cols + [Fresh(Key(s, w), s.v)], ss + [s], w)
  {
    var key := Key(s, w);
    var more := cols + [Fresh(key, s.v)];
    forall j | 0 <= j < |ss|
      ensures Key(ss[j], w) != key
    {
      assert HasKey(cols, Key(ss[j], w));
      var i :| 0 <= i < |cols| && cols[i].key == Key(ss[j], w);
    }
    NoGroup(ss, w, key);
    FreshIsEnvelope(key, s.v);
    forall i | 0 <= i < |more|
      ensures IsEnvelope(more[i], Group(ss + [s], w, more[i].key))
    {
      GroupOfMore(ss, s, w, more[i].key);
      assert [] + [s.v] == [s.v];
    }
    KeysOfMore(cols, more, ss, s, w);
  }

  lemma KeysOfMore(cols: seq<Bucket>, more: seq<Bucket>, ss: seq<Sample>, s: Sample, w: real)
    requires w > 0.0 && forall j :: 0 <= j < |ss| ==> HasKey(cols, Key(ss[j], w))
    requires |cols| <= |more| && more != [] && more[|more| - 1].key == Key(s, w)
    requires forall i :: 0 <= i < |cols| ==> more[i].key == cols[i].key
    ensures forall j :: 0 <= j < |ss + [s]| ==> HasKey(more, Key((ss + [s])[j], w))
  {
    forall j | 0 <= j < |ss + [s]|
      ensures HasKey(more, Key((ss + [s])[j], w))
    {
      if j < |ss| {
        assert HasKey(cols, Key(ss[j], w));
        var i :| 0 <= i < |cols| && cols[i].key == Key(ss[j], w);
        assert more[i].key == Key(ss[j], w);
      } else {
        assert more[|more| - 1].key == Key(s, w);
      }
    }
  }

  /** A sample with the key of the last bucket is folded into it. */
  lemma FoldKeepsGroupBy(cols: seq<Bucket>, ss: seq<Sample>, w: real, s: Sample)
    requires w > 0.0 && IsGroupBy(cols, ss, w)
    requires cols != [] && cols[|cols| - 1].key == Key(s, w)
    ensures IsGroupBy(cols[..|cols| - 1] + [Fold(cols[|cols| - 1], s.v)], ss + [s], w)
  {
    var n := |cols| - 1;
    var more := cols[..n] + [Fold(cols[n], s.v)];
    FoldKeepsEnvelope(cols[n], Group(ss, w, cols[n].key), s.v);
    forall i | 0 <= i < |more|
      ensures IsEnvelope(more[i], Group(ss + [s], w, more[i].key))
    {
      GroupOfMore(ss, s, w, more[i].key);
      assert more[i].key == cols[i].key;
    }
    KeysOfMore(cols, more, ss, s, w);
  }

  /** Whatever the samples, a tier holds exactly the accepted ones grouped by key. */
  lemma {:induction false} TierIsGroupBy(ss: seq<Sample>, w: real)
    requires w > 0.0
    ensures IsGroupBy(Built(ss, w), Accepted(ss, w), w)
  {
    if ss != [] {
      var before, s := ss[..|ss| - 1], ss[|ss| - 1];
      TierIsGroupBy(before, w);
      var cols, taken := Built(before, w), Accepted(before, w);
      if taken == [] || cols[|cols| - 1].key < Key(s, w) {
        OpenKeepsGroupBy(cols, taken, w, s);
      } else if cols[|cols| - 1].key == Key(s, w) {
        FoldKeepsGroupBy(cols, taken, w, s);
      }
    }
  }

  lemma ScaledBetween(q: real, t: real, lo: int, hi: int, w: real)
    requires w > 0.0 && q * w == t
    ensures lo as real <= q < hi as real <==> lo as real * w <= t < hi as real * w
    ensures lo as real < q <= hi as real <==> lo as real * w < t <= hi as real * w
  {
    Multiplied(lo as real, q, w);
    Multiplied(q, lo as real, w);
    Multiplied(hi as real, q, w);
    Multiplied(q, hi as real, w);
  }

  lemma TruncMeans(q: real)
    ensures q >= 0.0 ==> Trunc(q) as real <= q < (Trunc(q) + 1) as real
    ensures q <= 0.0 ==> (Trunc(q) - 1) as real < q <= Trunc(q) as real
  {}

  /** A sample's bucket holds its instant. Keys count the widths away from zero on
      both sides, so bucket zero has a width on each. */
  lemma KeyMeans(s: Sample, w: real)
    requires w > 0.0
    ensures var k := Key(s, w);
      && (s.t >= 0.0 ==> k as real * w <= s.t < (k + 1) as real * w)
      && (s.t <= 0.0 ==> (k - 1) as real * w < s.t <= k as real * w)
  {
    var q, k := s.t / w, Key(s, w);
    DivideBack(s.t, w);
    SignOfQuotient(s.t, w);
    TruncMeans(q);
    ScaledBetween(q, s.t, k, k + 1, w);
    ScaledBetween(q, s.t, k - 1, k, w);
  }

  ghost predicate NonDecreasing(ss: seq<Sample>) {
    forall i, j :: 0 <= i <= j < |ss| ==> ss[i].t <= ss[j].t
  }

  lemma LaterKey(a: Sample, b: Sample, w: real)
    requires w > 0.0 && a.t <= b.t
    ensures Key(a, w) <= Key(b, w)
  {
    DivideMonotone(a.t, b.t, w);
    TruncMonotone(a.t / w, b.t / w);
  }

  lemma AcceptedOfMore(ss: seq<Sample>, s: Sample, w: real)
    requires w > 0.0 && Accepted(ss, w) == ss && (ss != [] ==> Key(ss[|ss| - 1], w) <= Key(s, w))
    ensures Accepted(ss + [s], w) == ss + [s]
  {
    assert (ss + [s])[..|ss|] == ss;
  }

  /** In order, no sample is dropped. */
  lemma {:induction false} InOrderAllAccepted(ss: seq<Sample>, w: real)
    requires w > 0.0 && NonDecreasing(ss)
    ensures Accepted(ss, w) == ss
  {
    if ss != [] {
      var before, s := ss[..|ss| - 1], ss[|ss| - 1];
      assert ss == before + [s];
      InOrderAllAccepted(before, w);
      if before != [] { LaterKey(before[|before| - 1], s, w); }
      AcceptedOfMore(before, s, w);
    }
  }

  // ------------------------------------------------------------ tiers agree

  /** What a channel of a bucket adds up to. */
  function Weight(b: Bucket, c: nat): real
    requires c < NUM_CHANNELS
  {
    b.mean[c] * b.count as real
  }

  /** Two neighbouring finer buckets as one. */
  function Join(a: Bucket, b: Bucket): Bucket
    requires a.count + b.count > 0
  {
    var n := (a.count + b.count) as real;
    Bucket(a.key,
           seq(NUM_CHANNELS, c requires 0 <= c < NUM_CHANNELS => Lower(a.min[c], b.min[c])),
           seq(NUM_CHANNELS, c requires 0 <= c < NUM_CHANNELS => Upper(a.max[c], b.max[c])),
           seq(NUM_CHANNELS, c requires 0 <= c < NUM_CHANNELS => (Weight(a, c) + Weight(b, c)) / n),
           a.count + b.count)
  }

  ghost predicate Counted(cols: seq<Bucket>) { forall i :: 0 <= i < |cols| ==> cols[i].count > 0 }

  /** The finer buckets merged `r` widths at a time: counts added, least and
      greatest values kept, means weighted by their counts. */
  function Merged(fine: seq<Bucket>, r: int): seq<Bucket>
    requires r > 0 && Counted(fine)
  {
    if fine == [] then []
    else
      var f := fine[|fine| - 1];
      var rest := Merged(fine[..|fine| - 1], r);
      var key := TDiv(f.key, r);
      if rest != [] && rest[|rest| - 1].key == key then rest[..|rest| - 1] + [Join(rest[|rest| - 1], f)]
      else rest + [f.(key := key)]
  }

  /** One more value in a mean of `j` values that add up to `total`. */
  lemma MeanOfMore(total: real, j: nat, x: real)
    requires j >= 1
    ensures (total + x) / (j + 1) as real == total / j as real + (x - total / j as real) / (j + 1) as real
  {
    var y := total / j as real + (x - total / j as real) / (j + 1) as real;
    RunningMean(total / j as real, x, j);
    DivideBack(total, j as real);
    DivideBack(total + x, (j + 1) as real);
    Multiplied((total + x) / (j + 1) as real, y, (j + 1) as real);
    Multiplied(y, (total + x) / (j + 1) as real, (j + 1) as real);
  }

  lemma JoinedMean(a: Bucket, b: Bucket, c: nat)
    requires c < NUM_CHANNELS && a.count + b.count > 0
    ensures Join(a, b).mean[c] == (Weight(a, c) + Weight(b, c)) / (a.count + b.count) as real
  {}

  lemma FoldedMean(b: Bucket, v: Values, c: nat)
    requires c < NUM_CHANNELS
    ensures Fold(b, v).mean[c] == b.mean[c] + (v[c] - b.mean[c]) / (b.count + 1) as real
  {}

  lemma FoldedWeight(f: Bucket, v: Values, c: nat)
    requires c < NUM_CHANNELS && f.count > 0
    ensures Weight(Fold(f, v), c) == Weight(f, c) + v[c]
  {
    FoldedChannel(f, v, c);
  }

  lemma SameQuotient(x: real, y: real, d: real)
    requires x == y && d != 0.0
    ensures x / d == y / d
  {}

  lemma JoinFoldMean(a: Bucket, f: Bucket, v: Values, c: nat)
    requires c < NUM_CHANNELS && a.count > 0 && f.count > 0
    ensures Join(a, Fold(f, v)).mean[c] == Fold(Join(a, f), v).mean[c]
  {
    var total, n := Weight(a, c) + Weight(f, c), a.count + f.count;
    FoldedWeight(f, v, c);
    JoinedMean(a, Fold(f, v), c);
    SameQuotient(Weight(a, c) + Weight(Fold(f, v), c), total + v[c], (n + 1) as real);
    JoinedMean(a, f, c);
    FoldedMean(Join(a, f), v, c);
    MeanOfMore(total, n, v[c]);
  }

  /** Folding into the finer of two joined buckets is folding into the join. */
  lemma JoinFold(a: Bucket, f: Bucket, v: Values)
    requires a.count > 0 && f.count > 0
    ensures Join(a, Fold(f, v)) == Fold(Join(a, f), v)
  {
    var x, y := Join(a, Fold(f, v)), Fold(Join(a, f), v);
    assert x.min == y.min && x.max == y.max;
    forall c | 0 <= c < NUM_CHANNELS
      ensures x.mean[c] == y.mean[c]
    {
      JoinFoldMean(a, f, v, c);
    }
    assert x.mean == y.mean;
  }

  lemma JoinFreshChannel(a: Bucket, key: int, v: Values, c: nat)
    requires c < NUM_CHANNELS && a.count > 0
    ensures Join(a, Fresh(key, v)).mean[c] == Fold(a, v).mean[c]
  {
    JoinedMean(a, Fresh(key, v), c);
    FoldedMean(a, v, c);
    MeanOfMore(Weight(a, c), a.count, v[c]);
    WeightBack(a.mean[c], a.count);
  }

  lemma WeightBack(m: real, n: nat)
    requires n > 0
    ensures m * n as real / n as real == m
  {}

  lemma JoinFresh(a: Bucket, key: int, v: Values)
    requires a.count > 0
    ensures Join(a, Fresh(key, v)) == Fold(a, v)
  {
    var x, y := Join(a, Fresh(key, v)), Fold(a, v);
    assert x.min == y.min && x.max == y.max;
    forall c | 0 <= c < NUM_CHANNELS
      ensures x.mean[c] == y.mean[c]
    {
      JoinFreshChannel(a, key, v, c);
    }
    assert x.mean == y.mean;
  }

  lemma MergedOfMore(fine: seq<Bucket>, f: Bucket, r: int)
    requires r > 0 && Counted(fine) && f.count > 0
    ensures var rest, key := Merged(fine, r), TDiv(f.key, r);
            Merged(fine + [f], r) ==
            if rest != [] && rest[|rest| - 1].key == key then rest[..|rest| - 1] + [Join(rest[|rest| - 1], f)]
            else rest + [f.(key := key)]
  {
    assert (fine + [f])[..|fine|] == fine;
  }

  /** The merged buckets are counted too, and the last one covers the last finer one. */
  lemma {:induction false} MergedLast(fine: seq<Bucket>, r: int)
    requires r > 0 && Counted(fine)
    ensures var coarse := Merged(fine, r);
      && Counted(coarse) && (fine == [] <==> coarse == [])
      && (fine != [] ==> coarse[|coarse| - 1].key == TDiv(fine[|fine| - 1].key, r))
  {
    if fine != [] {
      var n := |fine| - 1;
      MergedLast(fine[..n], r);
    }
  }

  /** A new finer bucket. */
  lemma OpenKeepsMerge(fine: seq<Bucket>, w: real, r: int, coarse: real, s: Sample)
    requires w > 0.0 && r > 0 && coarse > 0.0 && Counted(fine) && Key(s, coarse) == TDiv(Key(s, w), r)
    requires fine != [] ==> fine[|fine| - 1].key < Key(s, w)
    ensures Merged(fine + [Fresh(Key(s, w), s.v)], r) == Pushed(Merged(fine, r), coarse, s)
  {
    var rest, f := Merged(fine, r), Fresh(Key(s, w), s.v);
    MergedOfMore(fine, f, r);
    MergedLast(fine, r);
    if rest != [] {
      KeysDivide(fine[|fine| - 1].key, f.key, r);
      JoinFresh(rest[|rest| - 1], f.key, s.v);
    }
  }

  lemma KeysDivide(a: int, b: int, r: int)
    requires r > 0 && a <= b
    ensures TDiv(a, r) <= TDiv(b, r)
  {
    if a >= 0 {
      Arith.DivideOrder(a, b, r);
    } else if b < 0 {
      Arith.DivideOrder(-b, -a, r);
    } else {
      Arith.DivideOrder(0, -a, r);
      Arith.DivideOrder(0, b, r);
    }
  }

  /** A sample in the last finer bucket. */
  lemma FoldKeepsMerge(fine: seq<Bucket>, w: real, r: int, coarse: real, s: Sample)
    requires w > 0.0 && r > 0 && coarse > 0.0 && Counted(fine) && Key(s, coarse) == TDiv(Key(s, w), r)
    requires fine != [] && fine[|fine| - 1].key == Key(s, w)
    ensures Merged(fine[..|fine| - 1] + [Fold(fine[|fine| - 1], s.v)], r)
         == Pushed(Merged(fine, r), coarse, s)
  {
    var n := |fine| - 1;
    var f, rest := fine[n], Merged(fine[..n], r);
    assert fine == fine[..n] + [f];
    MergedOfMore(fine[..n], f, r);
    MergedOfMore(fine[..n], Fold(f, s.v), r);
    MergedLast(fine[..n], r);
    if rest != [] { JoinFold(rest[|rest| - 1], f, s.v); }
    assert Fold(f.(key := TDiv(f.key, r)), s.v) == Fold(f, s.v).(key := TDiv(f.key, r));
  }

  lemma {:induction false} BuiltCounted(ss: seq<Sample>, w: real)
    requires w > 0.0
    ensures Counted(Built(ss, w))
  {
    if ss != [] { BuiltCounted(ss[..|ss| - 1], w); }
  }

  /** Sample `n` comes too late for its tier: an earlier one has a later key. */
  ghost predicate Late(ss: seq<Sample>, n: nat, w: real)
    requires w > 0.0 && n < |ss|
  {
    exists j :: 0 <= j < n && Key(ss[n], w) < Key(ss[j], w)
  }

  ghost predicate IsTopKey(top: int, ss: seq<Sample>, w: real)
    requires w > 0.0
  {
    && (forall j :: 0 <= j < |ss| ==> Key(ss[j], w) <= top)
    && exists j :: 0 <= j < |ss| && Key(ss[j], w) == top
  }

  lemma TopKeyOfMore(top: int, ss: seq<Sample>, s: Sample, w: real)
    requires w > 0.0 && IsTopKey(top, ss, w)
    ensures IsTopKey(if Key(s, w) < top then top else Key(s, w), ss + [s], w)
  {
    var more := ss + [s];
    var j :| 0 <= j < |ss| && Key(ss[j], w) == top;
    assert Key(more[j], w) == top && Key(more[|ss|], w) == Key(s, w);
  }

  /** The last bucket carries the latest key so far. */
  lemma {:induction false} LastKeyIsTop(ss: seq<Sample>, w: real)
    requires w > 0.0 && ss != []
    ensures Built(ss, w) != [] && IsTopKey(Built(ss, w)[|Built(ss, w)| - 1].key, ss, w)
  {
    var n := |ss| - 1;
    assert ss == ss[..n] + [ss[n]];
    if n == 0 {
      assert Built(ss[..0], w) == [] && Key(ss[0], w) == Built(ss, w)[0].key;
    } else {
      var fine := Built(ss[..n], w);
      LastKeyIsTop(ss[..n], w);
      TopKeyOfMore(fine[|fine| - 1].key, ss[..n], ss[n], w);
    }
  }

  /** A sample is late exactly when its tier drops it. */
  lemma LateIsDropped(ss: seq<Sample>, w: real)
    requires w > 0.0 && ss != []
    ensures var n, cols := |ss| - 1, Built(ss[..|ss| - 1], w);
            Late(ss, n, w) <==> cols != [] && Key(ss[n], w) < cols[|cols| - 1].key
  {
    var n := |ss| - 1;
    if n > 0 {
      LastKeyIsTop(ss[..n], w);
      var top := Built(ss[..n], w)[|Built(ss[..n], w)| - 1].key;
      var j :| 0 <= j < n && Key(ss[..n][j], w) == top;
      assert ss[..n][j] == ss[j];
      if Late(ss, n, w) {
        var i :| 0 <= i < n && Key(ss[n], w) < Key(ss[i], w);
        assert ss[..n][i] == ss[i];
      }
    }
  }

  lemma {:induction false} LastAcceptedKey(ss: seq<Sample>, w: real)
    requires w > 0.0
    ensures var taken, cols := Accepted(ss, w), Built(ss, w);
      && (taken == [] <==> cols == [])
      && (taken != [] ==> Key(taken[|taken| - 1], w) == cols[|cols| - 1].key)
  {
    TierIsGroupBy(ss, w);
    if ss != [] { LastAcceptedKey(ss[..|ss| - 1], w); }
  }

  /** The accepted samples are exactly those that are not late. */
  lemma AcceptedExactly(ss: seq<Sample>, w: real)
    requires w > 0.0 && ss != []
    ensures var n := |ss| - 1;
            Accepted(ss, w) == if Late(ss, n, w) then Accepted(ss[..n], w) else Accepted(ss[..n], w) + [ss[n]]
  {
    LateIsDropped(ss, w);
    LastAcceptedKey(ss[..|ss| - 1], w);
  }

  /** No sample is late for the finer tier only: too late for the current fine
      bucket, yet still in the current coarse one. */
  ghost predicate LateTogether(ss: seq<Sample>, w: real, coarse: real)
    requires w > 0.0 && coarse > 0.0
  {
    forall n :: 0 <= n < |ss| && Late(ss, n, w) ==> Late(ss, n, coarse)
  }

  lemma LateCoarselyIsLate(ss: seq<Sample>, n: nat, w: real, r: int)
    requires w > 0.0 && r > 0 && w * r as real > 0.0 && n < |ss|
    requires Late(ss, n, w * r as real)
    ensures Late(ss, n, w)
  {
    var j :| 0 <= j < n && Key(ss[n], w * r as real) < Key(ss[j], w * r as real);
    CoarserKey(ss[n].t, w, r);
    CoarserKey(ss[j].t, w, r);
    if Key(ss[j], w) <= Key(ss[n], w) { KeysDivide(Key(ss[j], w), Key(ss[n], w), r); }
  }

  lemma LatePrefix(ss: seq<Sample>, k: nat, n: nat, w: real)
    requires w > 0.0 && n < k <= |ss|
    ensures Late(ss[..k], n, w) <==> Late(ss, n, w)
  {
    assert forall j :: 0 <= j < k ==> ss[..k][j] == ss[j];
  }

  lemma LateTogetherOneMore(ss: seq<Sample>, w: real, coarse: real)
    requires w > 0.0 && coarse > 0.0 && ss != []
    ensures LateTogether(ss, w, coarse) <==>
            LateTogether(ss[..|ss| - 1], w, coarse) && (Late(ss, |ss| - 1, w) ==> Late(ss, |ss| - 1, coarse))
  {
    var k := |ss| - 1;
    forall n | 0 <= n < k
      ensures Late(ss[..k], n, w) <==> Late(ss, n, w)
      ensures Late(ss[..k], n, coarse) <==> Late(ss, n, coarse)
    {
      LatePrefix(ss, k, n, w);
      LatePrefix(ss, k, n, coarse);
    }
  }

  // ------------------------------------------------------------ counting

  /** How many samples some buckets hold. */
  function Total(cols: seq<Bucket>): nat {
    if cols == [] then 0 else Total(cols[..|cols| - 1]) + cols[|cols| - 1].count
  }

  lemma TotalOfMore(cols: seq<Bucket>, b: Bucket)
    ensures Total(cols + [b]) == Total(cols) + b.count
  {
    assert (cols + [b])[..|cols|] == cols;
  }

  lemma TotalOfPushed(cols: seq<Bucket>, w: real, s: Sample)
    requires w > 0.0
    ensures Total(Pushed(cols, w, s))
         == Total(cols) + if cols != [] && Key(s, w) < cols[|cols| - 1].key then 0 else 1
  {
    var n := |cols| - 1;
    if cols == [] || Key(s, w) != cols[n].key {
      TotalOfMore(cols, Fresh(Key(s, w), s.v));
    } else {
      TotalOfMore(cols[..n], Fold(cols[n], s.v));
    }
  }

  lemma TotalOfMerged(fine: seq<Bucket>, f: Bucket, r: int)
    requires r > 0 && Counted(fine) && f.count > 0
    ensures Total(Merged(fine + [f], r)) == Total(Merged(fine, r)) + f.count
  {
    var rest, n := Merged(fine, r), |Merged(fine, r)| - 1;
    MergedOfMore(fine, f, r);
    if rest != [] && rest[n].key == TDiv(f.key, r) {
      TotalOfMore(rest[..n], Join(rest[n], f));
    } else {
      TotalOfMore(rest, f.(key := TDiv(f.key, r)));
    }
  }

  lemma {:induction false} MergeKeepsTotal(fine: seq<Bucket>, r: int)
    requires r > 0 && Counted(fine)
    ensures Total(Merged(fine, r)) == Total(fine)
  {
    if fine != [] {
      var n := |fine| - 1;
      MergeKeepsTotal(fine[..n], r);
      assert fine == fine[..n] + [fine[n]];
      TotalOfMerged(fine[..n], fine[n], r);
    }
  }

  lemma BuiltTotal(ss: seq<Sample>, w: real)
    requires w > 0.0 && ss != []
    ensures Total(Built(ss, w))
         == Total(Built(ss[..|ss| - 1], w)) + if Late(ss, |ss| - 1, w) then 0 else 1
  {
    LateIsDropped(ss, w);
    TotalOfPushed(Built(ss[..|ss| - 1], w), w, ss[|ss| - 1]);
  }

  /** A coarser tier holds no fewer samples, and more as soon as one is late for
      the finer tier only. */
  lemma {:induction false} CoarseHoldsMore(ss: seq<Sample>, w: real, coarse: real)
    requires w > 0.0 && coarse > 0.0 && LateTogether(ss, coarse, w)
    ensures Total(Built(ss, w)) <= Total(Built(ss, coarse))
    ensures !LateTogether(ss, w, coarse) ==> Total(Built(ss, w)) < Total(Built(ss, coarse))
  {
    if ss != [] {
      LateTogetherOneMore(ss, coarse, w);
      LateTogetherOneMore(ss, w, coarse);
      CoarseHoldsMore(ss[..|ss| - 1], w, coarse);
      BuiltTotal(ss, w);
      BuiltTotal(ss, coarse);
    }
  }

  // ------------------------------------------------------------ main result

  /** One more sample that is not late for the finer tier only. */
  lemma MergeOneMore(ss: seq<Sample>, w: real, r: int, coarse: real)
    requires w > 0.0 && r > 0 && coarse > 0.0 && ss != []
    requires Key(ss[|ss| - 1], coarse) == TDiv(Key(ss[|ss| - 1], w), r)
    requires Counted(Built(ss[..|ss| - 1], w)) && Counted(Built(ss, w))
    requires Built(ss[..|ss| - 1], coarse) == Merged(Built(ss[..|ss| - 1], w), r)
    requires Late(ss, |ss| - 1, w) ==> Late(ss, |ss| - 1, coarse)
    ensures Built(ss, coarse) == Merged(Built(ss, w), r)
  {
    var n := |ss| - 1;
    var fine := Built(ss[..n], w);
    LateIsDropped(ss, w);
    LateIsDropped(ss, coarse);
    if !Late(ss, n, w) {
      if fine == [] || fine[|fine| - 1].key != Key(ss[n], w) {
        OpenKeepsMerge(fine, w, r, coarse, ss[n]);
      } else {
        FoldKeepsMerge(fine, w, r, coarse, ss[n]);
      }
    }
  }

  /** Folding the raw samples into each tier is the same as merging the finer tier
      -- every coarser bucket the exact envelope of the finer buckets it covers --
      if and only if no sample is late for the finer tier only. */
  lemma {:induction false} TiersAgreeExactly(ss: seq<Sample>, w: real, r: int)
    requires w > 0.0 && r > 0
    ensures w * r as real > 0.0 && Counted(Built(ss, w))
    ensures Built(ss, w * r as real) == Merged(Built(ss, w), r) <==> LateTogether(ss, w, w * r as real)
  {
    Positive(w, r as real);
    BuiltCounted(ss, w);
    var coarse := w * r as real;
    if !LateTogether(ss, w, coarse) {
      forall n | 0 <= n < |ss| && Late(ss, n, coarse)
        ensures Late(ss, n, w)
      {
        LateCoarselyIsLate(ss, n, w, r);
      }
      CoarseHoldsMore(ss, w, coarse);
      MergeKeepsTotal(Built(ss, w), r);
    } else if ss != [] {
      LateTogetherOneMore(ss, w, coarse);
      TiersAgreeExactly(ss[..|ss| - 1], w, r);
      CoarserKey(ss[|ss| - 1].t, w, r);
      MergeOneMore(ss, w, r, coarse);
    }
  }

  /** In particular after samples in order. */
  lemma TiersAgree(ss: seq<Sample>, w: real, r: int)
    requires w > 0.0 && r > 0 && NonDecreasing(ss)
    ensures w * r as real > 0.0 && Counted(Built(ss, w))
    ensures Built(ss, w * r as real) == Merged(Built(ss, w), r)
  {
    TiersAgreeExactly(ss, w, r);
    forall n | 0 <= n < |ss|
      ensures !Late(ss, n, w)
    {
      forall j | 0 <= j < n
        ensures Key(ss[j], w) <= Key(ss[n], w)
      {
        LaterKey(ss[j], ss[n], w);
      }
    }
  }
}
