/** The client's tile cache (tilecache.ts), alone and against a pyramid that keeps
    growing while requests and responses are under way. Decoding a tile is taken
    as the identity. */
module TileCache {
  import opened Pyramid
  import opened Wrappers
  import T = Tiles

  datatype Key = Key(tier: int, index: int)

  datatype Entry = Entry(tile: seq<Bucket>, isSealed: bool)

  /** A map that remembers the order of insertion, oldest first. */
  type Entries = seq<(Key, Entry)>

  function Get(es: Entries, k: Key): Option<Entry> {
    if es == [] then None
    else if es[|es| - 1].0 == k then Some(es[|es| - 1].1)
    else Get(es[..|es| - 1], k)
  }

  function Without(es: Entries, k: Key): (r: Entries)
    ensures |r| <= |es|
  {
    if es == [] then []
    else if es[|es| - 1].0 == k then Without(es[..|es| - 1], k)
    else Without(es[..|es| - 1], k) + [es[|es| - 1]]
  }

  /** The most recent entries, at most `max` of them. */
  function Recent(es: Entries, max: nat): Entries {
    if |es| <= max then es else es[|es| - max..]
  }

  /** The entries after one is used: it becomes the most recent. */
  function Touched(es: Entries, k: Key, e: Entry, max: nat): Entries {
    Recent(Without(es, k) + [(k, e)], max)
  }

  /** The tiles found for some indices, in their order. */
  function Found(es: Entries, tier: int, indices: seq<int>): seq<seq<Bucket>> {
    if indices == [] then []
    else
      var rest := Found(es, tier, indices[..|indices| - 1]);
      match Get(es, Key(tier, indices[|indices| - 1]))
      case None => rest
      case Some(e) => rest + [e.tile]
  }

  ghost predicate Distinct(es: Entries) {
    forall i, j :: 0 <= i < j < |es| ==> es[i].0 != es[j].0
  }

  class Cache {
    var entries: Entries
    const maxTiles: nat

    constructor (maxTiles: nat)
      ensures entries == [] && this.maxTiles == maxTiles
    {
      entries := [];
      this.maxTiles := maxTiles;
    }

    method Lookup(k: Key) returns (hit: Option<Entry>)
      ensures hit == Get(entries, k)
    {
      var i := |entries|;
      assert entries[..i] == entries;
      while i > 0
        invariant 0 <= i <= |entries| && Get(entries, k) == Get(entries[..i], k)
      {
        i := i - 1;
        assert entries[..i + 1][..i] == entries[..i];
        if entries[i].0 == k {
          return Some(entries[i].1);
        }
      }
      hit := None;
    }

    method Delete(k: Key)
      modifies this
      ensures entries == Without(old(entries), k)
    {
      var kept := [];
      for i := 0 to |entries|
        invariant kept == Without(entries[..i], k) && entries == old(entries)
      {
        assert entries[..i + 1][..i] == entries[..i];
        if entries[i].0 != k {
          kept := kept + [entries[i]];
        }
      }
      assert entries[..|entries|] == entries;
      entries := kept;
    }

    method Touch(k: Key, e: Entry)
      modifies this
      ensures entries == Touched(old(entries), k, e, maxTiles)
    {
      Delete(k);
      entries := entries + [(k, e)];
      ghost var all := entries;
      while |entries| > maxTiles
        invariant entries == all[|all| - |entries|..] && (|all| <= maxTiles ==> entries == all)
        invariant |entries| >= maxTiles || entries == all
      {
        entries := entries[1..];
      }
    }

    /** What happens at once when a tile is asked for: a sealed hit is used, anything
        else is fetched. */
    method Ensure(k: Key) returns (fetch: bool)
      modifies this
      ensures fetch == !(Get(old(entries), k).Some? && Get(old(entries), k).value.isSealed)
      ensures entries == if fetch then old(entries)
                         else Touched(old(entries), k, Get(old(entries), k).value, maxTiles)
    {
      var hit := Lookup(k);
      if hit.Some? && hit.value.isSealed {
        Touch(k, hit.value);
        return false;
      }
      return true;
    }

    method Window(tier: int, indices: seq<int>) returns (out: seq<seq<Bucket>>)
      ensures out == Found(entries, tier, indices)
    {
      out := [];
      for i := 0 to |indices|
        invariant out == Found(entries, tier, indices[..i])
      {
        assert indices[..i + 1][..i] == indices[..i];
        var e := Lookup(Key(tier, indices[i]));
        if e.Some? {
          out := out + [e.value.tile];
        }
      }
      assert indices[..|indices|] == indices;
    }

    method Clear()
      modifies this
      ensures entries == []
    {
      entries := [];
    }
  }

  // ------------------------------------------------------------ least recently used

  lemma {:induction false} WithoutMeans(es: Entries, k: Key)
    requires Distinct(es)
    ensures Distinct(Without(es, k))
    ensures forall x :: x in Without(es, k) <==> x in es && x.0 != k
  {
    if es != [] {
      WithoutMeans(es[..|es| - 1], k);
      assert es == es[..|es| - 1] + [es[|es| - 1]];
    }
  }

  /** Using an entry keeps the keys distinct and the size within bounds, leaves the
      entry most recent, and adds nothing else. */
  lemma TouchedMeans(es: Entries, k: Key, e: Entry, max: nat)
    requires Distinct(es)
    ensures var r := Touched(es, k, e, max);
      && Distinct(r) && |r| <= max
      && (max > 0 ==> r != [] && r[|r| - 1] == (k, e))
      && (forall x :: x in r ==> x == (k, e) || (x in es && x.0 != k))
      && (|Without(es, k)| < max ==> r == Without(es, k) + [(k, e)])
  {
    WithoutMeans(es, k);
    var all := Without(es, k) + [(k, e)];
    forall i, j | 0 <= i < j < |all|
      ensures all[i].0 != all[j].0
    {
      if j == |all| - 1 { assert all[i] in Without(es, k); }
    }
    var r := Recent(all, max);
    forall x | x in r
      ensures x in all
    {}
  }

  lemma {:induction false} GetMeans(es: Entries, k: Key)
    ensures Get(es, k).Some? ==> (k, Get(es, k).value) in es
    ensures forall e :: (k, e) in es ==> Get(es, k).Some?
  {
    if es != [] {
      GetMeans(es[..|es| - 1], k);
      assert es == es[..|es| - 1] + [es[|es| - 1]];
    }
  }

  /** The entries after several uses, in the order they happen. */
  function TouchedAll(es: Entries, ts: Entries, max: nat): Entries {
    if ts == [] then es
    else Touched(TouchedAll(es, ts[..|ts| - 1], max), ts[|ts| - 1].0, ts[|ts| - 1].1, max)
  }

  lemma {:induction false} WithoutConcat(a: Entries, b: Entries, k: Key)
    ensures Without(a + b, k) == Without(a, k) + Without(b, k)
  {
    if b == [] {
      assert a + b == a;
    } else {
      assert (a + b)[..|a + b| - 1] == a + b[..|b| - 1];
      WithoutConcat(a, b[..|b| - 1], k);
    }
  }

  lemma {:induction false} WithoutAbsent(es: Entries, k: Key)
    requires forall i :: 0 <= i < |es| ==> es[i].0 != k
    ensures Without(es, k) == es
  {
    if es != [] { WithoutAbsent(es[..|es| - 1], k); }
  }

  /** A further use behind earlier ones of other keys. */
  lemma TouchBehind(before: Entries, ts: Entries, x: (Key, Entry), max: nat)
    requires Distinct(ts + [x]) && |ts| <= max
    ensures var r := Touched(before + ts, x.0, x.1, max);
            if |ts| < max then |r| >= |ts| + 1 && r[|r| - |ts| - 1..] == ts + [x]
            else r == (ts + [x])[|ts| + 1 - max..]
  {
    forall i | 0 <= i < |ts|
      ensures ts[i].0 != x.0
    {
      assert (ts + [x])[i].0 != (ts + [x])[|ts|].0;
    }
    WithoutConcat(before, ts, x.0);
    WithoutAbsent(ts, x.0);
    var kept := Without(before, x.0);
    assert kept + ts + [x] == kept + (ts + [x]);
  }

  /** The most recent of the uses are the last entries, up to the limit. */
  ghost predicate EndsWith(r: Entries, ts: Entries, max: nat) {
    if |ts| <= max then |r| >= |ts| && r[|r| - |ts|..] == ts else r == ts[|ts| - max..]
  }

  lemma OneMoreWithin(r: Entries, ts: Entries, x: (Key, Entry), max: nat)
    requires Distinct(ts + [x]) && |ts| <= max && EndsWith(r, ts, max)
    ensures EndsWith(Touched(r, x.0, x.1, max), ts + [x], max)
  {
    var before := r[..|r| - |ts|];
    assert r == before + ts;
    TouchBehind(before, ts, x, max);
  }

  lemma OneMoreBeyond(r: Entries, ts: Entries, x: (Key, Entry), max: nat)
    requires Distinct(ts + [x]) && |ts| > max && EndsWith(r, ts, max)
    ensures EndsWith(Touched(r, x.0, x.1, max), ts + [x], max)
  {
    var more := ts + [x];
    assert r + [x] == more[|ts| - max..];
    forall i, j | 0 <= i < j < |r + [x]|
      ensures (r + [x])[i].0 != (r + [x])[j].0
    {
      assert (r + [x])[i] == more[|ts| - max + i] && (r + [x])[j] == more[|ts| - max + j];
    }
    assert [] + r == r;
    TouchBehind([], r, x, max);
    assert (r + [x])[1..] == more[|ts| + 1 - max..];
  }

  lemma OneMoreUse(r: Entries, ts: Entries, x: (Key, Entry), max: nat)
    requires Distinct(ts + [x]) && EndsWith(r, ts, max)
    ensures EndsWith(Touched(r, x.0, x.1, max), ts + [x], max)
  {
    if |ts| <= max { OneMoreWithin(r, ts, x, max); } else { OneMoreBeyond(r, ts, x, max); }
  }

  lemma {:induction false} RecentUses(es: Entries, ts: Entries, max: nat)
    requires Distinct(ts)
    ensures EndsWith(TouchedAll(es, ts, max), ts, max)
  {
    if ts != [] {
      var before, x := ts[..|ts| - 1], ts[|ts| - 1];
      assert ts == before + [x];
      RecentUses(es, before, max);
      OneMoreUse(TouchedAll(es, before, max), before, x, max);
    }
  }

  lemma GetRecent(es: Entries, lo: nat, i: nat)
    requires lo <= i < |es|
    ensures Get(es, es[i].0).Some?
  {
    GetMeans(es, es[i].0);
    assert (es[i].0, es[i].1) in es;
  }

  /** Asking for some tiles uses each of them once, as hit or as response, in some
      order. They are all in the cache afterwards exactly when the cache can hold
      that many: with more, some have been evicted by the others. */
  lemma AllLoadedExactly(es: Entries, ts: Entries, max: nat)
    requires Distinct(ts)
    ensures (forall i :: 0 <= i < |ts| ==> Get(TouchedAll(es, ts, max), ts[i].0).Some?) <==> |ts| <= max
  {
    var r := TouchedAll(es, ts, max);
    RecentUses(es, ts, max);
    if |ts| <= max {
      forall i | 0 <= i < |ts|
        ensures Get(r, ts[i].0).Some?
      {
        assert r[|r| - |ts|..][i] == ts[i];
        GetRecent(r, |r| - |ts|, |r| - |ts| + i);
      }
    } else {
      GetMeans(r, ts[0].0);
      assert forall i :: 0 <= i < |r| ==> r[i] == ts[|ts| - max + i];
      assert Get(r, ts[0].0).None?;
    }
  }

  // ------------------------------------------------------------ any sequence of uses

  /** The same uses without a limit: every key once, in the order of its last use. */
  function Order(es: Entries, ts: Entries): Entries {
    if ts == [] then es
    else Without(Order(es, ts[..|ts| - 1]), ts[|ts| - 1].0) + [ts[|ts| - 1]]
  }

  lemma {:induction false} OrderIsDistinct(es: Entries, ts: Entries)
    requires Distinct(es)
    ensures Distinct(Order(es, ts))
  {
    if ts != [] {
      var before, x := Order(es, ts[..|ts| - 1]), ts[|ts| - 1];
      OrderIsDistinct(es, ts[..|ts| - 1]);
      WithoutMeans(before, x.0);
      assert forall i :: 0 <= i < |Without(before, x.0)| ==> Without(before, x.0)[i] in Without(before, x.0);
    }
  }

  lemma {:induction false} WithoutLosesOne(es: Entries, k: Key)
    requires Distinct(es)
    ensures |Without(es, k)| >= |es| - 1
  {
    if es != [] {
      var n := |es| - 1;
      if es[n].0 == k {
        WithoutAbsent(es[..n], k);
      } else {
        WithoutLosesOne(es[..n], k);
      }
    }
  }

  lemma PartIsDistinct(all: Entries, a: Entries, b: Entries)
    requires Distinct(all) && all == a + b
    ensures Distinct(b)
  {
    forall i, j | 0 <= i < j < |b|
      ensures b[i].0 != b[j].0
    {
      assert all[|a| + i] == b[i] && all[|a| + j] == b[j];
    }
  }

  lemma RecentBehind(a: Entries, b: Entries, max: nat)
    requires |b| >= max
    ensures Recent(a + b, max) == Recent(b, max)
  {
    assert (a + b)[|a + b| - max..] == b[|b| - max..];
    assert |b| == max ==> b[0..] == b;
  }

  /** Forgetting what is not recent changes nothing for later uses. */
  lemma TouchRecent(all: Entries, x: (Key, Entry), max: nat)
    requires Distinct(all)
    ensures Touched(Recent(all, max), x.0, x.1, max) == Recent(Without(all, x.0) + [x], max)
  {
    if |all| > max {
      var older, r := all[..|all| - max], all[|all| - max..];
      assert all == older + r;
      PartIsDistinct(all, older, r);
      WithoutConcat(older, r, x.0);
      WithoutLosesOne(r, x.0);
      assert Without(all, x.0) + [x] == Without(older, x.0) + (Without(r, x.0) + [x]);
      RecentBehind(Without(older, x.0), Without(r, x.0) + [x], max);
    }
  }

  /** Whatever is used, and however often: the cache holds the most recently used
      entries of all, up to the limit. */
  lemma {:induction false} CacheIsRecent(es: Entries, ts: Entries, max: nat)
    requires Distinct(es) && |es| <= max
    ensures TouchedAll(es, ts, max) == Recent(Order(es, ts), max)
  {
    if ts != [] {
      var before, x := ts[..|ts| - 1], ts[|ts| - 1];
      CacheIsRecent(es, before, max);
      OrderIsDistinct(es, before);
      TouchRecent(Order(es, before), x, max);
    }
  }

  function Keys(es: Entries): set<Key> { set x | x in es :: x.0 }

  /** The other keys used after the last use of `k`. */
  function UsedSince(ts: Entries, k: Key): set<Key> {
    if ts == [] || ts[|ts| - 1].0 == k then {}
    else UsedSince(ts[..|ts| - 1], k) + {ts[|ts| - 1].0}
  }

  /** `k` stands before exactly the keys used since. */
  ghost predicate StandsBefore(all: Entries, a: Entries, x: (Key, Entry), b: Entries, since: set<Key>) {
    all == a + [x] + b && Keys(b) == since
  }

  lemma KeysOfMore(b: Entries, x: (Key, Entry))
    requires Distinct(b)
    ensures Keys(Without(b, x.0) + [x]) == Keys(b) + {x.0}
  {
    WithoutMeans(b, x.0);
    var more := Without(b, x.0) + [x];
    assert more[|more| - 1] == x;
    forall k | k in Keys(b) && k != x.0
      ensures k in Keys(more)
    {
      var y :| y in b && y.0 == k;
      assert y in Without(b, x.0) && y in more;
    }
  }

  lemma WithoutAround(a: Entries, y: (Key, Entry), b: Entries, k: Key)
    requires y.0 != k
    ensures Without(a + [y] + b, k) == Without(a, k) + [y] + Without(b, k)
  {
    WithoutConcat(a + [y], b, k);
    WithoutConcat(a, [y], k);
    WithoutAbsent([y], k);
  }

  lemma {:induction false} PlaceInOrder(es: Entries, ts: Entries, k: Key) returns (a: Entries, b: Entries)
    requires Distinct(es) && Get(ts, k).Some?
    ensures StandsBefore(Order(es, ts), a, (k, Get(ts, k).value), b, UsedSince(ts, k))
  {
    var before, x := ts[..|ts| - 1], ts[|ts| - 1];
    var all := Order(es, before);
    if x.0 == k {
      a, b := Without(all, k), [];
      assert a + [x] + b == a + [x];
    } else {
      var a', b' := PlaceInOrder(es, before, k);
      var y := (k, Get(before, k).value);
      OrderIsDistinct(es, before);
      PartIsDistinct(all, a' + [y], b');
      WithoutAround(a', y, b', x.0);
      KeysOfMore(b', x);
      a, b := Without(a', x.0), Without(b', x.0) + [x];
      assert a + [y] + b == (a + [y] + Without(b', x.0)) + [x];
    }
  }

  lemma {:induction false} KeysAreCounted(es: Entries)
    requires Distinct(es)
    ensures |Keys(es)| == |es|
  {
    if es != [] {
      var n := |es| - 1;
      KeysAreCounted(es[..n]);
      assert es == es[..n] + [es[n]];
      assert Keys(es) == Keys(es[..n]) + {es[n].0};
    }
  }

  /** Entries from some position on hold a key exactly when it stands there. */
  lemma {:induction false} SuffixHolds(all: Entries, from: nat, i: nat)
    requires Distinct(all) && from <= |all| && i < |all|
    ensures Get(all[from..], all[i].0) == if i >= from then Some(all[i].1) else None
    decreases |all|
  {
    var n := |all| - 1;
    if from <= n {
      var r := all[from..];
      assert r[|r| - 1] == all[n] && r[..|r| - 1] == all[..n][from..];
      if i < n { SuffixHolds(all[..n], from, i); }
    }
  }

  /** After any sequence of uses a key that was used is in the cache, with the entry
      of its last use, if and only if fewer other keys were used since than the cache
      can hold. */
  lemma LoadedExactly(es: Entries, ts: Entries, k: Key, max: nat)
    requires Distinct(es) && |es| <= max && Get(ts, k).Some?
    ensures Get(TouchedAll(es, ts, max), k) == if |UsedSince(ts, k)| < max then Get(ts, k) else None
  {
    var a, b := PlaceInOrder(es, ts, k);
    var x := (k, Get(ts, k).value);
    CacheIsRecent(es, ts, max);
    OrderIsDistinct(es, ts);
    assert Order(es, ts) == (a + [x]) + b && Order(es, ts)[|a|] == x;
    PartIsDistinct(Order(es, ts), a + [x], b);
    KeysAreCounted(b);
    var all := Order(es, ts);
    SuffixHolds(all, if |all| <= max then 0 else |all| - max, |a|);
    assert all[0..] == all;
  }

  lemma {:induction false} UsedSinceAreOthers(ts: Entries, k: Key)
    ensures UsedSince(ts, k) <= Keys(ts) - {k}
  {
    if ts != [] {
      UsedSinceAreOthers(ts[..|ts| - 1], k);
      assert ts == ts[..|ts| - 1] + [ts[|ts| - 1]];
      assert ts[|ts| - 1] in ts;
    }
  }

  lemma {:induction false} SubsetIsSmaller(a: set<Key>, b: set<Key>)
    requires a <= b
    ensures |a| <= |b|
  {
    if x :| x in a { SubsetIsSmaller(a - {x}, b - {x}); }
  }

  lemma {:induction false} TouchedAllMeans(es: Entries, ts: Entries, max: nat)
    requires Distinct(es) && |es| <= max
    ensures Distinct(TouchedAll(es, ts, max)) && |TouchedAll(es, ts, max)| <= max
  {
    if ts != [] {
      TouchedAllMeans(es, ts[..|ts| - 1], max);
      TouchedMeans(TouchedAll(es, ts[..|ts| - 1], max), ts[|ts| - 1].0, ts[|ts| - 1].1, max);
    }
  }

  /** A call on its own, whatever indices it repeats: all of them are in the cache
      afterwards if and only if the cache can hold that many different ones. */
  lemma KeysLoadedExactly(es: Entries, ts: Entries, max: nat)
    requires Distinct(es) && |es| <= max
    ensures (forall k :: k in Keys(ts) ==> Get(TouchedAll(es, ts, max), k).Some?) <==> |Keys(ts)| <= max
  {
    var r := TouchedAll(es, ts, max);
    forall k | k in Keys(ts)
      ensures Get(r, k).Some? <==> |UsedSince(ts, k)| < max
      ensures |UsedSince(ts, k)| < |Keys(ts)|
    {
      var x :| x in ts && x.0 == k;
      GetMeans(ts, k);
      assert (k, x.1) in ts;
      LoadedExactly(es, ts, k, max);
      UsedSinceAreOthers(ts, k);
      SubsetIsSmaller(UsedSince(ts, k), Keys(ts) - {k});
    }
    if forall k :: k in Keys(ts) ==> Get(r, k).Some? {
      forall k | k in Keys(ts)
        ensures k in Keys(r)
      {
        GetMeans(r, k);
      }
      TouchedAllMeans(es, ts, max);
      KeysAreCounted(r);
      SubsetIsSmaller(Keys(ts), Keys(r));
    }
  }

  // ------------------------------------------------------------ with a server

  datatype Response = Response(key: Key, entry: Entry)

  /** The server's tiers, the cache, the requests on their way and the responses on
      their way back. */
  datatype State = State(tiers: seq<seq<Bucket>>, entries: Entries, requests: seq<Key>, responses: seq<Response>)

  /** Tiles are asked for and answered one by one, so calls may overlap. A reset
      empties the pyramid for a new session. */
  datatype Step =
    | Push(s: Sample)
    | Ask(k: Key)
    | Answer(i: nat)
    | Deliver(i: nat)
    | Clear
    | Reset

  const WIDTHS := T.DEFAULT_BUCKET_SECS

  /** What the server reports for a tile. */
  function Report(tiers: seq<seq<Bucket>>, k: Key): Entry {
    if 0 <= k.tier < |tiers| && k.index >= 0
    then Entry(T.TileBuckets(tiers[k.tier], k.index), T.Sealed(tiers[k.tier], k.index))
    else Entry([], false)
  }

  function PushedAll(tiers: seq<seq<Bucket>>, s: Sample): (r: seq<seq<Bucket>>)
    requires |tiers| == |WIDTHS|
    ensures |r| == |tiers| && forall i :: 0 <= i < |r| ==> r[i] == Pushed(tiers[i], WIDTHS[i], s)
  {
    seq(|tiers|, i requires 0 <= i < |tiers| => Pushed(tiers[i], WIDTHS[i], s))
  }

  predicate Enabled(s: State, step: Step) {
    match step
    case Push(_) => |s.tiers| == |WIDTHS|
    case Ask(_) => true
    case Answer(i) => i < |s.requests|
    case Deliver(i) => i < |s.responses|
    case Clear => true
    case Reset => true
  }

  function Apply(s: State, step: Step, max: nat): State
    requires Enabled(s, step)
  {
    match step
    case Push(x) => s.(tiers := PushedAll(s.tiers, x))
    case Ask(k) =>
      var hit := Get(s.entries, k);
      if hit.Some? && hit.value.isSealed then s.(entries := Touched(s.entries, k, hit.value, max))
      else s.(requests := s.requests + [k])
    case Answer(i) =>
      var k := s.requests[i];
      s.(requests := s.requests[..i] + s.requests[i + 1..],
         responses := s.responses + [Response(k, Report(s.tiers, k))])
    case Deliver(i) =>
      var r := s.responses[i];
      s.(responses := s.responses[..i] + s.responses[i + 1..], entries := Touched(s.entries, r.key, r.entry, max))
    case Clear => s.(entries := [])
    case Reset => s.(tiers := NO_BUCKETS)
  }

  /** The tiers of a new session. */
  const NO_BUCKETS: seq<seq<Bucket>> := [[], [], [], []]

  const START := State(NO_BUCKETS, [], [], [])

  function Run(steps: seq<Step>, max: nat): Option<State> {
    if steps == [] then Some(START)
    else match Run(steps[..|steps| - 1], max)
      case None => None
      case Some(s) =>
        if Enabled(s, steps[|steps| - 1]) then Some(Apply(s, steps[|steps| - 1], max)) else None
  }

  /** If an entry says it is sealed, it is what the server reports now. */
  ghost predicate Current(tiers: seq<seq<Bucket>>, k: Key, e: Entry) {
    e.isSealed ==> Report(tiers, k) == e
  }

  ghost predicate Inv(s: State, max: nat) {
    && |s.tiers| == |WIDTHS|
    && Distinct(s.entries) && |s.entries| <= max
    && (forall x :: x in s.entries ==> Current(s.tiers, x.0, x.1))
    && (forall r :: r in s.responses ==> Current(s.tiers, r.key, r.entry))
  }

  lemma PushKeepsCurrent(tiers: seq<seq<Bucket>>, s: Sample, k: Key, e: Entry)
    requires |tiers| == |WIDTHS| && Current(tiers, k, e)
    ensures Current(PushedAll(tiers, s), k, e)
  {
    if e.isSealed {
      T.PushKeepsSealed(tiers[k.tier], WIDTHS[k.tier], s, k.index);
    }
  }

  lemma PushKeepsInv(s: State, x: Sample, max: nat)
    requires Inv(s, max)
    ensures Inv(Apply(s, Push(x), max), max)
  {
    forall y | y in s.entries
      ensures Current(PushedAll(s.tiers, x), y.0, y.1)
    {
      PushKeepsCurrent(s.tiers, x, y.0, y.1);
    }
    forall r | r in s.responses
      ensures Current(PushedAll(s.tiers, x), r.key, r.entry)
    {
      PushKeepsCurrent(s.tiers, x, r.key, r.entry);
    }
  }

  lemma AskKeepsInv(s: State, k: Key, max: nat)
    requires Inv(s, max)
    ensures Inv(Apply(s, Ask(k), max), max)
  {
    var hit := Get(s.entries, k);
    if hit.Some? {
      GetMeans(s.entries, k);
      TouchedMeans(s.entries, k, hit.value, max);
    }
  }

  lemma DeliverKeepsInv(s: State, i: nat, max: nat)
    requires Inv(s, max) && i < |s.responses|
    ensures Inv(Apply(s, Deliver(i), max), max)
  {
    var r := s.responses[i];
    assert r in s.responses;
    TouchedMeans(s.entries, r.key, r.entry, max);
  }

  /** Nothing that claims to be sealed is cached or on its way. */
  ghost predicate NothingSealed(s: State) {
    && (forall x :: x in s.entries ==> !x.1.isSealed)
    && (forall r :: r in s.responses ==> !r.entry.isSealed)
  }

  /** A reset keeps the promise of the sealed flag exactly then. */
  lemma ResetKeepsInvExactly(s: State, max: nat)
    requires Inv(s, max)
    ensures Inv(Apply(s, Reset, max), max) <==> NothingSealed(s)
  {}

  lemma StepKeepsInv(s: State, step: Step, max: nat)
    requires Inv(s, max) && Enabled(s, step) && (step.Reset? ==> NothingSealed(s))
    ensures Inv(Apply(s, step, max), max)
  {
    match step {
      case Push(x) => PushKeepsInv(s, x, max);
      case Ask(k) => AskKeepsInv(s, k, max);
      case Answer(i) =>
      case Deliver(i) => DeliverKeepsInv(s, i, max);
      case Clear =>
      case Reset => ResetKeepsInvExactly(s, max);
    }
  }

  /** Every reset of the run finds nothing sealed in the cache or on its way. */
  ghost predicate ResetsAreClean(steps: seq<Step>, max: nat)
    requires Run(steps, max).Some?
  {
    steps != [] ==>
      var before, last := steps[..|steps| - 1], steps[|steps| - 1];
      ResetsAreClean(before, max) && (last.Reset? ==> NothingSealed(Run(before, max).value))
  }

  ghost predicate CoherentThroughout(steps: seq<Step>, max: nat)
    requires Run(steps, max).Some?
  {
    Inv(Run(steps, max).value, max) && (steps != [] ==> CoherentThroughout(steps[..|steps| - 1], max))
  }

  /** Whatever is pushed, asked and answered, and in whatever order the responses
      arrive: at every moment every cached tile marked sealed is the tile the server
      would report now, no key is cached twice, and the cache stays within its
      limit -- if and only if every reset finds nothing sealed. */
  lemma {:induction false} CacheIsCoherent(steps: seq<Step>, max: nat)
    requires Run(steps, max).Some?
    ensures CoherentThroughout(steps, max) <==> ResetsAreClean(steps, max)
  {
    if steps != [] {
      var before, last := steps[..|steps| - 1], steps[|steps| - 1];
      var s := Run(before, max).value;
      CacheIsCoherent(before, max);
      if CoherentThroughout(before, max) {
        if last.Reset? {
          ResetKeepsInvExactly(s, max);
        } else {
          StepKeepsInv(s, last, max);
        }
      }
    }
  }

  /** So it always is without a reset. */
  lemma {:induction false} CoherentWithoutReset(steps: seq<Step>, max: nat)
    requires Run(steps, max).Some? && forall i :: 0 <= i < |steps| ==> !steps[i].Reset?
    ensures Inv(Run(steps, max).value, max)
  {
    if steps != [] {
      CoherentWithoutReset(steps[..|steps| - 1], max);
      StepKeepsInv(Run(steps[..|steps| - 1], max).value, steps[|steps| - 1], max);
    }
  }

  lemma RunOneMore(steps: seq<Step>, step: Step, max: nat)
    requires Run(steps, max).Some? && Enabled(Run(steps, max).value, step)
    ensures Run(steps + [step], max) == Some(Apply(Run(steps, max).value, step, max))
  {
    assert (steps + [step])[..|steps|] == steps;
  }

  /** A reset can leave a stale tile that claims to be sealed: one sample seals the
      first tile of the finest tier, which is fetched before the reset. */
  lemma ResetLeavesStaleTile(v: Values)
    ensures var k := Key(0, 0);
            var steps := [] + [Push(Sample(2.0, v))] + [Ask(k)] + [Answer(0)] + [Deliver(0)] + [Reset];
            var r := Run(steps, 1);
      && r.Some? && Get(r.value.entries, k) == Some(Entry([], true))
      && Report(r.value.tiers, k) == Entry([], false)
  {
    var k, x := Key(0, 0), Sample(2.0, v);
    var fine := [Fresh(2000, v)];
    assert Key(0, 0).index == 0 && Pyramid.Key(x, WIDTHS[0]) == 2000;
    assert Run([], 1) == Some(START);
    var s1 := START.(tiers := PushedAll(NO_BUCKETS, x));
    RunOneMore([], Push(x), 1);
    assert s1.tiers[0] == [] + [Fresh(2000, v)] == fine;
    RunOneMore([] + [Push(x)], Ask(k), 1);
    var s2 := s1.(requests := [] + [k]);
    assert s2.requests == [k];
    RunOneMore([] + [Push(x)] + [Ask(k)], Answer(0), 1);
    assert fine[..0] == [] && T.Within(fine[..0], T.Edge(0), T.Edge(1)) == [];
    assert T.TileBuckets(fine, 0) == [] && T.Sealed(fine, 0);
    var answer := Response(k, Entry([], true));
    var s3 := s2.(requests := s2.requests[..0] + s2.requests[1..], responses := [] + [answer]);
    assert s3.responses == [answer];
    RunOneMore([] + [Push(x)] + [Ask(k)] + [Answer(0)], Deliver(0), 1);
    var s4 := Apply(s3, Deliver(0), 1);
    assert s4.entries == [] + [(k, Entry([], true))];
    RunOneMore([] + [Push(x)] + [Ask(k)] + [Answer(0)] + [Deliver(0)], Reset, 1);
  }

  // ------------------------------------------------------------ what is loaded

  /** The uses of a run since the cache was last cleared. */
  function Uses(steps: seq<Step>, max: nat): Entries
    requires Run(steps, max).Some?
  {
    if steps == [] then []
    else
      var before, last := steps[..|steps| - 1], steps[|steps| - 1];
      var s := Run(before, max).value;
      match last
      case Ask(k) =>
        var hit := Get(s.entries, k);
        if hit.Some? && hit.value.isSealed then Uses(before, max) + [(k, hit.value)] else Uses(before, max)
      case Deliver(i) => Uses(before, max) + [(s.responses[i].key, s.responses[i].entry)]
      case Clear => []
      case _ => Uses(before, max)
  }

  lemma TouchedAllMore(es: Entries, ts: Entries, x: (Key, Entry), max: nat)
    ensures TouchedAll(es, ts + [x], max) == Touched(TouchedAll(es, ts, max), x.0, x.1, max)
  {
    assert (ts + [x])[..|ts|] == ts;
  }

  lemma {:induction false} RunIsUses(steps: seq<Step>, max: nat)
    requires Run(steps, max).Some?
    ensures Run(steps, max).value.entries == TouchedAll([], Uses(steps, max), max)
  {
    if steps != [] {
      var before, last := steps[..|steps| - 1], steps[|steps| - 1];
      var s, uses := Run(before, max).value, Uses(before, max);
      RunIsUses(before, max);
      match last {
        case Ask(k) =>
          var hit := Get(s.entries, k);
          if hit.Some? { TouchedAllMore([], uses, (k, hit.value), max); }
        case Deliver(i) => TouchedAllMore([], uses, (s.responses[i].key, s.responses[i].entry), max);
        case _ =>
      }
    }
  }

  lemma {:induction false} UnusedIsAbsent(ts: Entries, k: Key, max: nat)
    requires Get(ts, k).None?
    ensures Get(TouchedAll([], ts, max), k).None?
  {
    if ts != [] {
      var before, x := ts[..|ts| - 1], ts[|ts| - 1];
      UnusedIsAbsent(before, k, max);
      TouchedAllMeans([], before, max);
      var es := TouchedAll([], before, max);
      TouchedMeans(es, x.0, x.1, max);
      GetMeans(es, k);
      GetMeans(Touched(es, x.0, x.1, max), k);
    }
  }

  /** Over every run, however calls overlap: a tile is in the cache if and only if it
      was used since the cache was cleared, and fewer others than the cache can hold
      were used after that; it is then the tile of its last use. */
  lemma LoadedInRunExactly(steps: seq<Step>, k: Key, max: nat)
    requires Run(steps, max).Some?
    ensures var uses := Uses(steps, max);
            Get(Run(steps, max).value.entries, k)
            == if |UsedSince(uses, k)| < max then Get(uses, k) else None
  {
    var uses := Uses(steps, max);
    RunIsUses(steps, max);
    if Get(uses, k).Some? {
      LoadedExactly([], uses, k, max);
    } else {
      UnusedIsAbsent(uses, k, max);
    }
  }

  lemma BothAnswered(a: Key, b: Key)
    ensures Run([] + [Ask(a)] + [Ask(b)] + [Answer(0)] + [Answer(0)], 1)
         == Some(State(NO_BUCKETS, [], [],
                       [Response(a, Report(NO_BUCKETS, a)), Response(b, Report(NO_BUCKETS, b))]))
  {
    var x, y := Response(a, Report(NO_BUCKETS, a)), Response(b, Report(NO_BUCKETS, b));
    assert Run([], 1) == Some(START);
    RunOneMore([], Ask(a), 1);
    var s1 := State(NO_BUCKETS, [], [a], []);
    assert Apply(START, Ask(a), 1) == s1;
    RunOneMore([] + [Ask(a)], Ask(b), 1);
    var s2 := State(NO_BUCKETS, [], [a, b], []);
    assert Apply(s1, Ask(b), 1) == s2;
    RunOneMore([] + [Ask(a)] + [Ask(b)], Answer(0), 1);
    var s3 := State(NO_BUCKETS, [], [b], [x]);
    assert Apply(s2, Answer(0), 1) == s3;
    RunOneMore([] + [Ask(a)] + [Ask(b)] + [Answer(0)], Answer(0), 1);
    assert Apply(s3, Answer(0), 1) == State(NO_BUCKETS, [], [], [x, y]);
  }

  lemma BothDelivered(s: State, x: Response, y: Response)
    requires s.responses == [x, y] && s.entries == [] && x.key != y.key
    ensures var t := Apply(s, Deliver(0), 1);
            t.responses == [y] && t.entries == [(x.key, x.entry)]
    ensures var t := Apply(Apply(s, Deliver(0), 1), Deliver(0), 1);
            t.responses == [] && t.entries == [(y.key, y.entry)] && t.requests == s.requests
  {
    var t := Apply(s, Deliver(0), 1);
    assert t.entries == [] + [(x.key, x.entry)];
    WithoutMeans(t.entries, y.key);
    assert Without(t.entries[..0], y.key) == [];
  }

  /** Two overlapping calls for one tile each, with room for one: when both are
      through, the first tile is gone again. */
  lemma OverlappingCallsEvict(a: Key, b: Key)
    requires a != b
    ensures var steps := [] + [Ask(a)] + [Ask(b)] + [Answer(0)] + [Answer(0)] + [Deliver(0)] + [Deliver(0)];
            var r := Run(steps, 1);
      && r.Some? && r.value.requests == [] && r.value.responses == []
      && Get(r.value.entries, a).None? && Get(r.value.entries, b).Some?
  {
    var steps := [] + [Ask(a)] + [Ask(b)] + [Answer(0)] + [Answer(0)];
    BothAnswered(a, b);
    var s := Run(steps, 1).value;
    BothDelivered(s, s.responses[0], s.responses[1]);
    RunOneMore(steps, Deliver(0), 1);
    RunOneMore(steps + [Deliver(0)], Deliver(0), 1);
    GetMeans([(b, s.responses[1].entry)], a);
  }
}
