/** What the tile cache hands out, and what it asks the server for, over whole runs
    (tilecache.ts). */
module TileAnswers {
  import opened Pyramid
  import opened TileCache
  import opened Wrappers
  import T = Tiles

  // ------------------------------------------------------------ a window

  lemma GetExactly(es: Entries, k: Key, e: Entry)
    requires Distinct(es)
    ensures Get(es, k) == Some(e) <==> (k, e) in es
  {
    GetMeans(es, k);
    if (k, e) in es {
      assert (k, Get(es, k).value) in es;
    }
  }

  lemma {:induction false} FoundInParts(es: Entries, tier: int, xs: seq<int>, ys: seq<int>)
    ensures Found(es, tier, xs + ys) == Found(es, tier, xs) + Found(es, tier, ys)
  {
    if ys == [] {
      assert xs + ys == xs;
    } else {
      assert (xs + ys)[..|xs + ys| - 1] == xs + ys[..|ys| - 1];
      FoundInParts(es, tier, xs, ys[..|ys| - 1]);
    }
  }

  /** A window is put together index by index, in their order: a cached tile for
      every index that has one, sealed or not, and nothing for the others. */
  lemma WindowExactly(es: Entries, tier: int, before: seq<int>, index: int, after: seq<int>)
    requires Distinct(es)
    ensures forall e :: (Key(tier, index), e) in es ==>
              Found(es, tier, before + [index] + after)
              == Found(es, tier, before) + [e.tile] + Found(es, tier, after)
    ensures Key(tier, index) !in Keys(es) ==>
              Found(es, tier, before + [index] + after) == Found(es, tier, before) + Found(es, tier, after)
    ensures Found(es, tier, []) == []
  {
    FoundInParts(es, tier, before + [index], after);
    FoundInParts(es, tier, before, [index]);
    assert [index][..0] == [];
    forall e | (Key(tier, index), e) in es
      ensures Found(es, tier, [index]) == [e.tile]
    {
      GetExactly(es, Key(tier, index), e);
    }
    if Key(tier, index) !in Keys(es) {
      GetMeans(es, Key(tier, index));
      assert Get(es, Key(tier, index)).None?;
    }
  }

  // ------------------------------------------------------------ requests

  /** A tile is asked of the server unless it is cached and sealed: it was used since
      the cache was cleared, as a sealed tile, and fewer others than the cache can
      hold were used after that. */
  lemma AskFetchesExactly(steps: seq<Step>, k: Key, max: nat)
    requires Run(steps, max).Some?
    ensures var s, t, uses := Run(steps, max).value, Run(steps + [Ask(k)], max), Uses(steps, max);
            var hit := Get(uses, k).Some? && Get(uses, k).value.isSealed && |UsedSince(uses, k)| < max;
            t.Some? && t.value.requests == if hit then s.requests else s.requests + [k]
  {
    RunOneMore(steps, Ask(k), max);
    LoadedInRunExactly(steps, k, max);
  }

  /** A response that arrives is in the cache from then on, whether the tile is
      sealed or not. */
  lemma DeliveredIsCached(steps: seq<Step>, i: nat, max: nat)
    requires Run(steps + [Deliver(i)], max).Some? && Run(steps, max).Some? && max > 0
    requires i < |Run(steps, max).value.responses|
    ensures var r := Run(steps, max).value.responses[i];
            Get(Run(steps + [Deliver(i)], max).value.entries, r.key) == Some(r.entry)
  {
    var s := Run(steps, max).value;
    RunOneMore(steps, Deliver(i), max);
    var es := Touched(s.entries, s.responses[i].key, s.responses[i].entry, max);
    assert es[|es| - 1] == (s.responses[i].key, s.responses[i].entry);
  }

  // ------------------------------------------------------------ reports

  /** A report holds exactly the buckets of the tile's 1024 keys, in their order, and
      is sealed exactly when a later bucket exists. */
  lemma ReportExactly(tiers: seq<seq<Bucket>>, k: Key)
    requires 0 <= k.tier < |tiers| && k.index >= 0 && Ascending(tiers[k.tier])
    ensures var e, cols := Report(tiers, k), tiers[k.tier];
      && Ascending(e.tile)
      && (forall x :: x in e.tile <==> x in cols && 1024 * k.index <= x.key < 1024 * k.index + 1024)
      && (e.isSealed <==> exists x :: x in cols && x.key >= 1024 * k.index + 1024)
  {
    var cols := tiers[k.tier];
    T.TileHolds(cols, k.index);
    if T.Sealed(cols, k.index) {
      assert cols[|cols| - 1] in cols;
    }
    if exists x :: x in cols && x.key >= 1024 * k.index + 1024 {
      var x :| x in cols && x.key >= 1024 * k.index + 1024;
      var i :| 0 <= i < |cols| && cols[i] == x;
      assert cols[i].key <= cols[|cols| - 1].key;
    }
  }

  /** The server reported this entry at some moment of the run. */
  ghost predicate WasReported(steps: seq<Step>, k: Key, e: Entry, max: nat) {
    exists m :: 0 <= m <= |steps| && ReportedAt(steps[..m], k, e, max)
  }

  ghost predicate ReportedAt(steps: seq<Step>, k: Key, e: Entry, max: nat) {
    Run(steps, max).Some? && Report(Run(steps, max).value.tiers, k) == e
  }

  ghost predicate AllReported(steps: seq<Step>, s: State, max: nat) {
    && (forall x :: x in s.entries ==> WasReported(steps, x.0, x.1, max))
    && (forall r :: r in s.responses ==> WasReported(steps, r.key, r.entry, max))
  }

  lemma StaysReported(steps: seq<Step>, k: Key, e: Entry, max: nat)
    requires steps != [] && WasReported(steps[..|steps| - 1], k, e, max)
    ensures WasReported(steps, k, e, max)
  {
    var before := steps[..|steps| - 1];
    var m :| 0 <= m <= |before| && ReportedAt(before[..m], k, e, max);
    assert before[..m] == steps[..m];
  }

  lemma AllStayReported(steps: seq<Step>, s: State, max: nat)
    requires steps != [] && AllReported(steps[..|steps| - 1], s, max)
    ensures AllReported(steps, s, max)
  {
    forall x | x in s.entries
      ensures WasReported(steps, x.0, x.1, max)
    {
      StaysReported(steps, x.0, x.1, max);
    }
    forall r | r in s.responses
      ensures WasReported(steps, r.key, r.entry, max)
    {
      StaysReported(steps, r.key, r.entry, max);
    }
  }

  lemma NewReport(steps: seq<Step>, k: Key, max: nat)
    requires steps != [] && Run(steps[..|steps| - 1], max).Some?
    ensures WasReported(steps, k, Report(Run(steps[..|steps| - 1], max).value.tiers, k), max)
  {
    var e := Report(Run(steps[..|steps| - 1], max).value.tiers, k);
    assert ReportedAt(steps[..|steps| - 1], k, e, max);
  }

  lemma StepKeepsReported(steps: seq<Step>, max: nat)
    requires steps != [] && Run(steps, max).Some?
    requires Run(steps[..|steps| - 1], max).Some?
    requires AllReported(steps, Run(steps[..|steps| - 1], max).value, max)
    requires Distinct(Run(steps[..|steps| - 1], max).value.entries)
    ensures AllReported(steps, Run(steps, max).value, max)
  {
    var s, last := Run(steps[..|steps| - 1], max).value, steps[|steps| - 1];
    match last {
      case Ask(k) =>
        var hit := Get(s.entries, k);
        if hit.Some? {
          GetMeans(s.entries, k);
          TouchedMeans(s.entries, k, hit.value, max);
        }
      case Answer(i) => NewReport(steps, s.requests[i], max);
      case Deliver(i) =>
        assert s.responses[i] in s.responses;
        TouchedMeans(s.entries, s.responses[i].key, s.responses[i].entry, max);
      case _ =>
    }
  }

  /** Every cached tile, and every response on its way, is what the server reported
      for that key at some moment of the run. */
  lemma {:induction false} EntriesWereReported(steps: seq<Step>, max: nat)
    requires Run(steps, max).Some?
    ensures AllReported(steps, Run(steps, max).value, max)
  {
    if steps != [] {
      var before := steps[..|steps| - 1];
      EntriesWereReported(before, max);
      AllStayReported(steps, Run(before, max).value, max);
      RunIsUses(before, max);
      TouchedAllMeans([], Uses(before, max), max);
      StepKeepsReported(steps, max);
    }
  }
}
