/** The capture recorder (recorder.go): its fields, its file and the operations
    that run under its lock. I/O succeeds. */
module Recorder {
  import opened Bytes
  import opened Counters
  import opened Capture
  import opened CaptureSeal
  import opened Wrappers
  import F = Frame
  import L = CaptureFile
  import T = CaptureTimeline

  const CLOCK_HZ := 100_000_000

  /** The arrivals of a burst of samples, and of a packet of events. */
  function FromSamples(ss: seq<F.Sample>): (xs: seq<Arrival>)
    ensures |xs| == |ss| && forall i :: 0 <= i < |ss| ==> xs[i] == SampleArrival(ss[i])
  {
    seq(|ss|, i requires 0 <= i < |ss| => SampleArrival(ss[i]))
  }

  function FromEvents(es: seq<Event>): (xs: seq<Arrival>)
    ensures |xs| == |es| && forall i :: 0 <= i < |es| ==> xs[i] == PwmArrival(es[i])
  {
    seq(|es|, i requires 0 <= i < |es| => PwmArrival(es[i]))
  }

  /** Events lost to the limits while `xs` arrive. */
  function LostOver(c: Capture, xs: seq<Arrival>): nat {
    if xs == [] then 0
    else LostOver(c, xs[..|xs| - 1]) + LostBy(After(c, xs[..|xs| - 1]), xs[|xs| - 1])
  }

  lemma LostOneMore(c: Capture, xs: seq<Arrival>, x: Arrival)
    ensures LostOver(c, xs + [x]) == LostOver(c, xs) + LostBy(After(c, xs), x)
  {
    assert (xs + [x])[..|xs|] == xs;
  }

  /** The arrival of a newer epoch restarts the capture. */
  predicate Restarts(c: Capture, x: Arrival) {
    c.epoch.Some? && Mask(x.Epoch()) != c.epoch.value && EpochNewer(Mask(x.Epoch()), c.epoch.value)
  }

  /** How many of the stored samples of `c` are still there after `xs`. */
  function Survivors(c: Capture, xs: seq<Arrival>): nat {
    if xs == [] then |c.records|
    else if Restarts(After(c, xs[..|xs| - 1]), xs[|xs| - 1]) then 0
    else Survivors(c, xs[..|xs| - 1])
  }

  lemma SurvivorsOneMore(c: Capture, xs: seq<Arrival>, x: Arrival)
    ensures Survivors(c, xs + [x]) == if Restarts(After(c, xs), x) then 0 else Survivors(c, xs)
  {
    assert (xs + [x])[..|xs|] == xs;
  }

  /** The file a stop leaves: the sealed capture, its metadata rewritten if extra
      was set. */
  function Stopped(meta: seq<byte>, c: Capture, timeBits: nat -> u32, extra: bool, json: L.Remarshalled): seq<byte>
    requires !json.Fails?
  {
    SealedCanBeMerged(meta, c, timeBits, extra, json);
    L.MergeMeta(Sealed(meta, c, timeBits), extra, json).data
  }

  lemma FromSamplesMore(ss: seq<F.Sample>, i: nat)
    requires i < |ss|
    ensures FromSamples(ss[..i + 1]) == FromSamples(ss[..i]) + [SampleArrival(ss[i])]
  {}

  lemma FromEventsMore(es: seq<Event>, i: nat)
    requires i < |es|
    ensures FromEvents(es[..i + 1]) == FromEvents(es[..i]) + [PwmArrival(es[i])]
  {}

  lemma SealedParts(header: seq<byte>, count: seq<byte>, rows: seq<byte>, k: seq<byte>, events: seq<byte>)
    ensures header + count + rows + k + events == header + (count + rows + k + events)
  {}

  class Recorder {
    var fileOpen: bool
    var bytes: seq<byte>
    var pos: nat
    var countOff: nat
    var sampleCount: nat
    var runEpoch: epoch14
    var haveEpoch: bool
    var baseEpoch: u16
    var lastCycles: u32
    var wrapCycles: nat
    var baseAbsCycles: u32
    var haveBase: bool
    var pwmLastCycles: u32
    var pwmWrapCycles: nat
    var pwmHaveBase: bool
    var pwmEvents: seq<PwmRecord>
    var pendingPWM: seq<Event>
    var generation: nat
    var active: bool
    var dropped: nat
    var written: nat
    var pwmClockHz: u32
    /** Whether extra metadata was set. */
    var extraMeta: bool
    /** The last file sealed by a stop. */
    var latest: Option<seq<byte>>
    const timeBits: nat -> u32

    /** The metadata and the head of the open file, and the stored samples behind
        its rows. */
    ghost var meta: seq<byte>
    ghost var head: seq<byte>
    ghost var records: seq<Record>

    ghost function Abstract(): Capture
      reads this
    {
      Capture(if haveEpoch then Some(runEpoch) else None,
              if haveBase then Some(Timeline(baseEpoch, lastCycles, wrapCycles, baseAbsCycles)) else None,
              records, Events(), pendingPWM)
    }

    /** The event side of it. */
    ghost function Events(): Pwm
      reads this
    {
      Pwm(if pwmHaveBase then Some(PwmClock(pwmLastCycles, pwmWrapCycles)) else None, pwmEvents)
    }

    /** What holds of the fields even in the middle of a batch. */
    ghost predicate Coherent()
      reads this
    {
      && sampleCount == |records| && Sound(Abstract())
      && (!haveBase ==> wrapCycles == 0) && (!pwmHaveBase ==> pwmWrapCycles == 0)
    }

    /** The open file together with rows not yet written. */
    ghost predicate FileHolds(tail: seq<byte>)
      reads this
    {
      && fileOpen && pos == |bytes| && countOff + 4 == |head| <= |bytes|
      && bytes + tail == head + L.EncodeRows(Rows(records, timeBits))
    }

    /** What holds of an open file whenever the lock is free. Its position is that
        of its last row's end. */
    ghost predicate Valid()
      reads this
    {
      fileOpen ==>
        && Coherent() && FileHolds([]) && head == Head(meta)
        && pos == countOff + 4 + L.ROW_BYTES * sampleCount
    }

    constructor (timeBits: nat -> u32)
      ensures Valid() && !fileOpen && !active && generation == 0 && latest == None && written == 0
      ensures this.timeBits == timeBits
    {
      this.timeBits := timeBits;
      fileOpen, bytes, pos, countOff, sampleCount := false, [], 0, 0, 0;
      runEpoch, haveEpoch, baseEpoch, lastCycles, wrapCycles := 0, false, 0, 0, 0;
      baseAbsCycles, haveBase := 0, false;
      pwmLastCycles, pwmWrapCycles, pwmHaveBase := 0, 0, false;
      pwmEvents, pendingPWM := [], [];
      generation, active, dropped, written, latest := 0, false, 0, 0, None;
      pwmClockHz, extraMeta := 0, false;
      meta, head, records := [], [], [];
    }

    // ---------------------------------------------------------- file

    method WriteFile(data: seq<byte>)
      modifies `bytes, `pos
      ensures bytes == Overwrite(old(bytes), old(pos), data) && pos == old(pos) + |data|
    {
      bytes := Overwrite(bytes, pos, data);
      pos := pos + |data|;
    }

    method Seek(to: nat)
      modifies `pos
      ensures pos == to
    {
      pos := to;
    }

    // ---------------------------------------------------------- epochs

    method PrepareEpoch(epoch: u16, ghost tail: seq<byte>) returns (admitted: bool)
      requires Coherent() && FileHolds(tail)
      modifies `bytes, `pos, `runEpoch, `haveEpoch, `sampleCount, `haveBase, `wrapCycles, `baseAbsCycles
      modifies `pwmHaveBase, `pwmWrapCycles, `pwmEvents, `pendingPWM, `records
      ensures Coherent() && (Abstract(), admitted) == Prepare(old(Abstract()), epoch)
      ensures FileHolds(if admitted && old(haveEpoch) && Mask(epoch) != old(runEpoch) then [] else tail)
    {
      var e := Mask(epoch);
      if !haveEpoch {
        runEpoch, haveEpoch := e, true;
        return true;
      }
      if e == runEpoch {
        return true;
      }
      if !EpochNewer(e, runEpoch) {
        return false;
      }
      StartOver(e, tail);
      return true;
    }

    /** Truncates the file behind its count field and goes there. */
    method ResetFile()
      requires fileOpen && countOff + 4 <= |bytes|
      modifies `bytes, `pos
      ensures bytes == old(bytes)[..countOff + 4] && pos == countOff + 4
    {
      bytes := bytes[..countOff + 4];
      pos := countOff + 4;
    }

    method ResetSamples()
      modifies `sampleCount, `haveBase, `wrapCycles, `baseAbsCycles, `records
      ensures sampleCount == 0 && !haveBase && wrapCycles == 0 && records == []
    {
      sampleCount, haveBase, wrapCycles, baseAbsCycles := 0, false, 0, 0;
      records := [];
    }

    method ResetEvents()
      modifies `pwmHaveBase, `pwmWrapCycles, `pwmEvents, `pendingPWM
      ensures !pwmHaveBase && pwmWrapCycles == 0 && pwmEvents == [] && pendingPWM == []
    {
      pwmHaveBase, pwmWrapCycles := false, 0;
      pwmEvents, pendingPWM := [], [];
    }

    /** Restarts the file in place for a newer epoch. */
    method StartOver(e: epoch14, ghost tail: seq<byte>)
      requires Coherent() && FileHolds(tail) && haveEpoch
      modifies `bytes, `pos, `runEpoch, `haveEpoch, `sampleCount, `haveBase, `wrapCycles, `baseAbsCycles
      modifies `pwmHaveBase, `pwmWrapCycles, `pwmEvents, `pendingPWM, `records
      ensures Coherent() && Abstract() == EMPTY.(epoch := Some(e))
      ensures FileHolds([])
    {
      CutBack(bytes, tail, head, records, timeBits);
      ResetFile();
      ResetSamples();
      ResetEvents();
      runEpoch := e;
      assert bytes + [] == bytes;
    }

    // ---------------------------------------------------------- events

    method AppendPWMEvent(ev: Event)
      requires !pwmHaveBase ==> pwmWrapCycles == 0
      modifies `pwmLastCycles, `pwmWrapCycles, `pwmHaveBase, `pwmEvents, `dropped
      ensures !pwmHaveBase ==> pwmWrapCycles == 0
      ensures Events()
           == if fileOpen && haveBase then AppendPwm(baseAbsCycles, old(Events()), ev) else old(Events())
      ensures dropped == old(dropped)
                         + if fileOpen && haveBase && PwmFull(baseAbsCycles, old(Events()), ev) then 1 else 0
    {
      if !fileOpen || !haveBase {
        return;
      }
      if !pwmHaveBase {
        pwmHaveBase := true;
        if ev.tCycles < baseAbsCycles && baseAbsCycles - ev.tCycles > HALF {
          pwmWrapCycles := WORD;
        }
      } else if ev.tCycles < pwmLastCycles && pwmLastCycles - ev.tCycles > HALF {
        pwmWrapCycles := pwmWrapCycles + WORD;
      }
      pwmLastCycles := ev.tCycles;
      var absTC := pwmWrapCycles + ev.tCycles;
      if absTC < baseAbsCycles {
        return;
      }
      if |pwmEvents| >= MAX_PWM_EVENTS {
        dropped := dropped + 1;
        return;
      }
      pwmEvents := pwmEvents + [PwmRecord(Low(absTC - baseAbsCycles), ev.a, ev.b, ev.c)];
    }

    /** Stores the events that waited for the base. The test of their epoch never
        fails: a newer epoch empties the list. */
    method FlushPendingPWM()
      requires fileOpen && haveBase && (!pwmHaveBase ==> pwmWrapCycles == 0)
      requires |pwmEvents| + |pendingPWM| <= MAX_PWM_EVENTS
      modifies `pwmLastCycles, `pwmWrapCycles, `pwmHaveBase, `pwmEvents, `dropped, `pendingPWM
      ensures !pwmHaveBase ==> pwmWrapCycles == 0
      ensures Events() == AppendAll(baseAbsCycles, old(Events()), old(pendingPWM), Some(runEpoch))
      ensures pendingPWM == [] && dropped == old(dropped)
    {
      if !haveBase || |pendingPWM| == 0 {
        return;
      }
      var pending := pendingPWM;
      pendingPWM := [];
      for i := 0 to |pending|
        invariant !pwmHaveBase ==> pwmWrapCycles == 0
        invariant Events() == AppendAll(baseAbsCycles, old(Events()), pending[..i], Some(runEpoch))
        invariant |pwmEvents| <= |old(pwmEvents)| + i && dropped == old(dropped) && pendingPWM == []
      {
        assert pending[..i + 1][..i] == pending[..i];
        if Mask(pending[i].epoch) != runEpoch {
          continue;
        }
        AppendPWMEvent(pending[i]);
      }
      assert pending[..|pending|] == pending;
    }

    // ---------------------------------------------------------- samples

    /** The clock part of a sample's admission. */
    method AdvanceClock(s: F.Sample) returns (at: Option<nat>)
      requires Coherent() && fileOpen && haveEpoch
      modifies `lastCycles, `baseEpoch, `haveBase, `baseAbsCycles, `wrapCycles
      modifies `pwmLastCycles, `pwmWrapCycles, `pwmHaveBase, `pwmEvents, `dropped, `pendingPWM
      ensures Coherent() && haveBase && dropped == old(dropped)
      ensures var c, after := old(Abstract()), TakeSample(old(Abstract()), s);
        && Abstract() == after.(records := c.records)
        && after.records == if at.None? then c.records else c.records + [Stored(at.value, s)]
    {
      if !haveBase {
        FirstSample(s);
      } else if s.epoch == baseEpoch && s.tCycles <= lastCycles
                && !(s.tCycles < lastCycles && lastCycles - s.tCycles > HALF) {
        return None;
      }
      if s.tCycles < lastCycles && lastCycles - s.tCycles > HALF {
        wrapCycles := wrapCycles + WORD;
      }
      lastCycles := s.tCycles;
      var absCycles := wrapCycles + s.tCycles;
      if absCycles < baseAbsCycles {
        return None;
      }
      at := Some(absCycles - baseAbsCycles);
    }

    /** The first sample of an epoch sets the base, and releases the events that
        waited for it. */
    method FirstSample(s: F.Sample)
      requires Coherent() && fileOpen && haveEpoch && !haveBase
      modifies `lastCycles, `baseEpoch, `haveBase, `baseAbsCycles
      modifies `pwmLastCycles, `pwmWrapCycles, `pwmHaveBase, `pwmEvents, `dropped, `pendingPWM
      ensures haveBase && lastCycles == s.tCycles && baseEpoch == s.epoch && baseAbsCycles == s.tCycles
      ensures Events() == AppendAll(s.tCycles, NO_PWM, old(pendingPWM), Some(runEpoch)) && pendingPWM == []
      ensures |pwmEvents| <= MAX_PWM_EVENTS && dropped == old(dropped)
      ensures !pwmHaveBase ==> pwmWrapCycles == 0
    {
      AppendAllIsShort(s.tCycles, NO_PWM, pendingPWM, Some(runEpoch));
      lastCycles, baseEpoch, haveBase := s.tCycles, s.epoch, true;
      baseAbsCycles := s.tCycles;
      FlushPendingPWM();
    }

    /** Puts the seven values of a row into the buffer. */
    method PutRow(buf: array<byte>, off: nat, row: L.Row)
      requires off + L.ROW_BYTES <= buf.Length
      modifies buf
      ensures buf[..off + L.ROW_BYTES] == old(buf[..off]) + L.EncodeWords(L.Values(row))
    {
      ghost var before := buf[..off];
      var values := L.Values(row);
      var at := off;
      for i := 0 to 7
        invariant at == off + 4 * i
        invariant buf[..at] == before + L.EncodeWords(values[..i])
      {
        PutWord(buf, at, values[i]);
        assert values[..i + 1][..i] == values[..i];
        assert before + (L.EncodeWords(values[..i]) + LE32(values[i]))
            == (before + L.EncodeWords(values[..i])) + LE32(values[i]);
        at := at + 4;
      }
      assert values[..7] == values;
    }

    method PutWord(buf: array<byte>, at: nat, w: u32)
      requires at + 4 <= buf.Length
      modifies buf
      ensures buf[..at + 4] == old(buf[..at]) + LE32(w)
    {
      buf[at], buf[at + 1] := w % 0x100, w / 0x100 % 0x100;
      buf[at + 2], buf[at + 3] := w / 0x100 / 0x100 % 0x100, w / 0x100 / 0x100 / 0x100;
    }

    /** Prepares the epoch of a sample of a batch. A restart of the file takes the
        rows still in the buffer with it. */
    method AdmitSample(s: F.Sample, buf: array<byte>, off: nat) returns (admitted: bool, next: nat)
      requires off <= buf.Length && Coherent() && FileHolds(buf[..off])
      modifies `bytes, `pos, `runEpoch, `haveEpoch, `sampleCount, `haveBase, `wrapCycles, `baseAbsCycles
      modifies `pwmHaveBase, `pwmWrapCycles, `pwmEvents, `pendingPWM, `records
      ensures next == if Restarts(old(Abstract()), SampleArrival(s)) then 0 else off
      ensures |records| == if Restarts(old(Abstract()), SampleArrival(s)) then 0 else |old(records)|
      ensures Coherent() && (Abstract(), admitted) == Prepare(old(Abstract()), s.epoch)
      ensures FileHolds(buf[..next])
    {
      var prevHaveEpoch, prevEpoch := haveEpoch, runEpoch;
      var epoch := Mask(s.epoch);
      next := off;
      admitted := PrepareEpoch(s.epoch, buf[..off]);
      if !admitted {
        return;
      }
      if prevHaveEpoch && epoch != prevEpoch && epoch == runEpoch {
        next := 0;
      }
    }

    method StoreRow(elapsed: nat, s: F.Sample, buf: array<byte>, off: nat) returns (next: nat)
      requires off + L.ROW_BYTES <= buf.Length
      requires FileHolds(buf[..off]) && Coherent() && haveBase
      modifies `sampleCount, `records, buf
      ensures next == off + L.ROW_BYTES && |records| == |old(records)| + 1
      ensures FileHolds(buf[..next]) && Coherent()
      ensures Abstract() == var c := old(Abstract()); c.(records := c.records + [Stored(elapsed, s)])
    {
      var row := L.Row(timeBits(elapsed), s.ia, s.ib, s.fluxA, s.fluxB, s.speed);
      ImageOneMore(bytes, buf[..off], L.EncodeWords(L.Values(row)), head, records, Stored(elapsed, s), timeBits);
      PutRow(buf, off, row);
      next := off + L.ROW_BYTES;
      sampleCount := sampleCount + 1;
      records := records + [Stored(elapsed, s)];
    }

    /** Takes in an admitted sample. */
    method KeepSample(s: F.Sample, buf: array<byte>, off: nat) returns (next: nat)
      requires off + L.ROW_BYTES <= buf.Length && haveEpoch
      requires Coherent() && FileHolds(buf[..off])
      modifies `lastCycles, `baseEpoch, `haveBase, `baseAbsCycles, `wrapCycles
      modifies `pwmLastCycles, `pwmWrapCycles, `pwmHaveBase, `pwmEvents, `dropped, `pendingPWM
      modifies `sampleCount, `records, buf
      ensures next <= off + L.ROW_BYTES && dropped == old(dropped)
      ensures if next == off then |records| == |old(records)|
              else next == off + L.ROW_BYTES && |records| == |old(records)| + 1
      ensures Coherent() && FileHolds(buf[..next]) && Abstract() == TakeSample(old(Abstract()), s)
    {
      ghost var c := Abstract();
      var at := AdvanceClock(s);
      next := off;
      match at {
        case None =>
        case Some(elapsed) => next := StoreRow(elapsed, s, buf, off);
      }
    }

    /** One sample of a batch: the file and the first `off` bytes of the buffer
        hold the stored rows before and after. */
    method AddSample(s: F.Sample, buf: array<byte>, off: nat) returns (next: nat)
      requires off + L.ROW_BYTES <= buf.Length
      requires Coherent() && FileHolds(buf[..off])
      modifies `bytes, `pos, `runEpoch, `haveEpoch, `sampleCount, `haveBase, `wrapCycles, `baseAbsCycles
      modifies `pwmHaveBase, `pwmWrapCycles, `pwmEvents, `pendingPWM, `records
      modifies `lastCycles, `baseEpoch, `pwmLastCycles, `dropped, buf
      ensures next <= off + L.ROW_BYTES && dropped == old(dropped)
      ensures next == if Restarts(old(Abstract()), SampleArrival(s)) then L.ROW_BYTES * |records|
                      else off + L.ROW_BYTES * (|records| - |old(records)|)
      ensures Coherent() && FileHolds(buf[..next]) && Abstract() == Arrive(old(Abstract()), SampleArrival(s))
    {
      var admitted;
      admitted, next := AdmitSample(s, buf, off);
      if admitted {
        next := KeepSample(s, buf, next);
      }
    }

    /** Writes the rows in the buffer behind those of the file. */
    method FlushBuffer(buf: array<byte>, off: nat)
      requires off <= buf.Length && FileHolds(buf[..off]) && Coherent()
      modifies `bytes, `pos, `written
      ensures FileHolds([]) && Coherent() && Abstract() == old(Abstract())
      ensures written == old(written) + off / L.ROW_BYTES
    {
      if off == 0 {
        assert bytes + buf[..off] == bytes == bytes + [];
        return;
      }
      WriteOut(buf, off);
    }

    method WriteOut(buf: array<byte>, off: nat)
      requires off <= buf.Length && FileHolds(buf[..off]) && Coherent()
      modifies `bytes, `pos, `written
      ensures FileHolds([]) && Coherent() && Abstract() == old(Abstract())
      ensures written == old(written) + off / L.ROW_BYTES
    {
      WriteAtEnd(bytes, buf[..off]);
      WriteFile(buf[..off]);
      written := written + off / L.ROW_BYTES;
      assert bytes + [] == bytes;
    }

    /** The arrivals `xs` have been taken in, and the rows of them that are not in
        the file are the first `off` bytes of the buffer. */
    ghost predicate Buffered(c: Capture, xs: seq<Arrival>, buf: array<byte>, off: nat)
      reads this, buf
    {
      && off <= buf.Length && Coherent() && FileHolds(buf[..off])
      && Abstract() == After(c, xs) && off == L.ROW_BYTES * (|records| - Survivors(c, xs))
    }

    method AddNext(s: F.Sample, buf: array<byte>, off: nat, ghost c: Capture, ghost xs: seq<Arrival>)
      returns (next: nat)
      requires off + L.ROW_BYTES <= buf.Length && Buffered(c, xs, buf, off)
      modifies `bytes, `pos, `runEpoch, `haveEpoch, `sampleCount, `haveBase, `wrapCycles, `baseAbsCycles
      modifies `pwmHaveBase, `pwmWrapCycles, `pwmEvents, `pendingPWM, `records
      modifies `lastCycles, `baseEpoch, `pwmLastCycles, `dropped, buf
      ensures next <= off + L.ROW_BYTES && dropped == old(dropped)
      ensures Buffered(c, xs + [SampleArrival(s)], buf, next)
    {
      AfterOneMore(c, xs, SampleArrival(s));
      SurvivorsOneMore(c, xs, SampleArrival(s));
      next := AddSample(s, buf, off);
    }

    /** Turns a batch of the open capture into rows of its file. */
    method WriteRows(samples: seq<F.Sample>)
      requires Coherent() && FileHolds([])
      modifies `bytes, `pos, `runEpoch, `haveEpoch, `sampleCount, `haveBase, `wrapCycles, `baseAbsCycles
      modifies `pwmHaveBase, `pwmWrapCycles, `pwmEvents, `pendingPWM, `records
      modifies `lastCycles, `baseEpoch, `pwmLastCycles, `dropped, `written
      ensures Coherent() && FileHolds([]) && dropped == old(dropped)
      ensures Abstract() == After(old(Abstract()), FromSamples(samples))
      ensures written == old(written) + |records| - Survivors(old(Abstract()), FromSamples(samples))
    {
      var buf := new byte[|samples| * L.ROW_BYTES];
      var off := FillBuffer(samples, buf);
      FlushBuffer(buf, off);
    }

    /** The loop over the samples of a batch. */
    method FillBuffer(samples: seq<F.Sample>, buf: array<byte>) returns (off: nat)
      requires Coherent() && FileHolds([]) && buf.Length == |samples| * L.ROW_BYTES
      modifies `bytes, `pos, `runEpoch, `haveEpoch, `sampleCount, `haveBase, `wrapCycles, `baseAbsCycles
      modifies `pwmHaveBase, `pwmWrapCycles, `pwmEvents, `pendingPWM, `records
      modifies `lastCycles, `baseEpoch, `pwmLastCycles, `dropped, buf
      ensures Buffered(old(Abstract()), FromSamples(samples), buf, off) && dropped == old(dropped)
    {
      off := 0;
      ghost var c := Abstract();
      assert buf[..0] == [];
      for i := 0 to |samples|
        invariant off <= L.ROW_BYTES * i
        invariant Buffered(c, FromSamples(samples[..i]), buf, off) && dropped == old(dropped)
      {
        FromSamplesMore(samples, i);
        off := AddNext(samples[i], buf, off, c, FromSamples(samples[..i]));
      }
      assert samples[..|samples|] == samples;
    }

    /** The loop's work on one batch, under the lock. */
    method WriteBatch(batchGeneration: nat, samples: seq<F.Sample>)
      requires Valid()
      modifies `bytes, `pos, `runEpoch, `haveEpoch, `sampleCount, `haveBase, `wrapCycles, `baseAbsCycles
      modifies `pwmHaveBase, `pwmWrapCycles, `pwmEvents, `pendingPWM, `records
      modifies `lastCycles, `baseEpoch, `pwmLastCycles, `dropped, `written
      ensures Valid() && dropped == old(dropped)
      ensures if fileOpen && batchGeneration == generation
              then Abstract() == After(old(Abstract()), FromSamples(samples))
                   && written == old(written) + |records| - Survivors(old(Abstract()), FromSamples(samples))
              else Abstract() == old(Abstract()) && bytes == old(bytes) && written == old(written)
    {
      if !fileOpen || batchGeneration != generation {
        return;
      }
      WriteRows(samples);
    }

    // ---------------------------------------------------------- submissions

    method HoldOrPlace(ev: Event)
      requires Coherent() && fileOpen && haveEpoch && Some(Mask(ev.epoch)) == Some(runEpoch)
      modifies `pwmLastCycles, `pwmWrapCycles, `pwmHaveBase, `pwmEvents, `dropped, `pendingPWM
      ensures Coherent() && Abstract() == TakeEvent(old(Abstract()), ev)
      ensures dropped == old(dropped) + Lost(old(Abstract()), ev)
    {
      if !haveBase {
        if |pendingPWM| >= MAX_PWM_EVENTS {
          dropped := dropped + 1;
          return;
        }
        pendingPWM := pendingPWM + [ev];
        return;
      }
      AppendPWMEvent(ev);
    }

    method AddEvent(ev: Event)
      requires Coherent() && FileHolds([])
      modifies `bytes, `pos, `runEpoch, `haveEpoch, `sampleCount, `haveBase, `wrapCycles, `baseAbsCycles
      modifies `pwmHaveBase, `pwmWrapCycles, `pwmEvents, `pendingPWM, `records
      modifies `pwmLastCycles, `dropped
      ensures Coherent() && FileHolds([]) && Abstract() == Arrive(old(Abstract()), PwmArrival(ev))
      ensures dropped == old(dropped) + LostBy(old(Abstract()), PwmArrival(ev))
    {
      var admitted := PrepareEpoch(ev.epoch, []);
      if admitted {
        HoldOrPlace(ev);
      }
    }

    method PlaceEvents(events: seq<Event>)
      requires Coherent() && FileHolds([])
      modifies `bytes, `pos, `runEpoch, `haveEpoch, `sampleCount, `haveBase, `wrapCycles, `baseAbsCycles
      modifies `pwmHaveBase, `pwmWrapCycles, `pwmEvents, `pendingPWM, `records
      modifies `pwmLastCycles, `dropped
      ensures Coherent() && FileHolds([])
      ensures Abstract() == After(old(Abstract()), FromEvents(events))
      ensures dropped == old(dropped) + LostOver(old(Abstract()), FromEvents(events))
    {
      for i := 0 to |events|
        invariant Coherent() && FileHolds([])
        invariant Abstract() == After(old(Abstract()), FromEvents(events[..i]))
        invariant dropped == old(dropped) + LostOver(old(Abstract()), FromEvents(events[..i]))
      {
        FromEventsMore(events, i);
        AfterOneMore(old(Abstract()), FromEvents(events[..i]), PwmArrival(events[i]));
        LostOneMore(old(Abstract()), FromEvents(events[..i]), PwmArrival(events[i]));
        AddEvent(events[i]);
      }
      assert events[..|events|] == events;
    }

    /** A packet of events, under the lock. */
    method SubmitPWM(clock: u32, events: seq<Event>)
      requires Valid()
      modifies `bytes, `pos, `runEpoch, `haveEpoch, `sampleCount, `haveBase, `wrapCycles, `baseAbsCycles
      modifies `pwmHaveBase, `pwmWrapCycles, `pwmEvents, `pendingPWM, `records
      modifies `pwmLastCycles, `dropped, `pwmClockHz
      ensures Valid()
      ensures pwmClockHz == if active && fileOpen && events != [] && clock != 0 then clock else old(pwmClockHz)
      ensures if active && fileOpen
              then Abstract() == After(old(Abstract()), FromEvents(events))
                   && dropped == old(dropped) + LostOver(old(Abstract()), FromEvents(events))
              else Abstract() == old(Abstract()) && dropped == old(dropped) && bytes == old(bytes)
    {
      if !active || |events| == 0 {
        return;
      }
      if !fileOpen {
        return;
      }
      PlacePacket(clock, events);
    }

    method PlacePacket(clock: u32, events: seq<Event>)
      requires Coherent() && FileHolds([])
      modifies `bytes, `pos, `runEpoch, `haveEpoch, `sampleCount, `haveBase, `wrapCycles, `baseAbsCycles
      modifies `pwmHaveBase, `pwmWrapCycles, `pwmEvents, `pendingPWM, `records
      modifies `pwmLastCycles, `dropped, `pwmClockHz
      ensures Coherent() && FileHolds([])
      ensures pwmClockHz == if clock != 0 then clock else old(pwmClockHz)
      ensures Abstract() == After(old(Abstract()), FromEvents(events))
      ensures dropped == old(dropped) + LostOver(old(Abstract()), FromEvents(events))
    {
      SetClock(clock);
      PlaceEvents(events);
    }

    method SetClock(clock: u32)
      requires Coherent() && FileHolds([])
      modifies `pwmClockHz
      ensures Coherent() && FileHolds([]) && Abstract() == old(Abstract())
      ensures pwmClockHz == if clock != 0 then clock else old(pwmClockHz)
    {
      if clock != 0 {
        pwmClockHz := clock;
      }
    }

    // ---------------------------------------------------------- start and stop

    /** Extra metadata for the next stop. */
    method SetMetadata(empty: bool)
      modifies `extraMeta
      ensures extraMeta == (old(extraMeta) || !empty)
    {
      if empty {
        return;
      }
      extraMeta := true;
    }

    /** `json` is what re-marshalling the old file's metadata gives. */
    method Start(metaBytes: seq<byte>, json: L.Remarshalled)
      requires Valid() && !json.Fails?
      modifies this
      ensures Valid() && fileOpen && active && meta == metaBytes && Abstract() == EMPTY
      ensures bytes == Head(metaBytes) && generation == old(generation) + 1 && latest == None
      ensures !extraMeta && pwmClockHz == CLOCK_HZ && written == old(written) && dropped == old(dropped)
    {
      Stop(json);
      OpenCapture(metaBytes);
    }

    method OpenCapture(metaBytes: seq<byte>)
      modifies `fileOpen, `bytes, `pos, `countOff, `meta, `head
      modifies `sampleCount, `haveBase, `wrapCycles, `baseAbsCycles, `records
      modifies `pwmHaveBase, `pwmWrapCycles, `pwmEvents, `pendingPWM, `haveEpoch
      modifies `generation, `latest, `pwmClockHz, `extraMeta, `active
      ensures Valid() && fileOpen && active && meta == metaBytes && Abstract() == EMPTY
      ensures bytes == Head(metaBytes) && generation == old(generation) + 1 && latest == None
      ensures !extraMeta && pwmClockHz == CLOCK_HZ
    {
      OpenFile(metaBytes);
      BeginCapture();
    }

    /** The new file is the next generation, nothing has arrived at it, and it is
        open to submissions. */
    method BeginCapture()
      requires fileOpen && bytes == head == Head(meta) && pos == |bytes| && countOff + 4 == |head|
      modifies `sampleCount, `haveBase, `wrapCycles, `baseAbsCycles, `records
      modifies `pwmHaveBase, `pwmWrapCycles, `pwmEvents, `pendingPWM, `haveEpoch
      modifies `generation, `latest, `pwmClockHz, `extraMeta, `active
      ensures Valid() && Abstract() == EMPTY
      ensures generation == old(generation) + 1 && latest == None && active
      ensures pwmClockHz == CLOCK_HZ && !extraMeta
    {
      NextGeneration();
      ResetCapture();
    }

    method NextGeneration()
      modifies `generation, `latest, `pwmClockHz, `extraMeta, `active
      ensures generation == old(generation) + 1 && latest == None && active
      ensures pwmClockHz == CLOCK_HZ && !extraMeta
    {
      generation := generation + 1;
      pwmClockHz := CLOCK_HZ;
      latest := None;
      extraMeta := false;
      active := true;
    }

    /** Nothing has arrived at the new file. */
    method ResetCapture()
      requires fileOpen && bytes == head && pos == |bytes| && countOff + 4 == |head|
      modifies `sampleCount, `haveBase, `wrapCycles, `baseAbsCycles, `records
      modifies `pwmHaveBase, `pwmWrapCycles, `pwmEvents, `pendingPWM, `haveEpoch
      ensures Coherent() && FileHolds([]) && Abstract() == EMPTY
    {
      ResetSamples();
      ResetEvents();
      haveEpoch := false;
      assert L.EncodeRows(Rows([], timeBits)) == [];
      assert bytes + [] == head + [];
    }

    /** Creates the file: header, alignment gap, and a zero count. */
    method OpenFile(metaBytes: seq<byte>)
      modifies `fileOpen, `bytes, `pos, `countOff, `meta, `head
      ensures fileOpen && bytes == Head(metaBytes) == head && meta == metaBytes
      ensures pos == |bytes| && countOff + 4 == |head|
    {
      bytes, pos := [], 0;
      var header := L.MAGIC + [L.FORMAT_VERSION] + LE32(Low(|metaBytes|)) + metaBytes;
      WriteFile(header);
      var aligned := L.Align8(|header|);
      Seek(aligned);
      WriteFile(LE32(0));
      fileOpen, countOff := true, aligned;
      meta, head := metaBytes, Head(metaBytes);
      WriteHead(metaBytes);
    }

    /** Seals the open file, and rewrites its metadata when extra was set. */
    method Stop(json: L.Remarshalled)
      requires Valid() && !json.Fails?
      modifies `active, `bytes, `pos, `pwmEvents, `latest, `fileOpen
      ensures Valid() && !fileOpen && !active
      ensures latest == if old(fileOpen) then Some(Stopped(meta, old(Abstract()), timeBits, extraMeta, json))
                        else old(latest)
    {
      active := false;
      if !fileOpen {
        return;
      }
      Finish(json);
    }

    method Finish(json: L.Remarshalled)
      requires Coherent() && FileHolds([]) && head == Head(meta) && !json.Fails?
      modifies `bytes, `pos, `pwmEvents, `latest, `fileOpen
      ensures !fileOpen
      ensures latest == Some(Stopped(meta, old(Abstract()), timeBits, extraMeta, json))
    {
      SealedCanBeMerged(meta, Abstract(), timeBits, extraMeta, json);
      SealFile();
      CloseFile(json);
    }

    /** Closes the sealed file, its metadata rewritten if extra was set. */
    method CloseFile(json: L.Remarshalled)
      requires L.MergeMeta(bytes, extraMeta, json).Bytes?
      modifies `bytes, `latest, `fileOpen
      ensures latest == Some(L.MergeMeta(old(bytes), extraMeta, json).data) && !fileOpen
    {
      if extraMeta {
        bytes := L.MergeMeta(bytes, true, json).data;
      }
      latest := Some(bytes);
      fileOpen := false;
    }

    /** Seals the open file: the sample count in its place, the events sorted
        behind the samples. */
    method SealFile()
      requires sampleCount == |records| && FileHolds([]) && head == Head(meta)
      modifies `bytes, `pos, `pwmEvents
      ensures pwmEvents == SortByCycles(old(pwmEvents))
      ensures bytes == Sealed(meta, old(Abstract()), timeBits)
    {
      ghost var rows, header := L.EncodeRows(Rows(records, timeBits)), L.Header(L.FORMAT_VERSION, meta);
      ghost var count, events := LE32(Low(sampleCount)), LE32(Low(|pwmEvents|));
      assert bytes + [] == bytes;
      PutCount(rows);
      PutEvents();
      SealedParts(header, count, rows, events, L.EncodeEvents(pwmEvents));
    }

    /** Behind the samples: the event count, and the events in order. */
    method PutEvents()
      requires countOff + 4 + sampleCount * L.ROW_BYTES == |bytes|
      modifies `bytes, `pos, `pwmEvents
      ensures pwmEvents == SortByCycles(old(pwmEvents))
      ensures bytes == old(bytes) + LE32(Low(|pwmEvents|)) + L.EncodeEvents(pwmEvents)
    {
      var end := countOff + 4 + sampleCount * L.ROW_BYTES;
      Seek(end);
      WriteAtEnd(bytes, LE32(Low(|pwmEvents|)));
      WriteFile(LE32(Low(|pwmEvents|)));
      pwmEvents := SortByCycles(pwmEvents);
      WriteEvents();
    }

    method PutCount(ghost rows: seq<byte>)
      requires bytes == Head(meta) + rows && countOff == |L.Header(L.FORMAT_VERSION, meta)|
      modifies `bytes, `pos
      ensures bytes == L.Header(L.FORMAT_VERSION, meta) + LE32(Low(sampleCount)) + rows
    {
      WriteCount(L.Header(L.FORMAT_VERSION, meta), LE32(0), rows, LE32(Low(sampleCount)));
      Seek(countOff);
      WriteFile(LE32(Low(sampleCount)));
    }

    method WriteEvents()
      requires pos == |bytes|
      modifies `bytes, `pos
      ensures bytes == old(bytes) + L.EncodeEvents(pwmEvents)
    {
      for i := 0 to |pwmEvents|
        invariant pos == |bytes| && bytes == old(bytes) + L.EncodeEvents(pwmEvents[..i])
      {
        var ev := pwmEvents[i];
        var raw := L.EncodeEvent(ev);
        WriteAtEnd(bytes, raw);
        WriteFile(raw);
        assert pwmEvents[..i + 1][..i] == pwmEvents[..i];
      }
      assert pwmEvents[..|pwmEvents|] == pwmEvents;
    }
  }

  // ------------------------------------------------------------ sessions

  /** What reaches an open capture between start and stop. */
  datatype Operation = Burst(samples: seq<F.Sample>) | Packet(events: seq<Event>) {
    function Arrivals(): seq<Arrival> {
      match this
      case Burst(ss) => FromSamples(ss)
      case Packet(es) => FromEvents(es)
    }
  }

  /** The capture after the operations, by the contracts of the methods. */
  function Session(ops: seq<Operation>): Capture {
    if ops == [] then EMPTY else After(Session(ops[..|ops| - 1]), ops[|ops| - 1].Arrivals())
  }

  function ArrivalsOf(ops: seq<Operation>): seq<Arrival> {
    if ops == [] then [] else ArrivalsOf(ops[..|ops| - 1]) + ops[|ops| - 1].Arrivals()
  }

  /** Where the bursts begin and end does not matter. */
  lemma {:induction false} SessionIsRun(ops: seq<Operation>)
    ensures Session(ops) == Run(ArrivalsOf(ops))
  {
    if ops != [] {
      SessionIsRun(ops[..|ops| - 1]);
      AfterRun(ArrivalsOf(ops[..|ops| - 1]), ops[|ops| - 1].Arrivals());
    }
  }

  /** The file left by a stop after any session reads back as exactly what the
      newest epoch's arrivals alone leave. */
  lemma SealedSession(ops: seq<Operation>, es: seq<nat>, meta: seq<byte>, timeBits: nat -> u32)
    requires TrueEpochs(ArrivalsOf(ops), es) && ArrivalsOf(ops) != []
    requires |meta| < WORD && |Session(ops).records| < WORD
    ensures var kept := Run(Of(ArrivalsOf(ops), es, Newest(es)));
            L.Parse(Sealed(meta, Session(ops), timeBits)) ==
            Ok(L.Parsed(L.FORMAT_VERSION, meta, Rows(kept.records, timeBits), SortByCycles(kept.pwm.records)))
  {
    SessionIsRun(ops);
    SealedRun(ArrivalsOf(ops), es, meta, timeBits);
  }

  /** The metadata a stop leaves. */
  function MetaShown(meta: seq<byte>, extra: bool, json: L.Remarshalled): seq<byte> {
    if extra && json.Json? && 0 < |meta| <= L.MAX_META then json.bytes else meta
  }

  lemma StoppedReadsTrue(c: Capture, meta: seq<byte>, ss: seq<F.Sample>, sampleTimes: seq<nat>, events: seq<Event>,
                         eventTimes: seq<nat>, timeBits: nat -> u32, extra: bool, json: L.Remarshalled)
    requires |ss| == |sampleTimes| > 0 && |events| == |eventTimes| && |meta| < WORD
    requires forall i :: 0 <= i < |sampleTimes| ==> sampleTimes[0] <= sampleTimes[i]
    requires !json.Fails? && (json.Json? ==> |json.bytes| < WORD)
    requires ReadsTrue(Sealed(meta, c, timeBits), meta, ss, sampleTimes, events, eventTimes, timeBits)
    ensures ReadsTrue(Stopped(meta, c, timeBits, extra, json), MetaShown(meta, extra, json), ss, sampleTimes,
                      events, eventTimes, timeBits)
  {
    var body := L.Body(Rows(c.records, timeBits), SortByCycles(c.pwm.records));
    L.WholeLeftAloneExactly(L.FORMAT_VERSION, meta, body, extra);
    SealedCanBeMerged(meta, c, timeBits, extra, json);
    L.MergeKeepsCapture(Sealed(meta, c, timeBits), extra, json);
  }

  /** From the true times of a session to the file its stop leaves, metadata
      rewritten or not: the reader finds the newest epoch's samples and events at
      their true distances. */
  lemma SessionReadsTrue(ops: seq<Operation>, es: seq<nat>, epoch: u16, sampleTimes: seq<nat>, eventTimes: seq<nat>,
                         meta: seq<byte>, timeBits: nat -> u32, extra: bool, json: L.Remarshalled)
    requires TrueEpochs(ArrivalsOf(ops), es) && ArrivalsOf(ops) != []
    requires |meta| < WORD && |Session(ops).records| < WORD
    requires !json.Fails? && (json.Json? ==> |json.bytes| < WORD)
    requires var kept := Of(ArrivalsOf(ops), es, Newest(es));
      && T.SamplesOf(kept) != [] && T.SampledAt(T.SamplesOf(kept), sampleTimes, epoch) && T.Paced(sampleTimes)
      && T.SeenAt(T.EventsOf(kept), eventTimes) && T.Paced(eventTimes) && |eventTimes| <= MAX_PWM_EVENTS
      && T.KeptRightly(sampleTimes[0], eventTimes)
    ensures forall i :: 0 <= i < |sampleTimes| ==> sampleTimes[0] <= sampleTimes[i]
    ensures var kept := Of(ArrivalsOf(ops), es, Newest(es));
            ReadsTrue(Stopped(meta, Session(ops), timeBits, extra, json), MetaShown(meta, extra, json),
                      T.SamplesOf(kept), sampleTimes, T.EventsOf(kept), eventTimes, timeBits)
  {
    var xs := ArrivalsOf(ops);
    var kept := Of(xs, es, Newest(es));
    SessionIsRun(ops);
    SealedRunIsTrue(xs, es, epoch, sampleTimes, eventTimes, meta, timeBits);
    StoppedReadsTrue(Run(xs), meta, T.SamplesOf(kept), sampleTimes, T.EventsOf(kept), eventTimes, timeBits,
                     extra, json);
  }
}
