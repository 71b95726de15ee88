/** The single-producer, single-consumer ring (ring.go): first as the class one
    goroutine would see, then as two goroutines interleaved at every atomic load,
    slot access and counter update. */
module Ring {
  import opened Bits
  import Arith

  const WORD64 := 0x1_0000_0000_0000_0000

  /** The largest power of two that a slice length can be. */
  const MAX_SIZE := 0x4000_0000_0000_0000

  // ------------------------------------------------------------ counters

  lemma {:induction false} Pow2Grows(j: nat, k: nat)
    requires j < k
    ensures Pow2(j) < Pow2(k)
    decreases k
  {
    if k > j + 1 { Pow2Grows(j, k - 1); }
  }

  ghost predicate IsSize(n: nat) {
    n <= MAX_SIZE && exists k: nat :: n == Pow2(k)
  }

  /** A counter register, masked, is the slot of the true count. */
  lemma MaskIsSlot(count: nat, size: nat)
    requires IsSize(size)
    ensures And(count % WORD64, size - 1) == count % size
  {
    Powers();
    var k: nat :| size == Pow2(k);
    if k > 62 { Pow2Grows(62, k); }
    AndMask(count % WORD64, k);
    WrapKeepsRemainder(count, k, 64);
  }

  /** The wrapped difference of two registers is the difference of their counts. */
  lemma DifferenceIsTrue(head: nat, tail: nat)
    requires tail <= head <= tail + MAX_SIZE
    ensures (head % WORD64 - tail % WORD64) % WORD64 == head - tail
  {}

  /** `n` slots from the one of count `from` on, round the ring. */
  function Window<T>(slots: seq<T>, from: nat, n: nat): (w: seq<T>)
    requires slots != []
    ensures |w| == n && forall i :: 0 <= i < n ==> w[i] == slots[(from + i) % |slots|]
  {
    seq(n, i requires 0 <= i < n => slots[(from + i) % |slots|])
  }

  /** Storing behind a window that leaves room extends it. */
  lemma StoreExtends<T>(slots: seq<T>, from: nat, n: nat, x: T)
    requires n < |slots|
    ensures Window(slots[(from + n) % |slots| := x], from, n + 1) == Window(slots, from, n) + [x]
  {
    var more := slots[(from + n) % |slots| := x];
    forall i | 0 <= i < n
      ensures Window(more, from, n + 1)[i] == Window(slots, from, n)[i]
    {
      Arith.CloseModuloDiffer(from + i, from + n, |slots|);
    }
  }

  lemma WindowGrows<T>(slots: seq<T>, from: nat, n: nat)
    requires slots != []
    ensures Window(slots, from, n + 1) == Window(slots, from, n) + [slots[(from + n) % |slots|]]
  {}

  /** Storing behind a window leaves the window alone. */
  lemma StoreBehind<T>(slots: seq<T>, from: nat, n: nat, x: T)
    requires n < |slots|
    ensures Window(slots[(from + n) % |slots| := x], from, n) == Window(slots, from, n)
  {
    var more := slots[(from + n) % |slots| := x];
    StoreExtends(slots, from, n, x);
    WindowSplits(more, from, n + 1, n);
    assert (Window(slots, from, n) + [x])[..n] == Window(slots, from, n);
  }

  lemma WindowSplits<T>(slots: seq<T>, from: nat, n: nat, k: nat)
    requires slots != [] && k <= n
    ensures Window(slots, from, n)[..k] == Window(slots, from, k)
    ensures Window(slots, from, n)[k..] == Window(slots, from + k, n - k)
  {
    forall i | 0 <= i < n - k
      ensures Window(slots, from, n)[k..][i] == Window(slots, from + k, n - k)[i]
    {
      assert from + (k + i) == (from + k) + i;
    }
  }

  // ------------------------------------------------------------ class

  class Ring<T(0)> {
    const buf: array<T>
    const mask: nat
    var head: nat
    var tail: nat

    /** The true counts behind the registers. */
    ghost var pushed: nat
    ghost var popped: nat

    ghost predicate Valid()
      reads this
    {
      && IsSize(buf.Length) && mask == buf.Length - 1
      && popped <= pushed <= popped + buf.Length
      && head == pushed % WORD64 && tail == popped % WORD64
    }

    /** What is buffered, oldest first. */
    ghost function Contents(): (c: seq<T>)
      reads this, buf
      requires Valid()
      ensures |c| == pushed - popped
    {
      Window(buf[..], popped, pushed - popped)
    }

    constructor (capacity: nat)
      requires capacity <= MAX_SIZE
      ensures Valid() && fresh(buf) && Contents() == []
      ensures buf.Length >= capacity && (buf.Length == 1 || buf.Length / 2 < capacity)
    {
      var size := SizeFor(capacity);
      buf := new T[size];
      mask := size - 1;
      head, tail, pushed, popped := 0, 0, 0, 0;
    }

    /** The smallest power of two that holds the capacity. */
    static method SizeFor(capacity: nat) returns (size: nat)
      requires capacity <= MAX_SIZE
      ensures IsSize(size) && size >= capacity && (size == 1 || size / 2 < capacity)
    {
      size := 1;
      ghost var k := 0;
      PowerBelow(0);
      while size < capacity
        invariant size == Pow2(k) <= MAX_SIZE
        invariant size == 1 || size / 2 < capacity
        decreases capacity - size
      {
        PowerBelow(k);
        PowerBelow(k + 1);
        size := size * 2;
        k := k + 1;
      }
    }

    static lemma PowerBelow(k: nat)
      ensures Pow2(k) <= MAX_SIZE <==> k <= 62
      ensures Pow2(k) < MAX_SIZE <==> k < 62
    {
      Powers();
      if k < 62 { Pow2Grows(k, 62); }
      if k > 62 { Pow2Grows(62, k); }
    }

    /** The slot of a register: the source's bitwise and with the mask. */
    method Slot(register: nat, ghost count: nat) returns (i: nat)
      requires IsSize(buf.Length) && mask == buf.Length - 1 && register == count % WORD64
      ensures i == count % buf.Length && i < buf.Length
    {
      MaskIsSlot(count, buf.Length);
      i := And(register, mask);
    }

    /** How many items the two registers are apart. */
    method Apart() returns (n: nat)
      requires Valid()
      ensures n == pushed - popped
    {
      DifferenceIsTrue(pushed, popped);
      n := (head - tail) % WORD64;
    }

    /** A register some counts further on. */
    method Later(register: nat, n: nat, ghost count: nat) returns (r: nat)
      requires register == count % WORD64
      ensures r == (count + n) % WORD64
    {
      r := (register + n) % WORD64;
    }

    method Push(x: T) returns (ok: bool)
      requires Valid()
      modifies `head, `pushed, buf
      ensures Valid() && popped == old(popped)
      ensures ok == (|old(Contents())| < buf.Length)
      ensures Contents() == if ok then old(Contents()) + [x] else old(Contents())
    {
      var n := Apart();
      if n >= buf.Length {
        return false;
      }
      var i := Slot(head, pushed);
      StoreExtends(buf[..], popped, n, x);
      buf[i] := x;
      assert buf[..] == old(buf[..])[i := x];
      head := Later(head, 1, pushed);
      pushed := pushed + 1;
      return true;
    }

    method PopN(dst: array<T>) returns (n: nat)
      requires Valid() && dst != buf
      modifies `tail, `popped, dst
      ensures Valid() && n == if |old(Contents())| < dst.Length then |old(Contents())| else dst.Length
      ensures dst[..n] == old(Contents())[..n] && dst[n..] == old(dst[n..])
      ensures Contents() == old(Contents())[n..]
    {
      var avail := Apart();
      if avail <= 0 {
        return 0;
      }
      n := avail;
      if n > dst.Length {
        n := dst.Length;
      }
      CopyOut(dst, n);
      WindowSplits(buf[..], popped, avail, n);
      tail := Later(tail, n, popped);
      popped := popped + n;
    }

    /** The oldest `n` items, copied from the slots behind the tail. */
    method CopyOut(dst: array<T>, n: nat)
      requires Valid() && dst != buf && n <= dst.Length
      modifies dst
      ensures dst[..n] == Window(buf[..], popped, n) && dst[n..] == old(dst[n..])
    {
      for i := 0 to n
        invariant dst[..i] == Window(buf[..], popped, i) && dst[n..] == old(dst[n..])
      {
        var register := Later(tail, i, popped);
        var from := Slot(register, popped + i);
        dst[i] := buf[from];
      }
    }

    method Clear()
      requires Valid()
      modifies `tail, `popped
      ensures Valid() && Contents() == []
    {
      tail := head;
      popped := pushed;
    }

    method Len() returns (n: nat)
      requires Valid()
      ensures n == |Contents()|
    {
      n := Apart();
    }
  }
}
