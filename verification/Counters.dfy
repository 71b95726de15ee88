/** Wrapping 32-bit counters: how the low word of a true count is unwrapped. */
module Counters {
  import opened Bytes

  const WORD := 0x1_0000_0000
  const HALF := 0x8000_0000

  /** What a 32-bit register shows of a true count. */
  function Low(count: nat): u32 { count % WORD }

  /** The test for a wrap between two readings. */
  predicate Wrapped(last: u32, next: u32) {
    next < last && last - next > HALF
  }

  /** Between true counts less than half a word apart the test is right, and
      only a repeated count reads the same. */
  lemma WrapTracks(prev: nat, next: nat)
    requires prev <= next < prev + HALF
    ensures next / WORD == prev / WORD + (if Wrapped(Low(prev), Low(next)) then 1 else 0)
    ensures Low(next) <= Low(prev) && !Wrapped(Low(prev), Low(next)) ==> next == prev
  {}
}
