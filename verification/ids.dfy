/** The server's connection-id counter: an `AtomicU32` that starts at 1 and
    is bumped with a wrapping `fetch_add(1)` once per accepted connection. */
module Ids {
  import opened Protocol

  /** Number of distinct `u32` values. */
  const U32_COUNT: int := 0x1_0000_0000

  /** The counter's value before the first accept. */
  const FIRST_ID: u32 := 1

  /** The counter after `fetch_add(1)`: `u32` addition wraps to 0. */
  function WrappingIncrement(v: u32): (r: u32)
    ensures v as int < U32_COUNT - 1 ==> r as int == v as int + 1
    ensures v as int == U32_COUNT - 1 ==> r == 0
  {
    ((v as int + 1) % U32_COUNT) as u32
  }

  /** The id handed to the connection accepted after `n` earlier ones. */
  function NthId(n: nat): (id: u32)
    ensures n < U32_COUNT - 1 ==> id as int == n + 1
    ensures n == U32_COUNT - 1 ==> id == 0
  {
    ((n + 1) % U32_COUNT) as u32
  }

  /** The counter value after `n` accepts is the id the next accept takes. */
  lemma {:induction false} CounterAfter(n: nat)
    ensures n == 0 ==> NthId(n) == FIRST_ID
    ensures WrappingIncrement(NthId(n)) == NthId(n + 1)
  {
    var m := (n + 1) % U32_COUNT;
    if m == U32_COUNT - 1 {
      assert (n + 2) % U32_COUNT == 0;
    } else {
      assert (n + 2) % U32_COUNT == m + 1;
    }
  }

  /** Ids 1, 2, 3, ... are pairwise distinct as long as the counter has not
      gone round. */
  lemma NthIdDistinct(i: nat, j: nat)
    requires i < j < U32_COUNT
    ensures NthId(i) != NthId(j)
  {
  }

  /** The ids handed out by the first `n` accepts. */
  function Issued(n: nat): set<u32> {
    set i: nat | i < n :: NthId(i)
  }

  /** The next id has never been handed out before. */
  lemma FreshId(n: nat)
    requires n < U32_COUNT
    ensures NthId(n) !in Issued(n)
  {
    if NthId(n) in Issued(n) {
      var i: nat :| i < n && NthId(i) == NthId(n);
      NthIdDistinct(i, n);
    }
  }

  /** `n` accepts hand out `n` different ids. */
  lemma {:induction false} IssuedCount(n: nat)
    requires n <= U32_COUNT
    ensures |Issued(n)| == n
  {
    if n > 0 {
      IssuedCount(n - 1);
      assert Issued(n) == Issued(n - 1) + {NthId(n - 1)};
      FreshId(n - 1);
    }
  }

  /** Membership in `Issued(n)` without a search: before the counter goes
      round the ids handed out are exactly 1 to n. */
  predicate WasIssued(id: u32, n: nat) {
    n >= U32_COUNT || 1 <= id as int <= n
  }

  lemma IssuedIff(id: u32, n: nat)
    ensures id in Issued(n) <==> WasIssued(id, n)
  {
    if WasIssued(id, n) {
      var i: nat := if id == 0 then U32_COUNT - 1 else id as int - 1;
      assert NthId(i) == id;
    }
  }

  /** After 2^32 accepts the wrapping counter hands out id 1 again. */
  lemma IdReusedAfterWrap()
    ensures NthId(U32_COUNT) == NthId(0) == FIRST_ID
    ensures NthId(U32_COUNT - 1) == 0
  {
  }
}
