/** The load balancer's round-robin policy: a list of backend addresses and
    an index naming the backend that serves the next request. The index lives
    behind a mutex in the program; here it is a plain field. */
module RoundRobin {

  /** The index after a call that started at `idx`: one further, wrapping to
      the first server after the last one. */
  function Advance(idx: nat, len: nat): (r: nat)
    requires idx < len
    ensures r < len
    ensures r == 0 || r == idx + 1
  {
    if idx == len - 1 then 0 else idx + 1
  }

  /** The index after `k` calls on a fresh policy over `len` servers. */
  function Turn(len: nat, k: nat): (r: nat)
    requires len > 0
    ensures r < len
  {
    if k == 0 then 0 else Advance(Turn(len, k - 1), len)
  }

  /** A product of a whole number with a positive `n` that lies strictly
      between `-n` and `n` is zero. */
  lemma SmallMultiple(d: int, n: int)
    requires n > 0 && -n < d * n < n
    ensures d == 0
  {
  }

  /** Division with remainder is unique. */
  lemma ModUnique(a: int, n: int, q: int, r: int)
    requires n > 0 && 0 <= r < n && a == q * n + r
    ensures a % n == r
  {
    var d := q - a / n;
    assert a == (a / n) * n + a % n;
    assert d * n == q * n - (a / n) * n;
    SmallMultiple(d, n);
  }

  /** Advancing is adding one modulo the number of servers. */
  lemma AdvanceIsSucc(idx: nat, len: nat)
    requires idx < len
    ensures Advance(idx, len) == (idx + 1) % len
  {
    if idx == len - 1 {
      ModUnique(idx + 1, len, 1, 0);
    } else {
      ModUnique(idx + 1, len, 0, idx + 1);
    }
  }

  lemma ModSucc(c: nat, n: nat)
    requires n > 0
    ensures (c % n + 1) % n == (c + 1) % n
  {
    var q := c / n;
    assert c == q * n + c % n;
    if c % n + 1 < n {
      ModUnique(c + 1, n, q, c % n + 1);
      ModUnique(c % n + 1, n, 0, c % n + 1);
    } else {
      ModUnique(c + 1, n, q + 1, 0);
      ModUnique(c % n + 1, n, 1, 0);
    }
  }

  lemma ModPeriod(c: nat, n: nat)
    requires n > 0
    ensures (c + n) % n == c % n
  {
    var q := c / n;
    assert c == q * n + c % n;
    assert c + n == (q + 1) * n + c % n;
    ModUnique(c + n, n, q + 1, c % n);
  }

  /** After `k` calls the index is `k mod len`: the k-th call (counting from
      0) is served by server `k mod len`. */
  lemma {:induction false} TurnIsMod(len: nat, k: nat)
    requires len > 0
    ensures Turn(len, k) == k % len
  {
    if k > 0 {
      TurnIsMod(len, k - 1);
      AdvanceIsSucc(Turn(len, k - 1), len);
      ModSucc(k - 1, len);
    }
  }

  /** The index returns to the first server after every `len` calls. */
  lemma {:induction false} TurnPeriodic(len: nat, k: nat)
    requires len > 0
    ensures Turn(len, k + len) == Turn(len, k)
  {
    TurnIsMod(len, k);
    TurnIsMod(len, k + len);
    ModPeriod(k, len);
  }

  class Policy {
    var servers: seq<string>
    var idx: nat
    /** How many times `Next` has been called. */
    ghost var calls: nat

    /** The index is the one `calls` calls lead to; with no servers nothing
        has been served. */
    ghost predicate Valid()
      reads this
    {
      if |servers| == 0 then idx == 0 && calls == 0
      else idx == Turn(|servers|, calls)
    }

    constructor (servers: seq<string>)
      ensures this.servers == servers
      ensures idx == 0 && calls == 0
      ensures Valid()
    {
      this.servers := servers;
      idx := 0;
      calls := 0;
    }

    /** The server for the next request. The program computes `len() - 1`,
        which underflows on an empty list, so the list must be non-empty. */
    method Next() returns (r: string)
      requires Valid() && |servers| > 0
      modifies this
      ensures Valid()
      ensures servers == old(servers)
      ensures r == servers[old(idx)]
      ensures idx == Advance(old(idx), |servers|)
      ensures calls == old(calls) + 1
      ensures r == servers[old(calls) % |servers|]
    {
      var current := idx;
      var maxIdx := |servers| - 1;
      if current == maxIdx {
        idx := 0;
      } else {
        idx := current + 1;
      }
      TurnIsMod(|servers|, calls);
      calls := calls + 1;
      r := servers[current];
    }
  }

  /** Three backends answering "1", "2" and "3" are visited in the order
      1, 2, 3 and then 1 again. */
  method ThreeBackendsOrder() returns (picks: seq<string>)
    ensures picks == ["1", "2", "3", "1"]
  {
    var policy := new Policy(["1", "2", "3"]);
    var a := policy.Next();
    var b := policy.Next();
    var c := policy.Next();
    var d := policy.Next();
    picks := [a, b, c, d];
  }
}
