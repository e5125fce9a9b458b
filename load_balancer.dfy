/** The load balancer shared by every worker: one counter, handed out before it
    is incremented, and taken modulo the number of backends. */
module LoadBalancing {
  import opened Arithmetic

  /** The shared counter (`Worker.server`), passed explicitly to every worker. */
  class LoadBalancer {
    var next: nat

    constructor ()
      ensures next == 0
    {
      next := 0;
    }

    /** `getServer()`: the value before the increment; the counter moves by one. */
    method GetServer() returns (ticket: nat)
      modifies this
      ensures ticket == old(next)
      ensures next == old(next) + 1
    {
      ticket := next;
      next := next + 1;
    }
  }

  /** The backend a ticket selects: `ticket % serverCount`, always an index of
      the connection list. */
  function BackendIndex(ticket: nat, serverCount: nat): (r: nat)
    requires serverCount > 0
    ensures r < serverCount
  {
    ticket % serverCount
  }

  /** `i` tickets after `ticket`, the selection has moved `i` places round the
      cycle of backends; in particular the next ticket selects the next
      backend, wrapping round after the last one. */
  lemma TicketsVisitCyclically(ticket: nat, serverCount: nat, i: nat)
    requires serverCount > 0
    ensures BackendIndex(ticket + i, serverCount) ==
      (BackendIndex(ticket, serverCount) + i) % serverCount
  {
    var n := serverCount;
    var b := ticket % n;
    var q := ticket / n;
    var c := (b + i) / n;
    var m := (b + i) % n;
    assert ticket == q * n + b;
    assert b + i == c * n + m;
    assert ticket + i == (q + c) * n + m;
    ModOfMultiplePlus(q + c, n, m);
  }

  /** Fewer than `serverCount` consecutive tickets never select the same
      backend twice. */
  lemma ConsecutiveTicketsDistinct(ticket: nat, serverCount: nat, i: nat, j: nat)
    requires serverCount > 0
    requires i < j < i + serverCount
    ensures BackendIndex(ticket + i, serverCount) != BackendIndex(ticket + j, serverCount)
  {
    var n := serverCount;
    var a := ticket + i;
    var b := ticket + j;
    var qa, ra := a / n, a % n;
    var qb, rb := b / n, b % n;
    assert a == qa * n + ra && b == qb * n + rb;
    if ra == rb {
      var k := qb - qa;
      assert k * n == j - i by {
        assert k * n == qb * n - qa * n;
      }
      if k >= 1 {
        MulAtLeast(k, n);
      } else if k <= -1 {
        MulAtLeast(-k, n);
      }
    }
  }

  // ---------------------------------------------------------------------
  // The counter as the source declares it: a Java `int`, whose `++` wraps
  // from 2^31 - 1 to -2^31, and whose `%` truncates toward zero.
  // ---------------------------------------------------------------------

  const INT32_MIN: int := -0x8000_0000
  const INT32_MAX: int := 0x7fff_ffff

  /** The Java `int` holding the integer `x`, modulo 2^32. */
  function Wrap32(x: int): (r: int)
    ensures INT32_MIN <= r <= INT32_MAX
    ensures (x - r) % 0x1_0000_0000 == 0
  {
    var m := x % 0x1_0000_0000;
    if m > INT32_MAX then m - 0x1_0000_0000 else m
  }

  /** Java's `a % b` for `b > 0`: the remainder takes the sign of `a`, and
      differs from `a` by a multiple of `b`. */
  function JavaRem(a: int, b: int): (r: int)
    requires b > 0
    ensures a >= 0 ==> 0 <= r < b
    ensures a < 0 ==> -b < r <= 0
    ensures (a - r) % b == 0
  {
    RemainderCongruent(if a >= 0 then a else -a, b);
    if a >= 0 then a % b else -((-a) % b)
  }

  /** `x` and `x % b` differ by a multiple of `b`, in either sign. */
  lemma RemainderCongruent(x: int, b: int)
    requires b > 0
    ensures (x - x % b) % b == 0
    ensures (-x + x % b) % b == 0
  {
    var q := x / b;
    assert x - x % b == q * b;
    assert -x + x % b == (-q) * b;
    ModOfMultiplePlus(q, b, 0);
    ModOfMultiplePlus(-q, b, 0);
  }

  /** The index the source computes on its `calls`-th call of `getServer()`
      (counting from 0): `Worker.getServer() % this.serverCount`. */
  function AsWrittenBackendIndex(calls: nat, serverCount: nat): int
    requires serverCount > 0
  {
    JavaRem(Wrap32(calls), serverCount)
  }

  /** Below 2^31 calls the as-written index agrees with the model's. */
  lemma AsWrittenAgreesBeforeWrap(calls: nat, serverCount: nat)
    requires serverCount > 0 && calls <= INT32_MAX
    ensures AsWrittenBackendIndex(calls, serverCount) == BackendIndex(calls, serverCount)
  {
  }

  /** After 2^31 calls the counter has wrapped to -2^31 and, with three
      backends, the source asks its connection list for index -2. */
  lemma AsWrittenIndexGoesNegative()
    ensures AsWrittenBackendIndex(0x8000_0000, 3) == -2
  {
    assert Wrap32(0x8000_0000) == INT32_MIN;
  }
}
