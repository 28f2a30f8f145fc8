/** What the object's health check does to the flags, its stores do in the step system. */
module HealthRefinement {
  import opened Arith
  import opened RoundRobin
  import opened RoundRobinTheorems
  import opened LoadBalancer

  /** The stores that completed pings lead to, one after the other. */
  function Stores(pings: seq<Ping>, size: nat): seq<Step>
    requires size > 0
  {
    seq(|pings|, n requires 0 <= n < |pings| => StoreGood(n % size, pings[n] == Answered(204)))
  }

  /** The last of the pings that go to server `i`. */
  lemma LastPing(pings: seq<Ping>, size: nat, i: nat) returns (k: nat)
    requires i < size && i < |pings|
    ensures LastStore(Stores(pings, size), i, k) && |pings| <= k + size && k % size == i
  {
    if |pings| < size {
      k := i;
      ModSmall(i, size);
    } else {
      k := WindowMeets(|pings| - size, i, size);
    }
    forall m | k < m < |pings|
      ensures m % size != i
    {
      Incongruent(m, k, 0, size);
    }
  }

  /** From any state with the object's flags, whatever calls are under way: the flags end as the object's do. */
  lemma HealthCheckRefines(s: State, before: seq<Server>, now: seq<Server>, pings: seq<Ping>)
    requires s.good == Flags(before) && Told(now, before, pings)
    ensures Exec(s, Stores(pings, |now|)).good == Flags(now)
  {
    var steps := Stores(pings, |now|);
    assert forall i :: 0 <= i < |now| ==> s.good[i] == before[i].good;
    FlagIsLastStore(s, steps, 0);
    forall i | 0 <= i < |now|
      ensures Exec(s, steps).good[i] == now[i].good
    {
      FlagIsLastStore(s, steps, i);
      if i < |pings| {
        var k := LastPing(pings, |now|, i);
        assert steps[k] == StoreGood(i, pings[k] == Answered(204));
      } else {
        forall m | 0 <= m < |steps|
          ensures !StoresTo(steps[m], i)
        {
          ModAtMost(m, |now|);
        }
      }
    }
  }
}
