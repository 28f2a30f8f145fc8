/** What `PickAvailableServer` guarantees when calls do not overlap. */
module LoadBalancerTheorems {
  import opened Wrappers
  import opened Arith
  import opened Collections
  import opened LoadBalancer

  // ----------------------------------------- a lone throw, and when it is fair

  /** A call that wraps a word its servers do not divide never probes one of them. */
  lemma WrapMissesServer(start: nat, size: nat) returns (good: seq<bool>)
    requires 0 < size <= WORD && start < WORD && !Harmless(start, size)
    ensures |good| == size && !AllDown(good) && Scan(good, start, 0).None?
  {
    var m, r := start + size - WORD, WORD % size;
    var x := if r + m - 1 < size - 1 then r + m - 1 else size - 1;
    good := seq(size, i => i == x);
    assert good[x];
    forall k | 0 <= k < size
      ensures ServerAt(start, k, size) != x
    {
      if start + k < WORD {
        ModSmall(start + k, WORD);
        TopResidue(start + k, WORD - (start + k), x, m, size);
      } else {
        DivModUnique(start + k, 1, start + k - WORD, WORD);
        ModSmall(start + k - WORD, size);
      }
    }
  }

  /** `j` below the top of the word the residue is `j` below the word's own, and so not `x`. */
  lemma TopResidue(n: nat, j: nat, x: nat, m: nat, size: nat)
    requires n + j == WORD && 0 < m < size && 1 <= j <= size - m && WORD % size != 0
    requires x == if WORD % size + m - 1 < size - 1 then WORD % size + m - 1 else size - 1
    ensures n % size != x
  {
    if n % size == x {
      ModSmall(x, size);
      ModCongruent(n, x, j, size);
      if x + j < size { ModSmall(x + j, size); } else { DivModUnique(x + j, 1, x + j - size, size); }
    }
  }

  /**
   A lone call throws exactly when every server is down, whatever the flags are,
   if and only if its probes stay inside the word or the server count divides it.
   */
  lemma LoneThrow(start: nat, size: nat)
    requires 0 < size <= WORD && start < WORD
    ensures (forall good: seq<bool> | |good| == size ::
               Scan(good, start, 0).None? <==> AllDown(good)) <==> Harmless(start, size)
  {
    if Harmless(start, size) {
      forall good: seq<bool> | |good| == size
        ensures Scan(good, start, 0).None? <==> AllDown(good)
      {
        ThrowMeansAllDown(good, start);
      }
    } else {
      var good := WrapMissesServer(start, size);
    }
  }

  /** A throw leaves the cursor pointing at the same server as before, with the same exact condition. */
  lemma ThrowKeepsTurn(good: seq<bool>, start: nat)
    requires 0 < |good| <= WORD && start < WORD && Picked(good, start).None?
    ensures CursorAfter(good, start) % |good| == start % |good| <==>
              start + |good| < WORD || WORD % |good| == 0
  {
    var size := |good|;
    ModAddMultiple(start, 1, size);
    if start + size < WORD {
      ModSmall(start + size, WORD);
    } else {
      var wrapped := start + size - WORD;
      DivModUnique(start + size, 1, wrapped, WORD);
      ModEqual(wrapped + WORD, wrapped, size);
    }
  }

  // ------------------------------------------------------- consecutive calls

  /** The results of `n` consecutive calls. */
  function Serve(good: seq<bool>, start: nat, n: nat): (results: seq<Option<nat>>)
    requires |good| > 0
    ensures |results| == n
    decreases n
  {
    if n == 0 then []
    else [Picked(good, start)] + Serve(good, CursorAfter(good, start), n - 1)
  }

  /**
   The probes of consecutive calls from cursor `cur` that between them look at `n`
   positions: they stay inside the word, or leaving it is harmless.
   */
  predicate Room(cur: nat, n: nat, size: nat)
    requires size > 0
  {
    || WORD % size == 0
    || cur + n <= WORD
    || (cur + size < WORD && 2 * size <= WORD)
  }

  predicate GoodAt(good: seq<bool>, n: nat)
    requires |good| > 0
  {
    good[n % |good|]
  }

  /** The good servers met on a walk of `n` positions from position `a`, in order. */
  function Walk(good: seq<bool>, a: nat, n: nat): seq<nat>
    requires |good| > 0
    decreases n
  {
    if n == 0 then []
    else (if GoodAt(good, a) then [a % |good|] else []) + Walk(good, a + 1, n - 1)
  }

  /** As many calls as there are good servers on the walk return them in the walk's order. */
  ghost predicate Follows(good: seq<bool>, cur: nat, a: nat, n: nat)
    requires |good| > 0
  {
    var walk := Walk(good, a, n);
    forall x :: 0 <= x < |walk| ==> Serve(good, cur, |walk|)[x] == Some(walk[x])
  }

  lemma {:induction false} WalkPastDown(good: seq<bool>, a: nat, n: nat, k: nat)
    requires |good| > 0 && k <= n
    requires forall p :: a <= p < a + k ==> !GoodAt(good, p)
    ensures Walk(good, a, n) == Walk(good, a + k, n - k)
    decreases k
  {
    if k > 0 {
      WalkPastDown(good, a + 1, n - 1, k - 1);
    }
  }

  /** A probe inside the room looks at the server of its position. */
  lemma SamePosition(cur: nat, a: nat, j: nat, size: nat)
    requires 0 < size && cur % size == a % size && (WORD % size == 0 || cur + j < WORD)
    ensures ServerAt(cur, j, size) == (a + j) % size
  {
    if WORD % size == 0 {
      ModWholeWords((cur + j) % WORD, (cur + j) / WORD, WORD, size);
    } else {
      ModSmall(cur + j, WORD);
    }
    ModCongruent(cur, a, j, size);
  }

  /** A pick finds nothing among the next `n` positions. */
  lemma PickFindsNone(good: seq<bool>, cur: nat, a: nat, n: nat)
    requires 0 < |good| && cur % |good| == a % |good| && Room(cur, n, |good|)
    requires Scan(good, cur, 0).None? || n <= Scan(good, cur, 0).value
    ensures forall p :: a <= p < a + n ==> !GoodAt(good, p)
  {
    var size := |good|;
    forall p | a <= p < a + n
      ensures !GoodAt(good, p)
    {
      var q := WindowMeets(a, p % size, size);
      assert q <= p;
      SamePosition(cur, a, q - a, size);
      assert !good[ServerAt(cur, q - a, size)];
    }
  }

  /** Or it finds the first good one among them, and leaves the cursor behind it. */
  lemma PickIsNext(good: seq<bool>, cur: nat, a: nat, n: nat, k: nat)
    requires 0 < |good| && cur % |good| == a % |good| && Room(cur, n, |good|)
    requires Scan(good, cur, 0) == Some(k) && k < n
    ensures GoodAt(good, a + k) && (forall p :: a <= p < a + k ==> !GoodAt(good, p))
    ensures Picked(good, cur) == Some((a + k) % |good|)
    ensures k + 1 < n ==>
              CursorAfter(good, cur) % |good| == (a + k + 1) % |good|
              && Room(CursorAfter(good, cur), n - k - 1, |good|)
  {
    var size := |good|;
    SamePosition(cur, a, k, size);
    forall p | a <= p < a + k
      ensures !GoodAt(good, p)
    {
      SamePosition(cur, a, p - a, size);
      assert !good[ServerAt(cur, p - a, size)];
    }
    if k + 1 < n {
      SamePosition(cur, a, k + 1, size);
      ModSmall(ServerAt(cur, k + 1, size), size);
      ModAtMost(cur + k + 1, WORD);
      ModAtMost((cur + k + 1) % WORD, size);
    }
  }

  /** Consecutive calls serve what the walk meets, in the walk's order. */
  lemma {:induction false} ServeFollowsWalk(good: seq<bool>, cur: nat, a: nat, n: nat)
    requires 0 < |good| && Room(cur, n, |good|) && cur % |good| == a % |good|
    ensures Follows(good, cur, a, n)
    decreases n
  {
    var hit := Scan(good, cur, 0);
    if hit.None? || n <= hit.value {
      PickFindsNone(good, cur, a, n);
      WalkPastDown(good, a, n, n);
    } else {
      var k := hit.value;
      PickIsNext(good, cur, a, n, k);
      WalkPastDown(good, a, n, k);
      var rest, next := Walk(good, a + k + 1, n - k - 1), CursorAfter(good, cur);
      assert Walk(good, a, n) == [(a + k) % |good|] + rest;
      assert Serve(good, cur, 1 + |rest|) == [Picked(good, cur)] + Serve(good, next, |rest|);
      if k + 1 < n {
        ServeFollowsWalk(good, next, a + k + 1, n - k - 1);
      }
    }
  }

  lemma {:induction false} WalkMeets(good: seq<bool>, a: nat, n: nat)
    requires 0 < |good| && n <= |good|
    ensures forall i :: i in Walk(good, a, n) <==>
              exists k :: a <= k < a + n && k % |good| == i && good[i]
    ensures forall x, y :: 0 <= x < y < |Walk(good, a, n)| ==> Walk(good, a, n)[x] != Walk(good, a, n)[y]
    decreases n
  {
    if n > 0 {
      WalkMeets(good, a + 1, n - 1);
      var rest := Walk(good, a + 1, n - 1);
      assert a % |good| !in rest by {
        if a % |good| in rest {
          var k :| a + 1 <= k < a + 1 + (n - 1) && k % |good| == a % |good|;
          ModEqual(k, a, |good|);
          ModSmall(k - a, |good|);
        }
      }
      forall i
        ensures i in Walk(good, a, n) <==>
                exists k :: a <= k < a + n && k % |good| == i && good[i]
      {
        if exists k :: a <= k < a + n && k % |good| == i && good[i] {
          var k :| a <= k < a + n && k % |good| == i && good[i];
          assert k == a || (a + 1 <= k < a + 1 + (n - 1));
        }
      }
    }
  }

  function GoodServers(good: seq<bool>): set<nat> {
    set i | 0 <= i < |good| && good[i]
  }

  /** As many calls as there are good servers return each of them exactly once. */
  ghost predicate EachOnce(good: seq<bool>, start: nat)
    requires |good| > 0
  {
    var results := Serve(good, start, |GoodServers(good)|);
    && (forall i :: i in GoodServers(good) <==> Some(i) in results)
    && (forall x :: 0 <= x < |results| ==> results[x].Some?)
    && (forall x, y :: 0 <= x < y < |results| ==> results[x] != results[y])
  }

  lemma RoundServesEach(good: seq<bool>, start: nat)
    requires 0 < |good| && Harmless(start, |good|)
    ensures Follows(good, start, start, |good|) && EachOnce(good, start)
  {
    var walk := Walk(good, start, |good|);
    var results := Serve(good, start, |walk|);
    ServeFollowsWalk(good, start, start, |good|);
    WalkMeets(good, start, |good|);
    forall i
      ensures i in walk <==> i in GoodServers(good)
    {
      if i in GoodServers(good) {
        var n := WindowMeets(start, i, |good|);
      }
    }
    DistinctSize(walk, GoodServers(good));
    forall i: nat
      ensures Some(i) in results <==> i in walk
    {
      if i in walk {
        var x :| 0 <= x < |walk| && walk[x] == i;
        assert results[x] == Some(i);
      }
    }
  }

  /** The first call of a round may miss the only good server. */
  lemma RoundMissesOne(start: nat, size: nat) returns (good: seq<bool>)
    requires 0 < size <= WORD && start < WORD && !Harmless(start, size)
    ensures |good| == size && !EachOnce(good, start) && !Follows(good, start, start, size)
  {
    good := WrapMissesServer(start, size);
    var i :| 0 <= i < size && good[i];
    assert i in GoodServers(good);
    assert Serve(good, start, |GoodServers(good)|)[0].None?;
    WalkMeets(good, start, size);
    var n := WindowMeets(start, i, size);
    assert i in Walk(good, start, size);
    assert Serve(good, start, |Walk(good, start, size)|)[0].None?;
  }

  /**
   With k servers good k consecutive calls return each of them exactly once,
   whatever the flags are, if and only if the first round of probes stays inside
   the word or the server count divides it.
   */
  lemma EachGoodServerOnce(start: nat, size: nat)
    requires 0 < size <= WORD && start < WORD
    ensures (forall good: seq<bool> | |good| == size :: EachOnce(good, start)) <==> Harmless(start, size)
  {
    if Harmless(start, size) {
      forall good: seq<bool> | |good| == size
        ensures EachOnce(good, start)
      {
        RoundServesEach(good, start);
      }
    } else {
      var good := RoundMissesOne(start, size);
    }
  }

  /** And they return them in cyclic order from the cursor, with the same exact condition. */
  lemma ServedInCyclicOrder(start: nat, size: nat)
    requires 0 < size <= WORD && start < WORD
    ensures (forall good: seq<bool> | |good| == size :: Follows(good, start, start, size))
              <==> Harmless(start, size)
  {
    if Harmless(start, size) {
      forall good: seq<bool> | |good| == size
        ensures Follows(good, start, start, size)
      {
        RoundServesEach(good, start);
      }
    } else {
      var good := RoundMissesOne(start, size);
    }
  }
}
