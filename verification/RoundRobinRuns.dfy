/** Runs on which the cursor wraps, and what they cost: the conditions of the theorems are needed. */
module RoundRobinRuns {
  import opened Arith
  import opened Collections
  import opened RoundRobin
  import opened RoundRobinTheorems
  import LoneCall
  import LoadBalancer
  import LoadBalancerTheorems

  // ------------------------------------- one call at a time, all servers down

  /** Call `c` is the only one in flight: at its loop test, with all servers down and the log `n` long. */
  ghost predicate Driving(s: State, good: seq<bool>, n: nat, c: CallId) {
    && |good| > 0 && (forall i :: 0 <= i < |good| ==> !good[i])
    && s.good == good && |s.log| == n && s.cursor == n % WORD && s.wraps == n / WORD
    && c in s.calls && s.calls[c].Probe? && s.calls[c].cnt <= |good|
    && (forall d :: d in s.calls ==> d <= c) && OnlyActive(s, c)
  }

  ghost predicate OnlyActive(s: State, c: CallId) {
    forall d :: d in s.calls && Active(s.calls[d]) ==> d == c
  }

  /** One step further, still with one call in flight. */
  lemma OneMore(good: seq<bool>, steps: seq<Step>, step: Step, c: CallId)
    requires AtMostInFlight(good, steps, 1) && OnlyActive(Apply(Exec(Init(good), steps), step), c)
    ensures Exec(Init(good), steps + [step]) == Apply(Exec(Init(good), steps), step)
    ensures AtMostInFlight(good, steps + [step], 1)
  {
    var more := steps + [step];
    ExecSnoc(Init(good), steps, step);
    forall k | 0 <= k <= |more|
      ensures |InFlight(Exec(Init(good), more[..k]))| <= 1
    {
      if k <= |steps| {
        assert more[..k] == steps[..k];
      } else {
        assert more[..k] == more;
        SubsetSize(InFlight(Exec(Init(good), more)), {c});
      }
    }
  }

  /** A call out of probes throws and the next one starts. */
  lemma Relay(s: State, good: seq<bool>, n: nat, c: CallId)
    requires Driving(s, good, n, c) && s.calls[c].cnt == |good|
    ensures OnlyActive(Apply(s, GiveUp(c)), c)
    ensures var t := Apply(Apply(s, GiveUp(c)), Start(c + 1));
            Driving(t, good, n, c + 1) && t.calls[c + 1].cnt < |good|
  {
  }

  lemma ProbeDown(s: State, good: seq<bool>, n: nat, c: CallId)
    requires Driving(s, good, n, c) && s.calls[c].cnt < |good|
    ensures OnlyActive(Apply(s, FetchAdd(c)), c)
    ensures Driving(Apply(Apply(s, FetchAdd(c)), LoadGood(c)), good, n + 1, c)
  {
    NextDivMod(n, WORD);
    var t := Apply(s, FetchAdd(c));
    assert t.calls[c] == Inspect(s.calls[c].cnt, s.cursor);
    assert !good[s.cursor % |good|];
  }

  /** All servers down: one call after another can drive the log to any length. */
  lemma {:induction false} ReachLogLength(good: seq<bool>, n: nat) returns (steps: seq<Step>, c: CallId)
    requires |good| > 0 && forall i :: 0 <= i < |good| ==> !good[i]
    ensures Driving(Exec(Init(good), steps), good, n, c) && AtMostInFlight(good, steps, 1)
  {
    if n == 0 {
      c, steps := 0, [] + [Start(0)];
      OneMore(good, [], Start(0), 0);
    } else {
      steps, c := ReachLogLength(good, n - 1);
      var s := Exec(Init(good), steps);
      if s.calls[c].cnt == |good| {
        Relay(s, good, n - 1, c);
        OneMore(good, steps, GiveUp(c), c);
        OneMore(good, steps + [GiveUp(c)], Start(c + 1), c + 1);
        steps, c := steps + [GiveUp(c)] + [Start(c + 1)], c + 1;
      }
      ProbeDown(Exec(Init(good), steps), good, n - 1, c);
      OneMore(good, steps, FetchAdd(c), c);
      OneMore(good, steps + [FetchAdd(c)], LoadGood(c), c);
      steps := steps + [FetchAdd(c)] + [LoadGood(c)];
    }
  }

  /**
   A server count that does not divide the word has a run on which round robin is
   lost, with one call in flight at a time. No server stays good on it: that is
   what `NeverWrapsWhileGood` needs one for.
   */
  lemma WrapBreaksRoundRobin(size: nat) returns (good: seq<bool>, steps: seq<Step>)
    requires size > 0 && WORD % size != 0
    ensures |good| == size && AtMostInFlight(good, steps, 1)
    ensures var s := Exec(Init(good), steps); s.cursor % size != |s.log| % size
  {
    var c;
    good := seq(size, _ => false);
    steps, c := ReachLogLength(good, WORD);
    CursorCountsProbes(good, steps);
  }

  // ------------------------------------------------- many calls in flight at once

  predicate NoStores(steps: seq<Step>) {
    forall k :: 0 <= k < |steps| ==> !steps[k].StoreGood?
  }

  /** `n` calls have made one probe each and load no flag yet. */
  ghost predicate Crowd(s: State, good: seq<bool>, n: nat) {
    && |good| > 0 && s.good == good
    && |s.log| == n && s.cursor == n % WORD && s.wraps == n / WORD
    && (forall c :: 0 <= c < n ==> s.log[c] == Visit(c, c % WORD % |good|, c / WORD))
    && (forall c: CallId :: c in s.calls <==> c < n)
    && (forall c :: 0 <= c < n ==> s.calls[c] == Inspect(0, c % WORD))
  }

  lemma CrowdGrows(s: State, good: seq<bool>, n: nat)
    requires Crowd(s, good, n)
    ensures Crowd(Apply(Apply(s, Start(n)), FetchAdd(n)), good, n + 1)
  {
    NextDivMod(n, WORD);
    var t := Apply(s, Start(n));
    assert t.calls == s.calls[n := Probe(0)] && Enabled(t, FetchAdd(n));
    var u := Apply(t, FetchAdd(n));
    assert u.log == s.log + [Visit(n, n % WORD % |good|, n / WORD)];
    assert u.calls == s.calls[n := Inspect(0, n % WORD)];
    assert u.cursor == (n + 1) % WORD && u.wraps == (n + 1) / WORD;
  }

  lemma {:induction false} Gather(good: seq<bool>, n: nat) returns (steps: seq<Step>)
    requires |good| > 0
    ensures Crowd(Exec(Init(good), steps), good, n) && NoStores(steps)
  {
    if n == 0 {
      steps := [];
    } else {
      steps := Gather(good, n - 1);
      CrowdGrows(Exec(Init(good), steps), good, n - 1);
      ExecSnoc(Init(good), steps, Start(n - 1));
      ExecSnoc(Init(good), steps + [Start(n - 1)], FetchAdd(n - 1));
      steps := steps + [Start(n - 1)] + [FetchAdd(n - 1)];
    }
  }

  // -------------------------------------------------------- hand-off, exactly

  /** A call that threw although `g` was good since before it started has lost `g`'s turn to another call. */
  ghost predicate HandsOff(good: seq<bool>, steps: seq<Step>, g: nat, c: CallId, k: nat) {
    var s := Exec(Init(good), steps);
    && StaysGoodSince(good, steps, g, k) && c !in Exec(Init(good), steps[..k]).calls
    && c in s.calls && s.calls[c] == Thrown ==>
      |s.good| > 0 && exists p, r, q :: HandedOff(s, g, c, p, r, q)
  }

  /** From any cursor too near the end of the word, a lone call can throw with a good server, its turn lost to nobody. */
  lemma WrapBreaksHandOff(start: nat, size: nat)
    returns (good: seq<bool>, steps: seq<Step>, g: nat, c: CallId)
    requires 0 < size <= WORD && start < WORD && !LoadBalancer.Harmless(start, size)
    ensures |good| == size && !HandsOff(good, steps, g, c, 0)
  {
    good := LoadBalancerTheorems.WrapMissesServer(start, size);
    g :| 0 <= g < size && good[g];
    var before := Gather(good, start);
    ModSmall(start, WORD);
    c := start;
    steps := ThrownAlone(good, before, c, g);
    NobodyElse(Exec(Init(good), before), Exec(Init(good), steps), g, c);
  }

  /** Call `c` runs alone from a state in which its probes miss all good servers. */
  lemma ThrownAlone(good: seq<bool>, before: seq<Step>, c: CallId, g: nat) returns (steps: seq<Step>)
    requires Crowd(Exec(Init(good), before), good, c) && NoStores(before) && c < WORD
    requires g < |good| && good[g] && LoadBalancer.Scan(good, c % WORD, 0).None?
    ensures StaysGood(good, steps, g)
    ensures var s, t := Exec(Init(good), before), Exec(Init(good), steps);
            LoneCall.OnlyCall(s, t, c) && c in t.calls && t.calls[c] == Thrown
  {
    var s := Exec(Init(good), before);
    var after := LoneCall.LoneCallEnds(s, c, []);
    LoneCall.OwnRun(s, c, after);
    LoneCall.LoneCallRefines(s, c, after);
    LoneCall.ExecAppend(Init(good), before, after);
    steps := before + after;
  }

  /** Between the probes of a call that ran alone nobody else's are logged. */
  lemma NobodyElse(s: State, t: State, g: nat, c: CallId)
    requires |t.good| > 0 && LoneCall.OnlyCall(s, t, c)
    requires forall n :: 0 <= n < |s.log| ==> s.log[n].caller != c
    ensures !exists p, r, q :: HandedOff(t, g, c, p, r, q)
  {
  }

  /** With no condition on the run, hand-off holds exactly when the server count divides the word. */
  lemma HandOffIff(size: nat)
    requires 0 < size <= WORD
    ensures (forall good, steps, g: nat, c: CallId, k: nat | |good| == size :: HandsOff(good, steps, g, c, k)) <==> WORD % size == 0
  {
    if WORD % size == 0 {
      forall good, steps, g: nat, c: CallId, k: nat | |good| == size
        ensures HandsOff(good, steps, g, c, k)
      {
        var s := Exec(Init(good), steps);
        RunKeepsInv(good, steps);
        if StaysGoodSince(good, steps, g, k) && c !in Exec(Init(good), steps[..k]).calls
           && c in s.calls && s.calls[c] == Thrown {
          var p, r, q := HandOff(good, steps, g, c, k);
        }
      }
    } else {
      var good, steps, g, c := WrapBreaksHandOff(WORD - 1, size);
    }
  }

  // -------------------------------------------------------- fairness, exactly

  /** A call that holds a good server's index takes it, with nobody in its way. */
  lemma TakeOne(s: State, c: CallId)
    requires |s.good| > 0 && c in s.calls && s.calls[c].Inspect? && s.good[s.calls[c].idx % |s.good|]
    ensures var t := Apply(Apply(Apply(s, LoadGood(c)), CasFail(c)), CasSucceed(c));
            && t.good == s.good && t.log == s.log
            && t.calls == s.calls[c := Returned(s.calls[c].idx % |s.good|)]
  {
    var i := s.calls[c].idx % |s.good|;
    var u := Apply(s, LoadGood(c));
    var v := Apply(u, CasFail(c));
    assert u.calls[c] == Swap(i, s.calls[c].idx, i);
    assert v.calls[c] == Swap(i, u.cursor, u.cursor % |s.good|);
  }

  /** The first `m` of `n` calls have returned, the others hold a good server's index. */
  ghost predicate Leaving(s: State, good: seq<bool>, n: nat, m: nat) {
    && |good| > 0 && s.good == good && (forall i :: 0 <= i < |good| ==> good[i])
    && m <= n && (forall c: CallId :: c in s.calls <==> c < n)
    && (forall c :: 0 <= c < n ==> if c < m then s.calls[c].Returned? else s.calls[c].Inspect?)
  }

  lemma {:induction false} Drain(good: seq<bool>, before: seq<Step>, n: nat, m: nat) returns (steps: seq<Step>)
    requires Leaving(Exec(Init(good), before), good, n, m) && NoStores(before)
    ensures NoStores(steps) && InFlight(Exec(Init(good), steps)) == {}
    ensures Exec(Init(good), steps).log == Exec(Init(good), before).log
    decreases n - m
  {
    steps := before;
    if m < n {
      TakeOne(Exec(Init(good), before), m);
      ExecSnoc(Init(good), before, LoadGood(m));
      ExecSnoc(Init(good), before + [LoadGood(m)], CasFail(m));
      ExecSnoc(Init(good), before + [LoadGood(m)] + [CasFail(m)], CasSucceed(m));
      steps := Drain(good, before + [LoadGood(m)] + [CasFail(m)] + [CasSucceed(m)], n, m + 1);
    }
  }

  /** One probe more than a word: the wrap starts over at server 0 in the middle of a round. */
  lemma CrowdVisits(s: State, good: seq<bool>)
    requires Crowd(s, good, WORD + 1) && WORD % |good| != 0
    ensures VisitsTo(s.log, 0) == VisitsTo(s.log, |good| - 1) + 2
  {
    var size, front := |good|, s.log[..WORD];
    forall n | 0 <= n < WORD
      ensures front[n].server == n % size
    {
      ModSmall(n, WORD);
    }
    VisitsPerRound(front, 0, size);
    VisitsPerRound(front, size - 1, size);
    assert s.log[..|s.log| - 1] == front;
    DivModUnique(WORD, 1, 0, WORD);
    ModSmall(0, size);
    assert s.log[WORD].server == 0;
  }

  /** The results returned for two good servers are spread evenly once nothing is in flight. */
  ghost predicate ServesFairly(good: seq<bool>, steps: seq<Step>, i: nat, j: nat) {
    var s := Exec(Init(good), steps);
    && i < |good| && j < |good| && good[i] && good[j] && Steady(good, steps) && InFlight(s) == {} ==>
      -1 <= |ReturnsOf(s, i)| - |ReturnsOf(s, j)| <= 1
  }

  lemma WrapBreaksFairness(size: nat) returns (good: seq<bool>, steps: seq<Step>)
    requires size > 0 && WORD % size != 0
    ensures |good| == size && !ServesFairly(good, steps, 0, size - 1)
  {
    good := seq(size, _ => true);
    var gathered := Gather(good, WORD + 1);
    CrowdVisits(Exec(Init(good), gathered), good);
    steps := Drain(good, gathered, WORD + 1, 0);
    var s := Exec(Init(good), steps);
    BoundCountsVisits(good, steps, 0);
    BoundCountsVisits(good, steps, size - 1);
    QuiescentBound(s, 0);
    QuiescentBound(s, size - 1);
  }

  /** With no condition on the run, fairness holds exactly when the server count divides the word. */
  lemma FairnessIff(size: nat)
    requires size > 0
    ensures (forall good, steps, i: nat, j: nat | |good| == size :: ServesFairly(good, steps, i, j)) <==> WORD % size == 0
  {
    if WORD % size == 0 {
      forall good, steps, i: nat, j: nat | |good| == size
        ensures ServesFairly(good, steps, i, j)
      {
        var s := Exec(Init(good), steps);
        if i < |good| && j < |good| && good[i] && good[j] && Steady(good, steps) && InFlight(s) == {} {
          QuiescentFairness(good, steps, i, j, 0);
        }
      }
    } else {
      var good, steps := WrapBreaksFairness(size);
    }
  }
}
