/** What every interleaving of `PickAvailableServer` calls guarantees. */
module RoundRobinTheorems {
  import opened Arith
  import opened Collections
  import opened RoundRobin
  import opened RoundRobinEpochs

  // ------------------------------------------------------- global round robin

  /**
   In every reachable state the cursor's residue counts all `fetch_add`s ever
   made, exactly when the wraps so far are worth a multiple of the server count.
   */
  lemma CursorCountsProbes(good: seq<bool>, steps: seq<Step>)
    requires |good| > 0
    ensures var s := Exec(Init(good), steps);
            s.cursor % |good| == |s.log| % |good| <==> (s.wraps * WORD) % |good| == 0
  {
    var s := Exec(Init(good), steps);
    RunKeepsInv(good, steps);
    ModEqual(s.cursor + s.wraps * WORD, s.cursor, |good|);
  }

  /** The n-th probe of the whole system inspects server n mod size, with the same exact condition. */
  lemma NthProbe(good: seq<bool>, steps: seq<Step>, n: nat)
    requires |good| > 0 && n < |Exec(Init(good), steps).log|
    ensures var v := Exec(Init(good), steps).log[n];
            v.server == n % |good| <==> (v.epoch * WORD) % |good| == 0
  {
    var s := Exec(Init(good), steps);
    RunKeepsInv(good, steps);
    var v := s.log[n];
    ModEqual(v.server + v.epoch * WORD, v.server, |good|);
    ModSmall(v.server, |good|);
  }

  /** No wrap has happened yet, or wrapping is harmless because the server count divides the word. */
  ghost predicate Aligned(s: State)
    requires |s.good| > 0
  {
    s.wraps == 0 || WORD % |s.good| == 0
  }

  lemma AlignedLog(s: State)
    requires Inv(s) && Aligned(s)
    ensures forall n :: 0 <= n < |s.log| ==> s.log[n].server == n % |s.good|
  {
    forall n | 0 <= n < |s.log|
      ensures s.log[n].server == n % |s.good|
    {
      var v := s.log[n];
      ModSmall(v.server, |s.good|);
      if s.wraps == 0 {
        assert v.epoch * WORD == 0;
      } else {
        ModWholeWords(v.server, v.epoch, WORD, |s.good|);
      }
    }
  }

  // ------------------------------------------------------------- cursor bound

  /** At most `t` calls in flight and `f` calls thrown since the last exchange, at every moment. */
  ghost predicate Bounded(good: seq<bool>, steps: seq<Step>, t: nat, f: nat) {
    forall k :: 0 <= k <= |steps| ==>
      && |InFlight(Exec(Init(good), steps[..k]))| <= t
      && |Exec(Init(good), steps[..k]).gaveUp| <= f
  }

  /** At step `k` call `c` throws, and no exchange succeeds after it. */
  ghost predicate ThrowsLast(good: seq<bool>, steps: seq<Step>, c: CallId, k: nat) {
    && k < |steps| && steps[k] == GiveUp(c) && Enabled(Exec(Init(good), steps[..k]), steps[k])
    && forall m :: k < m < |steps| && steps[m].CasSucceed? ==> !Enabled(Exec(Init(good), steps[..m]), steps[m])
  }

  lemma ThrowsLastSnoc(good: seq<bool>, front: seq<Step>, step: Step, c: CallId, k: nat)
    requires k < |front|
    ensures ThrowsLast(good, front + [step], c, k) <==>
              ThrowsLast(good, front, c, k) && (step.CasSucceed? ==> !Enabled(Exec(Init(good), front), step))
  {
    var steps := front + [step];
    assert forall m :: 0 <= m <= |front| ==> steps[..m] == front[..m];
    assert front[..|front|] == front && steps[|front|] == step;
  }

  /** The calls that count as having given up are those that threw after the last successful exchange. */
  lemma {:induction false} GaveUpSinceExchange(good: seq<bool>, steps: seq<Step>, c: CallId)
    ensures c in Exec(Init(good), steps).gaveUp <==> exists k: nat :: ThrowsLast(good, steps, c, k)
  {
    if steps != [] {
      var front, step := steps[..|steps| - 1], steps[|steps| - 1];
      var s := Exec(Init(good), front);
      assert front + [step] == steps;
      GaveUpSinceExchange(good, front, c);
      if exists k: nat :: ThrowsLast(good, front, c, k) {
        var k: nat :| ThrowsLast(good, front, c, k);
        ThrowsLastSnoc(good, front, step, c, k);
      }
      if Enabled(s, step) && step == GiveUp(c) { assert ThrowsLast(good, steps, c, |front|); }
      if exists k: nat :: ThrowsLast(good, steps, c, k) {
        var k: nat :| ThrowsLast(good, steps, c, k);
        if k < |front| { ThrowsLastSnoc(good, front, step, c, k); }
      }
    }
  }

  function Without(log: seq<Visit>, c: CallId): (rest: seq<Visit>)
    ensures |rest| + ProbesBy(log, c) == |log|
    ensures forall n :: 0 <= n < |rest| ==> rest[n] in log && rest[n].caller != c
  {
    if log == [] then []
    else
      var front := Without(log[..|log| - 1], c);
      if log[|log| - 1].caller == c then front else front + [log[|log| - 1]]
  }

  lemma {:induction false} WithoutKeepsOthers(log: seq<Visit>, c: CallId, d: CallId)
    requires c != d
    ensures ProbesBy(Without(log, c), d) == ProbesBy(log, d)
  {
    if log != [] {
      WithoutKeepsOthers(log[..|log| - 1], c, d);
      ProbesBySnoc(Without(log[..|log| - 1], c), log[|log| - 1], d);
    }
  }

  lemma WithoutKeepsBound(log: seq<Visit>, c: CallId, callers: set<CallId>, most: nat)
    requires forall n :: 0 <= n < |log| ==> log[n].caller in callers
    requires forall d :: d in callers ==> ProbesBy(log, d) <= most
    ensures var rest := Without(log, c);
            && (forall n :: 0 <= n < |rest| ==> rest[n].caller in callers - {c})
            && (forall d :: d in callers - {c} ==> ProbesBy(rest, d) <= most)
  {
    forall d | d in callers - {c}
      ensures ProbesBy(Without(log, c), d) <= most
    {
      WithoutKeepsOthers(log, c, d);
    }
  }

  /** A log whose callers all lie in `callers`, each at most `most` times, is short. */
  lemma {:induction false} Pigeonhole(log: seq<Visit>, callers: set<CallId>, most: nat)
    requires forall n :: 0 <= n < |log| ==> log[n].caller in callers
    requires forall c :: c in callers ==> ProbesBy(log, c) <= most
    ensures |log| <= |callers| * most
    decreases callers
  {
    assert log == [] || log[0].caller in callers;
    if callers != {} {
      var c :| c in callers;
      var others := callers - {c};
      WithoutKeepsBound(log, c, callers, most);
      Pigeonhole(Without(log, c), others, most);
      var k := |others|;
      assert |callers| == k + 1;
      MulSucc(k, most);
      assert |Without(log, c)| <= k * most && ProbesBy(log, c) <= most;
      assert |callers| * most == k * most + most;
    }
  }

  lemma {:induction false} ProbesBySplit(log: seq<Visit>, k: nat, c: CallId)
    requires k <= |log|
    ensures ProbesBy(log, c) == ProbesBy(log[..k], c) + ProbesBy(log[k..], c)
  {
    if k == |log| {
      assert log[..k] == log;
    } else {
      ProbesBySplit(log[..|log| - 1], k, c);
      assert log[..|log| - 1][..k] == log[..k];
      assert log[k..][..|log| - 1 - k] == log[..|log| - 1][k..];
    }
  }

  lemma DebtBound(s: State, t: nat, f: nat)
    requires Inv(s) && |InFlight(s)| <= t && |s.gaveUp| <= f
    ensures |s.log| - s.casAt <= (t + f) * |s.good|
  {
    var callers := set n | s.casAt <= n < |s.log| :: s.log[n].caller;
    var since := s.log[s.casAt..];
    forall c | c in callers
      ensures ProbesBy(since, c) <= |s.good|
    {
      ProbesBySplit(s.log, s.casAt, c);
      assert CallInv(s, c);
    }
    Pigeonhole(since, callers, |s.good|);
    SubsetSize(callers, InFlight(s) + s.gaveUp);
    MulMono(|callers|, t + f, |s.good|);
  }

  lemma WrappingStep(s: State, step: Step)
    requires Inv(s)
    ensures var t := Apply(s, step);
            t.wraps != s.wraps ==> WORD <= |s.good| - 1 + (|t.log| - t.casAt)
  {
  }

  /**
   The cursor never outgrows the calls that can still be charged for it; when
   that budget fits the word, `nextIdx_` never wraps.
   */
  lemma {:induction false} CursorBound(good: seq<bool>, steps: seq<Step>, t: nat, f: nat)
    requires |good| > 0 && Bounded(good, steps, t, f)
    ensures Exec(Init(good), steps).cursor < (t + f + 1) * |good|
    ensures (t + f + 1) * |good| <= WORD ==> Exec(Init(good), steps).wraps == 0
  {
    var s := Exec(Init(good), steps);
    RunKeepsInv(good, steps);
    assert steps[..|steps|] == steps;
    DebtBound(s, t, f);
    assert (t + f + 1) * |good| == (t + f) * |good| + |good|;
    if steps != [] {
      var front := steps[..|steps| - 1];
      assert forall k :: 0 <= k <= |front| ==> front[..k] == steps[..k];
      CursorBound(good, front, t, f);
      RunKeepsInv(good, front);
      // a wrapping step would leave a debt the bound rules out
      WrappingStep(Exec(Init(good), front), steps[|steps| - 1]);
    }
  }

  /** Round robin in every interleaving, as long as no wrap has done harm. */
  lemma AlignedRoundRobin(good: seq<bool>, steps: seq<Step>)
    requires |Exec(Init(good), steps).good| > 0 && Aligned(Exec(Init(good), steps))
    ensures var s := Exec(Init(good), steps);
            && |s.good| == |good|
            && s.cursor % |good| == |s.log| % |good|
            && forall n :: 0 <= n < |s.log| ==> s.log[n].server == n % |good|
  {
    SizeKept(good, steps);
    RunKeepsInv(good, steps);
    var s := Exec(Init(good), steps);
    AlignedLog(s);
    if s.wraps == 0 {
      assert s.wraps * WORD == 0;
    } else {
      ModWholeWords(s.cursor, s.wraps, WORD, |good|);
    }
  }

  lemma {:induction false} SizeKept(good: seq<bool>, steps: seq<Step>)
    ensures |Exec(Init(good), steps).good| == |good|
  {
    if steps != [] { SizeKept(good, steps[..|steps| - 1]); }
  }

  /** And so whenever the backlog always fits the word: no condition on wraps is left. */
  lemma BoundedRoundRobin(good: seq<bool>, steps: seq<Step>, t: nat, f: nat)
    requires |good| > 0 && Bounded(good, steps, t, f)
    requires (t + f + 1) * |good| <= WORD
    ensures var s := Exec(Init(good), steps);
            && s.cursor % |good| == |s.log| % |good|
            && forall n :: 0 <= n < |s.log| ==> s.log[n].server == n % |good|
  {
    SizeKept(good, steps);
    CursorBound(good, steps, t, f);
    AlignedRoundRobin(good, steps);
  }

  // ----------------------------------------------------------------- hand-off

  /** The call will return server `i`, or has: nothing it can still do returns another. */
  predicate Committed(pc: Pc, i: nat, size: nat)
    requires size > 0
  {
    match pc
    case Inspect(_, idx) => idx % size == i
    case Swap(chosen, _, _) => chosen == i
    case Returned(server) => server == i
    case _ => false
  }

  /** From moment `k` on server `g` is good: good at the start or by the store just before, and never taken down since. */
  ghost predicate StaysGoodSince(good: seq<bool>, steps: seq<Step>, g: nat, k: nat) {
    && k <= |steps| && g < |good|
    && (if k == 0 then good[g] else steps[k - 1] == StoreGood(g, true))
    && forall m :: k <= m < |steps| && steps[m].StoreGood? && steps[m].i == g ==> steps[m].up
  }

  /** Server `g` starts good and the health check never stores false into its flag. */
  ghost predicate StaysGood(good: seq<bool>, steps: seq<Step>, g: nat) {
    StaysGoodSince(good, steps, g, 0)
  }

  /** Whoever probed `g` from the given number on is bound to it. */
  ghost predicate VisitorsCommitted(s: State, g: nat, from: nat)
    requires |s.good| > 0
  {
    && g < |s.good| && s.good[g]
    && forall n :: from <= n < |s.log| && s.log[n].server == g ==>
         s.log[n].caller in s.calls && Committed(s.calls[s.log[n].caller], g, |s.good|)
  }

  /** A step takes a bound call only to a bound state, while the flag stays up. */
  lemma StepKeepsCommitted(s: State, step: Step, g: nat, from: nat)
    requires Inv(s) && Enabled(s, step) && VisitorsCommitted(s, g, from)
    requires step.StoreGood? && step.i == g ==> step.up
    ensures VisitorsCommitted(Effect(s, step), g, from)
  {
    var t := Effect(s, step);
    forall n | from <= n < |t.log| && t.log[n].server == g
      ensures t.log[n].caller in t.calls && Committed(t.calls[t.log[n].caller], g, |t.good|)
    {
      if n < |s.log| {
        var d := s.log[n].caller;
        assert Committed(s.calls[d], g, |s.good|);
      }
    }
  }

  /** Whoever probes a server that is good, and stays so, is bound to it from then on. */
  lemma {:induction false} VisitorsStayCommitted(good: seq<bool>, steps: seq<Step>, g: nat, k: nat)
    requires |good| > 0 && StaysGoodSince(good, steps, g, k)
    ensures |Exec(Init(good), steps).good| == |good|
    ensures VisitorsCommitted(Exec(Init(good), steps), g, |Exec(Init(good), steps[..k]).log|)
  {
    SizeKept(good, steps);
    if k == |steps| {
      assert steps[..k] == steps;
      if k > 0 { SizeKept(good, steps[..k - 1]); }
    } else {
      var front := steps[..|steps| - 1];
      assert front[..k] == steps[..k];
      VisitorsStayCommitted(good, front, g, k);
      RunKeepsInv(good, front);
      var s, step := Exec(Init(good), front), steps[|steps| - 1];
      if Enabled(s, step) { StepKeepsCommitted(s, step, g, |Exec(Init(good), steps[..k]).log|); }
    }
  }

  /** A probe of `g` is its caller's last one, and who has thrown since the last exchange is done. */
  ghost predicate LastVisits(s: State, g: nat) {
    && (forall m, n :: 0 <= m < n < |s.log| && s.log[m].server == g ==> s.log[n].caller != s.log[m].caller)
    && (forall c :: c in s.gaveUp ==> c in s.calls && s.calls[c] == Thrown)
  }

  lemma {:induction false} RunKeepsLastVisits(good: seq<bool>, steps: seq<Step>, g: nat)
    requires |good| > 0 && StaysGood(good, steps, g)
    ensures LastVisits(Exec(Init(good), steps), g)
  {
    if steps != [] {
      var front, step := steps[..|steps| - 1], steps[|steps| - 1];
      RunKeepsLastVisits(good, front, g);
      VisitorsStayCommitted(good, front, g, 0);
      var s := Exec(Init(good), front);
      if Enabled(s, step) && step.FetchAdd? {
        forall m | 0 <= m < |s.log| && s.log[m].server == g
          ensures s.log[m].caller != step.c
        {
          assert Committed(s.calls[s.log[m].caller], g, |s.good|);
        }
      }
    }
  }

  // ------------------------------------------------ no wrap while one is good

  /** At most `t` calls in flight at every moment. */
  ghost predicate AtMostInFlight(good: seq<bool>, steps: seq<Step>, t: nat) {
    forall k :: 0 <= k <= |steps| ==> |InFlight(Exec(Init(good), steps[..k]))| <= t
  }

  /** All probes so far were made before the cursor first wrapped. */
  ghost predicate FirstEpoch(s: State) {
    forall n :: 0 <= n < |s.log| ==> s.log[n].epoch == 0
  }

  /** The `k`-th probe of `g` after the last exchange. */
  lemma VisitAfterExchange(s: State, g: nat, first: nat, k: nat)
    requires Inv(s) && FirstEpoch(s) && VisitorsCommitted(s, g, 0) && LastVisits(s, g)
    requires s.casAt <= first && first % |s.good| == g && first + k * |s.good| < |s.log|
    ensures var n := first + k * |s.good|; s.casAt <= n && s.log[n].server == g && s.log[n].caller in InFlight(s)
  {
    var n := first + k * |s.good|;
    MulMono(0, k, |s.good|);
    ModAddMultiple(first, k, |s.good|);
    ModSmall(s.log[n].server, |s.good|);
    assert Committed(s.calls[s.log[n].caller], g, |s.good|);
  }

  lemma RoundsApart(first: nat, size: nat, t: nat)
    requires 0 < size
    ensures forall k :: 0 <= k <= t ==> 0 <= first + k * size <= first + t * size
    ensures forall j, k :: 0 <= j < k <= t ==> first + j * size < first + k * size
  {
    forall j, k | 0 <= j < k <= t
      ensures first + j * size < first + k * size
    {
      MulMono(j + 1, k, size);
      MulSucc(j, size);
    }
    forall k | 0 <= k <= t
      ensures 0 <= first + k * size <= first + t * size
    {
      MulMono(0, k, size);
      MulMono(k, t, size);
    }
  }

  /** A visit to `g` in each of t + 1 rounds since the last exchange takes t + 1 calls, all in flight still. */
  lemma VisitorsInFlight(s: State, g: nat, first: nat, t: nat)
    requires Inv(s) && FirstEpoch(s) && VisitorsCommitted(s, g, 0) && LastVisits(s, g)
    requires s.casAt <= first && first % |s.good| == g && first + t * |s.good| < |s.log|
    ensures t < |InFlight(s)|
  {
    var size := |s.good|;
    RoundsApart(first, size, t);
    var bound := seq(t + 1, k requires 0 <= k <= t => s.log[first + k * size].caller);
    forall k | 0 <= k <= t
      ensures bound[k] in InFlight(s) && s.log[first + k * size].server == g
    {
      VisitAfterExchange(s, g, first, k);
    }
    DistinctMembers(bound, InFlight(s));
  }

  /** Each round since the last exchange met `g`, and so bound one more call that is in flight still. */
  lemma DebtWhileGood(s: State, g: nat, t: nat)
    requires Inv(s) && FirstEpoch(s) && VisitorsCommitted(s, g, 0) && LastVisits(s, g)
    requires |InFlight(s)| <= t
    ensures |s.log| - s.casAt < (t + 1) * |s.good|
  {
    if |s.log| - s.casAt >= (t + 1) * |s.good| {
      var first := WindowMeets(s.casAt, g, |s.good|);
      MulSucc(t, |s.good|);
      VisitorsInFlight(s, g, first, t);
    }
  }

  /** So the cursor stays low before the first wrap. */
  lemma LowWhileGood(good: seq<bool>, steps: seq<Step>, g: nat, t: nat)
    requires |good| > 0 && StaysGood(good, steps, g) && AtMostInFlight(good, steps, t)
    requires FirstEpoch(Exec(Init(good), steps))
    ensures var s := Exec(Init(good), steps);
            && s.cursor < (t + 2) * |good|
            && |good| - 1 + (|s.log| - s.casAt) < (t + 2) * |good|
  {
    var s := Exec(Init(good), steps);
    RunKeepsInv(good, steps);
    VisitorsStayCommitted(good, steps, g, 0);
    RunKeepsLastVisits(good, steps, g);
    assert steps[..|steps|] == steps;
    DebtWhileGood(s, g, t);
    MulSucc(t + 1, |good|);
  }

  /** A step's probe belongs to the epoch before it, and a wrap needs a word of debt. */
  lemma StepInEpoch(s: State, step: Step)
    requires Inv(s) && s.wraps == 0
    ensures FirstEpoch(Apply(s, step))
    ensures var t := Apply(s, step); t.wraps != 0 ==> WORD <= |s.good| - 1 + (|t.log| - t.casAt)
  {
    WrappingStep(s, step);
  }

  /**
   As long as one server stays good, however many calls have thrown: at most `t`
   calls in flight keep the cursor below t + 2 rounds, and when these fit the word
   it never wraps.
   */
  lemma {:induction false} NeverWrapsWhileGood(good: seq<bool>, steps: seq<Step>, g: nat, t: nat)
    requires |good| > 0 && StaysGood(good, steps, g)
    requires AtMostInFlight(good, steps, t) && (t + 2) * |good| <= WORD
    ensures var s := Exec(Init(good), steps); s.wraps == 0 && s.cursor < (t + 2) * |good|
  {
    if steps != [] {
      var front := steps[..|steps| - 1];
      assert forall k :: 0 <= k <= |front| ==> front[..k] == steps[..k];
      NeverWrapsWhileGood(good, front, g, t);
      RunKeepsInv(good, front);
      StepInEpoch(Exec(Init(good), front), steps[|steps| - 1]);
    }
    LowWhileGood(good, steps, g, t);
  }

  /** The count divides the word, or so few calls are ever in flight that the cursor cannot outgrow it. */
  ghost predicate Fits(good: seq<bool>, steps: seq<Step>, t: nat)
    requires |good| > 0
  {
    WORD % |good| == 0 || (AtMostInFlight(good, steps, t) && (t + 2) * |good| <= WORD)
  }

  /** So round robin holds in every interleaving in which one server stays good. */
  lemma RoundRobinWhileGood(good: seq<bool>, steps: seq<Step>, g: nat, t: nat)
    requires |good| > 0 && StaysGood(good, steps, g) && Fits(good, steps, t)
    ensures var s := Exec(Init(good), steps);
            && |s.good| == |good| && Aligned(s)
            && s.cursor % |good| == |s.log| % |good|
            && forall n :: 0 <= n < |s.log| ==> s.log[n].server == n % |good|
  {
    SizeKept(good, steps);
    if WORD % |good| != 0 { NeverWrapsWhileGood(good, steps, g, t); }
    AlignedRoundRobin(good, steps);
  }

  // ------------------------------------------------------------ the hand-off

  /** The first and last of `c`'s probes are at least as far apart as their number. */
  lemma {:induction false} ProbeSpan(log: seq<Visit>, c: CallId) returns (p: nat, q: nat)
    requires ProbesBy(log, c) > 0
    ensures p <= q < |log| && log[p].caller == c && log[q].caller == c
    ensures ProbesBy(log, c) <= q - p + 1
    ensures forall n :: 0 <= n < |log| && log[n].caller == c ==> p <= n <= q
  {
    var front := log[..|log| - 1];
    if log[|log| - 1].caller == c {
      q := |log| - 1;
      if ProbesBy(front, c) > 0 {
        var q0;
        p, q0 := ProbeSpan(front, c);
      } else {
        p := q;
        NobodyProbed(front, c);
      }
    } else {
      p, q := ProbeSpan(front, c);
    }
  }

  lemma {:induction false} NobodyProbed(log: seq<Visit>, c: CallId)
    requires ProbesBy(log, c) == 0
    ensures forall n :: 0 <= n < |log| ==> log[n].caller != c
  {
    if log != [] { NobodyProbed(log[..|log| - 1], c); }
  }

  /** Call `c` probed from `p` to `q`, and in between another call took `g`'s turn at `r`, bound to return `g`. */
  ghost predicate HandedOff(s: State, g: nat, c: CallId, p: nat, r: nat, q: nat)
    requires |s.good| > 0
  {
    && p < r < q < |s.log|
    && s.log[p].caller == c && s.log[q].caller == c
    && (forall n :: 0 <= n < |s.log| && s.log[n].caller == c ==> p <= n <= q)
    && s.log[r].server == g && s.log[r].caller != c
    && s.log[r].caller in s.calls && Committed(s.calls[s.log[r].caller], g, |s.good|)
  }

  /** No wrap fell between the probes of call `c`, or a wrap falls on the turn. */
  ghost predicate ProbesUnbroken(s: State, c: CallId)
    requires |s.good| > 0
  {
    || WORD % |s.good| == 0
    || forall m, n :: 0 <= m < n < |s.log| && s.log[m].caller == c && s.log[n].caller == c ==>
         s.log[m].epoch == s.log[n].epoch
  }

  lemma {:induction false} LogGrows(good: seq<bool>, steps: seq<Step>, k: nat)
    requires k <= |steps|
    ensures Exec(Init(good), steps[..k]).log <= Exec(Init(good), steps).log
    ensures Exec(Init(good), steps[..k]).calls.Keys <= Exec(Init(good), steps).calls.Keys
  {
    if k == |steps| {
      assert steps[..k] == steps;
    } else {
      assert steps[..|steps| - 1][..k] == steps[..k];
      LogGrows(good, steps[..|steps| - 1], k);
    }
  }

  /**
   If server `g` has been good since before call `c` started and c threw all the
   same, then strictly between c's first and last probe another call's `fetch_add`
   took `g`'s turn, and that call returns `g` and nothing else. Wraps outside c's
   own probes do not matter, nor does what the health check found before.
   */
  lemma HandOff(good: seq<bool>, steps: seq<Step>, g: nat, c: CallId, k: nat) returns (p: nat, r: nat, q: nat)
    requires |good| > 0 && StaysGoodSince(good, steps, g, k) && c !in Exec(Init(good), steps[..k]).calls
    requires var s := Exec(Init(good), steps);
             |s.good| > 0 && c in s.calls && s.calls[c] == Thrown && ProbesUnbroken(s, c)
    ensures HandedOff(Exec(Init(good), steps), g, c, p, r, q)
  {
    var s, before := Exec(Init(good), steps), Exec(Init(good), steps[..k]);
    RunKeepsInv(good, steps);
    RunKeepsInv(good, steps[..k]);
    RunKeepsEpochs(good, steps);
    VisitorsStayCommitted(good, steps, g, k);
    assert CallInv(s, c);
    p, q := ProbeSpan(s.log, c);
    assert |before.log| <= p by {
      LogGrows(good, steps, k);
    }
    assert s.log[p].epoch <= s.log[p + |good| - 1].epoch <= s.log[q].epoch;
    r := UnbrokenMeets(s, p, g);
    assert !Committed(s.calls[c], g, |good|);
  }

  /** The same with nothing but a bound on the calls in flight. */
  lemma HandOffInFlight(good: seq<bool>, steps: seq<Step>, g: nat, c: CallId, t: nat)
    returns (p: nat, r: nat, q: nat)
    requires |good| > 0 && StaysGood(good, steps, g) && Fits(good, steps, t)
    requires var s := Exec(Init(good), steps); c in s.calls && s.calls[c] == Thrown
    ensures |Exec(Init(good), steps).good| > 0 && HandedOff(Exec(Init(good), steps), g, c, p, r, q)
  {
    RunKeepsInv(good, steps);
    if WORD % |good| != 0 { NeverWrapsWhileGood(good, steps, g, t); }
    p, r, q := HandOff(good, steps, g, c, 0);
  }

  // ------------------------------------------------------ the health check

  predicate StoresTo(step: Step, i: nat) {
    step.StoreGood? && step.i == i
  }

  /** `k` is where the schedule last stores into flag `i`. */
  ghost predicate LastStore(steps: seq<Step>, i: nat, k: nat) {
    k < |steps| && StoresTo(steps[k], i) && forall m :: k < m < |steps| ==> !StoresTo(steps[m], i)
  }

  lemma OnlyStoresTell(s: State, step: Step, i: nat)
    requires i < |s.good|
    ensures |Apply(s, step).good| == |s.good|
    ensures Apply(s, step).good[i] == if StoresTo(step, i) then step.up else s.good[i]
  {
  }

  /** In every interleaving a flag is what was last stored into it, and as at the start when nothing was. */
  lemma {:induction false} FlagIsLastStore(s: State, steps: seq<Step>, i: nat)
    requires i < |s.good|
    ensures |Exec(s, steps).good| == |s.good|
    ensures (forall m :: 0 <= m < |steps| ==> !StoresTo(steps[m], i)) ==> Exec(s, steps).good[i] == s.good[i]
    ensures forall k: nat :: LastStore(steps, i, k) ==> Exec(s, steps).good[i] == steps[k].up
  {
    if steps != [] {
      var last := |steps| - 1;
      FlagIsLastStore(s, steps[..last], i);
      OnlyStoresTell(Exec(s, steps[..last]), steps[last], i);
      forall k: nat | LastStore(steps, i, k)
        ensures Exec(s, steps).good[i] == steps[k].up
      {
        if k < last { assert LastStore(steps[..last], i, k); }
      }
    }
  }

  /** From moment `k` on server `g` is down: from the start or by the store just before, and never raised since. */
  ghost predicate StaysDownSince(good: seq<bool>, steps: seq<Step>, g: nat, k: nat) {
    && k <= |steps| && g < |good|
    && (if k == 0 then !good[g] else steps[k - 1] == StoreGood(g, false))
    && forall m :: k <= m < |steps| && StoresTo(steps[m], g) ==> !steps[m].up
  }

  /** Call `c` has found server `g` good. */
  predicate HasFound(s: State, c: CallId, g: nat) {
    c in s.calls && (s.calls[c] == Returned(g) || (s.calls[c].Swap? && s.calls[c].chosen == g))
  }

  /** Once a server is taken down no call finds it good any more: only those that already have may still return it. */
  lemma {:induction false} DownServerNeverPicked(good: seq<bool>, steps: seq<Step>, g: nat, k: nat)
    requires |good| > 0 && StaysDownSince(good, steps, g, k)
    ensures var s := Exec(Init(good), steps);
            && |s.good| == |good| && !s.good[g]
            && forall c :: HasFound(s, c, g) ==> HasFound(Exec(Init(good), steps[..k]), c, g)
  {
    SizeKept(good, steps);
    if k == |steps| {
      assert steps[..k] == steps;
      if k > 0 { SizeKept(good, steps[..k - 1]); }
    } else {
      var front, last := steps[..|steps| - 1], steps[|steps| - 1];
      assert front[..k] == steps[..k];
      DownServerNeverPicked(good, front, g, k);
      StepFindsOnlyGood(Exec(Init(good), front), last, g);
    }
  }

  lemma StepFindsOnlyGood(s: State, step: Step, g: nat)
    requires g < |s.good| && !s.good[g] && (StoresTo(step, g) ==> !step.up)
    ensures !Apply(s, step).good[g] && forall c :: HasFound(Apply(s, step), c, g) ==> HasFound(s, c, g)
  {
  }

  /** Whoever starts after a server was taken down never gets it. */
  lemma LateCallerNeverGets(good: seq<bool>, steps: seq<Step>, g: nat, k: nat, c: CallId)
    requires |good| > 0 && StaysDownSince(good, steps, g, k) && c !in Exec(Init(good), steps[..k]).calls
    ensures !HasFound(Exec(Init(good), steps), c, g)
  {
    DownServerNeverPicked(good, steps, g, k);
  }

  // ----------------------------------------------------------------- fairness

  /** The flags never change: every store writes what is already there. */
  ghost predicate Steady(good: seq<bool>, steps: seq<Step>) {
    forall k :: 0 <= k < |steps| && steps[k].StoreGood? && steps[k].i < |good| ==>
      good[steps[k].i] == steps[k].up
  }

  function BoundTo(s: State, i: nat): set<CallId>
    requires |s.good| > 0
  {
    set c | c in s.calls && Committed(s.calls[c], i, |s.good|)
  }

  /** One more probe on a good server is one more call bound to it. */
  lemma FetchAddBinds(s: State, c: CallId, i: nat)
    requires Inv(s) && Enabled(s, FetchAdd(c))
    ensures var t := Effect(s, FetchAdd(c));
            |BoundTo(t, i)| - |BoundTo(s, i)| == VisitsTo(t.log, i) - VisitsTo(s.log, i)
  {
    var t := Effect(s, FetchAdd(c));
    assert t.log[..|s.log|] == s.log;
    assert c !in BoundTo(s, i);
    if s.cursor % |s.good| == i {
      assert BoundTo(t, i) == BoundTo(s, i) + {c};
    } else {
      assert BoundTo(t, i) == BoundTo(s, i);
    }
  }

  /** No other step binds or unbinds a call, as long as the flag stays up. */
  lemma OtherStepsKeepBound(s: State, step: Step, i: nat)
    requires Inv(s) && Enabled(s, step) && !step.FetchAdd?
    requires i < |s.good| && s.good[i]
    ensures BoundTo(Effect(s, step), i) == BoundTo(s, i) && Effect(s, step).log == s.log
  {
    var t := Effect(s, step);
    assert |t.good| == |s.good|;
    if step.StoreGood? {
      assert t.calls == s.calls;
    } else {
      var c := step.c;
      assert t.calls == s.calls[c := t.calls[c]];
      assert Committed(t.calls[c], i, |s.good|) <==> c in s.calls && Committed(s.calls[c], i, |s.good|);
    }
  }

  lemma {:induction false} BoundCountsVisits(good: seq<bool>, steps: seq<Step>, i: nat)
    requires |good| > 0 && Steady(good, steps) && i < |good| && good[i]
    ensures Exec(Init(good), steps).good == good
    ensures |BoundTo(Exec(Init(good), steps), i)| == VisitsTo(Exec(Init(good), steps).log, i)
  {
    if steps != [] {
      var front := steps[..|steps| - 1];
      BoundCountsVisits(good, front, i);
      RunKeepsInv(good, front);
      var s, step := Exec(Init(good), front), steps[|steps| - 1];
      if Enabled(s, step) {
        if step.FetchAdd? {
          FetchAddBinds(s, step.c, i);
        } else {
          OtherStepsKeepBound(s, step, i);
        }
      }
    } else {
      assert BoundTo(Init(good), i) == {};
    }
  }

  /** A log that goes round robin visits server `i` once per full round, plus once in the last. */
  lemma {:induction false} VisitsPerRound(log: seq<Visit>, i: nat, size: nat)
    requires 0 <= i < size
    requires forall n :: 0 <= n < |log| ==> log[n].server == n % size
    ensures VisitsTo(log, i) == |log| / size + (if i < |log| % size then 1 else 0)
  {
    if log == [] {
      ModSmall(0, size);
    } else {
      var n := |log| - 1;
      VisitsPerRound(log[..n], i, size);
      NextDivMod(n, size);
    }
  }

  /** Two servers have about the same number of calls bound to them. */
  predicate Even(s: State, i: nat, j: nat)
    requires |s.good| > 0
  {
    -1 <= |BoundTo(s, i)| - |BoundTo(s, j)| <= 1
  }

  /**
   With fixed flags the numbers of calls bound to any two good servers differ by
   at most one, in every reachable state of every interleaving.
   */
  lemma Fairness(good: seq<bool>, steps: seq<Step>, i: nat, j: nat, t: nat)
    requires |good| > 0 && Steady(good, steps) && Fits(good, steps, t)
    requires i < |good| && j < |good| && good[i] && good[j]
    ensures |Exec(Init(good), steps).good| > 0 && Even(Exec(Init(good), steps), i, j)
  {
    var s := Exec(Init(good), steps);
    RoundRobinWhileGood(good, steps, i, t);
    BoundCountsVisits(good, steps, i);
    BoundCountsVisits(good, steps, j);
    VisitsPerRound(s.log, i, |good|);
    VisitsPerRound(s.log, j, |good|);
  }

  function ReturnsOf(s: State, i: nat): set<CallId> {
    set c | c in s.calls && s.calls[c] == Returned(i)
  }

  lemma QuiescentBound(s: State, i: nat)
    requires |s.good| > 0 && InFlight(s) == {}
    ensures BoundTo(s, i) == ReturnsOf(s, i)
  {
    forall c | c in s.calls
      ensures !Active(s.calls[c])
    {
      assert c !in InFlight(s);
    }
  }

  /** So once no call is in flight, the results already returned are spread evenly. */
  lemma QuiescentFairness(good: seq<bool>, steps: seq<Step>, i: nat, j: nat, t: nat)
    requires |good| > 0 && Steady(good, steps) && Fits(good, steps, t)
    requires i < |good| && j < |good| && good[i] && good[j]
    requires InFlight(Exec(Init(good), steps)) == {}
    ensures var s := Exec(Init(good), steps); -1 <= |ReturnsOf(s, i)| - |ReturnsOf(s, j)| <= 1
  {
    Fairness(good, steps, i, j, t);
    QuiescentBound(Exec(Init(good), steps), i);
    QuiescentBound(Exec(Init(good), steps), j);
  }
}
