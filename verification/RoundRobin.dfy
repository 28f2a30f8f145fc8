/**
 The lock-free round robin of `LoadBalancer::PickAvailableServer`, as a step
 system. Any number of calls run it at once over one atomic cursor while the
 health check stores into the flags. Every atomic access is one step, and a
 schedule is any sequence of steps: a step that is not enabled changes nothing,
 so "for every schedule" means "for every interleaving".
 */
module RoundRobin {
  import opened Arith

  type CallId = nat

  /** Where one call stands. */
  datatype Pc =
    | Probe(cnt: nat)                                // at the loop test: fetch_add, or throw
    | Inspect(cnt: nat, idx: nat)                    // holds a fetched index, about to load the flag
    | Swap(chosen: nat, expected: nat, newVal: nat)  // found a good server, about to compare-and-exchange
    | Returned(server: nat)
    | Thrown

  /** One `fetch_add`: who did it, the server it landed on, how often the word had wrapped before. */
  datatype Visit = Visit(caller: CallId, server: nat, epoch: nat)

  datatype State = State(
    cursor: nat,              // nextIdx_
    good: seq<bool>,          // servers_[i].good
    calls: map<CallId, Pc>,
    // history, read by no step
    log: seq<Visit>,          // every fetch_add so far, oldest first
    wraps: nat,               // how often the cursor has wrapped its word
    casAt: nat,               // length of the log at the last successful exchange
    gaveUp: set<CallId>       // calls that have thrown since then
  )

  datatype Step =
    | Start(c: CallId)
    | FetchAdd(c: CallId)
    | LoadGood(c: CallId)
    | CasSucceed(c: CallId)
    | CasFail(c: CallId)      // the value differs, or the weak exchange fails spuriously
    | GiveUp(c: CallId)
    | StoreGood(i: nat, up: bool)

  function Init(good: seq<bool>): State {
    State(0, good, map[], [], 0, 0, {})
  }

  predicate Enabled(s: State, step: Step) {
    match step
    case Start(c) => c !in s.calls
    case FetchAdd(c) => c in s.calls && s.calls[c].Probe? && s.calls[c].cnt < |s.good|
    case LoadGood(c) => c in s.calls && s.calls[c].Inspect? && |s.good| > 0
    case CasSucceed(c) => c in s.calls && s.calls[c].Swap? && s.calls[c].expected == s.cursor
    case CasFail(c) => c in s.calls && s.calls[c].Swap? && |s.good| > 0
    case GiveUp(c) => c in s.calls && s.calls[c].Probe? && s.calls[c].cnt >= |s.good|
    case StoreGood(i, _) => i < |s.good|
  }

  function Effect(s: State, step: Step): State
    requires Enabled(s, step)
  {
    match step
    case Start(c) => s.(calls := s.calls[c := Probe(0)])
    case FetchAdd(c) =>
      var idx := s.cursor;
      s.(cursor := (idx + 1) % WORD,
         wraps := if idx + 1 == WORD then s.wraps + 1 else s.wraps,
         calls := s.calls[c := Inspect(s.calls[c].cnt, idx)],
         log := s.log + [Visit(c, idx % |s.good|, s.wraps)])
    case LoadGood(c) =>
      var Inspect(cnt, idx) := s.calls[c];
      if s.good[idx % |s.good|]
      then s.(calls := s.calls[c := Swap(idx % |s.good|, idx, idx % |s.good|)])
      else s.(calls := s.calls[c := Probe(cnt + 1)])
    case CasSucceed(c) =>
      s.(cursor := s.calls[c].newVal,
         calls := s.calls[c := Returned(s.calls[c].chosen)],
         casAt := |s.log|, gaveUp := {})
    case CasFail(c) =>
      s.(calls := s.calls[c := Swap(s.calls[c].chosen, s.cursor, s.cursor % |s.good|)])
    case GiveUp(c) =>
      s.(calls := s.calls[c := Thrown], gaveUp := s.gaveUp + {c})
    case StoreGood(i, up) => s.(good := s.good[i := up])
  }

  function Apply(s: State, step: Step): State {
    if Enabled(s, step) then Effect(s, step) else s
  }

  /** The state a schedule leads to. */
  function Exec(s: State, steps: seq<Step>): State {
    if steps == [] then s
    else Apply(Exec(s, steps[..|steps| - 1]), steps[|steps| - 1])
  }

  lemma ExecSnoc(s: State, steps: seq<Step>, step: Step)
    ensures Exec(s, steps + [step]) == Apply(Exec(s, steps), step)
  {
    assert (steps + [step])[..|steps|] == steps;
  }

  predicate Active(pc: Pc) {
    !pc.Returned? && !pc.Thrown?
  }

  function InFlight(s: State): set<CallId> {
    set c | c in s.calls && Active(s.calls[c])
  }

  /** How many of the logged probes are `c`'s. */
  function ProbesBy(log: seq<Visit>, c: CallId): nat {
    if log == [] then 0
    else ProbesBy(log[..|log| - 1], c) + (if log[|log| - 1].caller == c then 1 else 0)
  }

  /** How many of the logged probes landed on server `i`. */
  function VisitsTo(log: seq<Visit>, i: nat): nat {
    if log == [] then 0
    else VisitsTo(log[..|log| - 1], i) + (if log[|log| - 1].server == i then 1 else 0)
  }

  // ---------------------------------------------------------------- invariant

  ghost predicate CallInv(s: State, c: CallId)
    requires c in s.calls && |s.good| > 0
  {
    match s.calls[c]
    case Probe(cnt) => cnt <= |s.good| && ProbesBy(s.log, c) == cnt
    case Inspect(cnt, idx) => cnt < |s.good| && ProbesBy(s.log, c) == cnt + 1
    case Swap(chosen, expected, newVal) =>
      chosen < |s.good| && newVal == expected % |s.good| && ProbesBy(s.log, c) <= |s.good|
    case Returned(server) => server < |s.good| && ProbesBy(s.log, c) <= |s.good|
    case Thrown => ProbesBy(s.log, c) == |s.good|
  }

  /** The cursor's residue is the number of `fetch_add`s so far, up to the wraps. */
  ghost predicate ResidueInv(s: State)
    requires |s.good| > 0
  {
    && s.cursor < WORD
    && (s.cursor + s.wraps * WORD) % |s.good| == |s.log| % |s.good|
  }

  ghost predicate LogInv(s: State)
    requires |s.good| > 0
  {
    forall n :: 0 <= n < |s.log| ==>
      && s.log[n].server < |s.good|
      && s.log[n].epoch <= s.wraps
      && s.log[n].caller in s.calls
      && (s.log[n].server + s.log[n].epoch * WORD) % |s.good| == n % |s.good|
  }

  /** What has been added to the cursor since the last exchange, and by whom. */
  ghost predicate DebtInv(s: State)
    requires |s.good| > 0
  {
    && s.casAt <= |s.log|
    && s.cursor <= |s.good| - 1 + (|s.log| - s.casAt)
    && (forall n :: s.casAt <= n < |s.log| ==>
          s.log[n].caller in InFlight(s) + s.gaveUp)
  }

  ghost predicate Inv(s: State) {
    && |s.good| > 0
    && (forall c :: c in s.calls ==> CallInv(s, c))
    && ResidueInv(s)
    && LogInv(s)
    && DebtInv(s)
  }

  lemma NoProbesByStranger(log: seq<Visit>, c: CallId)
    requires forall n :: 0 <= n < |log| ==> log[n].caller != c
    ensures ProbesBy(log, c) == 0
  {
    if log != [] { NoProbesByStranger(log[..|log| - 1], c); }
  }

  lemma ProbesBySnoc(log: seq<Visit>, v: Visit, c: CallId)
    ensures ProbesBy(log + [v], c) == ProbesBy(log, c) + (if v.caller == c then 1 else 0)
  {
    assert (log + [v])[..|log|] == log;
  }

  /** One more on both sides; and the cursor's own remainder says as much as the cursor. */
  lemma NextResidue(cursor: int, words: int, count: int, size: int)
    requires 0 < size && (cursor + words) % size == count % size
    ensures (cursor + 1 + words) % size == (count + 1) % size
    ensures (cursor % size + words) % size == count % size
  {
    ModCongruent(cursor + words, count, 1, size);
    ModReduce(cursor, words, size);
  }

  lemma FetchAddKeepsCursor(s: State, c: CallId)
    requires |s.good| > 0 && ResidueInv(s) && Enabled(s, FetchAdd(c))
    ensures ResidueInv(Effect(s, FetchAdd(c)))
  {
    var t := Effect(s, FetchAdd(c));
    NextResidue(s.cursor, s.wraps * WORD, |s.log|, |s.good|);
    if s.cursor + 1 < WORD { ModSmall(s.cursor + 1, WORD); }
    assert t.cursor + t.wraps * WORD == s.cursor + 1 + s.wraps * WORD;
  }

  lemma FetchAddKeepsLog(s: State, c: CallId)
    requires |s.good| > 0 && ResidueInv(s) && LogInv(s) && Enabled(s, FetchAdd(c))
    ensures LogInv(Effect(s, FetchAdd(c)))
  {
    NextResidue(s.cursor, s.wraps * WORD, |s.log|, |s.good|);
  }

  lemma FetchAddKeepsResidue(s: State, c: CallId)
    requires Inv(s) && Enabled(s, FetchAdd(c))
    ensures ResidueInv(Effect(s, FetchAdd(c))) && LogInv(Effect(s, FetchAdd(c)))
  {
    FetchAddKeepsCursor(s, c);
    FetchAddKeepsLog(s, c);
  }

  lemma ExchangeKeepsResidue(s: State, c: CallId)
    requires Inv(s) && Enabled(s, CasSucceed(c))
    ensures ResidueInv(Effect(s, CasSucceed(c)))
    ensures Effect(s, CasSucceed(c)).cursor < |s.good|
  {
    assert CallInv(s, c);
    ModReduce(s.cursor, s.wraps * WORD, |s.good|);
    if s.cursor < |s.good| { ModSmall(s.cursor, |s.good|); }
  }

  /** A step adds at most one probe, by the call it belongs to, and changes no other call. */
  lemma StepFrame(s: State, step: Step)
    requires Enabled(s, step)
    ensures var t := Effect(s, step);
            && |t.good| == |s.good|
            && (step.StoreGood? ==> t.calls == s.calls && t.log == s.log)
            && (!step.StoreGood? ==>
                  && step.c in t.calls && t.calls == s.calls[step.c := t.calls[step.c]]
                  && forall d :: ProbesBy(t.log, d)
                       == ProbesBy(s.log, d) + (if step.FetchAdd? && d == step.c then 1 else 0))
  {
    if step.FetchAdd? {
      forall d
        ensures ProbesBy(Effect(s, step).log, d) == ProbesBy(s.log, d) + (if d == step.c then 1 else 0)
      {
        ProbesBySnoc(s.log, Effect(s, step).log[|s.log|], d);
      }
    }
  }

  lemma OwnCallKept(s: State, step: Step)
    requires Inv(s) && Enabled(s, step) && !step.StoreGood?
    ensures step.c in Effect(s, step).calls && CallInv(Effect(s, step), step.c)
  {
    StepFrame(s, step);
    assert step.c in s.calls ==> CallInv(s, step.c);
    if step.Start? { NoProbesByStranger(s.log, step.c); }
  }

  lemma StepKeepsCalls(s: State, step: Step)
    requires Inv(s) && Enabled(s, step)
    ensures forall c :: c in Effect(s, step).calls ==> CallInv(Effect(s, step), c)
  {
    var t := Effect(s, step);
    StepFrame(s, step);
    forall c | c in t.calls
      ensures CallInv(t, c)
    {
      if !step.StoreGood? && c == step.c {
        OwnCallKept(s, step);
      } else {
        assert CallInv(s, c);
        assert t.calls[c] == s.calls[c] && ProbesBy(t.log, c) == ProbesBy(s.log, c);
      }
    }
  }

  lemma StepKeepsDebt(s: State, step: Step)
    requires Inv(s) && Enabled(s, step)
    ensures DebtInv(Effect(s, step))
  {
    var t := Effect(s, step);
    match step
    case CasSucceed(c) =>
      ExchangeKeepsResidue(s, c);
    case FetchAdd(c) =>
      if s.cursor + 1 < WORD { ModSmall(s.cursor + 1, WORD); }
      assert c in InFlight(t);
      assert InFlight(t) == InFlight(s);
    case GiveUp(c) =>
      assert InFlight(t) + t.gaveUp == InFlight(s) + s.gaveUp;
    case Start(c) =>
      assert InFlight(s) <= InFlight(t);
    case LoadGood(c) =>
      assert InFlight(t) == InFlight(s);
    case CasFail(c) =>
      assert InFlight(t) == InFlight(s);
    case StoreGood(_, _) =>
      assert InFlight(t) == InFlight(s);
  }

  lemma StepKeepsInv(s: State, step: Step)
    requires Inv(s)
    ensures Inv(Apply(s, step))
  {
    if Enabled(s, step) {
      StepKeepsCalls(s, step);
      StepKeepsDebt(s, step);
      match step
      case FetchAdd(c) => FetchAddKeepsResidue(s, c);
      case CasSucceed(c) => ExchangeKeepsResidue(s, c);
      case _ =>
    }
  }

  lemma {:induction false} RunKeepsInv(good: seq<bool>, steps: seq<Step>)
    requires |good| > 0
    ensures Inv(Exec(Init(good), steps))
    ensures |Exec(Init(good), steps).good| == |good|
  {
    if steps != [] {
      RunKeepsInv(good, steps[..|steps| - 1]);
      StepKeepsInv(Exec(Init(good), steps[..|steps| - 1]), steps[|steps| - 1]);
    } else {
      ModSmall(0, |good|);
    }
  }

  /**
   In every reachable state each call can go on as the loop does: it probes while
   it has probes left and else throws, it loads the flag it holds the index of, and
   its exchange may fail at any time but succeeds only on the value expected. A new
   call can start, and the health check can store, at any time.
   */
  lemma StepsNeverBlocked(good: seq<bool>, steps: seq<Step>)
    requires |good| > 0
    ensures var s := Exec(Init(good), steps);
            && (forall c :: c !in s.calls ==> Enabled(s, Start(c)))
            && (forall i: nat, up :: i < |good| ==> Enabled(s, StoreGood(i, up)))
            && (forall c :: c in s.calls ==>
                  match s.calls[c]
                  case Probe(cnt) =>
                    (Enabled(s, FetchAdd(c)) <==> cnt < |good|) && (Enabled(s, GiveUp(c)) <==> cnt == |good|)
                  case Inspect(_, _) => Enabled(s, LoadGood(c))
                  case Swap(_, expected, _) =>
                    Enabled(s, CasFail(c)) && (Enabled(s, CasSucceed(c)) <==> expected == s.cursor)
                  case _ => forall step: Step :: !step.StoreGood? && step.c == c ==> !Enabled(s, step))
  {
    var s := Exec(Init(good), steps);
    RunKeepsInv(good, steps);
    forall c | c in s.calls
      ensures CallInv(s, c)
    {
    }
  }
}
