/** One call of `PickAvailableServer` whose steps nobody else's interrupt. */
module LoneCall {
  import opened Wrappers
  import opened Arith
  import opened Collections
  import opened RoundRobin
  import opened LoadBalancer
  import opened LoadBalancerTheorems

  /** What a call that started at `start` ends with. */
  function Outcome(good: seq<bool>, start: nat): Pc
    requires |good| > 0
  {
    match Picked(good, start)
    case Some(i) => Returned(i)
    case None => Thrown
  }

  /** All steps are attempts of call `c` to take a step. */
  predicate Own(steps: seq<Step>, c: CallId) {
    forall k :: 0 <= k < |steps| ==> !steps[k].StoreGood? && steps[k].c == c
  }

  /** Only call `c` has changed, and what has been logged since is its probes. */
  ghost predicate OnlyCall(s: State, t: State, c: CallId) {
    && t.good == s.good && |s.log| <= |t.log| && t.log[..|s.log|] == s.log
    && (forall n :: |s.log| <= n < |t.log| ==> t.log[n].caller == c)
    && (t.calls == s.calls || (c in t.calls && t.calls == s.calls[c := t.calls[c]]))
  }

  /** How far call `c`, alone from a state with cursor `start`, has come. */
  ghost predicate Stands(good: seq<bool>, start: nat, cursor: nat, pc: Pc)
    requires |good| > 0
  {
    var size := |good|;
    match pc
    case Probe(cnt) =>
      cnt <= size && cursor == (start + cnt) % WORD && Scan(good, start, cnt) == Scan(good, start, 0)
    case Inspect(cnt, idx) =>
      && cnt < size && Scan(good, start, cnt) == Scan(good, start, 0)
      && idx == (start + cnt) % WORD && cursor == (start + cnt + 1) % WORD
    case Swap(chosen, expected, newVal) =>
      && Scan(good, start, 0).Some? && newVal == expected % size
      && var k := Scan(good, start, 0).value;
         chosen == ServerAt(start, k, size) && cursor == (start + k + 1) % WORD
    case _ => pc == Outcome(good, start) && cursor == CursorAfter(good, start)
  }

  ghost predicate Alone(s: State, t: State, c: CallId)
    requires |s.good| > 0
  {
    && OnlyCall(s, t, c)
    && if c in t.calls then Stands(s.good, s.cursor, t.cursor, t.calls[c]) else t.cursor == s.cursor
  }

  lemma OwnStepFrame(s: State, t: State, c: CallId, step: Step)
    requires OnlyCall(s, t, c) && Enabled(t, step) && !step.StoreGood? && step.c == c
    ensures OnlyCall(s, Effect(t, step), c) && c in Effect(t, step).calls
  {
  }

  lemma FetchStands(good: seq<bool>, start: nat, t: State, c: CallId)
    requires |good| > 0 && t.good == good && Enabled(t, FetchAdd(c)) && Stands(good, start, t.cursor, t.calls[c])
    ensures var u := Effect(t, FetchAdd(c)); Stands(good, start, u.cursor, u.calls[c])
  {
    OneProbe(good, start, t.calls[c].cnt, t.cursor);
  }

  lemma LoadStands(good: seq<bool>, start: nat, t: State, c: CallId)
    requires |good| > 0 && t.good == good && Enabled(t, LoadGood(c)) && Stands(good, start, t.cursor, t.calls[c])
    ensures var u := Effect(t, LoadGood(c)); Stands(good, start, u.cursor, u.calls[c])
  {
    OneProbe(good, start, t.calls[c].cnt, t.calls[c].idx);
  }

  lemma OwnStepStands(good: seq<bool>, start: nat, t: State, step: Step)
    requires |good| > 0 && start < WORD && t.good == good
    requires Enabled(t, step) && !step.StoreGood?
    requires if step.c in t.calls then Stands(good, start, t.cursor, t.calls[step.c]) else t.cursor == start
    ensures var u := Effect(t, step); Stands(good, start, u.cursor, u.calls[step.c])
  {
    match step
    case Start(_) => ModSmall(start, WORD);
    case FetchAdd(c) => FetchStands(good, start, t, c);
    case LoadGood(c) => LoadStands(good, start, t, c);
    case _ =>
  }

  lemma {:induction false} OwnRun(s: State, c: CallId, steps: seq<Step>)
    requires |s.good| > 0 && s.cursor < WORD && c !in s.calls && Own(steps, c)
    ensures Alone(s, Exec(s, steps), c)
  {
    if steps != [] {
      var front, step := steps[..|steps| - 1], steps[|steps| - 1];
      OwnRun(s, c, front);
      var t := Exec(s, front);
      if Enabled(t, step) {
        OwnStepFrame(s, t, c, step);
        OwnStepStands(s.good, s.cursor, t, step);
      }
    }
  }

  ghost predicate Ended(t: State, c: CallId) {
    c in t.calls && !Active(t.calls[c])
  }

  /**
   From any state, whatever other calls are under way: however the steps of one
   new call alone run, spurious failures included, if they end it then with the
   server, and at the cursor, that the object's `PickAvailableServer` promises.
   */
  lemma LoneCallRefines(s: State, c: CallId, steps: seq<Step>)
    requires |s.good| > 0 && s.cursor < WORD && c !in s.calls && Own(steps, c)
    ensures var t := Exec(s, steps);
            Ended(t, c) ==>
              && t.calls == s.calls[c := Outcome(s.good, s.cursor)]
              && t.cursor == CursorAfter(s.good, s.cursor) && t.good == s.good
  {
    OwnRun(s, c, steps);
  }

  /** So without overlap a throw means that every server is down, as long as the probes wrap nothing. */
  lemma LoneCallThrows(s: State, c: CallId, steps: seq<Step>)
    requires |s.good| > 0 && s.cursor < WORD && c !in s.calls && Own(steps, c)
    requires Harmless(s.cursor, |s.good|) && Ended(Exec(s, steps), c)
    ensures Exec(s, steps).calls[c] == Thrown <==> AllDown(s.good)
  {
    LoneCallRefines(s, c, steps);
    ThrowMeansAllDown(s.good, s.cursor);
  }

  lemma {:induction false} ExecAppend(s: State, a: seq<Step>, b: seq<Step>)
    ensures Exec(s, a + b) == Exec(Exec(s, a), b)
  {
    if b == [] {
      assert a + b == a;
    } else {
      ExecAppend(s, a, b[..|b| - 1]);
      assert (a + b)[..|a + b| - 1] == a + b[..|b| - 1];
    }
  }

  /** What is left to do for a call on its own. */
  function Remaining(t: State, c: CallId): nat {
    if c !in t.calls then 3 * |t.good| + 6
    else
      match t.calls[c]
      case Probe(cnt) => if cnt <= |t.good| then 3 * (|t.good| - cnt) + 5 else 0
      case Inspect(cnt, _) => if cnt <= |t.good| then 3 * (|t.good| - cnt) + 4 else 0
      case Swap(_, expected, _) => if expected == t.cursor then 1 else 2
      case _ => 0
  }

  /** A step that brings a lone call on. */
  lemma NextStep(s: State, t: State, c: CallId) returns (step: Step)
    requires |s.good| > 0 && Alone(s, t, c) && !Ended(t, c)
    ensures Enabled(t, step) && Own([step], c) && Remaining(Effect(t, step), c) < Remaining(t, c)
  {
    if c !in t.calls { return Start(c); }
    match t.calls[c]
    case Probe(cnt) => step := if cnt < |t.good| then FetchAdd(c) else GiveUp(c);
    case Inspect(_, _) => step := LoadGood(c);
    case Swap(_, expected, _) => step := if expected == t.cursor then CasSucceed(c) else CasFail(c);
  }

  /** A lone call can always be brought to its end, from wherever it stands. */
  lemma {:induction false} LoneCallEnds(s: State, c: CallId, before: seq<Step>) returns (steps: seq<Step>)
    requires |s.good| > 0 && s.cursor < WORD && c !in s.calls && Own(before, c)
    ensures Own(steps, c) && before <= steps && Ended(Exec(s, steps), c)
    decreases Remaining(Exec(s, before), c)
  {
    OwnRun(s, c, before);
    if Ended(Exec(s, before), c) {
      steps := before;
    } else {
      var step := NextStep(s, Exec(s, before), c);
      ExecSnoc(s, before, step);
      steps := LoneCallEnds(s, c, before + [step]);
    }
  }
}
