/** What the pool guarantees to any number of concurrent requests. */
module PoolTheorems {
  import opened Collections
  import opened Wrappers
  import opened Errors
  import opened Net
  import opened PoolProtocol

  // --------------------------------------------------- safety and conservation

  /**
   In every reachable state a queue is within its limit, and a connection in it
   has served before, last ended an exchange with keep-alive, leads to the
   queue's endpoint, sits in that slot and no other, and is in nobody's hands.
   */
  lemma PoolSafety(maxKeepalive: nat, steps: seq<Step>, e: Endpoint, i: nat)
    requires i < |SlotOf(Exec(Init(maxKeepalive), steps), e).queue|
    ensures var s := Exec(Init(maxKeepalive), steps);
            var queue := SlotOf(s, e).queue;
            var c := queue[i];
            && |queue| <= s.maxKeepalive
            && c in s.conns && s.conns[c].used && s.conns[c].kept && s.conns[c].endpoint == e
            && (forall f, j :: 0 <= j < |SlotOf(s, f).queue| && SlotOf(s, f).queue[j] == c ==> f == e && j == i)
            && (forall r :: !Holds(s, r, c))
  {
    var s := Exec(Init(maxKeepalive), steps);
    RunKeepsInv(maxKeepalive, steps);
    AnySlot(s, e);
    var c := SlotOf(s, e).queue[i];
    forall f, j | 0 <= j < |SlotOf(s, f).queue| && SlotOf(s, f).queue[j] == c
      ensures f == e && j == i
    {
      AnySlot(s, f);
      assert c in SlotOf(s, f).queue && c in SlotOf(s, e).queue;
    }
    forall r
      ensures !Holds(s, r, c)
    {
      if r in s.requests { assert HeldInv(s, r); }
    }
  }

  /**
   What a step does to a queue and its history: nothing; or the oldest connection
   leaves, into the hands of the request that takes the step; or the connection in
   the request's hands goes to the back, if there is room.
   */
  lemma StepOnQueue(s: State, step: Step, e: Endpoint)
    requires Enabled(s, step)
    ensures var before, after, t := SlotOf(s, e), SlotOf(Effect(s, step), e), Effect(s, step);
            if step.Retrieve? && s.requests[step.r].endpoint == e && before.queue != [] then
              && after.queue == before.queue[1..] && after.pushed == before.pushed
              && after.popped == before.popped + [before.queue[0]]
              && t.requests[step.r].stage == Writing(before.queue[0])
            else if step.Push? && s.requests[step.r].endpoint == e && |before.queue| < s.maxKeepalive then
              && var c := s.requests[step.r].stage.conn;
              && after.queue == before.queue + [c] && after.pushed == before.pushed + [c]
              && after.popped == before.popped
            else after == before
  {
    StepFrame(s, step);
  }

  /** Whatever the interleaving, connections leave a queue in the order in which they were pushed. */
  lemma FirstInFirstOut(maxKeepalive: nat, steps: seq<Step>, e: Endpoint)
    ensures var slot := SlotOf(Exec(Init(maxKeepalive), steps), e);
            slot.pushed == slot.popped + slot.queue
  {
    RunKeepsInv(maxKeepalive, steps);
    AnySlot(Exec(Init(maxKeepalive), steps), e);
  }

  /** No two requests ever hold the same connection, and what one holds leads to its endpoint. */
  lemma HeldByOne(maxKeepalive: nat, steps: seq<Step>, r: RequestId, q: RequestId, c: ConnId)
    requires var s := Exec(Init(maxKeepalive), steps); Holds(s, r, c) && Holds(s, q, c)
    ensures r == q
    ensures var s := Exec(Init(maxKeepalive), steps);
            c in s.conns && s.conns[c].endpoint == s.requests[r].endpoint
  {
    var s := Exec(Init(maxKeepalive), steps);
    RunKeepsInv(maxKeepalive, steps);
    assert HeldInv(s, r) && HeldInv(s, q);
  }

  function Made(s: State, e: Endpoint): set<ConnId> {
    set c | c in s.conns && s.conns[c].endpoint == e
  }

  function Destroyed(s: State, e: Endpoint): set<ConnId> {
    set c | c in s.conns && s.conns[c].endpoint == e && s.conns[c].place == Gone
  }

  function Holders(s: State, e: Endpoint): set<RequestId> {
    set r | r in s.requests && s.requests[r].endpoint == e && Holding(s.requests[r].stage)
  }

  function At(s: State, e: Endpoint, queued: bool): set<ConnId> {
    set c | c in s.conns && s.conns[c].endpoint == e
            && (if queued then s.conns[c].place.Queued? else s.conns[c].place.With?)
  }

  lemma QueueSize(s: State, e: Endpoint)
    requires Inv(s)
    ensures |SlotOf(s, e).queue| == |At(s, e, true)|
  {
    AnySlot(s, e);
    forall c
      ensures c in SlotOf(s, e).queue <==> c in At(s, e, true)
    {
      if c in At(s, e, true) { assert PlaceInv(s, c); }
    }
    DistinctSize(SlotOf(s, e).queue, At(s, e, true));
  }

  lemma HeldSize(s: State, e: Endpoint)
    requires Inv(s)
    ensures |Holders(s, e)| == |At(s, e, false)|
  {
    var f := map r | r in Holders(s, e) :: s.requests[r].stage.conn;
    forall r | r in Holders(s, e)
      ensures f[r] in At(s, e, false) && s.conns[f[r]].place == With(r)
    {
      assert HeldInv(s, r);
    }
    forall c | c in At(s, e, false)
      ensures c in f.Values
    {
      assert PlaceInv(s, c);
      var r := s.conns[c].place.r;
      assert HeldInv(s, r);
      assert r in Holders(s, e) && f[r] == c;
    }
    assert f.Values == At(s, e, false);
    assert f.Keys == Holders(s, e);
    BijectionSize(f);
  }

  lemma MadeSize(s: State, e: Endpoint)
    ensures |Made(s, e)| == |At(s, e, true)| + |At(s, e, false)| + |Destroyed(s, e)|
  {
    var a, b, c := At(s, e, true), At(s, e, false), Destroyed(s, e);
    assert a !! b;
    assert a + b !! c;
    assert Made(s, e) == (a + b) + c by {
      forall x | x in Made(s, e)
        ensures x in a || x in b || x in c
      {
        match s.conns[x].place
        case Queued => assert x in a;
        case With(_) => assert x in b;
        case Gone => assert x in c;
      }
    }
  }

  /** Connections made for an endpoint = pooled + held + destroyed, in every reachable state. */
  lemma Conservation(maxKeepalive: nat, steps: seq<Step>, e: Endpoint)
    ensures var s := Exec(Init(maxKeepalive), steps);
            |Made(s, e)| == |SlotOf(s, e).queue| + |Holders(s, e)| + |Destroyed(s, e)|
  {
    var s := Exec(Init(maxKeepalive), steps);
    RunKeepsInv(maxKeepalive, steps);
    QueueSize(s, e);
    HeldSize(s, e);
    MadeSize(s, e);
  }

  // ----------------------------------------------------- live-connection bound

  function InFlight(s: State, e: Endpoint): set<RequestId> {
    set r | r in s.requests && s.requests[r].endpoint == e && !s.requests[r].stage.Done?
  }

  /** Requests that hold a connection or are making one. */
  function Busy(s: State, e: Endpoint): set<RequestId> {
    set r | r in s.requests && s.requests[r].endpoint == e && Occupied(s.requests[r].stage)
  }

  predicate Occupied(stage: Stage) {
    Holding(stage) || stage.Creating?
  }

  ghost predicate AtMost(maxKeepalive: nat, steps: seq<Step>, e: Endpoint, t: nat) {
    forall k :: 0 <= k <= |steps| ==> |InFlight(Exec(Init(maxKeepalive), steps[..k]), e)| <= t
  }

  function Live(s: State, e: Endpoint): nat {
    |SlotOf(s, e).queue| + |Busy(s, e)|
  }

  lemma BusyAfter(s: State, t: State, r: RequestId, e: Endpoint)
    requires r in t.requests && t.requests == s.requests[r := t.requests[r]]
    requires r in s.requests ==> t.requests[r].endpoint == s.requests[r].endpoint
    ensures Busy(t, e) == if t.requests[r].endpoint == e && Occupied(t.requests[r].stage)
                          then Busy(s, e) + {r} else Busy(s, e) - {r}
  {
  }

  function Weight(s: State, r: RequestId): nat {
    if r in s.requests && Occupied(s.requests[r].stage) then 1 else 0
  }

  /** What a step takes out of the queue or puts into it, its request gains or loses. */
  lemma StepTrades(s: State, step: Step)
    requires Enabled(s, step)
    ensures var t := Effect(s, step);
            var e := t.requests[step.r].endpoint;
            || SlotOf(t, e).queue == []
            || |SlotOf(t, e).queue| + Weight(t, step.r) <= |SlotOf(s, e).queue| + Weight(s, step.r)
  {
  }

  /** Only a request that finds the queue empty adds to the live connections. */
  lemma StepLive(s: State, step: Step, e: Endpoint)
    requires Enabled(s, step)
    ensures Live(Effect(s, step), e) <= Live(s, e) || SlotOf(Effect(s, step), e).queue == []
  {
    var t, r := Effect(s, step), step.r;
    StepFrame(s, step);
    BusyAfter(s, t, r, e);
    if t.requests[r].endpoint == e {
      StepTrades(s, step);
      assert r in Busy(s, e) <==> Weight(s, r) == 1;
    } else {
      assert r !in Busy(s, e);
    }
  }

  /**
   Pooled, held and being-made connections together never outnumber the requests
   ever in flight at once, although they are made outside the lock.
   */
  lemma {:induction false} LiveBound(maxKeepalive: nat, steps: seq<Step>, e: Endpoint, t: nat)
    requires AtMost(maxKeepalive, steps, e, t)
    ensures Live(Exec(Init(maxKeepalive), steps), e) <= t
  {
    var now := Exec(Init(maxKeepalive), steps);
    assert steps[..|steps|] == steps;
    assert |InFlight(now, e)| <= t;
    SubsetSize(Busy(now, e), InFlight(now, e));
    if steps != [] {
      var front := steps[..|steps| - 1];
      assert forall k :: 0 <= k <= |front| ==> front[..k] == steps[..k];
      LiveBound(maxKeepalive, front, e, t);
      var s, step := Exec(Init(maxKeepalive), front), steps[|steps| - 1];
      if Enabled(s, step) { StepLive(s, step, e); }
    }
  }

  lemma {:induction false} LimitKept(maxKeepalive: nat, steps: seq<Step>)
    ensures Exec(Init(maxKeepalive), steps).maxKeepalive == maxKeepalive
  {
    if steps != [] { LimitKept(maxKeepalive, steps[..|steps| - 1]); }
  }

  /**
   So when no more requests run at once than the pool may keep, there is always
   room: whatever is pushed goes to the back of its queue.
   */
  lemma NothingDropped(maxKeepalive: nat, steps: seq<Step>, r: RequestId)
    requires var s := Exec(Init(maxKeepalive), steps);
             && Enabled(s, Push(r)) && AtMost(maxKeepalive, steps, s.requests[r].endpoint, maxKeepalive)
    ensures var s := Exec(Init(maxKeepalive), steps);
            var e := s.requests[r].endpoint;
            SlotOf(Apply(s, Push(r)), e).queue == SlotOf(s, e).queue + [s.requests[r].stage.conn]
  {
    var s := Exec(Init(maxKeepalive), steps);
    var e := s.requests[r].endpoint;
    LiveBound(maxKeepalive, steps, e, maxKeepalive);
    LimitKept(maxKeepalive, steps);
    assert r in Busy(s, e);
  }

  // ---------------------------------------------------------- retry termination

  /** Pushes for the request's endpoint while it ran, its own not counted. */
  function PushedByOthers(s: State, r: RequestId): int
    requires r in s.requests
  {
    var q := s.requests[r];
    (if q.stage.Done? then q.ended else |SlotOf(s, q.endpoint).pushed|) - q.since
  }

  /** Every pop of a request used up a connection that was there at its start or came later. */
  ghost predicate RetryInv(s: State, r: RequestId)
    requires r in s.requests
  {
    var q := s.requests[r];
    && q.idle <= s.maxKeepalive
    && q.since <= |SlotOf(s, q.endpoint).pushed|
    && PushedByOthers(s, r) >= 0
    && q.pops <= q.idle + PushedByOthers(s, r)
    && match q.stage
       case Retrieving => q.attempts == q.pops && PoppedInv(s, q)
       case Creating => q.attempts == q.pops + 1 && PoppedInv(s, q)
       case Done(outcome) =>
         q.attempts <= q.pops + 1
       case _ =>
         && q.stage.conn in s.conns && PoppedInv(s, q)
         && q.attempts == q.pops + (if s.conns[q.stage.conn].used then 0 else 1)
  }

  ghost predicate PoppedInv(s: State, q: Request) {
    |SlotOf(s, q.endpoint).queue| + q.pops <= q.idle + |SlotOf(s, q.endpoint).pushed| - q.since
  }

  /** Whatever the other requests do, the queue only grows by what they push. */
  lemma SlotBudget(s: State, step: Step, e: Endpoint)
    requires Enabled(s, step)
    ensures var before, after := SlotOf(s, e), SlotOf(Effect(s, step), e);
            && |before.pushed| <= |after.pushed|
            && |after.queue| - |after.pushed| <= |before.queue| - |before.pushed|
  {
    StepFrame(s, step);
  }

  /** A request that a step leaves alone keeps its account, as long as the queue keeps to its budget. */
  lemma RetryCarriesOver(s: State, t: State, r: RequestId)
    requires r in s.requests && r in t.requests && t.requests[r] == s.requests[r] && RetryInv(s, r)
    requires t.maxKeepalive == s.maxKeepalive
    requires var before, after := SlotOf(s, s.requests[r].endpoint), SlotOf(t, s.requests[r].endpoint);
             && |before.pushed| <= |after.pushed|
             && |after.queue| - |after.pushed| <= |before.queue| - |before.pushed|
    requires Holding(s.requests[r].stage) ==>
               var c := s.requests[r].stage.conn; c in s.conns && c in t.conns && t.conns[c] == s.conns[c]
    ensures RetryInv(t, r)
  {
  }

  lemma OthersKeepRetry(s: State, step: Step, r: RequestId)
    requires Inv(s) && Enabled(s, step) && r in s.requests && r != step.r && RetryInv(s, r)
    ensures r in Effect(s, step).requests && RetryInv(Effect(s, step), r)
  {
    StepFrame(s, step);
    SlotBudget(s, step, s.requests[r].endpoint);
    if Holding(s.requests[r].stage) { HeldUntouched(s, step, r); }
    RetryCarriesOver(s, Effect(s, step), r);
  }

  lemma BeginKeepsRetry(s: State, r: RequestId, e: Endpoint)
    requires Inv(s) && Enabled(s, Begin(r, e))
    ensures RetryInv(Effect(s, Begin(r, e)), r)
  {
    AnySlot(s, e);
  }

  lemma RetrieveKeepsRetry(s: State, r: RequestId)
    requires Inv(s) && Enabled(s, Retrieve(r)) && RetryInv(s, r)
    ensures RetryInv(Effect(s, Retrieve(r)), r)
  {
    AnySlot(s, s.requests[r].endpoint);
  }

  lemma PushKeepsRetry(s: State, r: RequestId)
    requires Inv(s) && Enabled(s, Push(r)) && RetryInv(s, r)
    ensures RetryInv(Effect(s, Push(r)), r)
  {
    assert HeldInv(s, r);
  }

  /** The network's steps leave the queues alone. */
  lemma NetworkKeepsRetry(s: State, step: Step)
    requires Inv(s) && Enabled(s, step) && !step.Begin? && !step.Retrieve? && !step.Push?
    requires RetryInv(s, step.r)
    ensures step.r in Effect(s, step).requests && RetryInv(Effect(s, step), step.r)
  {
    assert HeldInv(s, step.r);
    assert Effect(s, step).slots == s.slots;
  }

  lemma OwnStepKeepsRetry(s: State, step: Step)
    requires Inv(s) && Enabled(s, step)
    requires step.r in s.requests ==> RetryInv(s, step.r)
    ensures step.r in Effect(s, step).requests && RetryInv(Effect(s, step), step.r)
  {
    match step
    case Begin(r, e) => BeginKeepsRetry(s, r, e);
    case Retrieve(r) => RetrieveKeepsRetry(s, r);
    case Push(r) => PushKeepsRetry(s, r);
    case _ => NetworkKeepsRetry(s, step);
  }

  ghost predicate AllRetry(s: State) {
    forall r :: r in s.requests ==> RetryInv(s, r)
  }

  lemma {:induction false} RunKeepsRetry(maxKeepalive: nat, steps: seq<Step>)
    ensures AllRetry(Exec(Init(maxKeepalive), steps))
  {
    if steps != [] {
      var front := steps[..|steps| - 1];
      RunKeepsRetry(maxKeepalive, front);
      RunKeepsInv(maxKeepalive, front);
      var s, step := Exec(Init(maxKeepalive), front), steps[|steps| - 1];
      if Enabled(s, step) {
        forall r | r in Effect(s, step).requests
          ensures RetryInv(Effect(s, step), r)
        {
          StepFrame(s, step);
          if r == step.r { OwnStepKeepsRetry(s, step); } else { OthersKeepRetry(s, step, r); }
        }
      }
    }
  }

  /** Pushes of other requests for endpoint `e` that found room, from step `k` of the schedule on. */
  ghost function PushesByOthers(maxKeepalive: nat, steps: seq<Step>, k: nat, e: Endpoint, r: RequestId): nat {
    if |steps| <= k then 0
    else
      var front, step := steps[..|steps| - 1], steps[|steps| - 1];
      var s := Exec(Init(maxKeepalive), front);
      PushesByOthers(maxKeepalive, front, k, e, r)
      + (if step.Push? && step.r != r && Enabled(s, step) && s.requests[step.r].endpoint == e
            && |SlotOf(s, e).queue| < s.maxKeepalive then 1 else 0)
  }

  /** Since step `k`, with which request `r` began in state `s`, its account has recorded what the schedule shows. */
  ghost predicate Recorded(s: State, t: State, r: RequestId, e: Endpoint, pushes: nat) {
    && r in t.requests && t.requests[r].endpoint == e
    && t.requests[r].idle == |SlotOf(s, e).queue| && t.requests[r].since == |SlotOf(s, e).pushed|
    && PushedByOthers(t, r) <= pushes
    && (!t.requests[r].stage.Done? ==> PushedByOthers(t, r) == pushes)
  }

  lemma StepRecords(t: State, step: Step, e: Endpoint, r: RequestId)
    requires Enabled(t, step) && r in t.requests && t.requests[r].endpoint == e
    ensures var u := Effect(t, step);
            && r in u.requests && u.requests[r].endpoint == e
            && u.requests[r].idle == t.requests[r].idle && u.requests[r].since == t.requests[r].since
            && (t.requests[r].stage.Done? ==> u.requests[r] == t.requests[r])
            && (u.requests[r].stage.Done? && !t.requests[r].stage.Done? ==>
                  step.r == r && u.requests[r].ended == |SlotOf(t, e).pushed|)
            && |SlotOf(u, e).pushed| == |SlotOf(t, e).pushed|
                 + (if step.Push? && t.requests[step.r].endpoint == e
                       && |SlotOf(t, e).queue| < t.maxKeepalive then 1 else 0)
  {
    StepFrame(t, step);
    StepOnQueue(t, step, e);
  }

  lemma {:induction false} RunRecords(maxKeepalive: nat, steps: seq<Step>, k: nat, r: RequestId, e: Endpoint)
    requires k < |steps| && steps[k] == Begin(r, e) && r !in Exec(Init(maxKeepalive), steps[..k]).requests
    ensures Recorded(Exec(Init(maxKeepalive), steps[..k]), Exec(Init(maxKeepalive), steps), r, e,
                     PushesByOthers(maxKeepalive, steps, k, e, r))
  {
    var front, step := steps[..|steps| - 1], steps[|steps| - 1];
    var s := Exec(Init(maxKeepalive), front);
    if k == |front| {
      assert PushesByOthers(maxKeepalive, front, k, e, r) == 0;
    } else {
      assert front[..k] == steps[..k];
      RunRecords(maxKeepalive, front, k, r, e);
      if Enabled(s, step) { StepRecords(s, step, e, r); }
    }
  }

  /**
   The unbounded retry loop ends: a request that begins at step `k` never makes
   more attempts than there were connections pooled for its endpoint then, plus
   those other requests have pushed since, plus one.
   */
  lemma RetryBound(maxKeepalive: nat, steps: seq<Step>, k: nat, r: RequestId, e: Endpoint)
    requires k < |steps| && steps[k] == Begin(r, e) && r !in Exec(Init(maxKeepalive), steps[..k]).requests
    ensures var before, s := Exec(Init(maxKeepalive), steps[..k]), Exec(Init(maxKeepalive), steps);
            && r in s.requests && |SlotOf(before, e).queue| <= maxKeepalive
            && s.requests[r].attempts
                 <= |SlotOf(before, e).queue| + PushesByOthers(maxKeepalive, steps, k, e, r) + 1
  {
    RunRecords(maxKeepalive, steps, k, r, e);
    RunKeepsRetry(maxKeepalive, steps);
    LimitKept(maxKeepalive, steps);
    assert RetryInv(Exec(Init(maxKeepalive), steps), r);
  }

  // ------------------------------------------------------------ answers are read

  /** The schedule holds an answer of the network to request `r`: status `st`, with keep-alive or closed cleanly. */
  ghost predicate WasAnswered(steps: seq<Step>, r: RequestId, st: nat) {
    exists k :: 0 <= k < |steps| && (steps[k] == AnswersKeep(r, st) || steps[k] == AnswersClose(r, st, true))
  }

  ghost predicate AnswerInv(s: State, steps: seq<Step>, r: RequestId)
    requires r in s.requests
  {
    match s.requests[r].stage
    case Returning(_, st) => WasAnswered(steps, r, st)
    case Done(Answered(st)) => WasAnswered(steps, r, st)
    case _ => true
  }

  lemma StillAnswered(steps: seq<Step>, step: Step, r: RequestId, st: nat)
    requires WasAnswered(steps, r, st)
    ensures WasAnswered(steps + [step], r, st)
  {
    var k :| 0 <= k < |steps| && (steps[k] == AnswersKeep(r, st) || steps[k] == AnswersClose(r, st, true));
    assert (steps + [step])[k] == steps[k];
  }

  lemma StepKeepsAnswer(s: State, front: seq<Step>, step: Step, r: RequestId)
    requires Enabled(s, step) && r in Effect(s, step).requests
    requires r in s.requests ==> AnswerInv(s, front, r)
    ensures AnswerInv(Effect(s, step), front + [step], r)
  {
    StepFrame(s, step);
    assert (front + [step])[|front|] == step;
    if r in s.requests {
      match s.requests[r].stage
      case Returning(_, st) => StillAnswered(front, step, r, st);
      case Done(Answered(st)) => StillAnswered(front, step, r, st);
      case _ =>
    }
  }

  /** A request that ends with an answer ends with a status that the network gave to it, under any interleaving. */
  lemma {:induction false} AnswersAreRead(maxKeepalive: nat, steps: seq<Step>, r: RequestId)
    requires r in Exec(Init(maxKeepalive), steps).requests
    ensures AnswerInv(Exec(Init(maxKeepalive), steps), steps, r)
  {
    if steps != [] {
      var front, step := steps[..|steps| - 1], steps[|steps| - 1];
      var s := Exec(Init(maxKeepalive), front);
      assert front + [step] == steps;
      if r in s.requests { AnswersAreRead(maxKeepalive, front, r); }
      if Enabled(s, step) {
        StepKeepsAnswer(s, front, step, r);
      } else {
        match s.requests[r].stage
        case Returning(_, st) => StillAnswered(front, step, r, st);
        case Done(Answered(st)) => StillAnswered(front, step, r, st);
        case _ =>
      }
    }
  }

  // --------------------------------------------------- what is pooled was kept

  /** At step `k` the network ended an exchange on connection `c` with keep-alive. */
  ghost predicate KeptAt(maxKeepalive: nat, steps: seq<Step>, c: ConnId, k: nat) {
    && k < |steps| && steps[k].AnswersKeep?
    && var s := Exec(Init(maxKeepalive), steps[..k]); Enabled(s, steps[k]) && Holds(s, steps[k].r, c)
  }

  ghost predicate KeptInv(maxKeepalive: nat, steps: seq<Step>, c: ConnId) {
    var s := Exec(Init(maxKeepalive), steps);
    c in s.conns && s.conns[c].kept ==> exists k: nat :: KeptAt(maxKeepalive, steps, c, k)
  }

  lemma StepKeeps(s: State, step: Step, c: ConnId)
    requires Enabled(s, step) && c in Effect(s, step).conns && Effect(s, step).conns[c].kept
    ensures (c in s.conns && s.conns[c].kept) || (step.AnswersKeep? && Holds(s, step.r, c))
  {
  }

  lemma {:induction false} RunKeepsKept(maxKeepalive: nat, steps: seq<Step>, c: ConnId)
    ensures KeptInv(maxKeepalive, steps, c)
  {
    if steps != [] {
      var front, step := steps[..|steps| - 1], steps[|steps| - 1];
      var s, t := Exec(Init(maxKeepalive), front), Exec(Init(maxKeepalive), steps);
      RunKeepsKept(maxKeepalive, front, c);
      if c in t.conns && t.conns[c].kept {
        if c in s.conns && s.conns[c].kept {
          var k: nat :| KeptAt(maxKeepalive, front, c, k);
          assert front[..k] == steps[..k];
          assert KeptAt(maxKeepalive, steps, c, k);
        } else {
          StepKeeps(s, step, c);
          assert KeptAt(maxKeepalive, steps, c, |front|);
        }
      }
    }
  }

  /** No step of an answer without keep-alive, and no break, leaves a connection where it could be pooled again. */
  lemma ClosedIsGone(s: State, step: Step)
    requires Enabled(s, step) && (step.AnswersClose? || step.Breaks?)
    ensures var c := s.requests[step.r].stage.conn; Effect(s, step).conns[c].place == Gone
  {
  }

  /** Whatever is pooled has an exchange behind it that the network ended with keep-alive. */
  lemma PooledWasKept(maxKeepalive: nat, steps: seq<Step>, e: Endpoint, c: ConnId)
    requires c in SlotOf(Exec(Init(maxKeepalive), steps), e).queue
    ensures exists k: nat :: KeptAt(maxKeepalive, steps, c, k)
  {
    RunKeepsInv(maxKeepalive, steps);
    AnySlot(Exec(Init(maxKeepalive), steps), e);
    RunKeepsKept(maxKeepalive, steps, c);
  }

  // -------------------------------------------------------- errors are fresh

  /** Whatever was ever pooled counts as used for good. */
  ghost predicate PushedInv(s: State, e: Endpoint) {
    forall c :: c in SlotOf(s, e).pushed ==> c in s.conns && s.conns[c].used
  }

  lemma UsedStays(s: State, step: Step)
    requires Enabled(s, step)
    ensures forall c :: c in s.conns && s.conns[c].used ==>
              c in Effect(s, step).conns && Effect(s, step).conns[c].used
  {
  }

  lemma {:induction false} RunKeepsPushed(maxKeepalive: nat, steps: seq<Step>, e: Endpoint)
    ensures PushedInv(Exec(Init(maxKeepalive), steps), e)
  {
    if steps != [] {
      var front, step := steps[..|steps| - 1], steps[|steps| - 1];
      RunKeepsPushed(maxKeepalive, front, e);
      if Enabled(Exec(Init(maxKeepalive), front), step) { UsedStays(Exec(Init(maxKeepalive), front), step); }
    }
  }

  /** Connection `c` of endpoint `e` has never served, is destroyed, and never sat in any queue. */
  ghost predicate NeverPooled(s: State, c: ConnId, e: Endpoint) {
    && c in s.conns && s.conns[c].endpoint == e && !s.conns[c].used && s.conns[c].place == Gone
    && forall f :: c !in SlotOf(s, f).pushed && c !in SlotOf(s, f).queue
  }

  /** A failed request names the connection it failed on: one made for it, with the queue found empty. */
  ghost predicate FailedFresh(s: State, r: RequestId)
    requires r in s.requests
  {
    var q := s.requests[r];
    match q.stage
    case Done(Failed(phase)) =>
      && (phase == Create ==> q.failedOn.None?)
      && (phase == Write || phase == Read ==>
            q.failedOn.Some?
            && var c := q.failedOn.value;
               c in s.conns && s.conns[c].endpoint == q.endpoint
               && !s.conns[c].used && s.conns[c].place == Gone)
    case _ => true
  }

  /** Nothing happens any more to a connection that is gone. */
  lemma GoneStays(s: State, step: Step, c: ConnId)
    requires Inv(s) && Enabled(s, step) && c in s.conns && s.conns[c].place == Gone
    ensures c in Effect(s, step).conns && Effect(s, step).conns[c] == s.conns[c]
  {
    if step.r in s.requests {
      assert HeldInv(s, step.r);
      AnySlot(s, s.requests[step.r].endpoint);
    }
  }

  lemma StepKeepsFailed(s: State, step: Step, r: RequestId)
    requires Inv(s) && Enabled(s, step) && r in Effect(s, step).requests
    requires r in s.requests ==> FailedFresh(s, r)
    ensures FailedFresh(Effect(s, step), r)
  {
    StepFrame(s, step);
    if r == step.r {
      assert r in s.requests ==> HeldInv(s, r);
    } else if s.requests[r].stage.Done? && s.requests[r].failedOn.Some? {
      var c := s.requests[r].failedOn.value;
      if c in s.conns && s.conns[c].place == Gone { GoneStays(s, step, c); }
    }
  }

  lemma {:induction false} RunKeepsFailed(maxKeepalive: nat, steps: seq<Step>, r: RequestId)
    requires r in Exec(Init(maxKeepalive), steps).requests
    ensures FailedFresh(Exec(Init(maxKeepalive), steps), r)
  {
    if steps != [] {
      var front, step := steps[..|steps| - 1], steps[|steps| - 1];
      var s := Exec(Init(maxKeepalive), front);
      RunKeepsInv(maxKeepalive, front);
      if r in s.requests { RunKeepsFailed(maxKeepalive, front, r); }
      if Enabled(s, step) { StepKeepsFailed(s, step, r); }
    }
  }

  /**
   A write or read error that reaches the caller came from a connection to the
   right endpoint that had never served and never sat in any queue, a connect
   error from none; stale connections never surface.
   */
  lemma ErrorsAreFresh(maxKeepalive: nat, steps: seq<Step>, r: RequestId, phase: Phase)
    requires r in Exec(Init(maxKeepalive), steps).requests
    requires Exec(Init(maxKeepalive), steps).requests[r].stage == Done(Failed(phase)) && phase != Shutdown
    ensures var s := Exec(Init(maxKeepalive), steps);
            var q := s.requests[r];
            if phase == Create then q.failedOn.None?
            else q.failedOn.Some? && NeverPooled(s, q.failedOn.value, q.endpoint)
  {
    var s := Exec(Init(maxKeepalive), steps);
    RunKeepsFailed(maxKeepalive, steps, r);
    if phase != Create {
      var c := s.requests[r].failedOn.value;
      forall f
        ensures c !in SlotOf(s, f).pushed && c !in SlotOf(s, f).queue
      {
        RunKeepsPushed(maxKeepalive, steps, f);
        FirstInFirstOut(maxKeepalive, steps, f);
      }
    }
  }
}
