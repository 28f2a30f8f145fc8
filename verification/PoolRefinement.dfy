/** A request that nobody interferes with does in the pool's step system what `SendRequest` promises. */
module PoolRefinement {
  import opened Wrappers
  import opened Errors
  import opened Net
  import opened PoolProtocol
  import opened ConnectionPool

  /** Request `r` is after the same endpoint, under the same limit, and no connection is forgotten. */
  ghost predicate Comparable(s: State, t: State, r: RequestId)
    requires r in s.requests
  {
    && t.maxKeepalive == s.maxKeepalive && s.conns.Keys <= t.conns.Keys
    && r in t.requests && t.requests[r].endpoint == s.requests[r].endpoint
  }

  /** Only request `r`, and the slot of its endpoint, differ. */
  ghost predicate OnlyBy(s: State, t: State, r: RequestId)
    requires r in s.requests
  {
    && Comparable(s, t, r)
    && t.requests == s.requests[r := t.requests[r]]
    && forall f :: f != s.requests[r].endpoint ==> SlotOf(t, f) == SlotOf(s, f)
  }

  ghost predicate Ready(s: State, r: RequestId) {
    Inv(s) && r in s.requests && s.requests[r].stage.Retrieving?
  }

  function QueueOf(s: State, r: RequestId): seq<ConnId>
    requires r in s.requests
  {
    SlotOf(s, s.requests[r].endpoint).queue
  }

  /** The number of the attempt under way in `t`, counted from state `s`. */
  function Trial(s: State, t: State, r: RequestId): nat
    requires r in s.requests && r in t.requests
  {
    var made := t.requests[r].attempts - s.requests[r].attempts;
    if made > 0 then made - 1 else 0
  }

  /** What the environment decides about the network in `step` is what the answers say of attempt `x`. */
  predicate Agrees(stage: Stage, step: Step, x: Exchange, reachable: bool) {
    match step
    case Connect(_, _) => reachable
    case ConnectFails(_) => !reachable
    case Sent(_) => !x.WriteFails?
    case Breaks(_) => if stage.Writing? then x.WriteFails? else x.ReadFails?
    case AnswersKeep(_, status) => x == KeptAlive(status)
    case AnswersClose(_, status, clean) => x == Closed(status, clean)
    case _ => true
  }

  /** Only request `r` takes steps, and the network answers it as `exchange` and `reachable` say. */
  ghost predicate Played(s: State, steps: seq<Step>, r: RequestId, exchange: nat -> Exchange, reachable: bool)
    requires r in s.requests
  {
    forall k :: 0 <= k < |steps| ==>
      && steps[k].r == r
      && var t := Exec(s, steps[..k]);
         r in t.requests && Enabled(t, steps[k]) ==>
           Agrees(t.requests[r].stage, steps[k], exchange(Trial(s, t, r)), reachable)
  }

  /** How the outcome of a request reads in the client's own terms. */
  predicate Tells(outcome: Outcome, answer: Result<nat, Error>) {
    match outcome
    case Answered(status) => answer == Success(status)
    case Failed(phase) => answer == Failure(Network(phase))
  }

  /** The request has ended as the object's `SendRequest` would have, on the queue that was there at `s`. */
  ghost predicate EndedAs(s: State, t: State, r: RequestId, e: Ending)
    requires r in s.requests && r in t.requests
  {
    && t.requests[r].stage.Done? && Tells(t.requests[r].stage.outcome, e.answer)
    && t.requests[r].attempts - s.requests[r].attempts == e.attempts
    && Leaves(QueueOf(s, r), QueueOf(t, r), e)
    && (e.back.Fresh? ==> QueueOf(t, r)[0] !in s.conns)
  }

  /** Attempt `k` is under way on connection `c`: a pooled one, or a fresh one once the queue has run out. */
  ghost predicate Trying(s: State, t: State, r: RequestId, c: ConnId, k: int, reachable: bool)
    requires r in s.requests && r in t.requests
  {
    var q := QueueOf(s, r);
    && 0 <= k <= |q| && c in t.conns
    && if k < |q| then c == q[k] && t.conns[c].used && QueueOf(t, r) == q[k + 1..]
       else reachable && c !in s.conns && !t.conns[c].used && QueueOf(t, r) == []
  }

  /** How far request `r`, alone from state `s`, has come. */
  ghost predicate Stands(s: State, t: State, r: RequestId, exchange: nat -> Exchange, reachable: bool)
    requires r in s.requests && r in t.requests
  {
    var q, stage := QueueOf(s, r), t.requests[r].stage;
    var idle, made, j := |q|, t.requests[r].attempts - s.requests[r].attempts, Settling(|q|, exchange, 0);
    && (forall c :: c in q ==> c in t.conns && t.conns[c].used)
    && match stage
       case Retrieving => 0 <= made <= idle && QueueOf(t, r) == q[made..] && j == Settling(idle, exchange, made)
       case Creating => made == idle + 1 && QueueOf(t, r) == [] && j == idle
       case Done(_) => EndedAs(s, t, r, EndingOf(idle, exchange, reachable, s.maxKeepalive))
       case _ =>
         && Trying(s, t, r, stage.conn, made - 1, reachable) && j == Settling(idle, exchange, made - 1)
         && (stage.Reading? ==> !exchange(made - 1).WriteFails?)
         && (stage.Returning? ==> exchange(made - 1) == KeptAlive(stage.status))
  }

  ghost predicate Alone(s: State, t: State, r: RequestId, exchange: nat -> Exchange, reachable: bool)
    requires r in s.requests
  {
    OnlyBy(s, t, r) && Stands(s, t, r, exchange, reachable)
  }

  lemma OwnStepFrame(s: State, t: State, r: RequestId, step: Step)
    requires r in s.requests && OnlyBy(s, t, r) && Enabled(t, step) && step.r == r
    ensures OnlyBy(s, Effect(t, step), r)
  {
    StepFrame(t, step);
  }

  /** From `t` to `u` request `r` gets to `stage` with `tries` more attempts, and its queue becomes `queue`. */
  ghost predicate Moves(t: State, u: State, r: RequestId, stage: Stage, queue: seq<ConnId>, tries: nat)
    requires r in t.requests
  {
    && r in u.requests && u.requests[r].endpoint == t.requests[r].endpoint
    && u.requests[r].attempts == t.requests[r].attempts + tries && u.requests[r].stage == stage
    && QueueOf(u, r) == queue
    && forall c :: c in t.conns ==>
         c in u.conns && (t.conns[c].used ==> u.conns[c].used)
         && (Holding(stage) ==> u.conns[c].used == t.conns[c].used)
  }

  ghost predicate Broke(t: State, u: State, r: RequestId)
    requires r in t.requests && Holding(t.requests[r].stage) && t.requests[r].stage.conn in t.conns
  {
    var stage := t.requests[r].stage;
    var next := if t.conns[stage.conn].used then Retrieving
                else Done(Failed(if stage.Writing? then Write else Read));
    Moves(t, u, r, next, QueueOf(t, r), 0)
  }

  /** What a step does, as far as its own request is concerned. */
  ghost predicate MoveOf(t: State, u: State, step: Step)
    requires Enabled(t, step) && !step.Begin?
  {
    var r, queue, stage := step.r, QueueOf(t, step.r), t.requests[step.r].stage;
    match step
    case Begin(_, _) => true
    case Retrieve(_) =>
      if queue == [] then Moves(t, u, r, Creating, [], 1) else Moves(t, u, r, Writing(queue[0]), queue[1..], 1)
    case Connect(_, c) => Moves(t, u, r, Writing(c), queue, 0) && c in u.conns && !u.conns[c].used
    case ConnectFails(_) => Moves(t, u, r, Done(Failed(Create)), queue, 0)
    case Sent(_) => Moves(t, u, r, Reading(stage.conn), queue, 0)
    case Breaks(_) => Broke(t, u, r)
    case AnswersKeep(_, status) => Moves(t, u, r, Returning(stage.conn, status), queue, 0)
    case AnswersClose(_, status, clean) =>
      Moves(t, u, r, Done(if clean then Answered(status) else Failed(Shutdown)), queue, 0)
    case Push(_) =>
      Moves(t, u, r, Done(Answered(stage.status)), if |queue| < t.maxKeepalive then queue + [stage.conn] else queue, 0)
  }

  lemma StepMoves(t: State, step: Step)
    requires Enabled(t, step) && !step.Begin?
    ensures MoveOf(t, Effect(t, step), step)
  {
  }

  /** The queue has run out: no connection is left to try. */
  lemma VainRetrieveStands(s: State, t: State, u: State, r: RequestId, exchange: nat -> Exchange, reachable: bool)
    requires r in s.requests && Comparable(s, t, r) && Stands(s, t, r, exchange, reachable)
    requires t.requests[r].stage.Retrieving? && QueueOf(t, r) == [] && Moves(t, u, r, Creating, [], 1)
    ensures Stands(s, u, r, exchange, reachable)
  {
    assert t.requests[r].attempts - s.requests[r].attempts == |QueueOf(s, r)|;
  }

  lemma TakingRetrieveStands(s: State, t: State, u: State, r: RequestId, exchange: nat -> Exchange, reachable: bool)
    requires r in s.requests && Comparable(s, t, r) && Stands(s, t, r, exchange, reachable)
    requires t.requests[r].stage.Retrieving? && QueueOf(t, r) != []
    requires Moves(t, u, r, Writing(QueueOf(t, r)[0]), QueueOf(t, r)[1..], 1)
    ensures Stands(s, u, r, exchange, reachable)
  {
    var q, k := QueueOf(s, r), t.requests[r].attempts - s.requests[r].attempts;
    assert q[k..][0] == q[k] && q[k..][1..] == q[k + 1..];
    assert q[k] in q;
  }

  lemma ConnectStands(s: State, t: State, u: State, r: RequestId, exchange: nat -> Exchange, reachable: bool)
    requires r in s.requests && Comparable(s, t, r) && Stands(s, t, r, exchange, reachable)
    requires t.requests[r].stage.Creating? && reachable
    requires r in u.requests && u.requests[r].stage.Writing?
    requires var c := u.requests[r].stage.conn;
             c !in t.conns && Moves(t, u, r, Writing(c), QueueOf(t, r), 0) && c in u.conns && !u.conns[c].used
    ensures Stands(s, u, r, exchange, reachable)
  {
  }

  lemma ConnectFailsStands(s: State, t: State, u: State, r: RequestId, exchange: nat -> Exchange, reachable: bool)
    requires r in s.requests && Comparable(s, t, r) && Stands(s, t, r, exchange, reachable)
    requires t.requests[r].stage.Creating? && !reachable && Moves(t, u, r, Done(Failed(Create)), QueueOf(t, r), 0)
    ensures Stands(s, u, r, exchange, reachable)
  {
    EndsAt(|QueueOf(s, r)|, exchange, reachable, s.maxKeepalive, |QueueOf(s, r)|);
  }

  /** The connection breaks in the attempt that is answered by `x`. */
  predicate BreaksIn(stage: Stage, x: Exchange) {
    (stage.Writing? && x.WriteFails?) || (stage.Reading? && x.ReadFails?)
  }

  lemma StaleStands(s: State, t: State, u: State, r: RequestId, exchange: nat -> Exchange, reachable: bool)
    requires r in s.requests && Comparable(s, t, r) && Stands(s, t, r, exchange, reachable)
    requires BreaksIn(t.requests[r].stage, exchange(Trial(s, t, r)))
    requires t.conns[t.requests[r].stage.conn].used && Broke(t, u, r)
    ensures Stands(s, u, r, exchange, reachable)
  {
  }

  lemma FailsStands(s: State, t: State, u: State, r: RequestId, exchange: nat -> Exchange, reachable: bool)
    requires r in s.requests && Comparable(s, t, r) && Stands(s, t, r, exchange, reachable)
    requires BreaksIn(t.requests[r].stage, exchange(Trial(s, t, r)))
    requires !t.conns[t.requests[r].stage.conn].used && Broke(t, u, r)
    ensures Stands(s, u, r, exchange, reachable)
  {
    var k := t.requests[r].attempts - s.requests[r].attempts - 1;
    assert k == |QueueOf(s, r)|;
    EndsAt(|QueueOf(s, r)|, exchange, reachable, s.maxKeepalive, k);
  }

  lemma SentStands(s: State, t: State, u: State, r: RequestId, exchange: nat -> Exchange, reachable: bool)
    requires r in s.requests && Comparable(s, t, r) && Stands(s, t, r, exchange, reachable)
    requires t.requests[r].stage.Writing? && !exchange(Trial(s, t, r)).WriteFails?
    requires Moves(t, u, r, Reading(t.requests[r].stage.conn), QueueOf(t, r), 0)
    ensures Stands(s, u, r, exchange, reachable)
  {
  }

  lemma KeepStands(s: State, t: State, u: State, r: RequestId, exchange: nat -> Exchange, reachable: bool)
    requires r in s.requests && Comparable(s, t, r) && Stands(s, t, r, exchange, reachable)
    requires t.requests[r].stage.Reading? && exchange(Trial(s, t, r)).KeptAlive?
    requires var status := exchange(Trial(s, t, r)).status;
             Moves(t, u, r, Returning(t.requests[r].stage.conn, status), QueueOf(t, r), 0)
    ensures Stands(s, u, r, exchange, reachable)
  {
  }

  lemma CloseStands(s: State, t: State, u: State, r: RequestId, exchange: nat -> Exchange, reachable: bool)
    requires r in s.requests && Comparable(s, t, r) && Stands(s, t, r, exchange, reachable)
    requires t.requests[r].stage.Reading? && exchange(Trial(s, t, r)).Closed?
    requires var x := exchange(Trial(s, t, r));
             var outcome := if x.clean then Answered(x.status) else Failed(Shutdown);
             Moves(t, u, r, Done(outcome), QueueOf(t, r), 0)
    ensures Stands(s, u, r, exchange, reachable)
  {
    var k := t.requests[r].attempts - s.requests[r].attempts - 1;
    EndsAt(|QueueOf(s, r)|, exchange, reachable, s.maxKeepalive, k);
  }

  lemma PushStands(s: State, t: State, u: State, r: RequestId, exchange: nat -> Exchange, reachable: bool)
    requires r in s.requests && Comparable(s, t, r) && Stands(s, t, r, exchange, reachable)
    requires |QueueOf(s, r)| <= s.maxKeepalive && t.requests[r].stage.Returning?
    requires var queue := QueueOf(t, r);
             Moves(t, u, r, Done(Answered(t.requests[r].stage.status)),
                   if |queue| < t.maxKeepalive then queue + [t.requests[r].stage.conn] else queue, 0)
    ensures Stands(s, u, r, exchange, reachable)
  {
    var k := t.requests[r].attempts - s.requests[r].attempts - 1;
    ReturnLeaves(QueueOf(s, r), t.requests[r].stage.conn, exchange, reachable, s.maxKeepalive, k);
  }

  /** Whatever step the request takes, it stands where the promise wants it. */
  lemma MoveStands(s: State, t: State, u: State, step: Step, exchange: nat -> Exchange, reachable: bool)
    requires step.r in s.requests && |QueueOf(s, step.r)| <= s.maxKeepalive
    requires Comparable(s, t, step.r) && Stands(s, t, step.r, exchange, reachable)
    requires Enabled(t, step) && !step.Begin? && MoveOf(t, u, step)
    requires Agrees(t.requests[step.r].stage, step, exchange(Trial(s, t, step.r)), reachable)
    ensures step.r in u.requests && Stands(s, u, step.r, exchange, reachable)
  {
    var r := step.r;
    match step
    case Begin(_, _) => assert false;
    case Retrieve(_) =>
      if QueueOf(t, r) == [] {
        VainRetrieveStands(s, t, u, r, exchange, reachable);
      } else {
        TakingRetrieveStands(s, t, u, r, exchange, reachable);
      }
    case Connect(_, _) => ConnectStands(s, t, u, r, exchange, reachable);
    case ConnectFails(_) => ConnectFailsStands(s, t, u, r, exchange, reachable);
    case Sent(_) => SentStands(s, t, u, r, exchange, reachable);
    case Breaks(_) =>
      if t.conns[t.requests[r].stage.conn].used {
        StaleStands(s, t, u, r, exchange, reachable);
      } else {
        FailsStands(s, t, u, r, exchange, reachable);
      }
    case AnswersKeep(_, _) => KeepStands(s, t, u, r, exchange, reachable);
    case AnswersClose(_, _, _) => CloseStands(s, t, u, r, exchange, reachable);
    case Push(_) => PushStands(s, t, u, r, exchange, reachable);
  }

  lemma OwnStep(s: State, t: State, step: Step, exchange: nat -> Exchange, reachable: bool)
    requires Ready(s, step.r) && Alone(s, t, step.r, exchange, reachable) && Enabled(t, step)
    requires Agrees(t.requests[step.r].stage, step, exchange(Trial(s, t, step.r)), reachable)
    ensures Alone(s, Effect(t, step), step.r, exchange, reachable)
  {
    AnySlot(s, s.requests[step.r].endpoint);
    OwnStepFrame(s, t, step.r, step);
    StepMoves(t, step);
    MoveStands(s, t, Effect(t, step), step, exchange, reachable);
  }

  lemma {:induction false} OwnRun(s: State, r: RequestId, steps: seq<Step>,
                                  exchange: nat -> Exchange, reachable: bool)
    requires Ready(s, r) && Played(s, steps, r, exchange, reachable)
    ensures Alone(s, Exec(s, steps), r, exchange, reachable)
  {
    if steps == [] {
      AnySlot(s, s.requests[r].endpoint);
    } else {
      var front, step := steps[..|steps| - 1], steps[|steps| - 1];
      assert forall k :: 0 <= k <= |front| ==> front[..k] == steps[..k];
      OwnRun(s, r, front, exchange, reachable);
      if Enabled(Exec(s, front), step) { OwnStep(s, Exec(s, front), step, exchange, reachable); }
    }
  }

  /**
   From any reachable state, however the steps of one request alone run: once they
   end it, it has made the attempts, got the answer and left the queue that the
   object's `SendRequest` promises for the same network, and touched nothing else.
   */
  lemma LoneRequestRefines(s: State, r: RequestId, steps: seq<Step>, exchange: nat -> Exchange, reachable: bool)
    requires Ready(s, r) && Played(s, steps, r, exchange, reachable)
    ensures var t := Exec(s, steps);
            && OnlyBy(s, t, r)
            && (t.requests[r].stage.Done? ==>
                  EndedAs(s, t, r, EndingOf(|QueueOf(s, r)|, exchange, reachable, s.maxKeepalive)))
  {
    OwnRun(s, r, steps, exchange, reachable);
  }

  // ------------------------------------------------------ and it can always end

  lemma {:induction false} UnusedId(ids: set<ConnId>) returns (c: ConnId)
    ensures forall x :: x in ids ==> x < c
    decreases ids
  {
    if ids == {} {
      c := 0;
    } else {
      var x :| x in ids;
      c := UnusedId(ids - {x});
      assert forall y :: y in ids ==> y == x || y in ids - {x};
      if c <= x { c := x + 1; }
    }
  }

  /** What is left to do for a request on its own. */
  function Remaining(t: State, r: RequestId): nat
    requires r in t.requests
  {
    var stage, n := t.requests[r].stage, 4 * |QueueOf(t, r)|;
    match stage
    case Retrieving => n + 6
    case Creating => 5
    case Writing(c) => if c in t.conns && t.conns[c].used then n + 9 else 4
    case Reading(c) => if c in t.conns && t.conns[c].used then n + 8 else 3
    case Returning(_, _) => 1
    case Done(_) => 0
  }

  /** Every step of a request on its own leaves it less to do, so that it cannot go on for ever. */
  lemma EachStepCounts(t: State, step: Step)
    requires Enabled(t, step) && !step.Begin?
    ensures step.r in Effect(t, step).requests && Remaining(Effect(t, step), step.r) < Remaining(t, step.r)
  {
    StepFrame(t, step);
    match step
    case Retrieve(r) =>
      if QueueOf(t, r) != [] {
        assert |QueueOf(Effect(t, step), r)| == |QueueOf(t, r)| - 1;
      }
    case _ =>
  }

  /** The step the network's answers call for. */
  lemma NextStep(s: State, t: State, r: RequestId, exchange: nat -> Exchange, reachable: bool)
    returns (step: Step)
    requires Ready(s, r) && Alone(s, t, r, exchange, reachable) && !t.requests[r].stage.Done?
    ensures step.r == r && Enabled(t, step)
    ensures Agrees(t.requests[r].stage, step, exchange(Trial(s, t, r)), reachable)
  {
    var x := exchange(Trial(s, t, r));
    match t.requests[r].stage
    case Retrieving => step := Retrieve(r);
    case Creating =>
      var c := UnusedId(t.conns.Keys);
      step := if reachable then Connect(r, c) else ConnectFails(r);
    case Writing(_) => step := if x.WriteFails? then Breaks(r) else Sent(r);
    case Reading(_) =>
      step := if x.ReadFails? then Breaks(r) else if x.KeptAlive? then AnswersKeep(r, x.status)
              else AnswersClose(r, x.status, x.clean);
    case Returning(_, _) => step := Push(r);
  }

  lemma {:induction false} LoneRequestEnds(s: State, r: RequestId, before: seq<Step>,
                                           exchange: nat -> Exchange, reachable: bool)
    returns (steps: seq<Step>)
    requires Ready(s, r) && Played(s, before, r, exchange, reachable)
    requires r in Exec(s, before).requests
    ensures before <= steps && Played(s, steps, r, exchange, reachable)
    ensures r in Exec(s, steps).requests && Exec(s, steps).requests[r].stage.Done?
    decreases Remaining(Exec(s, before), r)
  {
    OwnRun(s, r, before, exchange, reachable);
    var t := Exec(s, before);
    if t.requests[r].stage.Done? {
      steps := before;
    } else {
      var step := NextStep(s, t, r, exchange, reachable);
      EachStepCounts(t, step);
      var more := before + [step];
      assert forall k :: 0 <= k <= |before| ==> more[..k] == before[..k];
      assert before[..|before|] == before;
      steps := LoneRequestEnds(s, r, more, exchange, reachable);
    }
  }
}
