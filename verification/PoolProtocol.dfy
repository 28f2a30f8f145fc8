/**
 The connection pool shared by any number of concurrent requests, as a step
 system. A step is one critical section of the pool, one connection attempt or
 one network operation; the network's answers are the environment's choice. As
 in `RoundRobin`, a step that is not enabled changes nothing, so a schedule is
 any sequence of steps.
 */
module PoolProtocol {
  import opened Wrappers
  import opened Errors
  import opened Net

  type ConnId = nat
  type RequestId = nat

  /** `Answered` carries the status of the response that was read. */
  datatype Outcome = Answered(status: nat) | Failed(phase: Phase)

  datatype Stage =
    | Retrieving                // about to look into the queue, under the lock
    | Creating                  // found it empty; connecting, the lock released
    | Writing(conn: ConnId)
    | Reading(conn: ConnId)
    | Returning(conn: ConnId, status: nat)  // answered with keep-alive; about to push, under the lock
    | Done(outcome: Outcome)

  datatype Request = Request(
    endpoint: Endpoint,
    stage: Stage,
    // history, read by no step
    attempts: nat,   // calls of Retrieve
    pops: nat,       // those that got a pooled connection
    idle: nat,       // connections pooled for the endpoint when the request began
    since: nat,      // pushes for the endpoint before the request began
    ended: nat,      // the same before the request ended
    failedOn: Option<ConnId>  // the connection whose failure ended the request
  )

  /** Where a connection is, as far as the steps so far have put it. */
  datatype Place = Queued | With(r: RequestId) | Gone

  /** `kept`: the last exchange it completed ended with keep-alive. `kept` and `place` are history. */
  datatype Conn = Conn(endpoint: Endpoint, used: bool, kept: bool, place: Place)

  /** One entry of `pool_`; its history is what went in and what came out. */
  datatype Slot = Slot(queue: seq<ConnId>, pushed: seq<ConnId>, popped: seq<ConnId>)

  datatype State = State(
    maxKeepalive: nat,
    slots: map<Endpoint, Slot>,
    conns: map<ConnId, Conn>,  // every connection ever made
    requests: map<RequestId, Request>
  )

  datatype Step =
    | Begin(r: RequestId, endpoint: Endpoint)
    | Retrieve(r: RequestId)
    | Connect(r: RequestId, c: ConnId)
    | ConnectFails(r: RequestId)
    | Sent(r: RequestId)
    | Breaks(r: RequestId)                 // the write or the read fails
    | AnswersKeep(r: RequestId, status: nat)
    | AnswersClose(r: RequestId, status: nat, clean: bool)
    | Push(r: RequestId)

  function Init(maxKeepalive: nat): State {
    State(maxKeepalive, map[], map[], map[])
  }

  function SlotOf(s: State, e: Endpoint): Slot {
    if e in s.slots then s.slots[e] else Slot([], [], [])
  }

  predicate Holding(stage: Stage) {
    stage.Writing? || stage.Reading? || stage.Returning?
  }

  /** The connection a step of `r` is about to handle is one that was made; see `StepsNeverBlocked`. */
  predicate Known(s: State, r: RequestId)
    requires r in s.requests
  {
    var stage, queue := s.requests[r].stage, SlotOf(s, s.requests[r].endpoint).queue;
    && (Holding(stage) ==> stage.conn in s.conns)
    && (stage.Retrieving? && queue != [] ==> queue[0] in s.conns)
  }

  predicate Enabled(s: State, step: Step) {
    if step.Begin? then step.r !in s.requests
    else
      && step.r in s.requests && Known(s, step.r)
      && var stage := s.requests[step.r].stage;
         match step
         case Begin(_, _) => false
         case Retrieve(_) => stage.Retrieving?
         case Connect(_, c) => stage.Creating? && c !in s.conns
         case ConnectFails(_) => stage.Creating?
         case Sent(_) => stage.Writing?
         case Breaks(_) => stage.Writing? || stage.Reading?
         case AnswersKeep(_, _) => stage.Reading?
         case AnswersClose(_, _, _) => stage.Reading?
         case Push(_) => stage.Returning?
  }

  function Move(s: State, r: RequestId, stage: Stage): State
    requires r in s.requests
  {
    s.(requests := s.requests[r := s.requests[r].(stage := stage)])
  }

  function Put(s: State, c: ConnId, place: Place): State
    requires c in s.conns
  {
    s.(conns := s.conns[c := s.conns[c].(place := place)])
  }

  function Finish(s: State, r: RequestId, outcome: Outcome, failedOn: Option<ConnId>): State
    requires r in s.requests
  {
    var q := s.requests[r];
    s.(requests := s.requests[r := q.(stage := Done(outcome), ended := |SlotOf(s, q.endpoint).pushed|,
                                      failedOn := failedOn)])
  }

  function Effect(s: State, step: Step): State
    requires Enabled(s, step)
  {
    match step
    case Begin(r, e) =>
      var slot := SlotOf(s, e);
      s.(requests := s.requests[r := Request(e, Retrieving, 0, 0, |slot.queue|, |slot.pushed|, 0, None)])
    case Retrieve(r) =>
      var q := s.requests[r];
      var slot := SlotOf(s, q.endpoint);
      if slot.queue == [] then
        s.(slots := s.slots[q.endpoint := slot],
           requests := s.requests[r := q.(stage := Creating, attempts := q.attempts + 1)])
      else
        var c := slot.queue[0];
        Put(s, c, With(r))
          .(slots := s.slots[q.endpoint := slot.(queue := slot.queue[1..], popped := slot.popped + [c])],
            requests := s.requests[r := q.(stage := Writing(c),
                                           attempts := q.attempts + 1, pops := q.pops + 1)])
    case Connect(r, c) =>
      Move(s, r, Writing(c)).(conns := s.conns[c := Conn(s.requests[r].endpoint, false, false, With(r))])
    case ConnectFails(r) => Finish(s, r, Failed(Create), None)
    case Sent(r) => Move(s, r, Reading(s.requests[r].stage.conn))
    case Breaks(r) =>
      var stage := s.requests[r].stage;
      var t := if s.conns[stage.conn].used then Move(s, r, Retrieving)
               else Finish(s, r, Failed(if stage.Writing? then Write else Read), Some(stage.conn));
      Put(t, stage.conn, Gone)
    case AnswersKeep(r, status) =>
      var c := s.requests[r].stage.conn;
      Move(s, r, Returning(c, status)).(conns := s.conns[c := s.conns[c].(kept := true)])
    case AnswersClose(r, status, clean) =>
      var c := s.requests[r].stage.conn;
      Finish(s, r, if clean then Answered(status) else Failed(Shutdown), None)
        .(conns := s.conns[c := s.conns[c].(kept := false, place := Gone)])
    case Push(r) =>
      var c, e := s.requests[r].stage.conn, s.requests[r].endpoint;
      var slot := SlotOf(s, e);
      var t := Finish(s, r, Answered(s.requests[r].stage.status), None);
      if |slot.queue| >= s.maxKeepalive then
        t.(slots := s.slots[e := slot],
           conns := s.conns[c := s.conns[c].(used := true, place := Gone)])
      else
        t.(slots := s.slots[e := slot.(queue := slot.queue + [c], pushed := slot.pushed + [c])],
           conns := s.conns[c := s.conns[c].(used := true, place := Queued)])
  }

  function Apply(s: State, step: Step): State {
    if Enabled(s, step) then Effect(s, step) else s
  }

  function Exec(s: State, steps: seq<Step>): State {
    if steps == [] then s
    else Apply(Exec(s, steps[..|steps| - 1]), steps[|steps| - 1])
  }

  // ---------------------------------------------------------------- ownership

  /** What sits in a queue is few, used, kept alive, at its own endpoint, and there once. */
  ghost predicate SlotInv(s: State, e: Endpoint) {
    var queue := SlotOf(s, e).queue;
    && |queue| <= s.maxKeepalive
    && SlotOf(s, e).pushed == SlotOf(s, e).popped + queue
    && (forall c :: c in queue ==>
          && c in s.conns && s.conns[c].place == Queued
          && s.conns[c].used && s.conns[c].kept && s.conns[c].endpoint == e)
    && (forall i, j :: 0 <= i < j < |queue| ==> queue[i] != queue[j])
  }

  ghost predicate Holds(s: State, r: RequestId, c: ConnId) {
    r in s.requests && Holding(s.requests[r].stage) && s.requests[r].stage.conn == c
  }

  /** What a request holds leads to its endpoint, and is with it alone. */
  ghost predicate HeldInv(s: State, r: RequestId)
    requires r in s.requests
  {
    Holding(s.requests[r].stage) ==>
      var c := s.requests[r].stage.conn;
      && c in s.conns && s.conns[c].place == With(r)
      && s.conns[c].endpoint == s.requests[r].endpoint
      && (s.requests[r].stage.Returning? ==> s.conns[c].kept)
  }

  /** A connection really is where it was put. */
  ghost predicate PlaceInv(s: State, c: ConnId)
    requires c in s.conns
  {
    match s.conns[c].place
    case Queued => c in SlotOf(s, s.conns[c].endpoint).queue
    case With(r) => Holds(s, r, c)
    case Gone => true
  }

  ghost predicate Inv(s: State) {
    && (forall e :: e in s.slots ==> SlotInv(s, e))
    && (forall r :: r in s.requests ==> HeldInv(s, r))
    && (forall c :: c in s.conns ==> PlaceInv(s, c))
  }

  /** What a request can do next is what the code can, for every answer of the network. */
  ghost predicate GoesOn(s: State, r: RequestId)
    requires r in s.requests
  {
    match s.requests[r].stage
    case Retrieving => Enabled(s, Retrieve(r))
    case Creating => Enabled(s, ConnectFails(r)) && forall c :: c !in s.conns ==> Enabled(s, Connect(r, c))
    case Writing(_) => Enabled(s, Sent(r)) && Enabled(s, Breaks(r))
    case Reading(_) =>
      && Enabled(s, Breaks(r))
      && (forall st: nat :: Enabled(s, AnswersKeep(r, st)))
      && (forall st: nat, clean: bool :: Enabled(s, AnswersClose(r, st, clean)))
    case Returning(_, _) => Enabled(s, Push(r))
    case Done(_) => forall step: Step :: step.r == r ==> !Enabled(s, step)
  }

  /** No guard of the model ever holds up a step the code could take. */
  lemma StepsNeverBlocked(maxKeepalive: nat, steps: seq<Step>)
    ensures var s := Exec(Init(maxKeepalive), steps);
            && (forall r, e :: r !in s.requests ==> Enabled(s, Begin(r, e)))
            && (forall r :: r in s.requests ==> Known(s, r) && GoesOn(s, r))
  {
    var s := Exec(Init(maxKeepalive), steps);
    RunKeepsInv(maxKeepalive, steps);
    forall r | r in s.requests
      ensures Known(s, r) && GoesOn(s, r)
    {
      assert HeldInv(s, r);
      AnySlot(s, s.requests[r].endpoint);
    }
  }

  /** An endpoint without an entry has an empty queue, which is as good. */
  lemma AnySlot(s: State, e: Endpoint)
    requires Inv(s)
    ensures SlotInv(s, e)
  {
    assert e in s.slots ==> SlotInv(s, e);
  }

  /** A step of one request touches that request, and the slot of its endpoint, at most. */
  lemma StepFrame(s: State, step: Step)
    requires Enabled(s, step)
    ensures var t := Effect(s, step);
            && t.maxKeepalive == s.maxKeepalive
            && step.r in t.requests && t.requests == s.requests[step.r := t.requests[step.r]]
            && (step.r in s.requests ==> t.requests[step.r].endpoint == s.requests[step.r].endpoint)
            && forall f :: f != t.requests[step.r].endpoint ==> SlotOf(t, f) == SlotOf(s, f)
  {
  }

  /** A step that leaves a queue alone only ever changes connections outside it. */
  lemma UntouchedSlot(s: State, step: Step, e: Endpoint)
    requires Inv(s) && Enabled(s, step) && e in s.slots
    requires SlotOf(Effect(s, step), e) == SlotOf(s, e)
    ensures SlotInv(Effect(s, step), e)
  {
    var t, queue := Effect(s, step), SlotOf(s, e).queue;
    assert SlotInv(s, e);
    if !step.Begin? {
      assert HeldInv(s, step.r);
      var f := s.requests[step.r].endpoint;
      assert f in s.slots ==> SlotInv(s, f);
      forall c | c in queue
        ensures c in t.conns && t.conns[c] == s.conns[c]
      {
      }
    }
  }

  lemma RetrieveKeepsSlot(s: State, r: RequestId)
    requires Inv(s) && Enabled(s, Retrieve(r))
    ensures SlotInv(Effect(s, Retrieve(r)), s.requests[r].endpoint)
  {
    var e := s.requests[r].endpoint;
    assert e in s.slots ==> SlotInv(s, e);
  }

  lemma PushKeepsSlot(s: State, r: RequestId)
    requires Inv(s) && Enabled(s, Push(r))
    ensures SlotInv(Effect(s, Push(r)), s.requests[r].endpoint)
  {
    var e, c, t := s.requests[r].endpoint, s.requests[r].stage.conn, Effect(s, Push(r));
    assert HeldInv(s, r);
    AnySlot(s, e);
    var queue := SlotOf(s, e).queue;
    assert c !in queue && t.conns[c].used && t.conns[c].kept && t.conns[c].endpoint == e;
    assert SlotOf(t, e).queue == queue || (SlotOf(t, e).queue == queue + [c] && t.conns[c].place == Queued);
  }

  lemma StepKeepsSlots(s: State, step: Step)
    requires Inv(s) && Enabled(s, step)
    ensures forall e :: e in Effect(s, step).slots ==> SlotInv(Effect(s, step), e)
  {
    var t := Effect(s, step);
    forall e | e in t.slots
      ensures SlotInv(t, e)
    {
      if SlotOf(t, e) == SlotOf(s, e) && e in s.slots {
        UntouchedSlot(s, step, e);
      } else if step.Retrieve? {
        RetrieveKeepsSlot(s, step.r);
      } else {
        assert step.Push?;
        PushKeepsSlot(s, step.r);
      }
    }
  }

  /** A step never touches what another request holds. */
  lemma HeldUntouched(s: State, step: Step, r: RequestId)
    requires Inv(s) && Enabled(s, step) && r in s.requests && r != step.r && Holding(s.requests[r].stage)
    ensures var c, t := s.requests[r].stage.conn, Effect(s, step);
            c in s.conns && c in t.conns && t.conns[c] == s.conns[c]
  {
    assert HeldInv(s, r);
    if step.r in s.requests {
      assert HeldInv(s, step.r);
      AnySlot(s, s.requests[step.r].endpoint);
    }
  }

  lemma OwnHeldKept(s: State, step: Step)
    requires Inv(s) && Enabled(s, step)
    ensures step.r in Effect(s, step).requests && HeldInv(Effect(s, step), step.r)
  {
    if step.r in s.requests {
      assert HeldInv(s, step.r);
      AnySlot(s, s.requests[step.r].endpoint);
    }
  }

  lemma HeldCarriesOver(s: State, t: State, r: RequestId)
    requires r in s.requests && r in t.requests && t.requests[r] == s.requests[r] && HeldInv(s, r)
    requires Holding(s.requests[r].stage) ==>
               var c := s.requests[r].stage.conn; c in t.conns && t.conns[c] == s.conns[c]
    ensures HeldInv(t, r)
  {
  }

  lemma StepKeepsHeld(s: State, step: Step)
    requires Inv(s) && Enabled(s, step)
    ensures forall r :: r in Effect(s, step).requests ==> HeldInv(Effect(s, step), r)
  {
    var t := Effect(s, step);
    StepFrame(s, step);
    forall r | r in t.requests
      ensures HeldInv(t, r)
    {
      if r == step.r {
        OwnHeldKept(s, step);
      } else {
        if Holding(s.requests[r].stage) { HeldUntouched(s, step, r); }
        HeldCarriesOver(s, t, r);
      }
    }
  }

  /** The queue only loses the connection whose record the step changes. */
  lemma QueuedStays(s: State, step: Step, e: Endpoint, c: ConnId)
    requires Inv(s) && Enabled(s, step) && c in SlotOf(s, e).queue
    requires c in Effect(s, step).conns && Effect(s, step).conns[c] == s.conns[c]
    ensures c in SlotOf(Effect(s, step), e).queue
  {
    StepFrame(s, step);
    AnySlot(s, e);
    if step.Retrieve? && e == s.requests[step.r].endpoint {
      var queue := SlotOf(s, e).queue;
      assert queue == [queue[0]] + queue[1..];
    }
  }

  lemma HolderStays(s: State, step: Step, r: RequestId, c: ConnId)
    requires Inv(s) && Enabled(s, step) && Holds(s, r, c) && c in s.conns && s.conns[c].place == With(r)
    requires c in Effect(s, step).conns && Effect(s, step).conns[c] == s.conns[c]
    ensures Holds(Effect(s, step), r, c)
  {
    StepFrame(s, step);
  }

  /** A connection whose record a step leaves alone stays where it was. */
  lemma UnmovedPlace(s: State, step: Step, c: ConnId)
    requires Inv(s) && Enabled(s, step) && c in s.conns
    requires c in Effect(s, step).conns && Effect(s, step).conns[c] == s.conns[c]
    ensures PlaceInv(Effect(s, step), c)
  {
    assert PlaceInv(s, c);
    match s.conns[c].place
    case Queued => QueuedStays(s, step, s.conns[c].endpoint, c);
    case With(r) => HolderStays(s, step, r, c);
    case Gone =>
  }

  lemma StepKeepsPlaces(s: State, step: Step)
    requires Inv(s) && Enabled(s, step)
    ensures forall c :: c in Effect(s, step).conns ==> PlaceInv(Effect(s, step), c)
  {
    var t := Effect(s, step);
    forall c | c in t.conns
      ensures PlaceInv(t, c)
    {
      if c in s.conns && t.conns[c] == s.conns[c] {
        UnmovedPlace(s, step, c);
      } else {
        assert HeldInv(s, step.r);
        var e := s.requests[step.r].endpoint;
        assert e in s.slots ==> SlotInv(s, e);
      }
    }
  }

  lemma {:induction false} RunKeepsInv(maxKeepalive: nat, steps: seq<Step>)
    ensures Inv(Exec(Init(maxKeepalive), steps))
  {
    if steps != [] {
      var s, step := Exec(Init(maxKeepalive), steps[..|steps| - 1]), steps[|steps| - 1];
      RunKeepsInv(maxKeepalive, steps[..|steps| - 1]);
      if Enabled(s, step) {
        StepKeepsSlots(s, step);
        StepKeepsHeld(s, step);
        StepKeepsPlaces(s, step);
      }
    }
  }
}
