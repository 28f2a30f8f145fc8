/** The keep-alive pool and the request loop on top of it, as objects used by one request at a time. */
module ConnectionPool {
  import opened Wrappers
  import opened Errors
  import opened Net

  class Connection {
    const endpoint: Endpoint  // the peer of the stream
    var used: bool

    constructor (endpoint: Endpoint, used: bool)
      ensures this.endpoint == endpoint && this.used == used
    {
      this.endpoint, this.used := endpoint, used;
    }

    /** An error on a connection that has served before only means that it went stale. */
    method ShouldRetry(error: Option<Error>) returns (r: Result<bool, Error>)
      ensures r == match error
                   case None => Success(false)
                   case Some(e) => if used then Success(true) else Failure(e)
    {
      if error.None? { return Success(false); }
      if used { return Success(true); }
      return Failure(error.value);
    }
  }

  type Queues = map<Endpoint, seq<Connection>>

  ghost function Members(pool: Queues): set<Connection> {
    set e, c | e in pool && c in pool[e] :: c
  }

  /** Queues are within the limit, and a connection sits in one slot. */
  ghost predicate WellQueued(pool: Queues, maxKeepalive: nat) {
    && (forall e :: e in pool ==>
          && |pool[e]| <= maxKeepalive
          && forall i, j :: 0 <= i < j < |pool[e]| ==> pool[e][i] != pool[e][j])
    && (forall e, f, c | e in pool && f in pool && c in pool[e] && c in pool[f] :: e == f)
  }

  lemma PopLeaves(pool: Queues, e: Endpoint, maxKeepalive: nat)
    requires WellQueued(pool, maxKeepalive) && e in pool && pool[e] != []
    ensures var after := pool[e := pool[e][1..]];
            WellQueued(after, maxKeepalive) && Members(after) == Members(pool) - {pool[e][0]}
  {
    var after := pool[e := pool[e][1..]];
    assert pool[e] == [pool[e][0]] + after[e];
    assert pool[e][0] in pool[e];
    forall c | c in Members(pool) - {pool[e][0]}
      ensures c in Members(after)
    {
      var f :| f in pool && c in pool[f];
      assert c in after[f];
    }
    forall c | c in Members(after)
      ensures c in Members(pool) - {pool[e][0]}
    {
      var f :| f in after && c in after[f];
      assert c in pool[f];
    }
  }

  lemma PushAdds(pool: Queues, e: Endpoint, c: Connection, maxKeepalive: nat)
    requires WellQueued(pool, maxKeepalive) && e in pool && |pool[e]| < maxKeepalive
    requires c !in Members(pool)
    ensures var after := pool[e := pool[e] + [c]];
            WellQueued(after, maxKeepalive) && Members(after) <= Members(pool) + {c}
  {
    assert c !in pool[e];
  }

  class ConnectionPool {
    var pool: Queues
    const maxKeepalive: nat

    /** The idle connections of one endpoint, the longest idle first. */
    ghost function Queue(endpoint: Endpoint): seq<Connection>
      reads this`pool
    {
      if endpoint in pool then pool[endpoint] else []
    }

    ghost function Pooled(): set<Connection>
      reads this`pool
    {
      Members(pool)
    }

    /** Whatever is pooled has served before. */
    ghost predicate Valid()
      reads this, Pooled()
    {
      && WellQueued(pool, maxKeepalive)
      && forall c :: c in Pooled() ==> c.used
    }

    /** Every pooled connection leads where its queue says. */
    ghost predicate AtHome()
      reads this`pool
    {
      forall e :: e in pool ==> forall c :: c in pool[e] ==> c.endpoint == e
    }

    constructor (maxKeepalive: nat)
      ensures AtHome() && Valid() && this.maxKeepalive == maxKeepalive && Pooled() == {}
    {
      pool := map[];
      this.maxKeepalive := maxKeepalive;
    }

    /** The queue of an endpoint, made on first use as `operator[]` does. */
    method Touch(endpoint: Endpoint)
      requires Valid()
      modifies this`pool
      ensures Valid() && Pooled() == old(Pooled()) && endpoint in pool
      ensures forall e :: Queue(e) == old(Queue(e))
      ensures old(AtHome()) ==> AtHome()
    {
      if endpoint !in pool {
        pool := pool[endpoint := []];
        assert forall e, c :: e in old(pool) && c in old(pool)[e] ==> c in pool[e];
      }
    }

    /** Hands out the longest idle connection, or a fresh one when `reachable` lets it connect. */
    method Retrieve(endpoint: Endpoint, reachable: bool) returns (r: Result<Connection, Error>)
      requires Valid()
      modifies this`pool
      ensures Valid() && Pooled() <= old(Pooled())
      ensures forall e :: e != endpoint ==> Queue(e) == old(Queue(e))
      ensures var q := old(Queue(endpoint));
              if q != []
              then r == Success(q[0]) && q[0] in old(Pooled()) && Queue(endpoint) == q[1..]
              else Queue(endpoint) == []
                   && (if reachable
                       then r.Success? && fresh(r.value) && !r.value.used
                       else r == Failure(Network(Create)))
      ensures r.Success? ==> r.value !in Pooled()
      ensures old(AtHome()) ==> AtHome() && (r.Success? ==> r.value.endpoint == endpoint)
    {
      Touch(endpoint);
      var connections := pool[endpoint];
      if connections != [] {
        PopLeaves(pool, endpoint, maxKeepalive);
        assert connections[0] in pool[endpoint];
        pool := pool[endpoint := connections[1..]];
        return Success(connections[0]);
      }
      if !reachable {
        return Failure(Network(Create));
      }
      var connection := new Connection(endpoint, false);
      return Success(connection);
    }

    /** Takes a connection back, unless its queue is full: then it is dropped. Where it leads is up to the caller. */
    method Push(endpoint: Endpoint, connection: Connection)
      requires Valid() && connection !in Pooled()
      modifies this`pool, connection
      ensures Valid() && connection.used && Pooled() <= old(Pooled()) + {connection}
      ensures forall e :: e != endpoint ==> Queue(e) == old(Queue(e))
      ensures Queue(endpoint) == if |old(Queue(endpoint))| < maxKeepalive
                                 then old(Queue(endpoint)) + [connection]
                                 else old(Queue(endpoint))
      ensures old(AtHome()) && connection.endpoint == endpoint ==> AtHome()
    {
      if !connection.used { connection.used := true; }
      assert forall e :: Queue(e) == old(Queue(e));
      Touch(endpoint);
      if |pool[endpoint]| >= maxKeepalive { return; }
      PushAdds(pool, endpoint, connection, maxKeepalive);
      pool := pool[endpoint := pool[endpoint] + [connection]];
    }
  }

  /** How the network answers one write and read on a connection. */
  datatype Exchange =
    | WriteFails
    | ReadFails
    | KeptAlive(status: nat)
    | Closed(status: nat, clean: bool)  // `clean`: the shutdown that follows raises no error that matters

  predicate Broken(x: Exchange) {
    x.WriteFails? || x.ReadFails?
  }

  /** The attempt that settles a request which finds `idle` connections: the first not met by a stale one. */
  function Settling(idle: nat, exchange: nat -> Exchange, k: nat): (j: nat)
    requires k <= idle
    ensures k <= j <= idle
    ensures forall i :: k <= i < j ==> Broken(exchange(i))
    ensures j < idle ==> !Broken(exchange(j))
    decreases idle - k
  {
    if k == idle || !Broken(exchange(k)) then k else Settling(idle, exchange, k + 1)
  }

  function Answer(x: Exchange): Result<nat, Error> {
    match x
    case WriteFails => Failure(Network(Write))
    case ReadFails => Failure(Network(Read))
    case KeptAlive(status) => Success(status)
    case Closed(status, clean) => if clean then Success(status) else Failure(Network(Shutdown))
  }

  /** What a request puts at the back of the queue. */
  datatype Back = Nothing | Reused | Fresh

  /** How a request ends: its attempts, its answer, and how many connections it has taken from the front. */
  datatype Ending = Ending(attempts: nat, answer: Result<nat, Error>, taken: nat, back: Back)

  /** The ending of a request that nobody interferes with, on a queue of `idle` connections. */
  function EndingOf(idle: nat, exchange: nat -> Exchange, reachable: bool, maxKeepalive: nat): Ending {
    var j := Settling(idle, exchange, 0);
    var x := exchange(j);
    if j < idle then
      Ending(j + 1, Answer(x), j + 1, if x.KeptAlive? then Reused else Nothing)
    else if reachable then
      Ending(j + 1, Answer(x), idle, if x.KeptAlive? && maxKeepalive > 0 then Fresh else Nothing)
    else
      Ending(j + 1, Failure(Network(Create)), idle, Nothing)
  }

  /** The loop ends at the attempt that settles it. */
  lemma EndsAt(idle: nat, exchange: nat -> Exchange, reachable: bool, maxKeepalive: nat, k: nat)
    requires k <= idle && Settling(idle, exchange, 0) == Settling(idle, exchange, k)
    requires k == idle || !Broken(exchange(k))
    ensures EndingOf(idle, exchange, reachable, maxKeepalive) ==
              Ending(k + 1,
                     if k == idle && !reachable then Failure(Network(Create)) else Answer(exchange(k)),
                     if k < idle then k + 1 else idle,
                     if !exchange(k).KeptAlive? then Nothing
                     else if k < idle then Reused
                     else if reachable && maxKeepalive > 0 then Fresh else Nothing)
  {
  }

  /** The queue an ending leaves: what was not taken, in order, and behind it what went back. */
  predicate Leaves<C(==)>(before: seq<C>, after: seq<C>, e: Ending) {
    && e.taken <= |before|
    && match e.back
       case Nothing => after == before[e.taken..]
       case Reused => e.taken > 0 && after == before[e.taken..] + [before[e.taken - 1]]
       case Fresh => e.taken == |before| && |after| == 1
  }

  /**
   The request succeeds exactly when attempt `j` is made on a connection, its
   response is read and no shutdown fails, and then with the very status read.
   */
  predicate SucceedsAsRead(r: Result<nat, Error>, idle: nat, exchange: nat -> Exchange, reachable: bool, j: nat) {
    var x := exchange(j);
    if (j < idle || reachable) && (x.KeptAlive? || (x.Closed? && x.clean)) then r == Success(x.status) else r.Failure?
  }

  /**
   What an ending is, in the network's terms: the request succeeds with the very
   status read; it fails when no connection can be made, when a fresh one breaks,
   or when the shutdown after the response fails. Pooled connections that broke
   are taken and gone.
   */
  lemma EndingMeans(idle: nat, exchange: nat -> Exchange, reachable: bool, maxKeepalive: nat)
    ensures var e := EndingOf(idle, exchange, reachable, maxKeepalive);
            && 1 <= e.attempts <= idle + 1
            && (forall i :: 0 <= i < e.attempts - 1 ==> exchange(i).WriteFails? || exchange(i).ReadFails?)
            && (e.attempts <= idle ==> !exchange(e.attempts - 1).WriteFails? && !exchange(e.attempts - 1).ReadFails?)
            && SucceedsAsRead(e.answer, idle, exchange, reachable, e.attempts - 1)
    ensures var e := EndingOf(idle, exchange, reachable, maxKeepalive);
            var x := exchange(e.attempts - 1);
            e.answer.Failure? ==>
              e.answer.error == Network(if e.attempts == idle + 1 && !reachable then Create
                                        else if x.WriteFails? then Write
                                        else if x.ReadFails? then Read else Shutdown)
    ensures var e := EndingOf(idle, exchange, reachable, maxKeepalive);
            && e.taken == (if e.attempts <= idle then e.attempts else idle)
            && (e.back == Reused <==> e.attempts <= idle && exchange(e.attempts - 1).KeptAlive?)
            && (e.back == Fresh <==>
                  e.attempts == idle + 1 && reachable && exchange(idle).KeptAlive? && maxKeepalive > 0)
  {
  }

  /** What a connection returned in the settling attempt leaves. */
  lemma ReturnLeaves<C>(q: seq<C>, c: C, exchange: nat -> Exchange, reachable: bool, maxKeepalive: nat, k: nat)
    requires k <= |q| <= maxKeepalive && Settling(|q|, exchange, 0) == Settling(|q|, exchange, k)
    requires exchange(k).KeptAlive? && if k < |q| then c == q[k] else reachable
    ensures var left := if k < |q| then q[k + 1..] else [];
            var e := EndingOf(|q|, exchange, reachable, maxKeepalive);
            && Leaves(q, if |left| < maxKeepalive then left + [c] else left, e)
            && (e.back.Fresh? <==> k == |q| && maxKeepalive > 0)
            && e.attempts == k + 1 && e.answer == Success(exchange(k).status)
  {
    EndsAt(|q|, exchange, reachable, maxKeepalive, k);
  }

  /** What `SendRequest` promises of the queue before and after it, its result and its attempts. */
  ghost predicate Sent<C>(before: seq<C>, after: seq<C>, r: Result<nat, Error>, attempts: nat,
                          exchange: nat -> Exchange, reachable: bool, maxKeepalive: nat)
  {
    var e := EndingOf(|before|, exchange, reachable, maxKeepalive);
    && attempts == e.attempts && attempts > 0 && r == e.answer && Leaves(before, after, e)
    && SucceedsAsRead(r, |before|, exchange, reachable, attempts - 1)
  }

  lemma NoneToTry<C>(q: seq<C>, after: seq<C>, exchange: nat -> Exchange, maxKeepalive: nat)
    requires Settling(|q|, exchange, 0) == |q| && after == []
    ensures Sent(q, after, Failure(Network(Create)), |q| + 1, exchange, false, maxKeepalive)
  {
  }

  lemma LastAttempt<C>(q: seq<C>, after: seq<C>, c: C, exchange: nat -> Exchange, reachable: bool,
                       maxKeepalive: nat, k: nat)
    requires k <= |q| <= maxKeepalive && Settling(|q|, exchange, 0) == Settling(|q|, exchange, k)
    requires if k < |q| then c == q[k] && !Broken(exchange(k)) else reachable
    requires var left := if k < |q| then q[k + 1..] else [];
             after == if exchange(k).KeptAlive? && |left| < maxKeepalive then left + [c] else left
    ensures Sent(q, after, Answer(exchange(k)), k + 1, exchange, reachable, maxKeepalive)
    ensures EndingOf(|q|, exchange, reachable, maxKeepalive).back.Fresh? ==> k == |q| && after == [c]
  {
    EndsAt(|q|, exchange, reachable, maxKeepalive, k);
    if exchange(k).KeptAlive? { ReturnLeaves(q, c, exchange, reachable, maxKeepalive, k); }
  }

  class HttpClient {
    const pool: ConnectionPool

    constructor (pool: ConnectionPool)
      ensures this.pool == pool
    {
      this.pool := pool;
    }

    /** Write and read on a connection in hand; kept alive it goes back to the pool, otherwise it is shut down. */
    method Attempt(endpoint: Endpoint, connection: Connection, x: Exchange)
      returns (again: bool, r: Result<nat, Error>)
      requires pool.Valid() && connection !in pool.Pooled()
      modifies pool, connection
      ensures pool.Valid() && pool.Pooled() <= old(pool.Pooled()) + {connection}
      ensures again <==> (x.WriteFails? || x.ReadFails?) && old(connection.used)
      ensures !again ==> r == Answer(x)
      ensures forall e :: e != endpoint ==> pool.Queue(e) == old(pool.Queue(e))
      ensures var q := old(pool.Queue(endpoint));
              pool.Queue(endpoint) == if x.KeptAlive? && |q| < pool.maxKeepalive then q + [connection] else q
      ensures old(pool.AtHome()) && connection.endpoint == endpoint ==> pool.AtHome()
    {
      var error := if x.WriteFails? then Some(Network(Write)) else None;
      var retry := connection.ShouldRetry(error);
      if retry.Failure? { return false, Failure(retry.error); }
      if retry.value { return true, Failure(error.value); }

      error := if x.ReadFails? then Some(Network(Read)) else None;
      retry := connection.ShouldRetry(error);
      if retry.Failure? { return false, Failure(retry.error); }
      if retry.value { return true, Failure(error.value); }

      match x
      case KeptAlive(status) =>
        pool.Push(endpoint, connection);
        return false, Success(status);
      case Closed(status, clean) =>
        return false, if clean then Success(status) else Failure(Network(Shutdown));
    }

    /**
     One request. On a queue whose first j connections are stale the stale ones
     are gone, the next one answers and goes to the back, and the rest keep their
     order. Only when the queue runs out is a fresh connection made, and only a
     fresh one lets a write or read error surface. At most one attempt per pooled
     connection and one more.
     */
    method SendRequest(endpoint: Endpoint, exchange: nat -> Exchange, reachable: bool)
      returns (r: Result<nat, Error>, attempts: nat)
      requires pool.Valid()
      modifies pool, pool.Pooled()
      ensures pool.Valid()
      ensures forall e :: e != endpoint ==> pool.Queue(e) == old(pool.Queue(e))
      ensures old(pool.AtHome()) ==> pool.AtHome()
      ensures Sent(old(pool.Queue(endpoint)), pool.Queue(endpoint), r, attempts, exchange, reachable, pool.maxKeepalive)
      ensures EndingOf(|old(pool.Queue(endpoint))|, exchange, reachable, pool.maxKeepalive).back.Fresh? ==>
                |pool.Queue(endpoint)| == 1 && fresh(pool.Queue(endpoint)[0])
    {
      ghost var q := pool.Queue(endpoint);
      attempts := 0;
      while true
        invariant pool.Valid() && pool.Pooled() <= old(pool.Pooled())
        invariant forall e :: e != endpoint ==> pool.Queue(e) == old(pool.Queue(e))
        invariant old(pool.AtHome()) ==> pool.AtHome()
        invariant attempts <= |q| && pool.Queue(endpoint) == q[attempts..]
        invariant Settling(|q|, exchange, 0) == Settling(|q|, exchange, attempts)
        decreases |q| - attempts
      {
        var k := attempts;
        attempts := attempts + 1;
        var retrieved := pool.Retrieve(endpoint, reachable);
        ghost var left := if k < |q| then q[k + 1..] else [];
        assert pool.Queue(endpoint) == left && (k < |q| ==> retrieved == Success(q[k]));
        if retrieved.Failure? {
          NoneToTry(q, pool.Queue(endpoint), exchange, pool.maxKeepalive);
          return Failure(retrieved.error), attempts;
        }
        var again;
        again, r := Attempt(endpoint, retrieved.value, exchange(k));
        if !again {
          LastAttempt(q, pool.Queue(endpoint), retrieved.value, exchange, reachable, pool.maxKeepalive, k);
          return;
        }
      }
    }
  }
}
