/** The load balancer as an object: construction, the lone pick, and the health check. */
module LoadBalancer {
  import opened Wrappers
  import opened Errors
  import opened Arith
  import opened Net

  datatype Server = Server(endpoint: Endpoint, good: bool)

  function Flags(servers: seq<Server>): seq<bool> {
    seq(|servers|, i requires 0 <= i < |servers| => servers[i].good)
  }

  // ------------------------------------------------- what a lone call computes

  /** The server under the k-th probe of a call that starts at `start`, in the word's own arithmetic. */
  function ServerAt(start: nat, k: nat, size: nat): (i: nat)
    requires size > 0
    ensures i < size
  {
    ((start + k) % WORD) % size
  }

  /** The first probe, from the k-th on, that meets a good server. */
  function Scan(good: seq<bool>, start: nat, k: nat): (hit: Option<nat>)
    requires |good| > 0
    ensures hit.Some? ==> k <= hit.value < |good| && good[ServerAt(start, hit.value, |good|)]
    ensures forall j :: k <= j < (if hit.Some? then hit.value else |good|) ==>
              !good[ServerAt(start, j, |good|)]
    decreases |good| - k
  {
    if k >= |good| then None
    else if good[ServerAt(start, k, |good|)] then Some(k)
    else Scan(good, start, k + 1)
  }

  function Picked(good: seq<bool>, start: nat): Option<nat>
    requires |good| > 0
  {
    match Scan(good, start, 0)
    case Some(k) => Some(ServerAt(start, k, |good|))
    case None => None
  }

  function CursorAfter(good: seq<bool>, start: nat): nat
    requires |good| > 0
  {
    match Scan(good, start, 0)
    case Some(k) => ((start + k + 1) % WORD) % |good|
    case None => (start + |good|) % WORD
  }

  /** `fetch_add` on 64 bits: all ones go to zero. */
  lemma WordWraps(before: nat)
    requires before <= 0xffff_ffff_ffff_ffff
    ensures (before + 1) % WORD == if before == 0xffff_ffff_ffff_ffff then 0 else before + 1
  {
  }

  lemma WordSucc(n: nat)
    ensures (n % WORD + 1) % WORD == (n + 1) % WORD
  {
    ModReduce(n, 1, WORD);
  }

  /** The k-th server in cyclic order from `start` is the first good one, and the cursor ends behind it. */
  ghost predicate PicksAt(servers: seq<Server>, start: nat, k: nat, endpoint: Endpoint, cursor: nat) {
    && k < |servers|
    && (forall j :: 0 <= j < k ==> !servers[ServerAt(start, j, |servers|)].good)
    && servers[ServerAt(start, k, |servers|)] == Server(endpoint, true)
    && cursor == (start + k + 1) % WORD % |servers|
  }

  /** What one probe of a call finds, and where it leaves the cursor. */
  lemma OneProbe(good: seq<bool>, start: nat, cnt: nat, idx: nat)
    requires cnt < |good| && idx == (start + cnt) % WORD
    ensures (idx + 1) % WORD == (start + cnt + 1) % WORD
    ensures Scan(good, start, cnt) == if good[idx % |good|] then Some(cnt) else Scan(good, start, cnt + 1)
    ensures idx % |good| == ServerAt(start, cnt, |good|)
  {
    WordSucc(start + cnt);
  }

  // ----------------------------------------- a lone throw, and when it is fair

  ghost predicate AllDown(good: seq<bool>) {
    forall i :: 0 <= i < |good| ==> !good[i]
  }

  /** The probes of one call stay inside the word, or the word wraps onto the same server. */
  predicate Harmless(start: nat, size: nat)
    requires size > 0
  {
    start + size <= WORD || WORD % size == 0
  }

  lemma HarmlessServerAt(start: nat, k: nat, size: nat)
    requires 0 < size && start < WORD && k < size && Harmless(start, size)
    ensures ServerAt(start, k, size) == (start + k) % size
  {
    var w := (start + k) / WORD;
    if start + size <= WORD {
      ModSmall(start + k, WORD);
    } else {
      ModWholeWords((start + k) % WORD, w, WORD, size);
    }
  }

  lemma ThrowMeansAllDown(good: seq<bool>, start: nat)
    requires 0 < |good| && start < WORD && Harmless(start, |good|)
    ensures Scan(good, start, 0).None? <==> AllDown(good)
  {
    if Scan(good, start, 0).None? {
      forall i | 0 <= i < |good|
        ensures !good[i]
      {
        var n := WindowMeets(start, i, |good|);
        HarmlessServerAt(start, n - start, |good|);
        assert !good[ServerAt(start, n - start, |good|)];
      }
    }
  }

  /**
   A pick in terms of the servers themselves: the first good one in cyclic order
   from `start`, or none; and as long as the probes wrap nothing harmfully, none
   exactly when all are down.
   */
  ghost predicate PicksFirstGood(servers: seq<Server>, start: nat, r: Result<Endpoint, Error>, cursor: nat)
    requires servers != []
  {
    && (match r
        case Success(endpoint) => exists k :: PicksAt(servers, start, k, endpoint, cursor)
        case Failure(e) => e == NoAvailableServer && cursor == (start + |servers|) % WORD)
    && (Harmless(start, |servers|) ==> (r.Failure? <==> forall i :: 0 <= i < |servers| ==> !servers[i].good))
  }

  lemma PickMeans(servers: seq<Server>, start: nat, r: Result<Endpoint, Error>)
    requires servers != [] && start < WORD
    requires r == match Picked(Flags(servers), start)
                  case Some(i) => Success(servers[i].endpoint)
                  case None => Failure(NoAvailableServer)
    ensures PicksFirstGood(servers, start, r, CursorAfter(Flags(servers), start))
  {
    var good := Flags(servers);
    if Harmless(start, |servers|) {
      ThrowMeansAllDown(good, start);
      assert AllDown(good) <==> forall i :: 0 <= i < |servers| ==> !servers[i].good by {
        assert forall i :: 0 <= i < |servers| ==> good[i] == servers[i].good;
      }
    }
    if r.Success? {
      var k := Scan(good, start, 0).value;
      assert PicksAt(servers, start, k, r.value, CursorAfter(good, start));
    }
  }

  // ------------------------------------------------------------ health checks

  /** The outcome of one ping: an exception, or a response with a status. */
  datatype Ping = Raised(error: Error) | Answered(status: nat)

  const NO_CONTENT: nat := 204
  const DEFAULT_STATUS: nat := 200  // of a default-constructed response

  /**
   What `pings` have made of the servers, the n-th ping going to server n modulo
   their number: the last ping of each decides, and whoever had none is as before.
   */
  ghost predicate Told(now: seq<Server>, before: seq<Server>, pings: seq<Ping>) {
    && now != [] && |now| == |before|
    && (forall i :: 0 <= i < |now| ==> now[i].endpoint == before[i].endpoint)
    && (forall i :: |pings| <= i < |now| ==> now[i].good == before[i].good)
    && (forall n :: 0 <= n < |pings| <= n + |now| ==> now[n % |now|].good == (pings[n] == Answered(204)))
  }

  lemma TellOne(now: seq<Server>, before: seq<Server>, pings: seq<Ping>, ping: Ping)
    requires Told(now, before, pings)
    ensures var i := |pings| % |now|;
            Told(now[i := now[i].(good := ping == Answered(204))], before, pings + [ping])
  {
    var i, size := |pings| % |now|, |now|;
    ModAtMost(|pings|, size);
    forall n | 0 <= n < |pings| < n + size
      ensures n % size != i
    {
      Incongruent(|pings|, n, 0, size);
    }
  }

  /** `IHttpClient::Get` with an error argument: clears it first, and turns an exception into it. */
  method Get(ping: Ping, error: Option<Error>) returns (status: nat, error': Option<Error>)
    ensures error' == (if ping.Raised? then Some(ping.error) else None)
    ensures ping.Answered? ==> status == ping.status
  {
    error' := None;
    match ping
    case Answered(code) =>
      status := code;
    case Raised(e) =>
      error' := Some(e);
      status := DEFAULT_STATUS;
  }

  predicate Faultless(endpoints: seq<Endpoint>) {
    && (forall i :: 0 <= i < |endpoints| ==> endpoints[i].host != "")
    && (forall i, j :: 0 <= i < j < |endpoints| ==> endpoints[i] != endpoints[j])
  }

  /** What is wrong with the list at position `k`, given that nothing is wrong before it. */
  predicate FaultAt(endpoints: seq<Endpoint>, k: nat, error: Error)
    requires k < |endpoints|
  {
    && Faultless(endpoints[..k])
    && (if endpoints[k].host == ""
        then error == InvalidArgument(EmptyHost)
        else endpoints[k] in endpoints[..k]
             && error == InvalidArgument(DuplicateEndpoint(endpoints[k].host, endpoints[k].port)))
  }

  /** Accepts exactly the non-empty lists of distinct endpoints with hosts, else names the first fault. */
  method ConstructServers(endpoints: seq<Endpoint>) returns (r: Result<seq<Server>, Error>)
    ensures r.Success? <==>
              && endpoints != []
              && (forall i :: 0 <= i < |endpoints| ==> endpoints[i].host != "")
              && (forall i, j :: 0 <= i < j < |endpoints| ==> endpoints[i] != endpoints[j])
    ensures r.Success? ==> |r.value| == |endpoints|
    ensures r.Success? ==> forall i :: 0 <= i < |endpoints| ==> r.value[i] == Server(endpoints[i], true)
    ensures r.Failure? ==>
      if endpoints == [] then r.error == InvalidArgument(NoEndpoint)
      else exists k :: 0 <= k < |endpoints| && FaultAt(endpoints, k, r.error)
  {
    if endpoints == [] {
      return Failure(InvalidArgument(NoEndpoint));
    }
    var dup: set<Endpoint> := {};
    for n := 0 to |endpoints|
      invariant dup == set e | e in endpoints[..n]
      invariant Faultless(endpoints[..n])
    {
      var endpoint := endpoints[n];
      if endpoint.host == "" {
        assert FaultAt(endpoints, n, InvalidArgument(EmptyHost));
        return Failure(InvalidArgument(EmptyHost));
      }
      if endpoint in dup {
        var error := InvalidArgument(DuplicateEndpoint(endpoint.host, endpoint.port));
        assert FaultAt(endpoints, n, error);
        return Failure(error);
      }
      dup := dup + {endpoint};
      assert endpoints[..n + 1] == endpoints[..n] + [endpoint];
    }
    assert endpoints[..|endpoints|] == endpoints;
    var servers := seq(|endpoints|, _ => Server(Endpoint("", 0), true));
    for idx := 0 to |servers|
      invariant |servers| == |endpoints|
      invariant forall i :: 0 <= i < |servers| ==> servers[i].good
      invariant forall i :: 0 <= i < idx ==> servers[i].endpoint == endpoints[i]
    {
      servers := servers[idx := servers[idx].(endpoint := endpoints[idx])];
    }
    return Success(servers);
  }

  class LoadBalancer {
    var servers: seq<Server>
    var nextIdx: nat

    ghost predicate Valid()
      reads this
    {
      servers != [] && nextIdx < WORD
    }

    /** For the list `ConstructServers` has accepted. */
    constructor (accepted: seq<Server>)
      requires accepted != []
      ensures Valid() && servers == accepted && nextIdx == 0
    {
      servers, nextIdx := accepted, 0;
    }

    method PickServer(index: nat) returns (r: Result<Endpoint, Error>)
      requires Valid()
      ensures r == if index < |servers| then Success(servers[index].endpoint)
                   else Failure(InvalidArgument(IndexOutOfRange))
    {
      if index >= |servers| {
        return Failure(InvalidArgument(IndexOutOfRange));
      }
      return Success(servers[index].endpoint);
    }

    method FetchAdd() returns (before: nat)
      requires Valid()
      modifies this`nextIdx
      ensures Valid() && before == old(nextIdx) && nextIdx == (before + 1) % WORD
    {
      before := nextIdx;
      nextIdx := (nextIdx + 1) % WORD;
    }

    /** `compare_exchange_weak`: on failure, spurious or not, the current value comes back. */
    method CompareExchangeWeak(expected: nat, desired: nat, spurious: bool) returns (ok: bool, seen: nat)
      requires Valid() && desired < WORD
      modifies this`nextIdx
      ensures Valid()
      ensures ok <==> old(nextIdx) == expected && !spurious
      ensures nextIdx == if ok then desired else old(nextIdx)
      ensures seen == if ok then expected else old(nextIdx)
    {
      ok := nextIdx == expected && !spurious;
      if ok {
        nextIdx := desired;
        seen := expected;
      } else {
        seen := nextIdx;
      }
    }

    /**
     The exchange loop of a pick that fetched `fetched`. `spurious`
     says which attempts of the weak exchange fail for no reason; of the `honest`
     others the second succeeds at the latest, whatever was expected first.
     */
    method ReduceCursor(fetched: nat, size: nat, spurious: seq<bool>) returns (honest: nat)
      requires Valid() && 0 < size <= WORD
      modifies this`nextIdx
      ensures Valid() && nextIdx == old(nextIdx) % size
      ensures 1 <= honest <= 2
    {
      honest := 0;
      var idx: nat, attempts := fetched, 0;
      while true
        invariant Valid() && nextIdx == old(nextIdx)
        invariant honest == 0 || (honest == 1 && idx == nextIdx)
        decreases if attempts < |spurious| then |spurious| - attempts else 0, 2 - honest
      {
        var newVal := idx % size;
        var fails := attempts < |spurious| && spurious[attempts];
        var ok, seen := CompareExchangeWeak(idx, newVal, fails);
        attempts, honest, idx := attempts + 1, if fails then honest else honest + 1, seen;
        if ok { break; }
      }
    }

    /**
     With no other call interfering: the first good server in cyclic order from
     the cursor, which then stands just behind it.
     */
    method PickAvailableServer(spurious: seq<bool>) returns (r: Result<Endpoint, Error>)
      requires Valid() && |servers| <= WORD
      modifies this`nextIdx
      ensures Valid()
      ensures nextIdx == CursorAfter(Flags(servers), old(nextIdx))
      ensures r == match Picked(Flags(servers), old(nextIdx))
                   case Some(i) => Success(servers[i].endpoint)
                   case None => Failure(NoAvailableServer)
      ensures PicksFirstGood(servers, old(nextIdx), r, nextIdx)
    {
      ghost var flags, start := Flags(servers), nextIdx;
      ghost var hit := Scan(flags, start, 0);
      var cnt, size := 0, |servers|;
      while cnt < size
        invariant 0 <= cnt <= size && Valid()
        invariant nextIdx == (start + cnt) % WORD
        invariant hit == Scan(flags, start, cnt)
      {
        OneProbe(flags, start, cnt, nextIdx);
        var idx := FetchAdd();
        var server := servers[idx % size];
        if !server.good {
          cnt := cnt + 1;
          continue;
        }
        var _ := ReduceCursor(idx, size, spurious);
        PickMeans(servers, start, Success(server.endpoint));
        return Success(server.endpoint);
      }
      PickMeans(servers, start, Failure(NoAvailableServer));
      return Failure(NoAvailableServer);
    }

    /**
     The endless health check, cut off after any number of completed pings: a
     server is good exactly when its latest ping raised nothing and returned 204,
     and one never pinged is as before.
     */
    method HealthCheck(pings: seq<Ping>)
      requires Valid()
      modifies this`servers
      ensures Valid() && |servers| == |old(servers)|
      ensures forall i :: 0 <= i < |servers| ==> servers[i].endpoint == old(servers)[i].endpoint
      ensures forall i :: |pings| <= i < |servers| ==> servers[i].good == old(servers)[i].good
      ensures forall n :: 0 <= n < |pings| <= n + |servers| ==>
                servers[n % |servers|].good == (pings[n] == Answered(204))
    {
      var error: Option<Error> := None;
      var n := 0;
      while n < |pings|
        invariant 0 <= n <= |pings| && Told(servers, old(servers), pings[..n])
        invariant n % |servers| == 0 || n == |pings|
      {
        var i := 0;
        ghost var first := n;
        while i < |servers| && n < |pings|
          invariant 0 <= i <= |servers| && n == first + i <= |pings|
          invariant Told(servers, old(servers), pings[..n])
          invariant n % |servers| == if i < |servers| then i else 0
        {
          var status;
          status, error := Get(pings[n], error);
          TellOne(servers, old(servers), pings[..n], pings[n]);
          servers := servers[i := servers[i].(good := error.None? && status == NO_CONTENT)];
          assert pings[..n] + [pings[n]] == pings[..n + 1];
          NextDivMod(n, |servers|);
          i, n := i + 1, n + 1;
        }
      }
      assert pings[..n] == pings;
    }
  }
}
