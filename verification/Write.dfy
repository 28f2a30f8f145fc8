/** Writing points: check, encode, pick a server, post once. */
module Write {
  import opened Wrappers
  import opened Errors
  import opened LineProtocol
  import opened LineProtocolEncoder
  import opened LineProtocolTheorems
  import opened LoadBalancer
  import opened Arith
  import opened Net
  import opened WriteTarget

  /** The two instances of `RunWrite`: a single point and a vector of points. */
  datatype Payload = One(point: Point) | Many(points: seq<Point>)

  function ContentOf(payload: Payload): string {
    match payload
    case One(p) => PointText(p)
    case Many(points) => BatchText(points)
  }

  function PayloadFault(payload: Payload): Option<Error> {
    match payload
    case One(p) => FaultOf(p)
    case Many(points) => BatchFault(points)
  }

  datatype Posted = Posted(endpoint: Endpoint, target: string, body: string)

  /** The HTTP client, seen as the record of what has been posted through it. */
  class Http {
    var posts: seq<Posted>

    constructor ()
      ensures posts == []
    {
      posts := [];
    }

    /** `reply` is the network's answer: a status, or the error that `SendRequest` throws. */
    method Post(endpoint: Endpoint, target: string, body: string, reply: Result<nat, Error>)
      returns (r: Result<nat, Error>)
      modifies this
      ensures posts == old(posts) + [Posted(endpoint, target, body)] && r == reply
    {
      posts := posts + [Posted(endpoint, target, body)];
      return reply;
    }
  }

  /** The points pass every check, and there is something to write. */
  predicate Accepted(db: string, payload: Payload) {
    db != "" && PayloadFault(payload).None? && payload != Many([])
  }

  lemma {:induction false} ContentEmptyIff(payload: Payload)
    requires PayloadFault(payload).None?
    ensures ContentOf(payload) == "" <==> payload == Many([])
  {
    match payload
    case One(p) => ValidPointHasText(p);
    case Many(points) => if points != [] { ValidPointHasText(points[0]); }
  }

  lemma {:induction false} ValidPointHasText(p: Point)
    requires Valid(p)
    ensures PointText(p) != ""
  {
    assert Escape(p.measurement, ESCAPE_MEASUREMENT) != "";
  }

  class RunWrite {
    const http: Http
    const lb: LoadBalancer
    const db: string
    const rp: string
    const payload: Payload

    constructor (http: Http, lb: LoadBalancer, db: string, rp: string, payload: Payload)
      ensures this.http == http && this.lb == lb
      ensures this.db == db && this.rp == rp && this.payload == payload
    {
      this.http, this.lb, this.db, this.rp, this.payload := http, lb, db, rp, payload;
    }

    /**
     Posts once if the points are accepted and a server is available, and else
     not at all; the balancer's turn moves only for accepted points.
     */
    method Run(spurious: seq<bool>, reply: Result<nat, Error>) returns (r: Result<(), Error>)
      requires lb.Valid() && |lb.servers| <= WORD
      modifies http, lb`nextIdx
      ensures lb.Valid()
      ensures lb.nextIdx == if Accepted(db, payload) then CursorAfter(Flags(lb.servers), old(lb.nextIdx))
                            else old(lb.nextIdx)
      ensures var picked := Picked(Flags(lb.servers), old(lb.nextIdx));
              && http.posts == old(http.posts)
                   + (if Accepted(db, payload) && picked.Some?
                      then [Posted(lb.servers[picked.value].endpoint, Target(db, rp), ContentOf(payload))]
                      else [])
              && r == (if db == "" then Failure(InvalidArgument(EmptyDatabase))
                       else if PayloadFault(payload).Some? then Failure(PayloadFault(payload).value)
                       else if payload == Many([]) then Success(())
                       else if picked.None? then Failure(NoAvailableServer)
                       else if reply.Failure? then Failure(reply.error)
                       else if reply.value == 204 then Success(())
                       else Failure(UnexpectedStatusCode(reply.value)))
    {
      if db == "" {
        return Failure(InvalidArgument(EmptyDatabase));
      }
      var encoder := new LineProtocolEncoder();
      var encoded;
      match payload {
        case One(point) => encoded := encoder.EncodePoint(point);
        case Many(points) => encoded := encoder.EncodeBatch(points);
      }
      if encoded.Failure? { return Failure(encoded.error); }
      var content := encoded.value;
      assert content == ContentOf(payload);
      ContentEmptyIff(payload);
      if content == "" { return Success(()); }

      var target := Target(db, rp);
      var server := lb.PickAvailableServer(spurious);
      if server.Failure? { return Failure(server.error); }
      var response := http.Post(server.value, target, content, reply);
      if response.Failure? { return Failure(response.error); }
      if response.value != NO_CONTENT {
        return Failure(UnexpectedStatusCode(response.value));
      }
      return Success(());
    }
  }

  function PointsOf(payload: Payload): seq<Point> {
    match payload
    case One(p) => [p]
    case Many(points) => points
  }

  /** All or nothing: points are accepted exactly when there are some and every one of them is valid. */
  lemma {:induction false} AcceptedIff(db: string, payload: Payload)
    ensures Accepted(db, payload) <==>
              && db != "" && PointsOf(payload) != []
              && forall i :: 0 <= i < |PointsOf(payload)| ==> Valid(PointsOf(payload)[i])
  {
    if payload.One? { assert PointsOf(payload)[0] == payload.point; }
  }

  /** A single accepted point is posted as a text that reads back as the point, exactly when its names are clean. */
  lemma {:induction false} AcceptedPointIsWhole(db: string, p: Point)
    requires Accepted(db, One(p)) && Numerals(p.fields)
    ensures DecodePoint(ContentOf(One(p))) == Some(LineOf(p)) <==> CleanPoint(p)
  {
    AcceptedIff(db, One(p));
    PointRoundTripIff(p);
  }

  /** And what is then posted is read back as every point of the batch, in order, exactly when its names are clean. */
  lemma {:induction false} AcceptedBatchIsWhole(db: string, points: seq<Point>)
    requires Accepted(db, Many(points)) && forall i :: 0 <= i < |points| ==> Numerals(points[i].fields)
    ensures DecodeBatch(ContentOf(Many(points))) == Some(LinesOf(points)) <==> CleanBatch(points)
  {
    AcceptedIff(db, Many(points));
    BatchRoundTripIff(points);
  }
}
