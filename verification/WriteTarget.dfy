/** The target of a write, and how a server reads its query. */
module WriteTarget {
  import opened Wrappers

  function Target(db: string, rp: string): string {
    "/write?db=" + db + "&rp=" + rp
  }

  // ---------------------------------------------- how a server reads the target

  /** What is before the first `c`, and what is behind it. */
  function SplitAt(s: string, c: char): (r: (string, Option<string>))
    ensures c !in r.0
    ensures s == match r.1 case None => r.0 case Some(rest) => r.0 + [c] + rest
  {
    if s == "" then ("", None)
    else if s[0] == c then ("", Some(s[1..]))
    else
      var (front, rest) := SplitAt(s[1..], c);
      ([s[0]] + front, rest)
  }

  function KeyValue(param: string): (string, string) {
    match SplitAt(param, '=')
    case (key, None) => (key, "")
    case (key, Some(value)) => (key, value)
  }

  function Params(query: string): seq<(string, string)>
    decreases |query|
  {
    match SplitAt(query, '&')
    case (param, None) => [KeyValue(param)]
    case (param, Some(rest)) => [KeyValue(param)] + Params(rest)
  }

  lemma {:induction false} SplitAtFirst(front: string, c: char, rest: string)
    requires c !in front
    ensures SplitAt(front + [c] + rest, c) == (front, Some(rest))
  {
    var s := front + [c] + rest;
    if front == "" {
      assert s[1..] == rest;
    } else {
      assert s[1..] == front[1..] + [c] + rest;
      SplitAtFirst(front[1..], c, rest);
      assert front == [front[0]] + front[1..];
    }
  }

  lemma {:induction false} SplitAtNone(s: string, c: char)
    requires c !in s
    ensures SplitAt(s, c) == (s, None)
  {
    if s != "" { SplitAtNone(s[1..], c); }
  }

  lemma KeyValueText(key: string, value: string)
    requires '=' !in key
    ensures KeyValue(key + "=" + value) == (key, value)
  {
    SplitAtFirst(key, '=', value);
  }

  /** No value read holds an ampersand. */
  lemma {:induction false} ParamsHaveNoAmpersand(query: string)
    ensures forall i :: 0 <= i < |Params(query)| ==> '&' !in Params(query)[i].1
    decreases |query|
  {
    var (param, rest) := SplitAt(query, '&');
    assert '&' !in KeyValue(param).1;
    if rest.Some? { ParamsHaveNoAmpersand(rest.value); }
  }

  /** The query as the target carries it. */
  lemma TargetSplits(db: string, rp: string)
    ensures SplitAt(Target(db, rp), '?') == ("/write", Some("db=" + db + "&" + ("rp=" + rp)))
  {
    var query := "db=" + db + "&" + ("rp=" + rp);
    assert Target(db, rp) == "/write" + "?" + query;
    SplitAtFirst("/write", '?', query);
  }

  lemma OneParam(key: string, value: string)
    requires '=' !in key && '&' !in key && '&' !in value
    ensures Params(key + "=" + value) == [(key, value)]
  {
    SplitAtNone(key + "=" + value, '&');
    KeyValueText(key, value);
  }

  lemma NextParam(key: string, value: string, more: string)
    requires '=' !in key && '&' !in key && '&' !in value
    ensures Params(key + "=" + value + "&" + more) == [(key, value)] + Params(more)
  {
    SplitAtFirst(key + "=" + value, '&', more);
    KeyValueText(key, value);
  }

  lemma TwoParams(query: string, first: (string, string), second: (string, string))
    requires Params(query) == [first, second]
    ensures '&' !in first.1 && '&' !in second.1
  {
    ParamsHaveNoAmpersand(query);
    assert Params(query)[0] == first && Params(query)[1] == second;
  }

  /** A server reads database and policy back from the query if and only if neither has an ampersand. */
  lemma TargetReadsBackIff(db: string, rp: string)
    ensures var (path, query) := SplitAt(Target(db, rp), '?');
            && path == "/write" && query.Some?
            && (Params(query.value) == [("db", db), ("rp", rp)] <==> '&' !in db && '&' !in rp)
  {
    TargetSplits(db, rp);
    var query := "db=" + db + "&" + ("rp=" + rp);
    if '&' !in db && '&' !in rp {
      assert "db=" + db == "db" + "=" + db && "rp=" + rp == "rp" + "=" + rp;
      NextParam("db", db, "rp=" + rp);
      OneParam("rp", rp);
    } else {
      if Params(query) == [("db", db), ("rp", rp)] { TwoParams(query, ("db", db), ("rp", rp)); }
    }
  }
}
