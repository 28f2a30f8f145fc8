/** The encoder as an object: a buffer that every `Append` adds to, and no call ever clears. */
module LineProtocolEncoder {
  import opened Wrappers
  import opened Errors
  import opened Decimal
  import opened Rounding
  import opened LineProtocol
  import opened Strings

  /** What the encoder throws on a point. */
  function FaultOf(p: Point): (fault: Option<Error>)
    ensures fault.None? <==> Valid(p)
  {
    if p.measurement == "" then Some(InvalidArgument(EmptyMeasurement))
    else if p.fields == [] then Some(InvalidArgument(EmptyFields))
    else None
  }

  /** What it throws on a batch: the fault of the first invalid point. */
  function BatchFault(points: seq<Point>): (fault: Option<Error>)
    ensures fault.None? <==> forall i :: 0 <= i < |points| ==> Valid(points[i])
  {
    if points == [] then None
    else if FaultOf(points[0]).Some? then FaultOf(points[0])
    else BatchFault(points[1..])
  }

  /** The first invalid point decides: an empty measurement before empty fields. */
  predicate FirstFault(points: seq<Point>, k: nat, error: Error)
    requires k < |points|
  {
    && (forall i :: 0 <= i < k ==> points[i].measurement != "" && points[i].fields != [])
    && (if points[k].measurement == "" then error == InvalidArgument(EmptyMeasurement)
        else points[k].fields == [] && error == InvalidArgument(EmptyFields))
  }

  lemma {:induction false} BatchFaultIff(points: seq<Point>, error: Error)
    ensures BatchFault(points) == Some(error) <==> exists k :: 0 <= k < |points| && FirstFault(points, k, error)
  {
    if points != [] {
      var rest := points[1..];
      BatchFaultIff(rest, error);
      if FaultOf(points[0]).Some? {
        if BatchFault(points) == Some(error) { assert FirstFault(points, 0, error); }
      } else if BatchFault(points) == Some(error) {
        var k :| 0 <= k < |rest| && FirstFault(rest, k, error);
        assert FirstFault(points, k + 1, error);
      } else if exists k :: 0 <= k < |points| && FirstFault(points, k, error) {
        var k :| 0 <= k < |points| && FirstFault(points, k, error);
        assert FirstFault(rest, k - 1, error);
      }
    }
  }

  /** An invalid point leaves in the buffer the lines before it, and of its own line what comes before the missing part. */
  lemma {:induction false} FaultStops(points: seq<Point>, k: nat, error: Error)
    requires k < |points| && FirstFault(points, k, error)
    ensures BatchText(points) ==
              BatchText(points[..k]) + (if points[k].measurement == "" then ""
                                        else Escape(points[k].measurement, ESCAPE_MEASUREMENT) + TagsText(points[k].tags))
  {
    if k > 0 {
      FaultStops(points[1..], k - 1, error);
      assert points[1..][..k - 1] == points[..k][1..];
      Glue2(PointText(points[0]) + "\n", BatchText(points[1..][..k - 1]),
            if points[k].measurement == "" then ""
            else Escape(points[k].measurement, ESCAPE_MEASUREMENT) + TagsText(points[k].tags));
    }
  }

  class LineProtocolEncoder {
    var os: string

    constructor ()
      ensures os == ""
    {
      os := "";
    }

    method Append(text: string)
      modifies this
      ensures os == old(os) + text
    {
      os := os + text;
    }

    method AppendEscapeString(origin: string, escapes: string)
      modifies this
      ensures os == old(os) + Escape(origin, escapes)
    {
      for i := 0 to |origin|
        invariant os + Escape(origin[i..], escapes) == old(os) + Escape(origin, escapes)
      {
        var ch := origin[i];
        assert origin[i..][1..] == origin[i + 1..];
        if ch in escapes { Append("\\"); }
        Append([ch]);
      }
    }

    method AppendMeasurement(measurement: string) returns (thrown: Option<Error>)
      modifies this
      ensures thrown == if measurement == "" then Some(InvalidArgument(EmptyMeasurement)) else None
      ensures os == old(os) + Escape(measurement, ESCAPE_MEASUREMENT)
    {
      if measurement == "" {
        return Some(InvalidArgument(EmptyMeasurement));
      }
      AppendEscapeString(measurement, ESCAPE_MEASUREMENT);
      return None;
    }

    method AppendTags(tags: Tags)
      modifies this
      ensures os == old(os) + TagsText(tags)
    {
      for i := 0 to |tags|
        invariant os + TagsText(tags[i..]) == old(os) + TagsText(tags)
      {
        ghost var before := os;
        Append(",");
        AppendEscapeString(tags[i].0, ESCAPE_TAG);
        Append("=");
        AppendEscapeString(tags[i].1, ESCAPE_TAG);
        TagsTextAt(tags, i);
        Glue5(before, ",", Escape(tags[i].0, ESCAPE_TAG), "=", Escape(tags[i].1, ESCAPE_TAG), TagsText(tags[i + 1..]));
      }
    }

    method AppendValue(value: Field)
      modifies this
      ensures os == old(os) + ValueText(value)
    {
      ghost var before := os;
      match value
      case Str(s) =>
        Append("\"");
        AppendEscapeString(s, ESCAPE_FIELD_VALUE);
        Append("\"");
        Glue3(before, "\"", Escape(s, ESCAPE_FIELD_VALUE), "\"");
      case UInt(u) =>
        Append(NatText(u));
        Append("u");
        Glue2(before, NatText(u), "u");
      case Int(i) =>
        Append(IntText(i));
        Append("i");
        Glue2(before, IntText(i), "i");
      case Bool(b) =>
        Append(if b then "T" else "F");
      case Double(numeral) =>
        Append(numeral);
    }

    method AppendField(field: (string, Field))
      modifies this
      ensures os == old(os) + FieldText(field)
    {
      ghost var before := os;
      AppendEscapeString(field.0, ESCAPE_FIELD_KEY);
      Append("=");
      AppendValue(field.1);
      Glue3(before, Escape(field.0, ESCAPE_FIELD_KEY), "=", ValueText(field.1));
    }

    method AppendFields(fields: Fields) returns (thrown: Option<Error>)
      modifies this
      ensures thrown == if fields == [] then Some(InvalidArgument(EmptyFields)) else None
      ensures os == old(os) + (if fields == [] then "" else " " + FieldsText(fields))
    {
      if fields == [] {
        return Some(InvalidArgument(EmptyFields));
      }
      ghost var whole := old(os) + (" " + FieldsText(fields));
      Append(" ");
      Glue2(old(os), " ", FieldsText(fields));
      assert fields[0..] == fields;
      for i := 0 to |fields| - 1
        invariant os + FieldsText(fields[i..]) == whole
      {
        ghost var before := os;
        AppendField(fields[i]);
        Append(",");
        FieldsTextAt(fields, i);
        Glue3(before, FieldText(fields[i]), ",", FieldsText(fields[i + 1..]));
      }
      AppendField(fields[|fields| - 1]);
      return None;
    }

    method AppendTimestamp(time: int, precision: Precision)
      modifies this
      ensures os == old(os) + TimeText(Count(time, precision))
    {
      var count := Count(time, precision);
      if count != 0 {
        Append(" ");
        Append(IntText(count));
        Glue2(old(os), " ", IntText(count));
      }
    }

    method AppendPoint(point: Point) returns (thrown: Option<Error>)
      modifies this
      ensures thrown == FaultOf(point)
      ensures os == old(os) + PointText(point)
    {
      thrown := AppendMeasurement(point.measurement);
      if thrown.Some? { return; }
      AppendTags(point.tags);
      ghost var m, t := Escape(point.measurement, ESCAPE_MEASUREMENT), TagsText(point.tags);
      thrown := AppendFields(point.fields);
      ghost var f := if point.fields == [] then "" else " " + FieldsText(point.fields);
      Glue3(old(os), m, t, f);
      if thrown.Some? { return; }
      AppendTimestamp(point.time, point.precision);
      ghost var s := TimeText(Count(point.time, point.precision));
      Glue2(old(os), m + t + f, s);
      Glue2(m + t, f, s);
    }

    /** Encodes one point, behind whatever the buffer already holds. */
    method EncodePoint(point: Point) returns (r: Result<string, Error>)
      modifies this
      ensures os == old(os) + PointText(point)
      ensures r == match FaultOf(point) case None => Success(os) case Some(e) => Failure(e)
    {
      var thrown := AppendPoint(point);
      return if thrown.Some? then Failure(thrown.value) else Success(os);
    }

    /** Encodes a batch, one line each; on an invalid point what was written so far stays in the buffer. */
    method EncodeBatch(points: seq<Point>) returns (r: Result<string, Error>)
      modifies this
      ensures os == old(os) + BatchText(points)
      ensures r == match BatchFault(points) case None => Success(os) case Some(e) => Failure(e)
    {
      for i := 0 to |points|
        invariant os + BatchText(points[i..]) == old(os) + BatchText(points)
        invariant BatchFault(points[i..]) == BatchFault(points)
      {
        ghost var before := os;
        assert points[i..][1..] == points[i + 1..];
        var thrown := AppendPoint(points[i]);
        if thrown.Some? { return Failure(thrown.value); }
        Append("\n");
        Glue3(before, PointText(points[i]), "\n", BatchText(points[i + 1..]));
      }
      return Success(os);
    }
  }

  lemma TagsTextAt(tags: Tags, i: nat)
    requires i < |tags|
    ensures TagsText(tags[i..])
         == "," + Escape(tags[i].0, ESCAPE_TAG) + "=" + Escape(tags[i].1, ESCAPE_TAG) + TagsText(tags[i + 1..])
  {
    assert tags[i..][1..] == tags[i + 1..];
  }

  lemma FieldsTextAt(fields: Fields, i: nat)
    requires i + 1 < |fields|
    ensures FieldsText(fields[i..]) == FieldText(fields[i]) + "," + FieldsText(fields[i + 1..])
  {
    assert fields[i..][1..] == fields[i + 1..];
  }
}
