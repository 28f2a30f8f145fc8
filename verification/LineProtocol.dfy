/**
 The line protocol: the text `LineProtocolEncoder` writes for points, and the
 reader of the protocol that the text is meant for.
 */
module LineProtocol {
  import opened Wrappers
  import opened Decimal
  import opened Rounding

  // -------------------------------------------------------------------- points

  /** `Double` carries the numeral that `operator<<` prints. */
  datatype Field =
    | Double(numeral: string)
    | Int(i: int)
    | UInt(u: nat)
    | Str(s: string)
    | Bool(b: bool)

  type Tags = seq<(string, string)>
  type Fields = seq<(string, Field)>

  /** The two `std::map`s are the sequences of their entries, in the order of iteration. */
  datatype Point = Point(measurement: string, fields: Fields, time: int, tags: Tags, precision: Precision)

  /** The encoder throws on any other point. */
  predicate Valid(p: Point) {
    p.measurement != "" && p.fields != []
  }

  // ---------------------------------------------------------------------- text

  // The arrays in the header end in NUL only to end the C string: NUL itself is not escaped.
  const ESCAPE_MEASUREMENT := ", "
  const ESCAPE_TAG := ",= "
  const ESCAPE_FIELD_KEY := ",= "
  const ESCAPE_FIELD_VALUE := "\"\\"

  function Escape(origin: string, escapes: string): string {
    if origin == "" then ""
    else (if origin[0] in escapes then ['\\', origin[0]] else [origin[0]]) + Escape(origin[1..], escapes)
  }

  function TagsText(tags: Tags): string {
    if tags == [] then ""
    else "," + Escape(tags[0].0, ESCAPE_TAG) + "=" + Escape(tags[0].1, ESCAPE_TAG) + TagsText(tags[1..])
  }

  function ValueText(value: Field): string {
    match value
    case Double(numeral) => numeral
    case Int(i) => IntText(i) + "i"
    case UInt(u) => NatText(u) + "u"
    case Str(s) => "\"" + Escape(s, ESCAPE_FIELD_VALUE) + "\""
    case Bool(b) => if b then "T" else "F"
  }

  function FieldText(field: (string, Field)): string {
    Escape(field.0, ESCAPE_FIELD_KEY) + "=" + ValueText(field.1)
  }

  function FieldsText(fields: Fields): string {
    if fields == [] then ""
    else if |fields| == 1 then FieldText(fields[0])
    else FieldText(fields[0]) + "," + FieldsText(fields[1..])
  }

  function TimeText(count: int): string {
    if count == 0 then "" else " " + IntText(count)
  }

  /** All that one point writes, also when the encoder throws in the middle of it. */
  function PointText(p: Point): string {
    if p.measurement == "" then ""
    else Escape(p.measurement, ESCAPE_MEASUREMENT) + TagsText(p.tags) +
         (if p.fields == [] then ""
          else " " + FieldsText(p.fields) + TimeText(Count(p.time, p.precision)))
  }

  /** One line per point, up to the first invalid one, which stops the encoder inside its line. */
  function BatchText(points: seq<Point>): string {
    if points == [] then ""
    else if !Valid(points[0]) then PointText(points[0])
    else PointText(points[0]) + "\n" + BatchText(points[1..])
  }

  // -------------------------------------------------------------------- reader

  /** What a reader gets to know of a point: the rounded time, zero when there is none. */
  datatype Line = Line(measurement: string, tags: Tags, fields: Fields, time: int)

  function LineOf(p: Point): Line {
    Line(p.measurement, p.tags, p.fields, Count(p.time, p.precision))
  }

  function LinesOf(points: seq<Point>): seq<Line> {
    if points == [] then [] else [LineOf(points[0])] + LinesOf(points[1..])
  }

  // What a backslash makes literal in each context of the protocol.
  const MEASUREMENT_SPECIALS := ", "
  const TAG_SPECIALS := ",= "
  const FIELD_KEY_SPECIALS := ",= "
  const STRING_SPECIALS := "\"\\"

  // A bare newline ends every component that is not quoted.
  const MEASUREMENT_STOPS := ", \n"
  const TAG_STOPS := ",= \n"
  const FIELD_KEY_STOPS := ",= \n"
  const QUOTE := "\""
  const TOKEN_STOPS := ", \n"

  /** Reads up to a bare stop: a backslash before a character of `escapes` takes it literally. */
  function ReadName(s: string, escapes: string, stops: string): (r: (string, string))
    ensures |r.1| <= |s|
    ensures r.1 != "" ==> r.1[0] in stops
    decreases |s|
  {
    if s == "" then ("", "")
    else if s[0] == '\\' && |s| > 1 && s[1] in escapes then
      var (name, rest) := ReadName(s[2..], escapes, stops);
      ([s[1]] + name, rest)
    else if s[0] in stops then ("", s)
    else
      var (name, rest) := ReadName(s[1..], escapes, stops);
      ([s[0]] + name, rest)
  }

  predicate StartsWith(s: string, c: char) {
    s != "" && s[0] == c
  }

  function ReadTags(s: string): (r: Option<(Tags, string)>)
    ensures r.Some? ==> |r.value.1| <= |s|
    decreases |s|
  {
    if !StartsWith(s, ',') then Some(([], s))
    else
      var (key, s1) := ReadName(s[1..], TAG_SPECIALS, TAG_STOPS);
      if !StartsWith(s1, '=') then None
      else
        var (value, s2) := ReadName(s1[1..], TAG_SPECIALS, TAG_STOPS);
        match ReadTags(s2)
        case None => None
        case Some((tags, rest)) => Some(([(key, value)] + tags, rest))
  }

  /** The forms in which a finite or infinite double or a NaN is printed. */
  predicate IsNumeral(t: string) {
    t != "" && t[|t| - 1] != 'i' && forall c :: c in t ==> IsDigit(c) || c in ".+-einfa"
  }

  function ReadToken(t: string): Option<Field> {
    if t == "" then None
    else if t == "T" then Some(Bool(true))
    else if t == "F" then Some(Bool(false))
    else if t[|t| - 1] == 'u' then
      match ParseNat(t[..|t| - 1])
      case None => None
      case Some(u) => Some(UInt(u))
    else if t[|t| - 1] == 'i' then
      match ParseInt(t[..|t| - 1])
      case None => None
      case Some(i) => Some(Int(i))
    else if IsNumeral(t) then Some(Double(t)) else None
  }

  function ReadValue(s: string): (r: Option<(Field, string)>)
    ensures r.Some? ==> |r.value.1| <= |s|
  {
    if StartsWith(s, '"') then
      var (text, rest) := ReadName(s[1..], STRING_SPECIALS, QUOTE);
      if StartsWith(rest, '"') then Some((Str(text), rest[1..])) else None
    else
      var (token, rest) := ReadName(s, "", TOKEN_STOPS);
      match ReadToken(token)
      case None => None
      case Some(value) => Some((value, rest))
  }

  function ReadFields(s: string): (r: Option<(Fields, string)>)
    ensures r.Some? ==> |r.value.1| <= |s|
    decreases |s|
  {
    var (key, s1) := ReadName(s, FIELD_KEY_SPECIALS, FIELD_KEY_STOPS);
    if !StartsWith(s1, '=') then None
    else
      match ReadValue(s1[1..])
      case None => None
      case Some((value, s2)) =>
        if !StartsWith(s2, ',') then Some(([(key, value)], s2))
        else
          match ReadFields(s2[1..])
          case None => None
          case Some((fields, rest)) => Some(([(key, value)] + fields, rest))
  }

  function ReadTime(s: string): (r: Option<(int, string)>)
    ensures r.Some? ==> |r.value.1| <= |s|
  {
    if !StartsWith(s, ' ') then Some((0, s))
    else
      var (token, rest) := ReadName(s[1..], "", TOKEN_STOPS);
      match ParseInt(token)
      case None => None
      case Some(time) => Some((time, rest))
  }

  function ReadLine(s: string): (r: Option<(Line, string)>)
    ensures r.Some? ==> |r.value.1| <= |s|
  {
    var (measurement, s1) := ReadName(s, MEASUREMENT_SPECIALS, MEASUREMENT_STOPS);
    match ReadTags(s1)
    case None => None
    case Some((tags, s2)) =>
      if measurement == "" || !StartsWith(s2, ' ') then None
      else
        match ReadFields(s2[1..])
        case None => None
        case Some((fields, s3)) =>
          match ReadTime(s3)
          case None => None
          case Some((time, rest)) => Some((Line(measurement, tags, fields, time), rest))
  }

  function DecodePoint(s: string): Option<Line> {
    match ReadLine(s)
    case Some((line, "")) => Some(line)
    case _ => None
  }

  function DecodeBatch(s: string): Option<seq<Line>>
    decreases |s|
  {
    if s == "" then Some([])
    else
      match ReadLine(s)
      case None => None
      case Some((line, rest)) =>
        if !StartsWith(rest, '\n') then None
        else
          match DecodeBatch(rest[1..])
          case None => None
          case Some(lines) => Some([line] + lines)
  }
}
