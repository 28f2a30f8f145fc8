/** The encoder's text and the protocol's reader undo each other, and exactly when. */
module LineProtocolTheorems {
  import opened Wrappers
  import opened Decimal
  import opened Rounding
  import opened LineProtocol
  import opened Strings

  // ------------------------------------------------------------------ escaping

  predicate EndsInBackslash(s: string) {
    s != "" && s[|s| - 1] == '\\'
  }

  /** The text that follows a component either is over or goes on with one of its stops. */
  predicate Follows(rest: string, stops: string) {
    rest == "" || rest[0] in stops
  }

  /** A trailing backslash that is not escaped itself escapes the delimiter behind it. */
  predicate Swallows(name: string, escapes: string, rest: string) {
    '\\' !in escapes && EndsInBackslash(name) && rest != "" && rest[0] in escapes
  }

  lemma ReadEscaped(c: char, more: string, escapes: string, stops: string)
    requires c in escapes
    ensures var (name, rest) := ReadName(more, escapes, stops);
            ReadName(['\\', c] + more, escapes, stops) == ([c] + name, rest)
  {
    assert (['\\', c] + more)[2..] == more;
  }

  lemma ReadPlain(c: char, more: string, escapes: string, stops: string)
    requires c !in stops && !(c == '\\' && more != "" && more[0] in escapes)
    ensures var (name, rest) := ReadName(more, escapes, stops);
            ReadName([c] + more, escapes, stops) == ([c] + name, rest)
  {
    assert ([c] + more)[1..] == more;
  }

  /** No escaped text opens with a character of its escape set, unless that is the backslash. */
  lemma EscapeOpens(name: string, escapes: string)
    requires name != "" && '\\' !in escapes
    ensures Escape(name, escapes) != "" && Escape(name, escapes)[0] !in escapes
  {
  }

  /** Escaping leaves no bare stop, and reading takes every escape back, unless the end swallows what follows. */
  lemma {:induction false} EscapeRecovers(name: string, escapes: string, stops: string, rest: string)
    requires '\\' !in stops && Follows(rest, stops)
    requires forall c :: c in name && c in stops ==> c in escapes
    requires !Swallows(name, escapes, rest)
    ensures ReadName(Escape(name, escapes) + rest, escapes, stops) == (name, rest)
    decreases |name|
  {
    if name == "" {
      assert Escape(name, escapes) + rest == rest;
    } else {
      var c, tail := name[0], name[1..];
      var more := Escape(tail, escapes) + rest;
      assert name == [c] + tail;
      EscapeRecovers(tail, escapes, stops, rest);
      if c in escapes {
        ReadEscaped(c, more, escapes, stops);
        Glue2(['\\', c], Escape(tail, escapes), rest);
      } else {
        if tail == "" {
          assert more == rest;
        } else if c == '\\' {
          EscapeOpens(tail, escapes);
        }
        ReadPlain(c, more, escapes, stops);
        Glue2([c], Escape(tail, escapes), rest);
      }
    }
  }

  lemma {:induction false} EscapeAppends(a: string, b: string, escapes: string)
    ensures Escape(a + b, escapes) == Escape(a, escapes) + Escape(b, escapes)
  {
    if a == "" {
      assert a + b == b;
    } else {
      assert (a + b)[1..] == a[1..] + b;
      EscapeAppends(a[1..], b, escapes);
    }
  }

  lemma EscapeOne(a: string, c: char, b: string, escapes: string)
    ensures Escape(a + [c] + b, escapes)
         == Escape(a, escapes) + (if c in escapes then ['\\', c] else [c]) + Escape(b, escapes)
  {
    EscapeAppends(a + [c], b, escapes);
    EscapeAppends(a, [c], escapes);
    EscapeCons(c, "", escapes);
    assert [c] + "" == [c];
  }

  /** Which characters get a backslash in each context, wherever they stand; all others are copied. */
  lemma EscapedCharacters(a: string, c: char, b: string)
    ensures Escape(a + [c] + b, ESCAPE_MEASUREMENT)
         == Escape(a, ESCAPE_MEASUREMENT)
            + (if c == ',' || c == ' ' then ['\\', c] else [c]) + Escape(b, ESCAPE_MEASUREMENT)
    ensures Escape(a + [c] + b, ESCAPE_TAG)
         == Escape(a, ESCAPE_TAG)
            + (if c == ',' || c == '=' || c == ' ' then ['\\', c] else [c]) + Escape(b, ESCAPE_TAG)
    ensures Escape(a + [c] + b, ESCAPE_FIELD_KEY)
         == Escape(a, ESCAPE_FIELD_KEY)
            + (if c == ',' || c == '=' || c == ' ' then ['\\', c] else [c]) + Escape(b, ESCAPE_FIELD_KEY)
    ensures Escape(a + [c] + b, ESCAPE_FIELD_VALUE)
         == Escape(a, ESCAPE_FIELD_VALUE)
            + (if c == '"' || c == '\\' then ['\\', c] else [c]) + Escape(b, ESCAPE_FIELD_VALUE)
  {
    EscapeOne(a, c, b, ESCAPE_MEASUREMENT);
    EscapeOne(a, c, b, ESCAPE_TAG);
    EscapeOne(a, c, b, ESCAPE_FIELD_KEY);
    EscapeOne(a, c, b, ESCAPE_FIELD_VALUE);
  }

  /** In a context that does not escape the backslash, no name read before a delimiter ends in one. */
  lemma {:induction false} ReadNameKeepsEnd(s: string, escapes: string, stops: string)
    requires '\\' !in escapes && '\\' !in stops
    requires var (_, rest) := ReadName(s, escapes, stops); rest != "" && rest[0] in escapes
    ensures !EndsInBackslash(ReadName(s, escapes, stops).0)
    decreases |s|
  {
    if s[0] == '\\' && |s| > 1 && s[1] in escapes {
      ReadNameKeepsEnd(s[2..], escapes, stops);
    } else if s[0] !in stops {
      ReadNameKeepsEnd(s[1..], escapes, stops);
    }
  }

  /** A name is recovered in front of what follows it exactly when its end does not swallow that. */
  lemma EscapeRecoversIff(name: string, escapes: string, stops: string, rest: string)
    requires '\\' !in stops && Follows(rest, stops)
    requires forall c :: c in name && c in stops ==> c in escapes
    ensures ReadName(Escape(name, escapes) + rest, escapes, stops) == (name, rest)
            <==> !Swallows(name, escapes, rest)
  {
    if Swallows(name, escapes, rest) {
      if ReadName(Escape(name, escapes) + rest, escapes, stops) == (name, rest) {
        ReadNameKeepsEnd(Escape(name, escapes) + rest, escapes, stops);
      }
    } else {
      EscapeRecovers(name, escapes, stops, rest);
    }
  }

  /** No name read contains a stop that cannot be escaped: names hold no newline. */
  lemma {:induction false} ReadNameHasNoStop(s: string, escapes: string, stops: string)
    ensures forall c :: c in ReadName(s, escapes, stops).0 && c in stops ==> c in escapes
    decreases |s|
  {
    if s != "" {
      if s[0] == '\\' && |s| > 1 && s[1] in escapes {
        ReadNameHasNoStop(s[2..], escapes, stops);
      } else if s[0] !in stops {
        ReadNameHasNoStop(s[1..], escapes, stops);
      }
    }
  }

  lemma {:induction false} EscapeNothing(s: string)
    ensures Escape(s, "") == s
  {
    if s != "" { EscapeNothing(s[1..]); }
  }

  /** A token without stops is read whole. */
  lemma ReadTokenText(token: string, rest: string)
    requires Follows(rest, TOKEN_STOPS)
    requires forall c :: c in token ==> c !in TOKEN_STOPS
    ensures ReadName(token + rest, "", TOKEN_STOPS) == (token, rest)
  {
    EscapeNothing(token);
    EscapeRecovers(token, "", TOKEN_STOPS, rest);
  }

  // ---------------------------------------------------------------- components

  /** The names the protocol can carry. */
  predicate Clean(name: string) {
    '\n' !in name && !EndsInBackslash(name)
  }

  predicate CleanTags(tags: Tags) {
    forall i :: 0 <= i < |tags| ==> Clean(tags[i].0) && Clean(tags[i].1)
  }

  predicate CleanFields(fields: Fields) {
    forall i :: 0 <= i < |fields| ==> Clean(fields[i].0)
  }

  predicate CleanPoint(p: Point) {
    Clean(p.measurement) && CleanTags(p.tags) && CleanFields(p.fields)
  }

  predicate Numerals(fields: Fields) {
    forall i :: 0 <= i < |fields| && fields[i].1.Double? ==> IsNumeral(fields[i].1.numeral)
  }

  /** `s` opens with a tag, and `more` follows it. */
  predicate OpensWithTag(s: string, key: string, value: string, more: string) {
    StartsWith(s, ',') &&
    var (name, s1) := ReadName(s[1..], TAG_SPECIALS, TAG_STOPS);
    name == key && StartsWith(s1, '=') && ReadName(s1[1..], TAG_SPECIALS, TAG_STOPS) == (value, more)
  }

  lemma TagRoundTrip(key: string, value: string, more: string)
    requires Clean(key) && Clean(value) && (StartsWith(more, ',') || StartsWith(more, ' '))
    ensures OpensWithTag("," + (Escape(key, ESCAPE_TAG) + ("=" + (Escape(value, ESCAPE_TAG) + more))), key, value, more)
  {
    var afterKey := "=" + (Escape(value, ESCAPE_TAG) + more);
    EscapeRecovers(key, ESCAPE_TAG, TAG_STOPS, afterKey);
    EscapeRecovers(value, ESCAPE_TAG, TAG_STOPS, more);
    assert ("," + (Escape(key, ESCAPE_TAG) + afterKey))[1..] == Escape(key, ESCAPE_TAG) + afterKey;
    assert afterKey[1..] == Escape(value, ESCAPE_TAG) + more;
  }

  lemma TagsTextParts(tags: Tags, rest: string)
    requires tags != []
    ensures TagsText(tags) + rest
         == "," + (Escape(tags[0].0, ESCAPE_TAG)
                   + ("=" + (Escape(tags[0].1, ESCAPE_TAG) + (TagsText(tags[1..]) + rest))))
  {
    Unglue(",", Escape(tags[0].0, ESCAPE_TAG), "=", Escape(tags[0].1, ESCAPE_TAG), TagsText(tags[1..]), rest);
  }

  lemma ReadOneOfTags(s: string, key: string, value: string, more: string, tags: Tags, rest: string)
    requires OpensWithTag(s, key, value, more) && ReadTags(more) == Some((tags, rest))
    ensures ReadTags(s) == Some(([(key, value)] + tags, rest))
  {
  }

  lemma {:induction false} TagsRoundTrip(tags: Tags, rest: string)
    requires CleanTags(tags) && StartsWith(rest, ' ')
    ensures ReadTags(TagsText(tags) + rest) == Some((tags, rest))
    decreases |tags|
  {
    if tags == [] {
      assert TagsText(tags) + rest == rest;
    } else {
      var key, value, more := tags[0].0, tags[0].1, TagsText(tags[1..]) + rest;
      TagsRoundTrip(tags[1..], rest);
      assert tags[1..] == [] ==> more == rest;
      TagsTextParts(tags, rest);
      TagRoundTrip(key, value, more);
      ReadOneOfTags(TagsText(tags) + rest, key, value, more, tags[1..], rest);
      assert tags == [(key, value)] + tags[1..];
    }
  }

  lemma StringRoundTrip(text: string, rest: string)
    ensures ReadValue(ValueText(Str(text)) + rest) == Some((Str(text), rest))
  {
    var s := ValueText(Str(text)) + rest;
    assert s[1..] == Escape(text, ESCAPE_FIELD_VALUE) + ("\"" + rest);
    EscapeRecovers(text, ESCAPE_FIELD_VALUE, QUOTE, "\"" + rest);
  }

  /** What is read as a token is read as a value, when no quote opens it. */
  lemma TokenRoundTrip(token: string, value: Field, rest: string)
    requires token != "" && token[0] != '"' && ReadToken(token) == Some(value)
    requires forall c :: c in token ==> c !in TOKEN_STOPS
    requires Follows(rest, TOKEN_STOPS)
    ensures ReadValue(token + rest) == Some((value, rest))
  {
    ReadTokenText(token, rest);
    assert (token + rest)[0] == token[0];
  }

  lemma SuffixedRoundTrip(digits: string, suffix: string, value: Field, rest: string)
    requires suffix == "i" || suffix == "u"
    requires if suffix == "i" then value.Int? && ParseInt(digits) == Some(value.i)
             else value.UInt? && ParseNat(digits) == Some(value.u)
    requires digits != "" && forall c :: c in digits ==> IsDigit(c) || c == '-'
    requires Follows(rest, TOKEN_STOPS)
    ensures ReadValue(digits + suffix + rest) == Some((value, rest))
  {
    var token := digits + suffix;
    assert token[..|token| - 1] == digits;
    assert digits[0] in digits;
    TokenRoundTrip(token, value, rest);
  }

  lemma BoolRoundTrip(b: bool, rest: string)
    requires Follows(rest, TOKEN_STOPS)
    ensures ReadValue((if b then "T" else "F") + rest) == Some((Bool(b), rest))
  {
    TokenRoundTrip(if b then "T" else "F", Bool(b), rest);
  }

  lemma NumeralRoundTrip(numeral: string, rest: string)
    requires IsNumeral(numeral) && Follows(rest, TOKEN_STOPS)
    ensures ReadValue(numeral + rest) == Some((Double(numeral), rest))
  {
    NumeralIsToken(numeral);
    TokenRoundTrip(numeral, Double(numeral), rest);
  }

  lemma NumeralIsToken(numeral: string)
    requires IsNumeral(numeral)
    ensures numeral[0] != '"' && forall c :: c in numeral ==> c !in TOKEN_STOPS
    ensures ReadToken(numeral) == Some(Double(numeral))
  {
    assert numeral[0] in numeral && numeral[|numeral| - 1] in numeral;
  }

  lemma ValueRoundTrip(value: Field, rest: string)
    requires value.Double? ==> IsNumeral(value.numeral)
    requires Follows(rest, TOKEN_STOPS)
    ensures ReadValue(ValueText(value) + rest) == Some((value, rest))
  {
    match value
    case Str(s) =>
      StringRoundTrip(s, rest);
    case Int(i) =>
      ParseIntText(i);
      IntTextChars(i);
      SuffixedRoundTrip(IntText(i), "i", value, rest);
    case UInt(u) =>
      ParseNatText(u);
      SuffixedRoundTrip(NatText(u), "u", value, rest);
    case Bool(b) =>
      BoolRoundTrip(b, rest);
    case Double(numeral) =>
      NumeralRoundTrip(numeral, rest);
  }

  /** `s` opens with a field, and `more` follows it. */
  predicate OpensWith(s: string, key: string, value: Field, more: string) {
    var (name, s1) := ReadName(s, FIELD_KEY_SPECIALS, FIELD_KEY_STOPS);
    name == key && StartsWith(s1, '=') && ReadValue(s1[1..]) == Some((value, more))
  }

  lemma FieldRoundTrip(key: string, value: Field, more: string)
    requires Clean(key) && (value.Double? ==> IsNumeral(value.numeral))
    requires Follows(more, TOKEN_STOPS)
    ensures OpensWith(FieldText((key, value)) + more, key, value, more)
  {
    var afterKey := "=" + (ValueText(value) + more);
    Glue2(Escape(key, ESCAPE_FIELD_KEY) + "=", ValueText(value), more);
    Glue2(Escape(key, ESCAPE_FIELD_KEY), "=", ValueText(value) + more);
    EscapeRecovers(key, ESCAPE_FIELD_KEY, FIELD_KEY_STOPS, afterKey);
    assert afterKey[1..] == ValueText(value) + more;
    ValueRoundTrip(value, more);
  }

  lemma ReadLastField(s: string, key: string, value: Field, rest: string)
    requires OpensWith(s, key, value, rest) && !StartsWith(rest, ',')
    ensures ReadFields(s) == Some(([(key, value)], rest))
  {
  }

  lemma ReadOneOfFields(s: string, key: string, value: Field, more: string, fields: Fields, rest: string)
    requires OpensWith(s, key, value, "," + more) && ReadFields(more) == Some((fields, rest))
    ensures ReadFields(s) == Some(([(key, value)] + fields, rest))
  {
    assert ("," + more)[1..] == more;
  }

  lemma FieldsTextParts(fields: Fields, rest: string)
    requires |fields| > 1
    ensures FieldsText(fields) + rest == FieldText(fields[0]) + ("," + (FieldsText(fields[1..]) + rest))
  {
    Glue2(FieldText(fields[0]) + ",", FieldsText(fields[1..]), rest);
    Glue2(FieldText(fields[0]), ",", FieldsText(fields[1..]) + rest);
  }

  lemma LastFieldRoundTrip(fields: Fields, rest: string)
    requires |fields| == 1 && CleanFields(fields) && Numerals(fields) && Follows(rest, " \n")
    ensures ReadFields(FieldsText(fields) + rest) == Some((fields, rest))
  {
    FieldRoundTrip(fields[0].0, fields[0].1, rest);
    ReadLastField(FieldText(fields[0]) + rest, fields[0].0, fields[0].1, rest);
    assert fields == [fields[0]];
  }

  lemma MoreFieldsRoundTrip(fields: Fields, rest: string)
    requires |fields| > 1 && CleanFields(fields) && Numerals(fields)
    requires ReadFields(FieldsText(fields[1..]) + rest) == Some((fields[1..], rest))
    ensures ReadFields(FieldsText(fields) + rest) == Some((fields, rest))
  {
    var key, value, more := fields[0].0, fields[0].1, FieldsText(fields[1..]) + rest;
    var s := FieldText(fields[0]) + ("," + more);
    assert FieldsText(fields) + rest == s by { FieldsTextParts(fields, rest); }
    assert OpensWith(s, key, value, "," + more) by { FieldRoundTrip(key, value, "," + more); }
    ReadOneOfFields(s, key, value, more, fields[1..], rest);
    assert fields == [(key, value)] + fields[1..];
  }

  lemma {:induction false} FieldsRoundTrip(fields: Fields, rest: string)
    requires fields != [] && CleanFields(fields) && Numerals(fields) && Follows(rest, " \n")
    ensures ReadFields(FieldsText(fields) + rest) == Some((fields, rest))
    decreases |fields|
  {
    if |fields| == 1 {
      LastFieldRoundTrip(fields, rest);
    } else {
      FieldsRoundTrip(fields[1..], rest);
      MoreFieldsRoundTrip(fields, rest);
    }
  }

  lemma NumberIsToken(n: int)
    ensures forall c :: c in IntText(n) ==> c !in TOKEN_STOPS
  {
    IntTextChars(n);
  }

  lemma ReadTimeToken(token: string, count: int, rest: string)
    requires ParseInt(token) == Some(count) && Follows(rest, "\n")
    requires forall c :: c in token ==> c !in TOKEN_STOPS
    ensures ReadTime(" " + token + rest) == Some((count, rest))
  {
    ReadTokenText(token, rest);
    assert (" " + token + rest)[1..] == token + rest;
  }

  lemma TimeRoundTrip(count: int, rest: string)
    requires Follows(rest, "\n")
    ensures ReadTime(TimeText(count) + rest) == Some((count, rest))
  {
    if count == 0 {
      assert TimeText(count) + rest == rest;
    } else {
      ParseIntText(count);
      NumberIsToken(count);
      ReadTimeToken(IntText(count), count, rest);
    }
  }

  /** The timestamp is left out exactly when the time is within half a unit of zero, and else reads as the count. */
  lemma TimestampText(t: int, precision: Precision)
    ensures var text := TimeText(Count(t, precision));
            if -Unit(precision) <= 2 * t <= Unit(precision) then text == ""
            else text != "" && text[0] == ' ' && ParseInt(text[1..]) == Some(Count(t, precision))
  {
    OmittedIff(t, precision);
    ParseIntText(Count(t, precision));
  }

  /** A line is read when its parts are. */
  lemma ReadLineParts(s: string, s1: string, s2: string, s3: string, line: Line, rest: string)
    requires ReadName(s, MEASUREMENT_SPECIALS, MEASUREMENT_STOPS) == (line.measurement, s1)
    requires ReadTags(s1) == Some((line.tags, s2)) && line.measurement != "" && StartsWith(s2, ' ')
    requires ReadFields(s2[1..]) == Some((line.fields, s3))
    requires ReadTime(s3) == Some((line.time, rest))
    ensures ReadLine(s) == Some((line, rest))
  {
  }

  lemma MeasurementRoundTrip(measurement: string, tags: Tags, s2: string)
    requires Clean(measurement) && StartsWith(s2, ' ')
    ensures var s1 := TagsText(tags) + s2;
            ReadName(Escape(measurement, ESCAPE_MEASUREMENT) + s1, MEASUREMENT_SPECIALS, MEASUREMENT_STOPS)
            == (measurement, s1)
  {
    var s1 := TagsText(tags) + s2;
    assert tags == [] ==> s1 == s2;
    EscapeRecovers(measurement, ESCAPE_MEASUREMENT, MEASUREMENT_STOPS, s1);
  }

  lemma {:induction false} LineText(p: Point, rest: string)
    requires Valid(p)
    ensures PointText(p) + rest
         == Escape(p.measurement, ESCAPE_MEASUREMENT)
            + (TagsText(p.tags)
               + (" " + (FieldsText(p.fields) + (TimeText(Count(p.time, p.precision)) + rest))))
  {
    var m, t := Escape(p.measurement, ESCAPE_MEASUREMENT), TagsText(p.tags);
    var f, s := FieldsText(p.fields), TimeText(Count(p.time, p.precision));
    Glue2(m + t, " " + f + s, rest);
    Glue2(m, t, " " + f + s + rest);
    Glue2(" " + f, s, rest);
    Glue2(" ", f, s + rest);
  }

  lemma {:induction false} LineRoundTrip(p: Point, rest: string)
    requires Valid(p) && CleanPoint(p) && Numerals(p.fields) && Follows(rest, "\n")
    ensures ReadLine(PointText(p) + rest) == Some((LineOf(p), rest))
  {
    var count := Count(p.time, p.precision);
    var s3 := TimeText(count) + rest;
    var s2 := " " + (FieldsText(p.fields) + s3);
    var s1 := TagsText(p.tags) + s2;
    LineText(p, rest);
    MeasurementRoundTrip(p.measurement, p.tags, s2);
    TagsRoundTrip(p.tags, s2);
    assert s2[1..] == FieldsText(p.fields) + s3;
    TimeFollows(count, rest);
    FieldsRoundTrip(p.fields, s3);
    TimeRoundTrip(count, rest);
    ReadLineParts(PointText(p) + rest, s1, s2, s3, LineOf(p), rest);
  }

  lemma TimeFollows(count: int, rest: string)
    requires Follows(rest, "\n")
    ensures Follows(TimeText(count) + rest, " \n")
  {
    assert count == 0 ==> TimeText(count) + rest == rest;
  }

  // ------------------------------------------------------------------- batches

  predicate Sendable(points: seq<Point>) {
    forall i :: 0 <= i < |points| ==> Valid(points[i]) && Numerals(points[i].fields)
  }

  predicate CleanBatch(points: seq<Point>) {
    forall i :: 0 <= i < |points| ==> CleanPoint(points[i])
  }

  lemma DecodeOneMore(s: string, line: Line, more: string, lines: seq<Line>)
    requires ReadLine(s) == Some((line, "\n" + more)) && DecodeBatch(more) == Some(lines)
    ensures DecodeBatch(s) == Some([line] + lines)
  {
    assert ("\n" + more)[1..] == more;
  }

  lemma {:induction false} BatchTextParts(points: seq<Point>)
    requires points != [] && Valid(points[0])
    ensures BatchText(points) == PointText(points[0]) + ("\n" + BatchText(points[1..]))
  {
    Glue2(PointText(points[0]), "\n", BatchText(points[1..]));
  }

  lemma {:induction false} CleanBatchRoundTrip(points: seq<Point>)
    requires Sendable(points) && CleanBatch(points)
    ensures DecodeBatch(BatchText(points)) == Some(LinesOf(points))
    decreases |points|
  {
    if points != [] {
      var p, more := points[0], BatchText(points[1..]);
      CleanBatchRoundTrip(points[1..]);
      LineRoundTrip(p, "\n" + more);
      BatchTextParts(points);
      DecodeOneMore(BatchText(points), LineOf(p), more, LinesOf(points[1..]));
    }
  }

  // ------------------------------------------------------------- and only then

  predicate CleanLine(line: Line) {
    Clean(line.measurement) && CleanTags(line.tags) && CleanFields(line.fields)
  }

  /** A name read in front of a delimiter of its context is clean. */
  lemma ReadNameIsClean(s: string, escapes: string, stops: string)
    requires '\\' !in escapes && '\\' !in stops && '\n' in stops && '\n' !in escapes
    requires var (_, rest) := ReadName(s, escapes, stops); rest != "" && rest[0] in escapes
    ensures Clean(ReadName(s, escapes, stops).0)
  {
    ReadNameKeepsEnd(s, escapes, stops);
    ReadNameHasNoStop(s, escapes, stops);
  }

  lemma {:induction false} ReadTagsIsClean(s: string)
    requires ReadTags(s).Some? && StartsWith(ReadTags(s).value.1, ' ')
    ensures CleanTags(ReadTags(s).value.0)
    ensures StartsWith(s, ',') || StartsWith(s, ' ')
    decreases |s|
  {
    if StartsWith(s, ',') {
      var (key, s1) := ReadName(s[1..], TAG_SPECIALS, TAG_STOPS);
      var (value, s2) := ReadName(s1[1..], TAG_SPECIALS, TAG_STOPS);
      ReadTagsIsClean(s2);
      ReadNameIsClean(s[1..], TAG_SPECIALS, TAG_STOPS);
      ReadNameIsClean(s1[1..], TAG_SPECIALS, TAG_STOPS);
    }
  }

  lemma {:induction false} ReadFieldsIsClean(s: string)
    requires ReadFields(s).Some?
    ensures CleanFields(ReadFields(s).value.0)
    decreases |s|
  {
    var (key, s1) := ReadName(s, FIELD_KEY_SPECIALS, FIELD_KEY_STOPS);
    ReadNameIsClean(s, FIELD_KEY_SPECIALS, FIELD_KEY_STOPS);
    var (value, s2) := ReadValue(s1[1..]).value;
    if StartsWith(s2, ',') { ReadFieldsIsClean(s2[1..]); }
  }

  lemma ReadLineIsClean(s: string)
    requires ReadLine(s).Some?
    ensures CleanLine(ReadLine(s).value.0)
  {
    var (measurement, s1) := ReadName(s, MEASUREMENT_SPECIALS, MEASUREMENT_STOPS);
    var (tags, s2) := ReadTags(s1).value;
    ReadTagsIsClean(s1);
    ReadNameIsClean(s, MEASUREMENT_SPECIALS, MEASUREMENT_STOPS);
    ReadFieldsIsClean(s2[1..]);
  }

  /** The text of one point, as `Encode` returns it for a single point, with the same exact condition. */
  lemma {:induction false} PointRoundTripIff(p: Point)
    requires Valid(p) && Numerals(p.fields)
    ensures DecodePoint(PointText(p)) == Some(LineOf(p)) <==> CleanPoint(p)
  {
    if CleanPoint(p) {
      LineRoundTrip(p, "");
      assert PointText(p) + "" == PointText(p);
    }
    if DecodePoint(PointText(p)) == Some(LineOf(p)) { ReadLineIsClean(PointText(p)); }
  }

  lemma {:induction false} DecodeBatchIsClean(s: string)
    requires DecodeBatch(s).Some?
    ensures forall i :: 0 <= i < |DecodeBatch(s).value| ==> CleanLine(DecodeBatch(s).value[i])
    decreases |s|
  {
    if s != "" {
      var (line, rest) := ReadLine(s).value;
      ReadLineIsClean(s);
      DecodeBatchIsClean(rest[1..]);
    }
  }

  lemma {:induction false} LinesOfAt(points: seq<Point>)
    ensures |LinesOf(points)| == |points|
    ensures forall i :: 0 <= i < |points| ==> LinesOf(points)[i] == LineOf(points[i])
  {
    if points != [] { LinesOfAt(points[1..]); }
  }

  /**
   The batch text gives back every point, in order, with all its parts, exactly
   when no measurement, tag key, tag value or field key contains a newline or
   ends in a backslash. String values are unrestricted.
   */
  lemma {:induction false} BatchRoundTripIff(points: seq<Point>)
    requires Sendable(points)
    ensures DecodeBatch(BatchText(points)) == Some(LinesOf(points)) <==> CleanBatch(points)
  {
    if CleanBatch(points) {
      CleanBatchRoundTrip(points);
    }
    if DecodeBatch(BatchText(points)) == Some(LinesOf(points)) {
      DecodeBatchIsClean(BatchText(points));
      LinesOfAt(points);
      forall i | 0 <= i < |points|
        ensures CleanPoint(points[i])
      {
        assert CleanLine(LinesOf(points)[i]);
      }
    }
  }

  /** So two clean batches with the same text are the same lines. */
  lemma {:induction false} BatchTextInjective(points: seq<Point>, others: seq<Point>)
    requires Sendable(points) && CleanBatch(points) && Sendable(others) && CleanBatch(others)
    requires BatchText(points) == BatchText(others)
    ensures LinesOf(points) == LinesOf(others)
  {
    CleanBatchRoundTrip(points);
    CleanBatchRoundTrip(others);
  }

  /** And the condition is needed: a measurement that ends in a backslash turns a tag into more measurement. */
  lemma TrailingBackslashCollides(fields: Fields, time: int, precision: Precision)
    requires fields != []
    ensures var p := Point("a\\", fields, time, [("T", "0")], precision);
            var q := Point("a,T=0", fields, time, [], precision);
            LineOf(p) != LineOf(q) && PointText(p) == PointText(q)
  {
    var p := Point("a\\", fields, time, [("T", "0")], precision);
    var q := Point("a,T=0", fields, time, [], precision);
    EscapePrefix();
    assert TagsText([("T", "0")][1..]) == "";
    assert TagsText(p.tags) == ",T=0";
    assert Escape("a\\", ESCAPE_MEASUREMENT) + ",T=0" == Escape("a,T=0", ESCAPE_MEASUREMENT) + "";
  }

  lemma EscapePrefix()
    ensures Escape("a\\", ESCAPE_MEASUREMENT) == "a\\"
    ensures Escape("a,T=0", ESCAPE_MEASUREMENT) == "a\\,T=0"
    ensures Escape("T", ESCAPE_TAG) == "T" && Escape("0", ESCAPE_TAG) == "0"
  {
    EscapeCons('a', ",T=0", ESCAPE_MEASUREMENT);
    EscapeCons(',', "T=0", ESCAPE_MEASUREMENT);
    EscapeCons('T', "=0", ESCAPE_MEASUREMENT);
    EscapeCons('=', "0", ESCAPE_MEASUREMENT);
    EscapeCons('0', "", ESCAPE_MEASUREMENT);
    EscapeCons('a', "\\", ESCAPE_MEASUREMENT);
    EscapeCons('\\', "", ESCAPE_MEASUREMENT);
    EscapeCons('T', "", ESCAPE_TAG);
    EscapeCons('0', "", ESCAPE_TAG);
  }

  lemma EscapeCons(c: char, tail: string, escapes: string)
    ensures Escape([c] + tail, escapes) == (if c in escapes then ['\\', c] else [c]) + Escape(tail, escapes)
  {
    assert ([c] + tail)[1..] == tail;
  }
}
