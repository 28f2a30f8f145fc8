/** Base64 for the Basic credentials: section 4 of RFC 4648, section 2 of RFC 7617. */
module Base64 {
  import opened Strings
  import opened Wrappers

  type Byte = x: int | 0 <= x < 256
  type Sextet = x: int | 0 <= x < 64

  // ------------------------------------------------------------------- encoder

  /** Bits left over from the bytes before: none, two or four. */
  datatype Pending = NoBits | Two(bits: int) | Four(bits: int)

  predicate PendingFits(pending: Pending) {
    match pending
    case NoBits => true
    case Two(bits) => 0 <= bits < 4
    case Four(bits) => 0 <= bits < 16
  }

  /** `transform_width<6, 8>`: six bits at a time, the last group filled up with zeros. */
  function Regroup(pending: Pending, data: seq<Byte>): (groups: seq<Sextet>)
    requires PendingFits(pending)
    decreases |data|
  {
    if data == [] then
      match pending
      case NoBits => []
      case Two(bits) => [bits * 16]
      case Four(bits) => [bits * 4]
    else
      var b := data[0];
      match pending
      case NoBits => [b / 4] + Regroup(Two(b % 4), data[1..])
      case Two(bits) => [bits * 16 + b / 16] + Regroup(Four(b % 16), data[1..])
      case Four(bits) => [bits * 4 + b / 64, b % 64] + Regroup(NoBits, data[1..])
  }

  function CharOf(v: Sextet): char {
    if v < 26 then ('A' as int + v) as char
    else if v < 52 then ('a' as int + (v - 26)) as char
    else if v < 62 then ('0' as int + (v - 52)) as char
    else if v == 62 then '+' else '/'
  }

  function Chars(groups: seq<Sextet>): (text: string)
    ensures |text| == |groups|
    ensures forall i :: 0 <= i < |groups| ==> text[i] == CharOf(groups[i])
  {
    if groups == [] then "" else [CharOf(groups[0])] + Chars(groups[1..])
  }

  function Pads(size: nat): string {
    match size % 3
    case 0 => ""
    case 1 => "=="
    case _ => "="
  }

  function Base64Encode(data: seq<Byte>): string {
    Chars(Regroup(NoBits, data)) + Pads(|data|)
  }

  // ------------------------------------------------------------------- decoder

  function ValueOf(c: char): (v: Option<int>)
    ensures v.Some? ==> 0 <= v.value < 64
  {
    if 'A' <= c <= 'Z' then Some(c as int - 'A' as int)
    else if 'a' <= c <= 'z' then Some(c as int - 'a' as int + 26)
    else if '0' <= c <= '9' then Some(c as int - '0' as int + 52)
    else if c == '+' then Some(62)
    else if c == '/' then Some(63)
    else None
  }

  function Byte0(p: int, q: int): int { p * 4 + q / 16 }
  function Byte1(q: int, r: int): int { q % 16 * 16 + r / 4 }
  function Byte2(r: int, s: int): int { r % 4 * 64 + s }

  /** The strict decoder: full quanta, padding only at the end, bits that are left over zero. */
  function Decode(text: string): Option<seq<int>>
    decreases |text|
  {
    if text == "" then Some([])
    else if |text| < 4 || ValueOf(text[0]).None? || ValueOf(text[1]).None? then None
    else
      var p, q := ValueOf(text[0]).value, ValueOf(text[1]).value;
      match (ValueOf(text[2]), ValueOf(text[3]))
      case (Some(r), Some(s)) =>
        (match Decode(text[4..])
         case None => None
         case Some(rest) => Some([Byte0(p, q), Byte1(q, r), Byte2(r, s)] + rest))
      case (Some(r), None) =>
        if text[3..] == "=" && r % 4 == 0 then Some([Byte0(p, q), Byte1(q, r)]) else None
      case (None, _) =>
        if text[2..] == "==" && q % 16 == 0 then Some([Byte0(p, q)]) else None
  }

  // ------------------------------------------------------------------ theorems

  lemma CharRoundTrip(v: Sextet)
    ensures ValueOf(CharOf(v)) == Some(v)
  {
  }

  lemma ValueRoundTrip(c: char)
    requires ValueOf(c).Some?
    ensures CharOf(ValueOf(c).value) == c
  {
  }

  /** The alphabet of table 1 of RFC 4648: capitals, small letters, digits, plus and slash, each block in order. */
  lemma Alphabet(v: Sextet)
    ensures CharOf(0) == 'A' && CharOf(25) == 'Z' && CharOf(26) == 'a' && CharOf(51) == 'z'
    ensures CharOf(52) == '0' && CharOf(61) == '9' && CharOf(62) == '+' && CharOf(63) == '/'
    ensures v < 61 && v != 25 && v != 51 ==> CharOf(v + 1) as int == CharOf(v) as int + 1
  {
  }

  lemma CharsFour(p: Sextet, q: Sextet, r: Sextet, s: Sextet, rest: seq<Sextet>)
    ensures Chars([p, q, r, s] + rest) == [CharOf(p), CharOf(q), CharOf(r), CharOf(s)] + Chars(rest)
  {
    var all, text := [p, q, r, s] + rest, [CharOf(p), CharOf(q), CharOf(r), CharOf(s)] + Chars(rest);
    forall i | 0 <= i < |all|
      ensures Chars(all)[i] == text[i]
    {
      if i >= 4 { assert all[i] == rest[i - 4]; }
    }
  }

  lemma RegroupNext(pending: Pending, b: Byte, rest: seq<Byte>)
    requires PendingFits(pending)
    ensures Regroup(pending, [b] + rest) ==
      match pending
      case NoBits => [b / 4] + Regroup(Two(b % 4), rest)
      case Two(bits) => [bits * 16 + b / 16] + Regroup(Four(b % 16), rest)
      case Four(bits) => [bits * 4 + b / 64, b % 64] + Regroup(NoBits, rest)
  {
    assert ([b] + rest)[1..] == rest;
  }

  lemma RegroupThree(a: Byte, b: Byte, c: Byte, rest: seq<Byte>)
    ensures Regroup(NoBits, [a, b, c] + rest)
         == [a / 4, a % 4 * 16 + b / 16, b % 16 * 4 + c / 64, c % 64] + Regroup(NoBits, rest)
  {
    assert [a, b, c] + rest == [a] + ([b] + ([c] + rest));
    RegroupNext(NoBits, a, [b] + ([c] + rest));
    RegroupNext(Two(a % 4), b, [c] + rest);
    RegroupNext(Four(b % 16), c, rest);
  }

  /** The number that digits spell in a base, behind the number `front`. */
  function Spelled(front: int, digits: seq<int>, base: int): int
    decreases |digits|
  {
    if digits == [] then front else Spelled(front * base + digits[0], digits[1..], base)
  }

  /** Bits pending count as bits already read. */
  function WithPending(front: int, pending: Pending): int {
    match pending
    case NoBits => front
    case Two(bits) => front * 4 + bits
    case Four(bits) => front * 16 + bits
  }

  /** The zero bits that fill up the last sextet, `n` bytes behind the pending bits, as a factor. */
  function Fill(pending: Pending, n: nat): int
    decreases n
  {
    if n == 0 then (match pending case NoBits => 1 case Two(_) => 16 case Four(_) => 4)
    else Fill(match pending case NoBits => Two(0) case Two(_) => Four(0) case Four(_) => NoBits, n - 1)
  }

  lemma {:induction false} FillByThree(n: nat)
    ensures Fill(NoBits, n) == if n % 3 == 0 then 1 else if n % 3 == 1 then 16 else 4
  {
    if n >= 3 {
      FillByThree(n - 3);
      assert Fill(NoBits, n) == Fill(Two(0), n - 1) == Fill(Four(0), n - 2) == Fill(NoBits, n - 3);
    } else if n == 2 {
      assert Fill(NoBits, n) == Fill(Two(0), 1) == Fill(Four(0), 0);
    }
  }

  lemma {:induction false} FillIgnoresBits(pending: Pending, other: Pending, n: nat)
    requires pending.NoBits? == other.NoBits? && pending.Two? == other.Two?
    ensures Fill(pending, n) == Fill(other, n)
  {
  }

  /** What has been emitted, and the bits then pending, after one more byte. */
  function Emitted(front: int, pending: Pending, b: Byte): (int, Pending) {
    match pending
    case NoBits => (front * 64 + b / 4, Two(b % 4))
    case Two(bits) => (front * 64 + (bits * 16 + b / 16), Four(b % 16))
    case Four(bits) => ((front * 64 + (bits * 4 + b / 64)) * 64 + b % 64, NoBits)
  }

  lemma SpelledTwo(front: int, high: int, low: int, rest: seq<int>)
    ensures Spelled(front, [high, low] + rest, 64) == Spelled((front * 64 + high) * 64 + low, rest, 64)
  {
    SpelledNext(front, high, [low] + rest, 64);
    SpelledNext(front * 64 + high, low, rest, 64);
    assert [high, low] + rest == [high] + ([low] + rest);
  }

  lemma RegroupStep(front: int, pending: Pending, b: Byte, rest: seq<Byte>)
    requires PendingFits(pending)
    ensures var (front', pending') := Emitted(front, pending, b);
            PendingFits(pending')
            && Spelled(front, Regroup(pending, [b] + rest), 64) == Spelled(front', Regroup(pending', rest), 64)
  {
    RegroupNext(pending, b, rest);
    match pending
    case NoBits => SpelledNext(front, b / 4, Regroup(Two(b % 4), rest), 64);
    case Two(bits) => SpelledNext(front, bits * 16 + b / 16, Regroup(Four(b % 16), rest), 64);
    case Four(bits) => SpelledTwo(front, bits * 4 + b / 64, b % 64, Regroup(NoBits, rest));
  }

  lemma SpelledNext(front: int, digit: int, rest: seq<int>, base: int)
    ensures Spelled(front, [digit] + rest, base) == Spelled(front * base + digit, rest, base)
  {
    assert ([digit] + rest)[1..] == rest;
  }

  lemma EmittedKeepsBits(front: int, pending: Pending, b: Byte, n: nat)
    requires PendingFits(pending)
    ensures var (front', pending') := Emitted(front, pending, b);
            && PendingFits(pending')
            && WithPending(front', pending') == WithPending(front, pending) * 256 + b
            && Fill(pending', n) == Fill(pending, n + 1)
  {
    var next := match pending case NoBits => Two(0) case Two(_) => Four(0) case Four(_) => NoBits;
    FillIgnoresBits(Emitted(front, pending, b).1, next, n);
  }

  lemma FillsUp(front: int, pending: Pending)
    requires PendingFits(pending)
    ensures Spelled(front, Regroup(pending, []), 64) == Fill(pending, 0) * WithPending(front, pending)
  {
    match pending
    case NoBits =>
    case Two(bits) => SpelledNext(front, bits * 16, [], 64);
    case Four(bits) => SpelledNext(front, bits * 4, [], 64);
  }

  /** What one more byte makes of the sextets, and of the bits. */
  lemma NextByte(front: int, pending: Pending, b: Byte, rest: seq<Byte>) returns (front': int, pending': Pending)
    requires PendingFits(pending)
    ensures PendingFits(pending') && Fill(pending', |rest|) == Fill(pending, |rest| + 1)
    ensures Spelled(front, Regroup(pending, [b] + rest), 64) == Spelled(front', Regroup(pending', rest), 64)
    ensures Spelled(WithPending(front, pending), [b] + rest, 256) == Spelled(WithPending(front', pending'), rest, 256)
  {
    var emitted := Emitted(front, pending, b);
    front', pending' := emitted.0, emitted.1;
    RegroupStep(front, pending, b, rest);
    EmittedKeepsBits(front, pending, b, |rest|);
    SpelledNext(WithPending(front, pending), b, rest, 256);
  }

  /** The sextets spell the number the bytes spell, the first byte the highest, with zeros behind it. */
  lemma {:induction false} RegroupKeepsBits(front: int, pending: Pending, data: seq<Byte>)
    requires PendingFits(pending)
    ensures Spelled(front, Regroup(pending, data), 64)
         == Fill(pending, |data|) * Spelled(WithPending(front, pending), data, 256)
    decreases |data|
  {
    if data == [] {
      FillsUp(front, pending);
    } else {
      var front', pending' := NextByte(front, pending, data[0], data[1..]);
      RegroupKeepsBits(front', pending', data[1..]);
      assert data == [data[0]] + data[1..];
    }
  }

  /**
   The sextets that the characters of the text stand for are the bits of the data,
   first byte first, filled up with four zero bits behind one last byte and two
   behind two.
   */
  lemma EncodedBits(data: seq<Byte>)
    ensures var groups, text := Regroup(NoBits, data), Base64Encode(data);
            |groups| <= |text| && forall i :: 0 <= i < |groups| ==> text[i] == CharOf(groups[i])
    ensures Spelled(0, Regroup(NoBits, data), 64)
         == (if |data| % 3 == 0 then 1 else if |data| % 3 == 1 then 16 else 4) * Spelled(0, data, 256)
  {
    RegroupKeepsBits(0, NoBits, data);
    FillByThree(|data|);
  }

  lemma PadsNext(n: nat)
    ensures Pads(n + 3) == Pads(n)
  {
  }

  /** The text of a quantum and of what follows it. */
  lemma EncodeQuantum(a: Byte, b: Byte, c: Byte, rest: seq<Byte>)
    ensures Base64Encode([a, b, c] + rest)
         == [CharOf(a / 4), CharOf(a % 4 * 16 + b / 16), CharOf(b % 16 * 4 + c / 64), CharOf(c % 64)]
            + Base64Encode(rest)
  {
    var p, q, r, s := a / 4, a % 4 * 16 + b / 16, b % 16 * 4 + c / 64, c % 64;
    RegroupThree(a, b, c, rest);
    CharsFour(p, q, r, s, Regroup(NoBits, rest));
    PadsNext(|rest|);
    Glue2([CharOf(p), CharOf(q), CharOf(r), CharOf(s)], Chars(Regroup(NoBits, rest)), Pads(|rest|));
  }

  lemma EncodeOne(a: Byte)
    ensures Base64Encode([a]) == [CharOf(a / 4), CharOf(a % 4 * 16)] + "=="
  {
    RegroupNext(NoBits, a, []);
    assert [a] + [] == [a];
    assert Regroup(NoBits, [a]) == [a / 4, a % 4 * 16];
  }

  lemma EncodeTwo(a: Byte, b: Byte)
    ensures Base64Encode([a, b]) == [CharOf(a / 4), CharOf(a % 4 * 16 + b / 16), CharOf(b % 16 * 4)] + "="
  {
    RegroupNext(NoBits, a, [b]);
    RegroupNext(Two(a % 4), b, []);
    assert [a] + [b] == [a, b] && [b] + [] == [b];
    assert Regroup(NoBits, [a, b]) == [a / 4, a % 4 * 16 + b / 16, b % 16 * 4];
  }

  /** Regrouping loses nothing: the bytes are put together again from the sextets. */
  lemma BytesBack(a: Byte, b: Byte, c: Byte)
    ensures Byte0(a / 4, a % 4 * 16 + b / 16) == a
    ensures Byte1(a % 4 * 16 + b / 16, b % 16 * 4 + c / 64) == b
    ensures Byte2(b % 16 * 4 + c / 64, c % 64) == c
  {
  }

  lemma DecodeQuantum(p: Sextet, q: Sextet, r: Sextet, s: Sextet, text: string, rest: seq<int>)
    requires Decode(text) == Some(rest)
    ensures Decode([CharOf(p), CharOf(q), CharOf(r), CharOf(s)] + text)
         == Some([Byte0(p, q), Byte1(q, r), Byte2(r, s)] + rest)
  {
    CharRoundTrip(p);
    CharRoundTrip(q);
    CharRoundTrip(r);
    CharRoundTrip(s);
    assert ([CharOf(p), CharOf(q), CharOf(r), CharOf(s)] + text)[4..] == text;
  }

  lemma DecodeOne(p: Sextet, q: Sextet)
    requires q % 16 == 0
    ensures Decode([CharOf(p), CharOf(q)] + "==") == Some([Byte0(p, q)])
  {
    CharRoundTrip(p);
    CharRoundTrip(q);
    assert ([CharOf(p), CharOf(q)] + "==")[2..] == "==";
  }

  lemma DecodeTwo(p: Sextet, q: Sextet, r: Sextet)
    requires r % 4 == 0
    ensures Decode([CharOf(p), CharOf(q), CharOf(r)] + "=") == Some([Byte0(p, q), Byte1(q, r)])
  {
    CharRoundTrip(p);
    CharRoundTrip(q);
    CharRoundTrip(r);
    assert ([CharOf(p), CharOf(q), CharOf(r)] + "=")[3..] == "=";
  }

  lemma DecodeEncodeOne(a: Byte)
    ensures Decode(Base64Encode([a])) == Some([a])
  {
    EncodeOne(a);
    BytesBack(a, 0, 0);
    DecodeOne(a / 4, a % 4 * 16);
  }

  lemma DecodeEncodeTwo(a: Byte, b: Byte)
    ensures Decode(Base64Encode([a, b])) == Some([a, b])
  {
    EncodeTwo(a, b);
    BytesBack(a, b, 0);
    DecodeTwo(a / 4, a % 4 * 16 + b / 16, b % 16 * 4);
  }

  lemma DecodeEncodeNext(a: Byte, b: Byte, c: Byte, rest: seq<Byte>)
    requires Decode(Base64Encode(rest)) == Some(rest)
    ensures Decode(Base64Encode([a, b, c] + rest)) == Some([a, b, c] + rest)
  {
    var p: Sextet, q: Sextet, r: Sextet, s: Sextet := a / 4, a % 4 * 16 + b / 16, b % 16 * 4 + c / 64, c % 64;
    EncodeQuantum(a, b, c, rest);
    assert Byte0(p, q) == a && Byte1(q, r) == b && Byte2(r, s) == c by { BytesBack(a, b, c); }
    DecodeQuantum(p, q, r, s, Base64Encode(rest), rest);
  }

  /** The decoder gets every byte string back. */
  lemma {:induction false} DecodeEncode(data: seq<Byte>)
    ensures Decode(Base64Encode(data)) == Some(data)
    decreases |data|
  {
    if data == [] {
      assert Base64Encode(data) == "";
    } else if |data| == 1 {
      assert data == [data[0]];
      DecodeEncodeOne(data[0]);
    } else if |data| == 2 {
      assert data == [data[0], data[1]];
      DecodeEncodeTwo(data[0], data[1]);
    } else {
      var rest := data[3..];
      DecodeEncode(rest);
      DecodeEncodeNext(data[0], data[1], data[2], rest);
      assert data == [data[0], data[1], data[2]] + rest;
    }
  }

  predicate AreBytes(data: seq<int>) {
    forall i :: 0 <= i < |data| ==> 0 <= data[i] < 256
  }

  /** And the sextets come back from the bytes they were put into. */
  lemma SextetsBack(p: Sextet, q: Sextet, r: Sextet, s: Sextet)
    ensures 0 <= Byte0(p, q) < 256 && 0 <= Byte1(q, r) < 256 && 0 <= Byte2(r, s) < 256
    ensures Byte0(p, q) / 4 == p
    ensures Byte0(p, q) % 4 * 16 + Byte1(q, r) / 16 == q
    ensures Byte1(q, r) % 16 * 4 + Byte2(r, s) / 64 == r
    ensures Byte2(r, s) % 64 == s
    ensures q % 16 == 0 ==> Byte0(p, q) % 4 * 16 == q
    ensures r % 4 == 0 ==> Byte1(q, r) % 16 * 4 == r
  {
  }

  lemma EncodeDecodedOne(text: string)
    requires |text| >= 4 && Decode(text).Some? && ValueOf(text[2]).None?
    ensures AreBytes(Decode(text).value) && Base64Encode(Decode(text).value) == text
  {
    var p, q := ValueOf(text[0]).value, ValueOf(text[1]).value;
    ValueRoundTrip(text[0]);
    ValueRoundTrip(text[1]);
    SextetsBack(p, q, 0, 0);
    EncodeOne(Byte0(p, q));
    assert text == [text[0], text[1]] + text[2..];
  }

  lemma EncodeDecodedTwo(text: string)
    requires |text| >= 4 && Decode(text).Some? && ValueOf(text[2]).Some? && ValueOf(text[3]).None?
    ensures AreBytes(Decode(text).value) && Base64Encode(Decode(text).value) == text
  {
    var p, q, r := ValueOf(text[0]).value, ValueOf(text[1]).value, ValueOf(text[2]).value;
    ValueRoundTrip(text[0]);
    ValueRoundTrip(text[1]);
    ValueRoundTrip(text[2]);
    SextetsBack(p, q, r, 0);
    EncodeTwo(Byte0(p, q), Byte1(q, r));
    assert text == [text[0], text[1], text[2]] + text[3..];
  }

  lemma EncodeDecodedQuantum(text: string, rest: seq<Byte>)
    requires |text| >= 4 && Base64Encode(rest) == text[4..]
    requires forall i :: 0 <= i < 4 ==> ValueOf(text[i]).Some?
    ensures var p, q, r, s := ValueOf(text[0]).value, ValueOf(text[1]).value, ValueOf(text[2]).value, ValueOf(text[3]).value;
            var data := [Byte0(p, q), Byte1(q, r), Byte2(r, s)];
            AreBytes(data) && Base64Encode(data + rest) == text
  {
    var p, q, r, s := ValueOf(text[0]).value, ValueOf(text[1]).value, ValueOf(text[2]).value, ValueOf(text[3]).value;
    SextetsBack(p, q, r, s);
    EncodeQuantum(Byte0(p, q), Byte1(q, r), Byte2(r, s), rest);
    ValueRoundTrip(text[0]);
    ValueRoundTrip(text[1]);
    ValueRoundTrip(text[2]);
    ValueRoundTrip(text[3]);
    assert text == [text[0], text[1], text[2], text[3]] + text[4..];
  }

  /** Nothing but the encoder's text decodes: the encoding is canonical. */
  lemma {:induction false} EncodeDecode(text: string)
    requires Decode(text).Some?
    ensures AreBytes(Decode(text).value) && Base64Encode(Decode(text).value) == text
    decreases |text|
  {
    if text == "" {
      assert Base64Encode([]) == "";
    } else if ValueOf(text[2]).None? {
      EncodeDecodedOne(text);
    } else if ValueOf(text[3]).None? {
      EncodeDecodedTwo(text);
    } else {
      EncodeDecode(text[4..]);
      EncodeDecodedQuantum(text, Decode(text[4..]).value);
    }
  }

  function PadCount(size: nat): nat {
    (3 - size % 3) % 3
  }

  /** The last `pads` characters are `=`, and no other is. */
  predicate PaddedBy(text: string, pads: nat) {
    forall i :: 0 <= i < |text| ==> (text[i] == '=' <==> i >= |text| - pads)
  }

  lemma PaddedQuantum(p: Sextet, q: Sextet, r: Sextet, s: Sextet, text: string, pads: nat)
    requires PaddedBy(text, pads) && pads <= |text|
    ensures PaddedBy([CharOf(p), CharOf(q), CharOf(r), CharOf(s)] + text, pads)
  {
  }

  predicate RightSize(data: seq<Byte>, text: string) {
    && |text| == 4 * ((|data| + 2) / 3)
    && PadCount(|data|) <= |text| && PaddedBy(text, PadCount(|data|))
  }

  lemma NextSize(n: nat)
    ensures PadCount(n + 3) == PadCount(n) && (n + 3 + 2) / 3 == (n + 2) / 3 + 1
  {
  }

  lemma RightSizeNext(a: Byte, b: Byte, c: Byte, rest: seq<Byte>)
    requires RightSize(rest, Base64Encode(rest))
    ensures RightSize([a, b, c] + rest, Base64Encode([a, b, c] + rest))
  {
    EncodeQuantum(a, b, c, rest);
    NextSize(|rest|);
    PaddedQuantum(a / 4, a % 4 * 16 + b / 16, b % 16 * 4 + c / 64, c % 64, Base64Encode(rest), PadCount(|rest|));
  }

  lemma RightSizeOne(a: Byte)
    ensures RightSize([a], Base64Encode([a]))
  {
    EncodeOne(a);
  }

  lemma RightSizeTwo(a: Byte, b: Byte)
    ensures RightSize([a, b], Base64Encode([a, b]))
  {
    EncodeTwo(a, b);
  }

  /** Four characters for every three bytes begun, and as many pads as bytes are missing, all at the end. */
  lemma {:induction false} EncodedSize(data: seq<Byte>)
    ensures RightSize(data, Base64Encode(data))
    decreases |data|
  {
    if data == [] {
      assert Base64Encode(data) == "";
    } else if |data| == 1 {
      assert data == [data[0]];
      RightSizeOne(data[0]);
    } else if |data| == 2 {
      assert data == [data[0], data[1]];
      RightSizeTwo(data[0], data[1]);
    } else {
      EncodedSize(data[3..]);
      RightSizeNext(data[0], data[1], data[2], data[3..]);
      assert data == [data[0], data[1], data[2]] + data[3..];
    }
  }

  // --------------------------------------------------------------- credentials

  const COLON: Byte := ':' as int

  function Credentials(user: seq<Byte>, password: seq<Byte>): seq<Byte> {
    user + [COLON] + password
  }

  /** How a server takes credentials apart: at the first colon. */
  function SplitAtColon(data: seq<int>): Option<(seq<int>, seq<int>)> {
    if data == [] then None
    else if data[0] == COLON then Some(([], data[1..]))
    else match SplitAtColon(data[1..])
         case None => None
         case Some((user, password)) => Some(([data[0]] + user, password))
  }

  lemma {:induction false} SplitHasNoColon(data: seq<int>)
    requires SplitAtColon(data).Some?
    ensures COLON !in SplitAtColon(data).value.0
  {
    if data[0] != COLON { SplitHasNoColon(data[1..]); }
  }

  lemma {:induction false} SplitCredentials(user: seq<Byte>, password: seq<Byte>)
    requires COLON !in user
    ensures SplitAtColon(Credentials(user, password)) == Some((user, password))
  {
    var data := Credentials(user, password);
    if user == [] {
      assert data[1..] == password;
    } else {
      assert data[1..] == Credentials(user[1..], password);
      SplitCredentials(user[1..], password);
      assert user == [user[0]] + user[1..];
    }
  }

  /** The server recovers user and password from the header exactly when the user name has no colon. */
  lemma CredentialsRecovered(user: seq<Byte>, password: seq<Byte>)
    ensures (match Decode(Base64Encode(Credentials(user, password)))
             case None => false
             case Some(data) => SplitAtColon(data) == Some((user, password))) <==> ':' as int !in user
  {
    DecodeEncode(Credentials(user, password));
    if COLON in user {
      if SplitAtColon(Credentials(user, password)) == Some((user, password)) {
        SplitHasNoColon(Credentials(user, password));
      }
    } else {
      SplitCredentials(user, password);
    }
  }
}
