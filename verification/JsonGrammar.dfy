/**
 The language that the parser of src/uct_json.c accepts, as a relation between bytes and values:
 RFC 8259 in byte numbers, with what the code allows beyond it. Nothing here uses the parser.
 */
module JsonGrammar {
  import opened Bytes
  import opened JsonValue
  import JsonString

  // Between two tokens any control byte is white space.
  predicate IsBlank(t: seq<Byte>) {
    forall k :: 0 <= k < |t| ==> t[k] <= 0x20
  }

  // ----- Strings, section 7 of RFC 8259 -----

  // The escapes of one letter: \" \\ \/ \b \f \n \r \t
  const LETTERS: map<Byte, Byte> :=
    map[0x22 := 0x22, 0x5c := 0x5c, 0x2f := 0x2f, 0x62 := 0x08, 0x66 := 0x0c, 0x6e := 0x0a, 0x72 := 0x0d, 0x74 := 0x09]

  // The value of a hexadecimal digit, -1 for any other byte.
  function Nibble(b: Byte): int {
    if 0x30 <= b <= 0x39 then b - 0x30
    else if 0x41 <= b <= 0x46 then b - 0x37
    else if 0x61 <= b <= 0x66 then b - 0x57
    else -1
  }

  // Four digits. If one of them is none, the code takes the whole for 0.
  function Unit(b: seq<Byte>): (u: nat)
    requires |b| == 4
  {
    var p, q, r, v := Nibble(b[0]), Nibble(b[1]), Nibble(b[2]), Nibble(b[3]);
    if p < 0 || q < 0 || r < 0 || v < 0 then 0 else 0x1000 * p + 0x100 * q + 0x10 * r + v
  }

  // The bits of a byte behind its mark.
  function Bits(b: Byte, mark: nat): int { b - mark }

  predicate IsTail(b: Byte) { 0x80 <= b < 0xc0 }

  // The encoding of a code point, the table of section 3 of RFC 3629.
  predicate IsUtf8(c: nat, b: seq<Byte>) {
    || (|b| == 1 && c < 0x80 && b[0] == c)
    || (|b| == 2 && 0x80 <= c && 0xc0 <= b[0] < 0xe0 && IsTail(b[1])
        && c == 0x40 * Bits(b[0], 0xc0) + Bits(b[1], 0x80))
    || (|b| == 3 && 0x800 <= c && 0xe0 <= b[0] < 0xf0 && IsTail(b[1]) && IsTail(b[2])
        && c == 0x1000 * Bits(b[0], 0xe0) + 0x40 * Bits(b[1], 0x80) + Bits(b[2], 0x80))
    || (|b| == 4 && 0x1_0000 <= c <= 0x10_ffff && 0xf0 <= b[0] < 0xf8 && IsTail(b[1]) && IsTail(b[2]) && IsTail(b[3])
        && c == 0x4_0000 * Bits(b[0], 0xf0) + 0x1000 * Bits(b[1], 0x80) + 0x40 * Bits(b[2], 0x80) + Bits(b[3], 0x80))
  }

  // Code point c stands at the start of t and rest is what follows.
  ghost predicate StartsWith(t: seq<Byte>, c: nat, rest: seq<Byte>) {
    |rest| <= |t| && t[|t| - |rest|..] == rest && IsUtf8(c, t[..|t| - |rest|])
  }

  // Bytes b between the quotes spell text t.  A single backslash at the end can only be left over
  // by an escape with bad digits; the code then takes the closing quote for its letter.
  ghost predicate Spells(b: seq<Byte>, t: seq<Byte>)
    decreases |b|
  {
    if b == [] then t == []
    else if b[0] != 0x5c then t != [] && t[0] == b[0] && Spells(b[1..], t[1..])
    else if |b| == 1 then t == [0x22]
    else if b[1] in LETTERS then t != [] && t[0] == LETTERS[b[1]] && Spells(b[2..], t[1..])
    else if b[1] != 0x75 || |b| < 6 then false
    else if 0xd800 <= Unit(b[2..6]) <= 0xdbff then
      && |b| >= 12 && b[6] == 0x5c && b[7] == 0x75 && 0xdc00 <= Unit(b[8..12]) <= 0xdfff
      && exists rest ::
        && StartsWith(t, 0x1_0000 + 0x400 * (Unit(b[2..6]) - 0xd800) + (Unit(b[8..12]) - 0xdc00), rest)
        && Spells(b[12..], rest)
    else
      && !(0xdc00 <= Unit(b[2..6]) <= 0xdfff)
      && exists rest :: StartsWith(t, Unit(b[2..6]), rest) && Spells(b[6..], rest)
  }

  // No quote, but for those behind a backslash.
  predicate Unbroken(b: seq<Byte>)
    decreases |b|
  {
    if b == [] then true
    else if b[0] == 0x5c then |b| > 1 && Unbroken(b[2..])
    else b[0] != 0x22 && Unbroken(b[1..])
  }

  // A string token and the C string it stands for: what is spelled ends at the first NUL.
  ghost predicate IsString(t: seq<Byte>, text: seq<Byte>) {
    && |t| >= 2 && t[0] == 0x22 && t[|t|-1] == 0x22 && Unbroken(t[1..|t|-1])
    && exists spelled :: Spells(t[1..|t|-1], spelled) && text == JsonString.CString(spelled)
  }

  // ----- Numbers, section 6 of RFC 8259 -----

  /**
   The parts of a number. RFC 8259 wants a first part without leading zeros and digits behind the
   point; the code does without.
   */
  datatype Numeral = Numeral(minus: bool, whole: seq<Byte>, point: bool, fraction: seq<Byte>, exponent: Exponent)

  datatype Exponent = NoExponent | Exponent(mark: Byte, sign: seq<Byte>, digits: seq<Byte>)

  predicate AreDigits(t: seq<Byte>) {
    forall k :: 0 <= k < |t| ==> 0x30 <= t[k] <= 0x39
  }

  predicate GoodExponent(e: Exponent) {
    e.Exponent? ==> e.mark in {0x65, 0x45} && e.sign in {[], [0x2b], [0x2d]} && e.digits != [] && AreDigits(e.digits)
  }

  predicate GoodNumeral(n: Numeral) {
    && AreDigits(n.whole) && AreDigits(n.fraction) && GoodExponent(n.exponent)
    && (!n.point ==> n.fraction == [])
    && n.whole + n.fraction != [] && (n.minus || n.whole != [])
  }

  function ExponentText(e: Exponent): seq<Byte> {
    if e.NoExponent? then [] else [e.mark] + e.sign + e.digits
  }

  function NumeralText(n: Numeral): seq<Byte> {
    (if n.minus then [0x2d] else []) + n.whole + (if n.point then [0x2e] else []) + n.fraction + ExponentText(n.exponent)
  }

  // Digits in base 10, the first one counting most.
  function BaseTen(t: seq<Byte>): nat
    requires AreDigits(t)
  {
    if t == [] then 0 else (t[0] - 0x30) * Power(|t| - 1) + BaseTen(t[1..])
  }

  function Power(n: nat): (p: nat)
    ensures p > 0
  {
    if n == 0 then 1 else 10 * Power(n - 1)
  }

  function Scale(x: real, e: Exponent): real
    requires GoodExponent(e)
  {
    if e.NoExponent? then x
    else if e.sign == [0x2d] then x / Power(BaseTen(e.digits)) as real
    else x * Power(BaseTen(e.digits)) as real
  }

  // All digits as one number, one power of ten less for every digit behind the point.
  function NumeralValue(n: Numeral): real
    requires GoodNumeral(n)
  {
    var x := Scale(BaseTen(n.whole + n.fraction) as real / Power(|n.fraction|) as real, n.exponent);
    if n.minus then -x else x
  }

  // A number token; the code takes at most 63 bytes.
  ghost predicate IsNumber(t: seq<Byte>, d: real) {
    |t| <= 63 && exists n :: GoodNumeral(n) && t == NumeralText(n) && d == NumeralValue(n)
  }

  // ----- Values, sections 3 to 5 of RFC 8259 -----

  ghost predicate IsValue(t: seq<Byte>, v: Value)
    decreases v, 0
  {
    match v
    case Null => t == [0x6e, 0x75, 0x6c, 0x6c]
    case False => t == [0x66, 0x61, 0x6c, 0x73, 0x65]
    case True => t == [0x74, 0x72, 0x75, 0x65]
    case Number(d) => IsNumber(t, d)
    case String(text) => IsString(t, text)
    case Array(items) => |t| >= 2 && t[0] == 0x5b && t[|t|-1] == 0x5d && IsItems(t[1..|t|-1], items)
    case Object(members) => |t| >= 2 && t[0] == 0x7b && t[|t|-1] == 0x7d && IsMembers(t[1..|t|-1], members)
  }

  // What stands between the brackets: values with commas between them.
  ghost predicate IsItems(t: seq<Byte>, items: seq<Value>)
    decreases items, 1
  {
    if items == [] then IsBlank(t) else exists i, j, k :: ItemFirst(t, items, i, j, k)
  }

  // The first value stands from i to j, and k is behind the white space that follows it.
  ghost predicate ItemFirst(t: seq<Byte>, items: seq<Value>, i: nat, j: nat, k: nat)
    requires items != []
    decreases items, 0
  {
    && i <= j <= k <= |t| && IsBlank(t[..i]) && IsValue(t[i..j], items[0]) && IsBlank(t[j..k])
    && if |items| == 1 then k == |t| else k < |t| && t[k] == 0x2c && IsItems(t[k+1..], items[1..])
  }

  // A key, a colon and a value.
  ghost predicate IsMember(t: seq<Byte>, m: Member)
    decreases m, 1
  {
    exists j, k, l :: KeyAndValue(t, m, j, k, l)
  }

  ghost predicate KeyAndValue(t: seq<Byte>, m: Member, j: nat, k: nat, l: nat)
    decreases m, 0
  {
    && j <= k < l <= |t| && t[k] == 0x3a
    && IsString(t[..j], m.key) && IsBlank(t[j..k]) && IsBlank(t[k+1..l]) && IsValue(t[l..], m.value)
  }

  ghost predicate IsMembers(t: seq<Byte>, members: seq<Member>)
    decreases members, 1
  {
    if members == [] then IsBlank(t) else exists i, j, k :: MemberFirst(t, members, i, j, k)
  }

  ghost predicate MemberFirst(t: seq<Byte>, members: seq<Member>, i: nat, j: nat, k: nat)
    requires members != []
    decreases members, 0
  {
    && i <= j <= k <= |t| && IsBlank(t[..i]) && IsMember(t[i..j], members[0]) && IsBlank(t[j..k])
    && if |members| == 1 then k == |t| else k < |t| && t[k] == 0x2c && IsMembers(t[k+1..], members[1..])
  }

  // A text with its terminator: a byte order mark may stand in front, and NUL counts as white space.
  ghost predicate IsDocument(s: seq<Byte>, v: Value) {
    exists mark, from, next :: Document(s, v, mark, from, next)
  }

  ghost predicate Document(s: seq<Byte>, v: Value, mark: nat, from: nat, next: nat) {
    && mark <= from <= next < |s| && (mark == 0 || (mark == 3 && s[..3] == [0xef, 0xbb, 0xbf]))
    && IsBlank(s[mark..from]) && IsValue(s[from..next], v) && IsBlank(s[next..]) && s[|s|-1] == 0
  }
}
