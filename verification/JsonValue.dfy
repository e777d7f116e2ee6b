/**
 The values that a JSON tree stands for, and the text that stands for a value: what
 print_value and its helpers write (src/uct_json.c), as a function.
 */
module JsonValue {
  import opened Bytes
  import opened JsonString

  const INT_MAX := 0x7fff_ffff
  const INT_MIN := -0x8000_0000

  const COMMA: Byte := 0x2c
  const COLON: Byte := 0x3a
  const MINUS: Byte := 0x2d
  const OPEN_BRACKET: Byte := 0x5b
  const CLOSE_BRACKET: Byte := 0x5d
  const OPEN_BRACE: Byte := 0x7b
  const CLOSE_BRACE: Byte := 0x7d
  const SPACE: Byte := 0x20
  const TAB: Byte := 9
  const NEWLINE: Byte := 10

  const NULL_TEXT: seq<Byte> := [0x6e, 0x75, 0x6c, 0x6c]
  const FALSE_TEXT: seq<Byte> := [0x66, 0x61, 0x6c, 0x73, 0x65]
  const TRUE_TEXT: seq<Byte> := [0x74, 0x72, 0x75, 0x65]

  datatype Member = Member(key: seq<Byte>, value: Value)

  datatype Value =
    | Null
    | False
    | True
    | Number(double: real)
    | String(text: seq<Byte>)
    | Array(items: seq<Value>)
    | Object(members: seq<Member>)

  // The valueint that goes with a valuedouble: truncated toward zero and saturated.
  function ValueInt(d: real): (n: int)
    ensures INT_MIN <= n <= INT_MAX
    ensures 0.0 <= d < 2147483647.0 ==> n as real <= d < n as real + 1.0
    ensures -2147483648.0 < d <= 0.0 ==> n as real - 1.0 < d <= n as real
    ensures d >= 2147483647.0 ==> n == 2147483647
    ensures d <= -2147483648.0 ==> n == -2147483648
  {
    if d >= INT_MAX as real then INT_MAX
    else if d <= INT_MIN as real then INT_MIN
    else if d >= 0.0 then d.Floor
    else -(-d).Floor
  }

  // The values of the round trip: every number is printed with %d, every string is a C string.
  predicate Printable(v: Value) {
    match v
    case Number(d) => d == ValueInt(d) as real
    case String(t) => NoNul(t)
    case Array(items) => forall i :: 0 <= i < |items| ==> Printable(items[i])
    case Object(members) => forall i :: 0 <= i < |members| ==> NoNul(members[i].key) && Printable(members[i].value)
    case _ => true
  }

  // How deep the arrays and objects of a value nest.
  function Nesting(v: Value): nat {
    match v
    case Array(items) => 1 + ItemsNesting(items)
    case Object(members) => 1 + MembersNesting(members)
    case _ => 0
  }

  function Max(a: nat, b: nat): nat { if a < b then b else a }

  function ItemsNesting(items: seq<Value>): nat {
    if items == [] then 0 else Max(Nesting(items[0]), ItemsNesting(items[1..]))
  }

  function MembersNesting(members: seq<Member>): nat {
    if members == [] then 0 else Max(Nesting(members[0].value), MembersNesting(members[1..]))
  }

  // ----- The printed text -----

  function Digits(n: nat): (r: seq<Byte>)
    ensures r != [] && forall k :: 0 <= k < |r| ==> 0x30 <= r[k] <= 0x39
  {
    if n < 10 then [0x30 + n] else Digits(n / 10) + [0x30 + n % 10]
  }

  function Decimal(n: int): seq<Byte> {
    if n < 0 then [MINUS] + Digits(-n) else Digits(n)
  }

  function Tens(k: nat): nat {
    if k == 0 then 1 else 10 * Tens(k - 1)
  }

  lemma {:induction false} DigitsAreShort(n: nat, k: nat)
    requires k > 0 && n < Tens(k)
    ensures |Digits(n)| <= k
    decreases k
  {
    if n >= 10 {
      DigitsAreShort(n / 10, k - 1);
    }
  }

  // The digits and the sign of an int.
  lemma DecimalIsShort(n: int)
    requires INT_MIN <= n <= INT_MAX
    ensures 0 < |Decimal(n)| <= 11
  {
    assert Tens(10) == 100_0000_0000 by {
      assert Tens(5) == 10_0000;
    }
    DigitsAreShort(if n < 0 then -n else n, 10);
  }

  // What print_number prints: general is the text of %g, special says that the number is infinite or
  // not a number.
  function NumberText(double: real, special: bool, valueInt: int, general: seq<Byte>): seq<Byte> {
    if special then NULL_TEXT else if double == valueInt as real then Decimal(valueInt) else general
  }

  function Tabs(n: nat): (r: seq<Byte>)
    ensures |r| == n && forall k :: 0 <= k < n ==> r[k] == TAB
  {
    seq(n, i => TAB)
  }

  // A value printed at the given depth; with format, arrays and objects are laid out.
  function Render(v: Value, format: bool, depth: nat): (r: seq<Byte>)
    ensures r != []
    decreases v, 0
  {
    match v
    case Null => NULL_TEXT
    case False => FALSE_TEXT
    case True => TRUE_TEXT
    case Number(d) => Decimal(ValueInt(d))
    case String(t) => RenderString(t)
    case Array(items) => [OPEN_BRACKET] + RenderItems(items, format, depth + 1) + [CLOSE_BRACKET]
    case Object(members) => ObjectStart(format) + RenderMembers(members, format, depth + 1) + ObjectEnd(format, depth)
  }

  function ObjectStart(format: bool): seq<Byte> {
    if format then [OPEN_BRACE, NEWLINE] else [OPEN_BRACE]
  }

  function ObjectEnd(format: bool, depth: nat): seq<Byte> {
    if format then Tabs(depth) + [CLOSE_BRACE] else [CLOSE_BRACE]
  }

  function ItemSeparator(format: bool, last: bool): seq<Byte> {
    if last then [] else if format then [COMMA, SPACE] else [COMMA]
  }

  function RenderItem(item: Value, format: bool, depth: nat, last: bool): seq<Byte>
    decreases item, 1
  {
    Render(item, format, depth) + ItemSeparator(format, last)
  }

  function RenderItems(items: seq<Value>, format: bool, depth: nat): seq<Byte>
    decreases items
  {
    if items == [] then []
    else RenderItem(items[0], format, depth, |items| == 1) + RenderItems(items[1..], format, depth)
  }

  function Indent(format: bool, depth: nat): seq<Byte> {
    if format then Tabs(depth) else []
  }

  function KeyEnd(format: bool): seq<Byte> {
    if format then [COLON, TAB] else [COLON]
  }

  function MemberEnd(format: bool, last: bool): seq<Byte> {
    (if last then [] else [COMMA]) + (if format then [NEWLINE] else [])
  }

  function RenderMember(m: Member, format: bool, depth: nat, last: bool): seq<Byte>
    decreases m
  {
    Indent(format, depth) + RenderString(m.key) + KeyEnd(format) + Render(m.value, format, depth) + MemberEnd(format, last)
  }

  function RenderMembers(members: seq<Member>, format: bool, depth: nat): seq<Byte>
    decreases members
  {
    if members == [] then []
    else RenderMember(members[0], format, depth, |members| == 1) + RenderMembers(members[1..], format, depth)
  }

  // The printed text is a C string, so its length can be found by looking for the terminator.
  lemma {:induction false} RenderHasNoNul(v: Value, format: bool, depth: nat)
    ensures NoNul(Render(v, format, depth))
    decreases v
  {
    match v
    case String(t) => EscapedHasNoNul(t);
    case Array(items) => ItemsHaveNoNul(items, format, depth + 1);
    case Object(members) => MembersHaveNoNul(members, format, depth + 1);
    case _ =>
  }

  lemma {:induction false} ItemsHaveNoNul(items: seq<Value>, format: bool, depth: nat)
    ensures NoNul(RenderItems(items, format, depth))
    decreases items
  {
    if items != [] {
      RenderHasNoNul(items[0], format, depth);
      ItemsHaveNoNul(items[1..], format, depth);
    }
  }

  lemma {:induction false} MembersHaveNoNul(members: seq<Member>, format: bool, depth: nat)
    ensures NoNul(RenderMembers(members, format, depth))
    decreases members
  {
    if members != [] {
      EscapedHasNoNul(members[0].key);
      RenderHasNoNul(members[0].value, format, depth);
      MembersHaveNoNul(members[1..], format, depth);
    }
  }
}
