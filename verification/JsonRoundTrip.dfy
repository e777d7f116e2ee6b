/**
 Printing and parsing undo each other (src/uct_json.c): the printed text of a value, formatted or
 not, is in the language of the grammar with that value, so it is parsed back to it, with the same
 keys in the same order.
 */
module JsonRoundTrip {
  import opened Bytes
  import opened JsonString
  import opened JsonValue
  import opened JsonParse
  import opened JsonGrammar
  import opened JsonTokens
  import opened JsonAccepted

  // ----- Numbers and strings -----

  // Reading the digits of a number gives the number.
  lemma {:induction false} NaturalOfDigits(n: nat)
    ensures Natural(Digits(n)) == n
    decreases n
  {
    if n >= 10 {
      NaturalOfDigits(n / 10);
      assert Digits(n)[..|Digits(n)|-1] == Digits(n / 10);
    } else {
      assert Digits(n)[..0] == [];
    }
  }

  // The sign and the digits of a printed number.
  lemma DecimalParts(n: int)
    ensures var t := Decimal(n); var start := if n < 0 then 1 else 0;
            && start < |t| && SignLength(t, 0) == start && DigitsEnd(t, start) == |t|
            && (t[0] == MINUS <==> n < 0)
            && t[start..|t|] == Digits(if n < 0 then -n else n)
  {
    var t := Decimal(n);
    var start := if n < 0 then 1 else 0;
    var digits := Digits(if n < 0 then -n else n);
    assert t[start..|t|] == digits;
    forall k | start <= k < |t| ensures IsDigit(t[k]) {
      assert t[k] == digits[k-start];
    }
  }

  // strtod reads back what %d prints.
  lemma StrtodOfDecimal(n: int)
    ensures Strtod(Decimal(n)) == Conversion(n as real, |Decimal(n)|)
  {
    hide Decimal, Digits, SignLength, DigitsEnd;
    DecimalParts(n);
    NaturalOfDigits(if n < 0 then -n else n);
    assert Natural([]) == 0 && PowerOfTen(0) == 1.0;
  }

  lemma DecimalIsNumber(n: int)
    requires INT_MIN <= n <= INT_MAX
    ensures IsNumber(Decimal(n), n as real)
  {
    hide Decimal, Digits, Natural, BaseTen;
    var digits := Digits(if n < 0 then -n else n);
    var numeral := Numeral(n < 0, digits, false, [], NoExponent);
    DecimalIsShort(n);
    NaturalOfDigits(if n < 0 then -n else n);
    NaturalIsBaseTen(digits);
    DecimalText(n);
    assert digits + [] == digits && Power(0) == 1;
    assert NumeralText(numeral) == Decimal(n);
    assert NumeralValue(numeral) == n as real;
  }

  lemma DecimalText(n: int)
    ensures Decimal(n) == (if n < 0 then [0x2d] else []) + Digits(if n < 0 then -n else n)
  {
  }

  lemma ParsePrintedString(s: seq<Byte>, off: nat, t: seq<Byte>)
    requires At(s, off, RenderString(t)) && NoNul(t)
    ensures ParseStringAt(s, off) == Ok(t, off + |RenderString(t)|)
    ensures s[off] == QUOTE
  {
    hide Escaped, ScanEnd, Decode;
    AtByte(s, off, RenderString(t), 0);
    assert RenderString(t) == [QUOTE] + (Escaped(t) + [QUOTE]);
    AtConcat(s, off, [QUOTE], Escaped(t) + [QUOTE]);
    DecodeUndoesEscape(s, off + 1, t);
  }

  lemma StringIsPrinted(t: seq<Byte>)
    requires NoNul(t)
    ensures IsString(RenderString(t), t)
  {
    hide IsString, RenderString, ParseStringAt;
    var s := RenderString(t);
    Itself(s);
    ParsePrintedString(s, 0, t);
    StringExactly(s, 0, t, |s|);
    assert s[0..|s|] == s;
  }

  // ----- White space around lists -----

  lemma BlankBeforeItems(b: seq<Byte>, t: seq<Byte>, items: seq<Value>)
    requires IsBlank(b) && items != [] && IsItems(t, items)
    ensures IsItems(b + t, items)
  {
    hide IsItems, IsBlank, IsValue;
    var s := b + t;
    assert s[|b|..|s|] == t && s[0..|b|] == b;
    var off, mid, q := ItemsSplit(s, |b|, |s|, items);
    BlankJoined(s, 0, |b|, off);
    ItemsCons(s, 0, off, mid, q, |s|, items[0], items[1..]);
    assert [items[0]] + items[1..] == items && s[0..|s|] == s;
  }

  lemma BlankBeforeMembers(b: seq<Byte>, t: seq<Byte>, members: seq<Member>)
    requires IsBlank(b) && members != [] && IsMembers(t, members)
    ensures IsMembers(b + t, members)
  {
    hide IsMembers, IsBlank, IsMember;
    var s := b + t;
    assert s[|b|..|s|] == t && s[0..|b|] == b;
    var off, mid, q := MembersSplit(s, |b|, |s|, members);
    BlankJoined(s, 0, |b|, off);
    MembersCons(s, 0, off, mid, q, |s|, members[0], members[1..]);
    assert [members[0]] + members[1..] == members && s[0..|s|] == s;
  }

  lemma {:induction false} BlankBehindMembers(t: seq<Byte>, b: seq<Byte>, members: seq<Member>)
    requires IsBlank(b) && members != [] && IsMembers(t, members)
    ensures IsMembers(t + b, members)
    decreases members
  {
    hide IsMembers, IsBlank, IsMember;
    var s := t + b;
    assert s[0..|t|] == t && s[|t|..|s|] == b;
    var off, mid, q := MembersSplit(s, 0, |t|, members);
    if |members| == 1 {
      BlankJoined(s, mid, |t|, |s|);
      MembersCons(s, 0, off, mid, |s|, |s|, members[0], []);
      assert [members[0]] + [] == members;
    } else {
      BlankBehindMembers(s[q+1..|t|], b, members[1..]);
      assert s[q+1..|t|] + b == s[q+1..|s|];
      MembersCons(s, 0, off, mid, q, |s|, members[0], members[1..]);
      assert [members[0]] + members[1..] == members;
    }
    assert s[0..|s|] == s;
  }

  // ----- What is printed is in the language -----

  lemma Layout(format: bool, depth: nat)
    ensures IsBlank([]) && IsBlank(Indent(format, depth))
    ensures KeyEnd(format) == [COLON] + KeyEnd(format)[1..] && IsBlank(KeyEnd(format)[1..])
    ensures ItemSeparator(format, true) == []
    ensures ItemSeparator(format, false) == [COMMA] + ItemSeparator(format, false)[1..] && IsBlank(ItemSeparator(format, false)[1..])
    ensures IsBlank(MemberEnd(format, true))
    ensures MemberEnd(format, false) == [COMMA] + MemberEnd(format, false)[1..] && IsBlank(MemberEnd(format, false)[1..])
    ensures ObjectStart(format) == [OPEN_BRACE] + ObjectStart(format)[1..] && IsBlank(ObjectStart(format)[1..])
    ensures ObjectEnd(format, depth) == Indent(format, depth) + [CLOSE_BRACE]
  {
  }

  /**
   Whatever is printed for a value, in either way and at any depth, is a text of that value.
   */
  lemma {:induction false} PrintedIsValue(v: Value, format: bool, depth: nat)
    requires Printable(v)
    ensures IsValue(Render(v, format, depth), v)
    decreases v, 1
  {
    hide IsString, IsNumber, IsItems, IsMembers, Decimal, RenderString, RenderItems, RenderMembers, ObjectStart, ObjectEnd;
    match v
    case Null =>
    case False =>
    case True =>
    case Number(d) => DecimalIsNumber(ValueInt(d));
    case String(t) => StringIsPrinted(t);
    case Array(items) =>
      ItemsArePrinted(items, format, depth + 1);
      var content := RenderItems(items, format, depth + 1);
      assert ([OPEN_BRACKET] + content + [CLOSE_BRACKET])[1..|content| + 1] == content;
    case Object(members) =>
      ObjectIsPrinted(v, format, depth);
  }

  lemma {:induction false} ItemsArePrinted(items: seq<Value>, format: bool, depth: nat)
    requires forall i :: 0 <= i < |items| ==> Printable(items[i])
    ensures IsItems(RenderItems(items, format, depth), items)
    decreases items, 0
  {
    hide IsValue, Render, ItemSeparator, Printable, IsBlank;
    Layout(format, depth);
    if items != [] {
      PrintedIsValue(items[0], format, depth);
      ItemsArePrinted(items[1..], format, depth);
      ItemsJoined(Render(items[0], format, depth), ItemSeparator(format, |items| == 1), RenderItems(items[1..], format, depth),
                  items[0], items[1..]);
      assert [items[0]] + items[1..] == items;
    }
  }

  lemma ItemsJoined(first: seq<Byte>, separator: seq<Byte>, rest: seq<Byte>, v: Value, more: seq<Value>)
    requires IsValue(first, v)
    requires if more == [] then separator == [] && rest == []
             else separator != [] && separator[0] == COMMA && IsBlank(separator[1..]) && IsItems(rest, more)
    ensures IsItems(first + separator + rest, [v] + more)
  {
    hide IsValue, IsItems, IsBlank;
    var s, n := first + separator + rest, |first|;
    Layout(false, 0);
    assert s[0..0] == [] && s[0..n] == first && s[0..|s|] == s && s[n..n] == [];
    if more != [] {
      assert s[n] == COMMA && s[n+1..|s|] == separator[1..] + rest;
      BlankBeforeItems(separator[1..], rest, more);
    }
    ItemsCons(s, 0, 0, n, n, |s|, v, more);
  }

  lemma {:induction false} ObjectIsPrinted(v: Value, format: bool, depth: nat)
    requires v.Object? && Printable(v)
    ensures IsValue(Render(v, format, depth), v)
    decreases v, 0
  {
    hide IsMembers, IsBlank, RenderMembers, ObjectStart, ObjectEnd, Indent, Render;
    Layout(format, depth);
    var start, content := ObjectStart(format)[1..], RenderMembers(v.members, format, depth + 1);
    var indent := Indent(format, depth);
    MembersArePrinted(v.members, format, depth + 1);
    var t := Render(v, format, depth);
    ObjectText(v, format, depth);
    assert t[1..|t|-1] == start + (content + indent);
    if v.members == [] {
      NoMembers(format, depth + 1);
      assert content + indent == indent;
      BlankConcat(start, indent);
      BlankItems(start + indent);
    } else {
      BlankBehindMembers(content, indent, v.members);
      BlankBeforeMembers(start, content + indent, v.members);
    }
  }

  lemma ObjectText(v: Value, format: bool, depth: nat)
    requires v.Object?
    ensures Render(v, format, depth) ==
            [OPEN_BRACE] + (ObjectStart(format)[1..] + (RenderMembers(v.members, format, depth + 1) + Indent(format, depth))) + [CLOSE_BRACE]
    ensures Printable(v) ==> forall i :: 0 <= i < |v.members| ==> NoNul(v.members[i].key) && Printable(v.members[i].value)
  {
    hide RenderMembers, Indent, NoNul;
    Layout(format, depth);
  }

  lemma BlankConcat(a: seq<Byte>, b: seq<Byte>)
    requires IsBlank(a) && IsBlank(b)
    ensures IsBlank(a + b)
  {
  }

  lemma NoMembers(format: bool, depth: nat)
    ensures RenderMembers([], format, depth) == []
  {
  }

  lemma {:induction false} MembersArePrinted(members: seq<Member>, format: bool, depth: nat)
    requires forall i :: 0 <= i < |members| ==> NoNul(members[i].key) && Printable(members[i].value)
    ensures IsMembers(RenderMembers(members, format, depth), members)
    decreases members, 0
  {
    hide IsMember, Render, RenderString, Printable, NoNul, KeyEnd, MemberEnd, Indent, IsBlank;
    Layout(format, depth);
    if members != [] {
      var m, end, rest := members[0], MemberEnd(format, |members| == 1), RenderMembers(members[1..], format, depth);
      var indent, key, colon, value := Indent(format, depth), RenderString(m.key), KeyEnd(format), Render(m.value, format, depth);
      MemberIsPrinted(m, format, depth);
      MembersArePrinted(members[1..], format, depth);
      MembersJoined(indent, key + colon + value, end, rest, m, members[1..]);
      assert indent + (key + colon + value) == indent + key + colon + value;
      assert [m] + members[1..] == members;
    }
  }

  lemma MembersJoined(indent: seq<Byte>, own: seq<Byte>, end: seq<Byte>, rest: seq<Byte>, m: Member, more: seq<Member>)
    requires IsBlank(indent) && IsMember(own, m)
    requires if more == [] then IsBlank(end) && rest == []
             else end != [] && end[0] == COMMA && IsBlank(end[1..]) && IsMembers(rest, more)
    ensures IsMembers(indent + own + end + rest, [m] + more)
  {
    hide IsMember, IsMembers, IsBlank;
    var s, off := indent + own + end + rest, |indent|;
    var mid := off + |own|;
    Layout(false, 0);
    assert s[0..off] == indent && s[off..mid] == own && s[0..|s|] == s && s[mid..mid] == [];
    if more == [] {
      assert s[mid..|s|] == end;
      MembersCons(s, 0, off, mid, |s|, |s|, m, more);
    } else {
      assert s[mid] == COMMA && s[mid+1..|s|] == end[1..] + rest;
      BlankBeforeMembers(end[1..], rest, more);
      MembersCons(s, 0, off, mid, mid, |s|, m, more);
    }
  }

  lemma {:induction false} MemberIsPrinted(m: Member, format: bool, depth: nat)
    requires NoNul(m.key) && Printable(m.value)
    ensures IsMember(RenderString(m.key) + KeyEnd(format) + Render(m.value, format, depth), m)
    decreases m, 0
  {
    hide IsString, IsValue, IsBlank, Render, RenderString, Printable, KeyEnd;
    var key, colon, value := RenderString(m.key), KeyEnd(format), Render(m.value, format, depth);
    var t := key + colon + value;
    StringIsPrinted(m.key);
    PrintedIsValue(m.value, format, depth);
    Layout(format, depth);
    assert t[..|key|] == key && t[|key|..|key|] == [] && t[|key|] == COLON;
    assert t[|key|+1..|key|+|colon|] == colon[1..] && t[|key|+|colon|..] == value;
    assert KeyAndValue(t, m, |key|, |key|, |key| + |colon|);
  }

  /**
   The round trip inside any text: where a printed value stands, formatted or not, and a number
   cannot go on behind it, the parser finds the value and stops right behind it exactly if the
   nesting limit leaves room, and otherwise it fails.
   */
  lemma ParsePrintedValue(v: Value, s: seq<Byte>, off: nat, format: bool, depth: nat, d: nat)
    requires Printable(v) && d <= NESTING_LIMIT
    requires At(s, off, Render(v, format, depth)) && NumberStops(s, off + |Render(v, format, depth)|)
    ensures ReadsBack(ParseValueAt(s, off, d), v, off + |Render(v, format, depth)|, d + Nesting(v))
  {
    hide Render, IsValue, ParseValueAt, Printable, Nesting;
    PrintedIsValue(v, format, depth);
    ValueIsRead(v, s, off, off + |Render(v, format, depth)|, d);
  }

  // ----- The whole text -----

  /**
   The round trip: for every tree of null, booleans, integers of 32 bits, C strings, arrays and
   objects, parsing the printed text with its terminator gives the tree back if and only if it
   nests no deeper than the limit, and fails otherwise, whether the end is checked or not.
   */
  lemma ParsePrinted(v: Value, format: bool, requireTerminated: bool)
    requires Printable(v)
    ensures ReadsBack(ParseText(Render(v, format, 0) + [NUL], requireTerminated), v, |Render(v, format, 0)|, Nesting(v))
  {
    hide ParseValueAt, Render, IsValue, Printable, Nesting;
    var text := Render(v, format, 0);
    var s := text + [NUL];
    assert At(s, 0, text) && s[0..|text|] == text;
    PrintedIsValue(v, format, 0);
    FirstByte(text, v);
    StartsPlain(s, 0, v, |text|);
    MarkAtStart(s);
    SkipTo(s, 0, 0);
    ParsePrintedValue(v, s, 0, format, 0, 0);
    SkipBlankAtEnd(s, |text|);
  }

  lemma SkipBlankAtEnd(s: seq<Byte>, off: nat)
    requires off + 1 == |s| && s[off] <= 32
    ensures SkipBlank(s, off) == off
  {
  }

  // All numbers are integers of 32 bits.
  predicate Integral(v: Value) {
    match v
    case Number(d) => d == ValueInt(d) as real
    case Array(items) => forall i :: 0 <= i < |items| ==> Integral(items[i])
    case Object(members) => forall i :: 0 <= i < |members| ==> Integral(members[i].value)
    case _ => true
  }

  lemma {:induction false} IntegralIsPrintable(v: Value)
    requires Integral(v) && CStrings(v)
    ensures Printable(v)
    decreases v
  {
    match v
    case Array(items) =>
      forall i | 0 <= i < |items| ensures Printable(items[i]) {
        IntegralIsPrintable(items[i]);
      }
    case Object(members) =>
      forall i | 0 <= i < |members| ensures NoNul(members[i].key) && Printable(members[i].value) {
        IntegralIsPrintable(members[i].value);
      }
    case _ =>
  }

  /**
   Whatever text was accepted, if its numbers are integers of 32 bits: printing the tree, in
   either way, and parsing that again gives the same tree. The nesting limit is never in the way.
   */
  lemma PrintParsedAgain(s: seq<Byte>, checked: bool, format: bool, requireTerminated: bool)
    requires var r := ParseText(s, checked); r.Ok? && Integral(r.value)
    ensures var v := ParseText(s, checked).value;
            ParseText(Render(v, format, 0) + [NUL], requireTerminated) == Ok(v, |Render(v, format, 0)|)
  {
    hide ParseValueAt, Render;
    var v := ParseText(s, checked).value;
    AcceptedValue(s, SkipBlank(s, BomLength(s)), 0);
    IntegralIsPrintable(v);
    ParsePrinted(v, format, requireTerminated);
  }

  // ----- The layout -----

  // {"a":[1,true],"b":{}} as it is printed without a layout.
  lemma PlainInBytes()
    ensures Render(Object([Member([0x61], Array([Number(1.0), True])), Member([0x62], Object([]))]), false, 0) ==
            [0x7b]
            + ([0x22, 0x61, 0x22, 0x3a, 0x5b, 0x31, 0x2c, 0x74, 0x72, 0x75, 0x65, 0x5d, 0x2c] + [0x22, 0x62, 0x22, 0x3a, 0x7b, 0x7d])
            + [0x7d]
  {
    hide Render, RenderMembers, RenderMember;
    var x, y := Array([Number(1.0), True]), Object([]);
    ObjectParts([Member([0x61], x), Member([0x62], y)], false);
    FirstInBytes(x);
    SecondInBytes(y);
  }

  // The same with a layout: a line for each member, tabs in front and behind the colon.
  lemma LayoutInBytes()
    ensures Render(Object([Member([0x61], Array([Number(1.0), True])), Member([0x62], Object([]))]), true, 0) ==
            [0x7b, 10]
            + ([9, 0x22, 0x61, 0x22, 0x3a, 9, 0x5b, 0x31, 0x2c, 0x20, 0x74, 0x72, 0x75, 0x65, 0x5d, 0x2c, 10]
               + [9, 0x22, 0x62, 0x22, 0x3a, 9, 0x7b, 10, 9, 0x7d, 10])
            + [0x7d]
  {
    hide Render, RenderMembers, RenderMember, Tabs, ObjectStart, ObjectEnd;
    var x, y := Array([Number(1.0), True]), Object([]);
    Braces();
    ObjectParts([Member([0x61], x), Member([0x62], y)], true);
    FirstInBytes(x);
    SecondInBytes(y);
  }

  lemma FirstInBytes(v: Value)
    requires v == Array([Number(1.0), True])
    ensures RenderMember(Member([0x61], v), true, 1, false)
         == [9, 0x22, 0x61, 0x22, 0x3a, 9, 0x5b, 0x31, 0x2c, 0x20, 0x74, 0x72, 0x75, 0x65, 0x5d, 0x2c, 10]
    ensures RenderMember(Member([0x61], v), false, 1, false)
         == [0x22, 0x61, 0x22, 0x3a, 0x5b, 0x31, 0x2c, 0x74, 0x72, 0x75, 0x65, 0x5d, 0x2c]
  {
    hide Render, RenderMember;
    ItemsLayout(v, true);
    ItemsLayout(v, false);
    MemberLayout(0x61, v);
  }

  lemma SecondInBytes(v: Value)
    requires v == Object([])
    ensures RenderMember(Member([0x62], v), true, 1, true) == [9, 0x22, 0x62, 0x22, 0x3a, 9, 0x7b, 10, 9, 0x7d, 10]
    ensures RenderMember(Member([0x62], v), false, 1, true) == [0x22, 0x62, 0x22, 0x3a, 0x7b, 0x7d]
  {
    hide Render, RenderMember;
    EmptyLayout(v);
    MemberLayout(0x62, v);
  }

  lemma Braces()
    ensures ObjectStart(true) == [0x7b, 10] && ObjectEnd(true, 0) == [0x7d]
  {
    NoTabs();
  }

  lemma NoTabs()
    ensures Tabs(0) == [] && Tabs(1) == [9]
  {
  }

  lemma ObjectParts(members: seq<Member>, format: bool)
    requires |members| == 2
    ensures Render(Object(members), format, 0) ==
            ObjectStart(format) + (RenderMember(members[0], format, 1, false) + RenderMember(members[1], format, 1, true))
            + ObjectEnd(format, 0)
  {
    hide RenderMember;
    assert members[1..] == [members[1]] && [members[1]][1..] == [];
    assert RenderMembers([members[1]], format, 1) == RenderMember(members[1], format, 1, true);
  }

  lemma EmptyLayout(v: Value)
    requires v == Object([])
    ensures Render(v, false, 1) == [0x7b, 0x7d] && Render(v, true, 1) == [0x7b, 0x0a, 9, 0x7d]
  {
    NoTabs();
    NoMembers(true, 2);
    NoMembers(false, 2);
  }

  lemma MemberLayout(b: Byte, v: Value)
    requires 0x61 <= b <= 0x7a
    ensures forall last: bool ::
              && RenderMember(Member([b], v), false, 1, last)
                 == [0x22, b, 0x22, 0x3a] + Render(v, false, 1) + (if last then [] else [0x2c])
              && RenderMember(Member([b], v), true, 1, last)
                 == [9, 0x22, b, 0x22, 0x3a, 9] + Render(v, true, 1) + (if last then [0x0a] else [0x2c, 0x0a])
  {
    hide Render, RenderString;
    NoTabs();
    KeyLayout(b);
  }

  lemma KeyLayout(b: Byte)
    requires 0x61 <= b <= 0x7a
    ensures RenderString([b]) == [0x22, b, 0x22]
  {
    EscapedNothing();
    assert [b][..0] == [] && Escaped([b]) == Escaped([]) + EscapeByte(b);
  }

  lemma ItemsLayout(v: Value, format: bool)
    requires v == Array([Number(1.0), True])
    ensures Render(v, format, 1) ==
            if format then [0x5b, 0x31, 0x2c, 0x20, 0x74, 0x72, 0x75, 0x65, 0x5d]
            else [0x5b, 0x31, 0x2c, 0x74, 0x72, 0x75, 0x65, 0x5d]
  {
    assert v.items[1..] == [True] && [True][1..] == [];
    assert Render(Number(1.0), format, 2) == [0x31];
  }
}
