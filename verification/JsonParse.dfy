/**
 What parse_value and its helpers accept and produce (src/uct_json.c), as functions of the
 text, the offset and the nesting depth; and what holds of every accepted text.

 Numbers are exact: strtod is modelled over the reals.
 */
module JsonParse {
  import opened Bytes
  import opened JsonString
  import opened JsonValue

  const NESTING_LIMIT := 1000
  const NUMBER_LIMIT := 63
  const PLUS: Byte := 0x2b
  const DOT: Byte := 0x2e
  const LETTER_E: Byte := 0x65
  const CAPITAL_E: Byte := 0x45

  // A value and the offset behind it, or the offset at which parsing stopped.
  datatype Result<T> = Ok(value: T, next: nat) | Fail(at: nat)

  // ----- White space -----

  // The first byte at or behind off that is not white space, or the end.
  function BlankEnd(s: seq<Byte>, off: nat): (r: nat)
    requires off <= |s|
    ensures off <= r <= |s|
    ensures r < |s| ==> s[r] > 32
    ensures forall k :: off <= k < r ==> s[k] <= 32
    decreases |s| - off
  {
    if off < |s| && s[off] <= 32 then BlankEnd(s, off + 1) else off
  }

  // buffer_skip_whitespace: at the end of the text it steps back onto the last byte.
  function SkipBlank(s: seq<Byte>, off: nat): (r: nat)
    requires off <= |s|
    ensures off <= r <= |s|
    ensures off < |s| ==> r < |s|
  {
    if off == |s| then off
    else if BlankEnd(s, off) == |s| then |s| - 1
    else BlankEnd(s, off)
  }

  // ----- Numbers -----

  predicate IsDigit(b: Byte) { 0x30 <= b <= 0x39 }

  predicate IsNumberByte(b: Byte) {
    IsDigit(b) || b == PLUS || b == MINUS || b == DOT || b == LETTER_E || b == CAPITAL_E
  }

  // How many bytes parse_number copies: at most limit, only bytes of a number.
  function NumberRun(s: seq<Byte>, off: nat, limit: nat): (n: nat)
    requires off <= |s|
    ensures n <= limit && off + n <= |s|
    decreases limit
  {
    if limit > 0 && off < |s| && IsNumberByte(s[off]) then 1 + NumberRun(s, off + 1, limit - 1) else 0
  }

  function DigitsEnd(t: seq<Byte>, i: nat): (r: nat)
    requires i <= |t|
    ensures i <= r <= |t| && forall k :: i <= k < r ==> IsDigit(t[k])
    ensures r < |t| ==> !IsDigit(t[r])
    decreases |t| - i
  {
    if i < |t| && IsDigit(t[i]) then DigitsEnd(t, i + 1) else i
  }

  function Natural(t: seq<Byte>): nat
    requires forall k :: 0 <= k < |t| ==> IsDigit(t[k])
  {
    if t == [] then 0
    else
      assert IsDigit(t[|t|-1]);
      Natural(t[..|t|-1]) * 10 + (t[|t|-1] - 0x30)
  }

  function PowerOfTen(n: nat): (p: real)
    ensures p > 0.0
  {
    if n == 0 then 1.0 else 10.0 * PowerOfTen(n - 1)
  }

  function Scaled(x: real, exponent: int): real {
    if exponent >= 0 then x * PowerOfTen(exponent) else x / PowerOfTen(-exponent)
  }

  function SignLength(t: seq<Byte>, i: nat): (n: nat)
    requires i <= |t|
    ensures i + n <= |t|
  {
    if i < |t| && (t[i] == PLUS || t[i] == MINUS) then 1 else 0
  }

  datatype Conversion = Conversion(value: real, length: nat)

  // The exponent behind a mantissa that ends at i; without digits there is none.
  function ConvertExponent(t: seq<Byte>, i: nat): (r: (int, nat))
    requires i <= |t|
    ensures i <= r.1 <= |t|
  {
    if i < |t| && (t[i] == LETTER_E || t[i] == CAPITAL_E) then
      var start := i + 1 + SignLength(t, i + 1);
      var end := DigitsEnd(t, start);
      if end == start then (0, i)
      else
        var e: int := Natural(t[start..end]);
        (if t[i+1] == MINUS then -e else e, end)
    else (0, i)
  }

  // strtod on bytes of numbers: the longest prefix that is a number, length 0 if there is none.
  function Strtod(t: seq<Byte>): (c: Conversion)
    ensures c.length <= |t|
  {
    var start := SignLength(t, 0);
    var whole := DigitsEnd(t, start);
    var hasPoint := whole < |t| && t[whole] == DOT;
    var end := if hasPoint then DigitsEnd(t, whole + 1) else whole;
    var fraction := if hasPoint then t[whole+1..end] else [];
    if whole - start + |fraction| == 0 then Conversion(0.0, 0)
    else
      var mantissa := Natural(t[start..whole]) as real + Natural(fraction) as real / PowerOfTen(|fraction|);
      var exponent := ConvertExponent(t, end);
      Conversion(Scaled(if t[0] == MINUS then -mantissa else mantissa, exponent.0), exponent.1)
  }

  function ParseNumberAt(s: seq<Byte>, off: nat): (r: Result<Value>)
    requires off <= |s|
    ensures r.Ok? ==> off < r.next <= |s|
    ensures r.Fail? ==> r.at == off
  {
    var c := Strtod(s[off..off+NumberRun(s, off, NUMBER_LIMIT)]);
    if c.length == 0 then Fail(off) else Ok(Number(c.value), off + c.length)
  }

  // ----- Strings -----

  // parse_string; what it stores is read as a C string. At the end of the text it fails, whatever
  // byte stands behind; see the method that models it.
  function ParseStringAt(s: seq<Byte>, off: nat): (r: Result<seq<Byte>>)
    requires off <= |s|
    ensures r.Ok? ==> off < r.next <= |s| && NoNul(r.value)
  {
    if off == |s| || s[off] != QUOTE then Fail(off + 1)
    else
      var end := ScanEnd(s, off + 1);
      if end == -1 then Fail(off + 1)
      else
        match Decode(s, off + 1, end, [])
        case Undecodable(at) => Fail(at)
        case Decoded(text) => Ok(CString(text), end + 1)
  }

  // ----- Values -----

  function ParseValueAt(s: seq<Byte>, off: nat, depth: nat): (r: Result<Value>)
    requires off <= |s|
    ensures r.Ok? ==> off < r.next <= |s|
    decreases |s| - off, 3
  {
    if At(s, off, NULL_TEXT) then Ok(Null, off + 4)
    else if At(s, off, FALSE_TEXT) then Ok(False, off + 5)
    else if At(s, off, TRUE_TEXT) then Ok(True, off + 4)
    else if off == |s| then Fail(off)
    else if s[off] == QUOTE then
      match ParseStringAt(s, off)
      case Ok(text, next) => Ok(String(text), next)
      case Fail(at) => Fail(at)
    else if s[off] == MINUS || IsDigit(s[off]) then ParseNumberAt(s, off)
    else if s[off] == OPEN_BRACKET then ParseArrayAt(s, off, depth)
    else if s[off] == OPEN_BRACE then ParseObjectAt(s, off, depth)
    else Fail(off)
  }

  function ParseArrayAt(s: seq<Byte>, off: nat, depth: nat): (r: Result<Value>)
    requires off < |s|
    ensures r.Ok? ==> off < r.next <= |s|
    decreases |s| - off, 1
  {
    if depth >= NESTING_LIMIT then Fail(off)
    else
      var p := SkipBlank(s, off + 1);
      if p == |s| then Fail(p - 1)
      else if s[p] == CLOSE_BRACKET then Ok(Array([]), p + 1)
      else ParseItemsAt(s, p - 1, depth + 1, [])
  }

  // The items behind the byte at p: an opening bracket, a comma or white space.
  function ParseItemsAt(s: seq<Byte>, p: nat, depth: nat, items: seq<Value>): (r: Result<Value>)
    requires p < |s|
    ensures r.Ok? ==> p < r.next <= |s|
    decreases |s| - p, 0
  {
    match ParseValueAt(s, SkipBlank(s, p + 1), depth)
    case Fail(at) => Fail(at)
    case Ok(value, next) =>
      var q := SkipBlank(s, next);
      if q < |s| && s[q] == COMMA then ParseItemsAt(s, q, depth, items + [value])
      else if q == |s| || s[q] != CLOSE_BRACKET then Fail(q)
      else Ok(Array(items + [value]), q + 1)
  }

  function ParseObjectAt(s: seq<Byte>, off: nat, depth: nat): (r: Result<Value>)
    requires off < |s|
    ensures r.Ok? ==> off < r.next <= |s|
    decreases |s| - off, 2
  {
    if depth >= NESTING_LIMIT then Fail(off)
    else
      var p := SkipBlank(s, off + 1);
      if p == |s| then Fail(p - 1)
      else if s[p] == CLOSE_BRACE then Ok(Object([]), p + 1)
      else ParseMembersAt(s, p - 1, depth + 1, [])
  }

  // A key, a colon and a value.
  function ParseMemberAt(s: seq<Byte>, p: nat, depth: nat): (r: Result<Member>)
    requires p < |s|
    ensures r.Ok? ==> p < r.next <= |s|
    decreases |s| - p, 0
  {
    match ParseStringAt(s, SkipBlank(s, p + 1))
    case Fail(at) => Fail(at)
    case Ok(key, next) =>
      var q := SkipBlank(s, next);
      if q == |s| || s[q] != COLON then Fail(q)
      else
        match ParseValueAt(s, SkipBlank(s, q + 1), depth)
        case Fail(at) => Fail(at)
        case Ok(value, after) => Ok(Member(key, value), after)
  }

  function ParseMembersAt(s: seq<Byte>, p: nat, depth: nat, members: seq<Member>): (r: Result<Value>)
    requires p < |s|
    ensures r.Ok? ==> p < r.next <= |s|
    decreases |s| - p, 1
  {
    match ParseMemberAt(s, p, depth)
    case Fail(at) => Fail(at)
    case Ok(member, next) =>
      var q := SkipBlank(s, next);
      if q < |s| && s[q] == COMMA then ParseMembersAt(s, q, depth, members + [member])
      else if q == |s| || s[q] != CLOSE_BRACE then Fail(q)
      else Ok(Object(members + [member]), q + 1)
  }

  const BOM: seq<Byte> := [0xef, 0xbb, 0xbf]

  // skip_utf8_bom, which wants a fifth byte.
  function BomLength(s: seq<Byte>): (n: nat)
    ensures n <= |s|
  {
    if |s| > 4 && At(s, 0, BOM) then 3 else 0
  }

  // cJSON_ParseWithLengthOpts; the failure carries the error position.
  function ParseText(s: seq<Byte>, requireTerminated: bool): (r: Result<Value>)
    ensures r.Ok? ==> r.next <= |s|
    ensures r.Fail? ==> r.at < |s| || r.at == |s| == 0
  {
    if s == [] then Fail(0)
    else
      match ParseValueAt(s, SkipBlank(s, BomLength(s)), 0)
      case Fail(at) => Fail(ErrorPosition(s, at))
      case Ok(value, next) =>
        if !requireTerminated then Ok(value, next)
        else
          var end := SkipBlank(s, next);
          if end == |s| || s[end] != NUL then Fail(ErrorPosition(s, end)) else Ok(value, end)
  }

  function ErrorPosition(s: seq<Byte>, at: nat): (r: nat)
    ensures s != [] ==> r < |s|
  {
    if at < |s| then at else if s != [] then |s| - 1 else 0
  }

  // Only a literal starts like one.
  lemma NotLiteral(s: seq<Byte>, off: nat)
    requires off < |s|
    ensures At(s, off, NULL_TEXT) ==> s[off] == NULL_TEXT[0]
    ensures At(s, off, FALSE_TEXT) ==> s[off] == FALSE_TEXT[0]
    ensures At(s, off, TRUE_TEXT) ==> s[off] == TRUE_TEXT[0]
  {
    if At(s, off, NULL_TEXT) { AtByte(s, off, NULL_TEXT, 0); }
    if At(s, off, FALSE_TEXT) { AtByte(s, off, FALSE_TEXT, 0); }
    if At(s, off, TRUE_TEXT) { AtByte(s, off, TRUE_TEXT, 0); }
  }

  // ----- What holds of every accepted text -----

  // Every string and key is a C string.
  predicate CStrings(v: Value) {
    match v
    case String(t) => NoNul(t)
    case Array(items) => forall i :: 0 <= i < |items| ==> CStrings(items[i])
    case Object(members) => forall i :: 0 <= i < |members| ==> NoNul(members[i].key) && CStrings(members[i].value)
    case _ => true
  }

  lemma {:induction false} ItemsNestingAppend(items: seq<Value>, v: Value)
    ensures ItemsNesting(items + [v]) == Max(ItemsNesting(items), Nesting(v))
  {
    if items == [] {
      assert items + [v] == [v] && [v][1..] == [];
    } else {
      ItemsNestingAppend(items[1..], v);
      assert (items + [v])[1..] == items[1..] + [v];
    }
  }

  lemma {:induction false} MembersNestingAppend(members: seq<Member>, m: Member)
    ensures MembersNesting(members + [m]) == Max(MembersNesting(members), Nesting(m.value))
  {
    if members == [] {
      assert members + [m] == [m] && [m][1..] == [];
    } else {
      MembersNestingAppend(members[1..], m);
      assert (members + [m])[1..] == members[1..] + [m];
    }
  }

  /**
   An accepted value nests no deeper than the limit allows at its depth, and it holds C strings only.
   */
  lemma {:induction false} AcceptedValue(s: seq<Byte>, off: nat, depth: nat)
    requires off <= |s| && depth <= NESTING_LIMIT
    ensures var r := ParseValueAt(s, off, depth);
            r.Ok? ==> depth + Nesting(r.value) <= NESTING_LIMIT && CStrings(r.value)
    decreases |s| - off, 2
  {
    hide ParseItemsAt, ParseMembersAt, ParseNumberAt, ParseStringAt, SkipBlank, Nesting, CStrings, At;
    ParsedNumber(s, off);
    Leaves();
    if off < |s| && depth < NESTING_LIMIT {
      var p := SkipBlank(s, off + 1);
      if p < |s| && s[off] == OPEN_BRACKET && s[p] != CLOSE_BRACKET {
        AcceptedItems(s, p - 1, depth + 1, []);
      } else if p < |s| && s[off] == OPEN_BRACE && s[p] != CLOSE_BRACE {
        AcceptedMembers(s, p - 1, depth + 1, []);
      }
    }
  }

  lemma ParsedNumber(s: seq<Byte>, off: nat)
    requires off <= |s|
    ensures var r := ParseNumberAt(s, off); r.Ok? ==> r.value.Number?
  {
  }

  lemma Leaves()
    ensures ItemsNesting([]) == 0 && MembersNesting([]) == 0
    ensures Nesting(Array([])) == 1 && Nesting(Object([])) == 1
    ensures CStrings(Array([])) && CStrings(Object([]))
    ensures forall v: Value :: !v.Array? && !v.Object? ==> Nesting(v) == 0
    ensures forall v: Value :: v.String? ==> CStrings(v) == NoNul(v.text)
    ensures forall v: Value :: !v.Array? && !v.Object? && !v.String? ==> CStrings(v)
  {
  }

  lemma {:induction false} AcceptedItems(s: seq<Byte>, p: nat, depth: nat, items: seq<Value>)
    requires p < |s| && 0 < depth <= NESTING_LIMIT
    requires depth + ItemsNesting(items) <= NESTING_LIMIT && CStrings(Array(items))
    ensures var r := ParseItemsAt(s, p, depth, items);
            r.Ok? ==> depth - 1 + Nesting(r.value) <= NESTING_LIMIT && CStrings(r.value)
    decreases |s| - p, 0
  {
    hide ParseValueAt, SkipBlank, NoNul, ItemsNesting;
    var off := SkipBlank(s, p + 1);
    AcceptedValue(s, off, depth);
    var v := ParseValueAt(s, off, depth);
    if v.Ok? {
      ItemsNestingAppend(items, v.value);
      var q := SkipBlank(s, v.next);
      if q < |s| && s[q] == COMMA {
        AcceptedItems(s, q, depth, items + [v.value]);
      }
    }
  }

  lemma {:induction false} AcceptedMember(s: seq<Byte>, p: nat, depth: nat)
    requires p < |s| && 0 < depth <= NESTING_LIMIT
    ensures var r := ParseMemberAt(s, p, depth);
            r.Ok? ==> depth + Nesting(r.value.value) <= NESTING_LIMIT && CStrings(r.value.value) && NoNul(r.value.key)
    decreases |s| - p, 0
  {
    hide ParseStringAt, ParseValueAt, SkipBlank, NoNul, Nesting, CStrings;
    var key := ParseStringAt(s, SkipBlank(s, p + 1));
    if key.Ok? {
      var q := SkipBlank(s, key.next);
      if q < |s| {
        AcceptedValue(s, SkipBlank(s, q + 1), depth);
      }
    }
  }

  lemma {:induction false} AcceptedMembers(s: seq<Byte>, p: nat, depth: nat, members: seq<Member>)
    requires p < |s| && 0 < depth <= NESTING_LIMIT
    requires depth + MembersNesting(members) <= NESTING_LIMIT && CStrings(Object(members))
    ensures var r := ParseMembersAt(s, p, depth, members);
            r.Ok? ==> depth - 1 + Nesting(r.value) <= NESTING_LIMIT && CStrings(r.value)
    decreases |s| - p, 1
  {
    hide ParseMemberAt, SkipBlank, NoNul, MembersNesting;
    AcceptedMember(s, p, depth);
    var m := ParseMemberAt(s, p, depth);
    if m.Ok? {
      MembersNestingAppend(members, m.value);
      var q := SkipBlank(s, m.next);
      if q < |s| && s[q] == COMMA {
        AcceptedMembers(s, q, depth, members + [m.value]);
      }
    }
  }

  // ----- Where the parser looks behind the text -----

  // The outcome that only the look at the byte behind a text of n bytes has.
  predicate LooksBehind<T(==)>(r: Result<T>, n: nat) {
    r == Fail(n + 1)
  }

  // No failure is further behind, and for one that is there the text ends in a comma.
  predicate CommaBehind<T>(s: seq<Byte>, r: Result<T>) {
    r.Fail? ==> r.at <= |s| + 1 && (r.at == |s| + 1 ==> s != [] && s[|s|-1] == COMMA)
  }

  lemma {:induction false} ValueNeedsComma(s: seq<Byte>, off: nat, depth: nat)
    requires off <= |s|
    ensures CommaBehind(s, ParseValueAt(s, off, depth))
    decreases |s| - off, 2
  {
    hide ParseItemsAt, ParseMembersAt, SkipBlank, Strtod, At;
    if off < |s| && depth < NESTING_LIMIT {
      var p := SkipBlank(s, off + 1);
      if p < |s| && s[off] == OPEN_BRACKET && s[p] != CLOSE_BRACKET {
        ItemsNeedComma(s, p - 1, depth + 1, []);
      } else if p < |s| && s[off] == OPEN_BRACE && s[p] != CLOSE_BRACE {
        SkipBlankAgain(s, off + 1);
        MembersNeedComma(s, p - 1, depth + 1, []);
      }
    }
  }

  lemma SkipBlankAgain(s: seq<Byte>, off: nat)
    requires off <= |s|
    ensures SkipBlank(s, SkipBlank(s, off)) == SkipBlank(s, off)
  {
  }

  lemma {:induction false} ItemsNeedComma(s: seq<Byte>, p: nat, depth: nat, items: seq<Value>)
    requires p < |s|
    ensures CommaBehind(s, ParseItemsAt(s, p, depth, items))
    decreases |s| - p, 0
  {
    hide ParseValueAt, SkipBlank;
    var off := SkipBlank(s, p + 1);
    ValueNeedsComma(s, off, depth);
    var v := ParseValueAt(s, off, depth);
    if v.Ok? {
      var q := SkipBlank(s, v.next);
      if q < |s| && s[q] == COMMA {
        ItemsNeedComma(s, q, depth, items + [v.value]);
      }
    }
  }

  lemma {:induction false} MembersNeedComma(s: seq<Byte>, p: nat, depth: nat, members: seq<Member>)
    requires p < |s| && (s[p] == COMMA || p + 1 < |s|)
    ensures CommaBehind(s, ParseMembersAt(s, p, depth, members))
    decreases |s| - p, 1
  {
    hide ParseMemberAt, SkipBlank;
    MemberNeedsComma(s, p, depth);
    var m := ParseMemberAt(s, p, depth);
    if m.Ok? {
      var q := SkipBlank(s, m.next);
      if q < |s| && s[q] == COMMA {
        MembersNeedComma(s, q, depth, members + [m.value]);
      }
    }
  }

  lemma {:induction false} MemberNeedsComma(s: seq<Byte>, p: nat, depth: nat)
    requires p < |s| && (s[p] == COMMA || p + 1 < |s|)
    ensures CommaBehind(s, ParseMemberAt(s, p, depth))
    decreases |s| - p, 0
  {
    hide ParseValueAt, SkipBlank, Decode, CString;
    var off := SkipBlank(s, p + 1);
    var key := ParseStringAt(s, off);
    if key.Ok? {
      var q := SkipBlank(s, key.next);
      if q < |s| {
        ValueNeedsComma(s, SkipBlank(s, q + 1), depth);
      }
    }
  }

  // ----- Whether it looks there can be asked safely -----

  // Two bytes that start nothing and end nothing.
  const STOP: seq<Byte> := [COLON, COLON]

  predicate EndsInComma(s: seq<Byte>) { s != [] && s[|s|-1] == COMMA }

  lemma {:induction false} StopScan(s: seq<Byte>, i: nat)
    requires EndsInComma(s) && i <= |s|
    ensures ScanEnd(s + STOP, i) == ScanEnd(s, i)
    decreases |s| - i
  {
    var t := s + STOP;
    if i < |s| {
      assert t[i] == s[i];
      if s[i] == BACKSLASH {
        if i + 1 < |s| {
          StopScan(s, i + 2);
        }
      } else if s[i] != QUOTE {
        StopScan(s, i + 1);
      }
    } else {
      assert ScanEnd(t, |s|) == ScanEnd(t, |s| + 1) == ScanEnd(t, |s| + 2) == -1;
    }
  }

  lemma {:induction false} StopDecode(s: seq<Byte>, i: nat, end: nat, written: seq<Byte>)
    requires end < |s|
    ensures Decode(s + STOP, i, end, written) == Decode(s, i, end, written)
    decreases end - i
  {
    hide Utf8, Hex4;
    var t := s + STOP;
    if i < end {
      assert t[i] == s[i] && t[i+1] == s[i+1];
      if s[i] != BACKSLASH {
        StopDecode(s, i + 1, end, written + [s[i]]);
      } else if s[i+1] == LETTER_U {
        StopEscape(s, i, end);
        var e := Utf16At(s, i, end);
        if e.Escape? {
          StopDecode(s, i + e.length, end, written + Utf8(e.code));
        }
      } else {
        forall b: Byte ensures Decode(t, i + 2, end, written + [b]) == Decode(s, i + 2, end, written + [b]) {
          StopDecode(s, i + 2, end, written + [b]);
        }
      }
    }
  }

  lemma StopEscape(s: seq<Byte>, i: nat, end: nat)
    requires end < |s|
    ensures Utf16At(s + STOP, i, end) == Utf16At(s, i, end)
  {
    assert forall k :: 0 <= k < |s| ==> (s + STOP)[k] == s[k];
    if i + 6 <= end {
      assert Hex4(s + STOP, i + 2) == Hex4(s, i + 2);
    }
    if i + 12 <= end {
      assert Hex4(s + STOP, i + 8) == Hex4(s, i + 8);
    }
  }

  lemma StopBlank(s: seq<Byte>, off: nat)
    requires EndsInComma(s) && off <= |s|
    ensures SkipBlank(s + STOP, off) == SkipBlank(s, off)
    ensures off < |s| ==> SkipBlank(s, off) < |s|
  {
    var t := s + STOP;
    assert forall k :: 0 <= k < |s| ==> t[k] == s[k];
    assert t[|s|] == COLON;
    if off < |s| {
      var r := BlankEnd(s, off);
      assert r < |s|;
      var q := BlankEnd(t, off);
      assert q == r;
    }
  }

  lemma {:induction false} StopRun(s: seq<Byte>, off: nat, limit: nat)
    requires EndsInComma(s) && off < |s|
    ensures NumberRun(s + STOP, off, limit) == NumberRun(s, off, limit)
    decreases limit
  {
    assert (s + STOP)[off] == s[off];
    if limit > 0 && IsNumberByte(s[off]) {
      assert off + 1 < |s|;
      StopRun(s, off + 1, limit - 1);
    }
  }

  lemma StopLiteral(s: seq<Byte>, off: nat, text: seq<Byte>)
    requires EndsInComma(s) && off <= |s| && text != []
    requires forall k :: 0 <= k < |text| ==> text[k] != COMMA && text[k] != COLON
    ensures At(s + STOP, off, text) == At(s, off, text)
  {
    var t := s + STOP;
    if off + |text| <= |s| {
      assert t[off..off+|text|] == s[off..off+|text|];
    } else if At(t, off, text) {
      var k := if off < |s| then |s| - 1 - off else 0;
      AtByte(t, off, text, k);
      assert false;
    }
  }

  lemma StopString(s: seq<Byte>, off: nat)
    requires EndsInComma(s) && off <= |s|
    ensures ParseStringAt(s + STOP, off) == ParseStringAt(s, off)
  {
    hide ScanEnd, Decode, CString;
    if off < |s| {
      assert (s + STOP)[off] == s[off];
      StopScan(s, off + 1);
      var end := ScanEnd(s, off + 1);
      if end >= 0 {
        StopDecode(s, off + 1, end, []);
      }
    }
  }

  lemma StopNumber(s: seq<Byte>, off: nat)
    requires EndsInComma(s) && off < |s|
    ensures ParseNumberAt(s + STOP, off) == ParseNumberAt(s, off)
  {
    hide Strtod, NumberRun;
    StopRun(s, off, NUMBER_LIMIT);
    var n := NumberRun(s, off, NUMBER_LIMIT);
    assert (s + STOP)[off..off+n] == s[off..off+n];
  }

  /**
   A text that ends in a comma is parsed in the same way with the two bytes behind it, from every
   offset and at every depth.
   */
  lemma {:induction false} StopValue(s: seq<Byte>, off: nat, depth: nat)
    requires EndsInComma(s) && off <= |s|
    ensures ParseValueAt(s + STOP, off, depth) == ParseValueAt(s, off, depth)
    decreases |s| - off, 3
  {
    hide ParseArrayAt, ParseObjectAt, ParseNumberAt, ParseStringAt, At;
    var t := s + STOP;
    StopLiteral(s, off, NULL_TEXT);
    StopLiteral(s, off, FALSE_TEXT);
    StopLiteral(s, off, TRUE_TEXT);
    if off < |s| {
      assert t[off] == s[off];
      StopString(s, off);
      StopNumber(s, off);
      if s[off] == OPEN_BRACKET {
        StopArray(s, off, depth);
      } else if s[off] == OPEN_BRACE {
        StopObject(s, off, depth);
      }
    } else {
      assert t[off] == COLON;
    }
  }

  lemma {:induction false} StopArray(s: seq<Byte>, off: nat, depth: nat)
    requires EndsInComma(s) && off < |s| && s[off] == OPEN_BRACKET
    ensures ParseArrayAt(s + STOP, off, depth) == ParseArrayAt(s, off, depth)
    decreases |s| - off, 2
  {
    hide ParseItemsAt, SkipBlank;
    StopBlank(s, off + 1);
    var p := SkipBlank(s, off + 1);
    assert (s + STOP)[p] == s[p];
    StopItems(s, p - 1, depth + 1, []);
  }

  lemma {:induction false} StopItems(s: seq<Byte>, p: nat, depth: nat, items: seq<Value>)
    requires EndsInComma(s) && p < |s|
    ensures ParseItemsAt(s + STOP, p, depth, items) == ParseItemsAt(s, p, depth, items)
    decreases |s| - p, 0
  {
    hide ParseValueAt, SkipBlank;
    StopBlank(s, p + 1);
    var off := SkipBlank(s, p + 1);
    StopValue(s, off, depth);
    var v := ParseValueAt(s, off, depth);
    if v.Ok? {
      StopBlank(s, v.next);
      var q := SkipBlank(s, v.next);
      assert (s + STOP)[q] == if q < |s| then s[q] else COLON;
      if q < |s| && s[q] == COMMA {
        StopItems(s, q, depth, items + [v.value]);
      }
    }
  }

  lemma {:induction false} StopObject(s: seq<Byte>, off: nat, depth: nat)
    requires EndsInComma(s) && off < |s| && s[off] == OPEN_BRACE
    ensures ParseObjectAt(s + STOP, off, depth) == ParseObjectAt(s, off, depth)
    decreases |s| - off, 2
  {
    hide ParseMembersAt, SkipBlank;
    StopBlank(s, off + 1);
    var p := SkipBlank(s, off + 1);
    assert (s + STOP)[p] == s[p];
    StopMembers(s, p - 1, depth + 1, []);
  }

  lemma {:induction false} StopMember(s: seq<Byte>, p: nat, depth: nat)
    requires EndsInComma(s) && p < |s|
    ensures ParseMemberAt(s + STOP, p, depth) == ParseMemberAt(s, p, depth)
    decreases |s| - p, 0
  {
    hide ParseValueAt, ParseStringAt, SkipBlank;
    StopBlank(s, p + 1);
    var off := SkipBlank(s, p + 1);
    StopString(s, off);
    var key := ParseStringAt(s, off);
    if key.Ok? {
      StopBlank(s, key.next);
      var q := SkipBlank(s, key.next);
      // the key ends before the comma does, so q is inside
      assert key.next < |s| by { KeyEndsInside(s, off); }
      assert (s + STOP)[q] == s[q];
      StopBlank(s, q + 1);
      StopValue(s, SkipBlank(s, q + 1), depth);
    }
  }

  lemma KeyEndsInside(s: seq<Byte>, off: nat)
    requires EndsInComma(s) && off <= |s| && ParseStringAt(s, off).Ok?
    ensures ParseStringAt(s, off).next < |s|
  {
  }

  lemma {:induction false} StopMembers(s: seq<Byte>, p: nat, depth: nat, members: seq<Member>)
    requires EndsInComma(s) && p < |s|
    ensures ParseMembersAt(s + STOP, p, depth, members) == ParseMembersAt(s, p, depth, members)
    decreases |s| - p, 1
  {
    hide ParseMemberAt, SkipBlank;
    StopMember(s, p, depth);
    var m := ParseMemberAt(s, p, depth);
    if m.Ok? {
      StopBlank(s, m.next);
      var q := SkipBlank(s, m.next);
      assert (s + STOP)[q] == if q < |s| then s[q] else COLON;
      if q < |s| && s[q] == COMMA {
        StopMembers(s, q, depth, members + [m.value]);
      }
    }
  }

  /**
   The exact condition for looking behind a text, as a caller can find it out: the text ends in a
   comma, and with two colons behind it, which the parser does not look behind, parsing stops at
   the second one.
   */
  lemma LooksBehindExactly(s: seq<Byte>, off: nat, depth: nat)
    requires off <= |s|
    ensures LooksBehind(ParseValueAt(s, off, depth), |s|) <==>
            EndsInComma(s) && ParseValueAt(s + STOP, off, depth) == Fail(|s| + 1)
    ensures EndsInComma(s) ==> !LooksBehind(ParseValueAt(s + STOP, off, depth), |s + STOP|)
  {
    hide ParseValueAt;
    ValueNeedsComma(s, off, depth);
    if EndsInComma(s) {
      StopValue(s, off, depth);
      ValueNeedsComma(s + STOP, off, depth);
    }
  }
}
