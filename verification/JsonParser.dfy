/**
 The parser of src/uct_json.c as the C code runs it: a buffer whose offset and depth the
 functions move, proved to do what JsonParse says.

 Every byte is written inside the block that the first pass over a string asks for. One read
 can go behind the text, by one byte: the lemmas at the end say exactly when, and the results
 never depend on that byte. Memory never runs out.
 */
module JsonParser {
  import opened Bytes
  import opened JsonString
  import opened JsonValue
  import opened JsonParse

  // parse_hex4.
  method ParseHex4(s: seq<Byte>, i: nat) returns (h: nat)
    requires i + 4 <= |s|
    ensures h == Hex4(s, i)
  {
    h := 0;
    var k := 0;
    while k < 4
      invariant k <= 4
      invariant forall j :: i <= j < i + k ==> HexValue(s[j]) < 16
      invariant k == 0 ==> h == 0
      invariant k == 1 ==> h == HexValue(s[i]) * 16
      invariant k == 2 ==> h == (HexValue(s[i]) * 16 + HexValue(s[i+1])) * 16
      invariant k == 3 ==> h == ((HexValue(s[i]) * 16 + HexValue(s[i+1])) * 16 + HexValue(s[i+2])) * 16
      invariant k == 4 ==> h == ((HexValue(s[i]) * 16 + HexValue(s[i+1])) * 16 + HexValue(s[i+2])) * 16 + HexValue(s[i+3])
    {
      var b := s[i+k];
      if 0x30 <= b <= 0x39 {
        h := h + b - 0x30;
      } else if 0x41 <= b <= 0x46 {
        h := h + 10 + b - 0x41;
      } else if 0x61 <= b <= 0x66 {
        h := h + 10 + b - 0x61;
      } else {
        return 0;
      }
      if k < 3 {
        h := h * 16;
      }
      k := k + 1;
    }
  }

  // utf16_literal_to_utf8: the length of the escape, 0 if it is bad, and the number of bytes written.
  method Utf16LiteralToUtf8(s: seq<Byte>, i: nat, end: nat, output: array<Byte>, at: nat)
    returns (length: nat, written: nat)
    requires end <= |s|
    requires var e := Utf16At(s, i, end); e.Escape? ==> at + |Utf8(e.code)| <= output.Length
    modifies output
    ensures var e := Utf16At(s, i, end);
            && (e.BadEscape? ==> length == 0)
            && (e.Escape? ==> length == e.length && written == |Utf8(e.code)| && output[..at+written] == old(output[..at]) + Utf8(e.code))
  {
    hide Utf8;
    written := 0;
    if i + 6 > end {
      return 0, 0;
    }
    var first := ParseHex4(s, i + 2);
    if 0xdc00 <= first <= 0xdfff {
      return 0, 0;
    }
    var codepoint: CodePoint := 0;
    if 0xd800 <= first <= 0xdbff {
      length := 12;
      if i + 12 > end {
        return 0, 0;
      }
      if s[i+6] != BACKSLASH || s[i+7] != LETTER_U {
        return 0, 0;
      }
      var second := ParseHex4(s, i + 8);
      if second < 0xdc00 || second > 0xdfff {
        return 0, 0;
      }
      codepoint := 0x1_0000 + first % 0x400 * 0x400 + second % 0x400;
    } else {
      length := 6;
      codepoint := first;
    }
    written := EncodeUtf8(output, at, codepoint);
    assert output[..at+written] == output[..at] + output[at..at+written];
  }

  // The first pass of parse_string: the closing quote and the number of bytes it skipped.
  method ScanString(s: seq<Byte>, start: nat) returns (end: int, skipped: nat)
    requires start <= |s|
    ensures end == ScanEnd(s, start)
    ensures end >= 0 ==> skipped == Skipped(s, start, end, start)
  {
    ghost var quote := ScanEnd(s, start);
    end, skipped := start, 0;
    while end < |s| && s[end] != QUOTE
      invariant start <= end <= |s|
      invariant ScanEnd(s, end) == quote
      invariant quote >= 0 ==> end <= quote && skipped + Skipped(s, end, quote, start) == Skipped(s, start, quote, start)
    {
      if s[end] == BACKSLASH {
        if end + 1 >= |s| {
          return -1, skipped;
        }
        skipped := skipped + 1;
        end := end + 1;
      }
      end := end + 1;
    }
    if end >= |s| {
      end := -1;
    }
  }

  // The room never runs out before the end.
  lemma {:induction false} RoomIsLeft(s: seq<Byte>, start: nat, end: nat, p: nat)
    requires start <= p <= end < |s| && ScanEnd(s, start) == end
    ensures Room(s, start, end, p) >= 0
    decreases end - p
  {
    if p < end {
      StepFits(s, start, end, p);
      if p + 2 <= end {
        RoomIsLeft(s, start, end, p + 2);
        SkippedPair(s, start, end, p);
      } else {
        LastIsNotSkipped(s, start, end);
      }
    } else {
      SkippedPastEnd(s, start, end, end);
    }
  }

  // The bytes of a one-letter escape.
  function Letter(c: Byte): Byte {
    if c == LETTER_B then 8 else if c == LETTER_F then 12 else if c == LETTER_N then 10
    else if c == LETTER_R then 13 else if c == LETTER_T then 9 else c
  }

  // The second pass of parse_string, into a block of the size that the first pass computed.
  method DecodeString(s: seq<Byte>, start: nat, end: nat, output: array<Byte>)
    returns (ok: bool, position: nat, written: nat)
    requires start <= end < |s| && ScanEnd(s, start) == end
    requires output.Length == end - start - Skipped(s, start, end, start) + 2
    modifies output
    ensures ok ==> written < output.Length && Decode(s, start, end, []) == Decoded(output[..written])
    ensures !ok ==> Decode(s, start, end, []) == Undecodable(position)
  {
    hide ScanEnd, Skipped, Utf8;
    position, written := start, 0;
    RoomIsLeft(s, start, end, start);
    while position < end
      invariant start <= position <= end + 1
      invariant written <= output.Length - 2
      invariant position <= end ==> written + Room(s, start, end, position) <= output.Length - 2
      invariant Decode(s, position, end, output[..written]) == Decode(s, start, end, [])
    {
      RoomIsLeft(s, start, end, position);
      StepFits(s, start, end, position);
      ghost var before := output[..written];
      if s[position] != BACKSLASH {
        RoomIsLeft(s, start, end, position + 1);
        output[written] := s[position];
        assert output[..written+1] == before + [s[position]];
        written, position := written + 1, position + 1;
      } else {
        var c := s[position+1];
        if c == LETTER_U {
          RoomForEscape(s, start, end, position);
          var length, size := Utf16LiteralToUtf8(s, position, end, output, written);
          if length == 0 {
            return false, position, written;
          }
          written, position := written + size, position + length;
        } else if c == LETTER_B || c == LETTER_F || c == LETTER_N || c == LETTER_R || c == LETTER_T
            || c == QUOTE || c == BACKSLASH || c == SLASH {
          if position + 2 <= end {
            RoomIsLeft(s, start, end, position + 2);
          }
          output[written] := Letter(c);
          assert output[..written+1] == before + [Letter(c)];
          written, position := written + 1, position + 2;
        } else {
          return false, position, written;
        }
      }
    }
    output[written] := NUL;
    ok := true;
  }

  lemma RoomForEscape(s: seq<Byte>, start: nat, end: nat, p: nat)
    requires start <= p < end < |s| && ScanEnd(s, start) == end
    ensures var e := Utf16At(s, p, end);
            e.Escape? ==> |Utf8(e.code)| <= |Utf8(e.code)| + Room(s, start, end, p + e.length) <= Room(s, start, end, p)
  {
    hide ScanEnd, Room, Utf8;
    StepFits(s, start, end, p);
    var e := Utf16At(s, p, end);
    if e.Escape? {
      RoomIsLeft(s, start, end, p + e.length);
    }
  }

  class ParseBuffer {
    const content: seq<Byte>
    const behind: Byte        // whatever stands in memory behind the text
    var offset: nat
    var depth: nat
    ghost var overread: bool  // that byte has been read

    constructor (content: seq<Byte>, behind: Byte)
      ensures this.content == content && offset == 0 && depth == 0 && !overread
    {
      this.content, this.behind, this.offset, this.depth := content, behind, 0, 0;
      this.overread := false;
    }

    // The byte at the offset, read without a look at the length.
    method Current() returns (b: Byte)
      requires offset <= |content|
      modifies this`overread
      ensures b == if offset < |content| then content[offset] else behind
      ensures overread == (old(overread) || offset == |content|)
    {
      if offset == |content| {
        overread := true;
        return behind;
      }
      return content[offset];
    }

    // What a function of the parser returned, and where it left the offset, is what r says.
    ghost predicate Agrees<T>(r: Result<T>, ok: bool, value: T)
      reads this`offset
    {
      match r
      case Ok(v, next) => ok && value == v && offset == next
      case Fail(at) => !ok && offset == at
    }

    // buffer_skip_whitespace.
    method SkipWhitespace()
      requires offset <= |content|
      modifies this`offset
      ensures offset == SkipBlank(content, old(offset))
    {
      if offset >= |content| {
        return;
      }
      while offset < |content| && content[offset] <= 32
        invariant old(offset) <= offset <= |content|
        invariant BlankEnd(content, offset) == BlankEnd(content, old(offset))
      {
        offset := offset + 1;
      }
      if offset == |content| {
        offset := offset - 1;
      }
    }

    // skip_utf8_bom, at the start of the text.
    method SkipBom()
      requires offset == 0
      modifies this`offset
      ensures offset == BomLength(content)
    {
      if offset + 4 < |content| && content[offset..offset+3] == BOM {
        offset := offset + 3;
      }
    }

    // parse_string. Its first test does not look at the length; the outcome is the same for every
    // byte that can stand behind the text.
    method ParseString() returns (ok: bool, text: seq<Byte>)
      requires offset <= |content|
      modifies this`offset, this`overread
      ensures Agrees(ParseStringAt(content, old(offset)), ok, text)
      ensures overread == (old(overread) || LooksBehind(ParseStringAt(content, old(offset)), |content|))
    {
      hide ScanEnd, Skipped, Decode;
      ok, text := false, [];
      var start := offset + 1;
      var first := Current();
      if first != QUOTE {
        offset := start;
        return;
      }
      if start > |content| {
        // the scan ends before it begins
        offset := start;
        return;
      }
      var end, skipped := ScanString(content, start);
      if end < 0 {
        offset := start;
        return;
      }
      RoomIsLeft(content, start, end, start);
      var allocation := end - offset - skipped;
      var output := new Byte[allocation + 1];
      var position, written;
      ok, position, written := DecodeString(content, start, end, output);
      if !ok {
        offset := position;
        return;
      }
      text := CString(output[..written]);
      offset := end + 1;
    }

    // The loop of parse_number that collects the bytes of the number.
    method CollectNumber() returns (i: nat)
      requires offset <= |content|
      ensures i == NumberRun(content, offset, NUMBER_LIMIT)
    {
      i := 0;
      while i < NUMBER_LIMIT && offset + i < |content| && IsNumberByte(content[offset+i])
        invariant i <= NUMBER_LIMIT && offset + i <= |content|
        invariant NumberRun(content, offset, NUMBER_LIMIT) == i + NumberRun(content, offset + i, NUMBER_LIMIT - i)
      {
        i := i + 1;
      }
    }

    // parse_number: also the integer value, which is saturated.
    method ParseNumber() returns (ok: bool, value: Value, valueInt: int)
      requires offset <= |content|
      modifies this`offset
      ensures Agrees(ParseNumberAt(content, old(offset)), ok, value)
      ensures ok ==> value.Number? && valueInt == ValueInt(value.double)
    {
      hide Strtod, NumberRun;
      var i := CollectNumber();
      value, valueInt := Null, 0;
      var converted := Strtod(content[offset..offset+i]);
      if converted.length == 0 {
        return false, value, valueInt;
      }
      var number := converted.value;
      if number >= INT_MAX as real {
        valueInt := INT_MAX;
      } else if number <= INT_MIN as real {
        valueInt := INT_MIN;
      } else if number >= 0.0 {
        valueInt := number.Floor;
      } else {
        valueInt := -(-number).Floor;
      }
      value := Number(number);
      offset := offset + converted.length;
      ok := true;
    }

    // parse_value.
    method ParseValue() returns (ok: bool, value: Value)
      requires offset <= |content|
      modifies this`offset, this`depth, this`overread
      ensures Agrees(ParseValueAt(content, old(offset), old(depth)), ok, value)
      ensures overread == (old(overread) || LooksBehind(ParseValueAt(content, old(offset), old(depth)), |content|))
      ensures ok ==> depth == old(depth)
      decreases |content| - offset, 3
    {
      hide ParseStringAt, ParseNumberAt, ParseArrayAt, ParseObjectAt;
      ok, value := true, Null;
      if offset + 4 <= |content| && content[offset..offset+4] == NULL_TEXT {
        offset := offset + 4;
        return;
      }
      if offset + 5 <= |content| && content[offset..offset+5] == FALSE_TEXT {
        value := False;
        offset := offset + 5;
        return;
      }
      if offset + 4 <= |content| && content[offset..offset+4] == TRUE_TEXT {
        value := True;
        offset := offset + 4;
        return;
      }
      if offset < |content| && content[offset] == QUOTE {
        var text;
        ok, text := ParseString();
        value := String(text);
        return;
      }
      if offset < |content| && (content[offset] == MINUS || IsDigit(content[offset])) {
        var valueInt;
        ok, value, valueInt := ParseNumber();
        return;
      }
      if offset < |content| && content[offset] == OPEN_BRACKET {
        ok, value := ParseArray();
        return;
      }
      if offset < |content| && content[offset] == OPEN_BRACE {
        ok, value := ParseObject();
        return;
      }
      ok := false;
    }

    // parse_array.
    method ParseArray() returns (ok: bool, value: Value)
      requires offset < |content| && content[offset] == OPEN_BRACKET
      modifies this`offset, this`depth, this`overread
      ensures Agrees(ParseArrayAt(content, old(offset), old(depth)), ok, value)
      ensures overread == (old(overread) || LooksBehind(ParseArrayAt(content, old(offset), old(depth)), |content|))
      ensures ok ==> depth == old(depth)
      decreases |content| - offset, 1
    {
      hide ParseValueAt, SkipBlank;
      ok, value := false, Null;
      if depth >= NESTING_LIMIT {
        return;
      }
      depth := depth + 1;
      offset := offset + 1;
      SkipWhitespace();
      if offset < |content| && content[offset] == CLOSE_BRACKET {
        depth := depth - 1;
        offset := offset + 1;
        return true, Array([]);
      }
      if offset >= |content| {
        offset := offset - 1;
        return;
      }
      offset := offset - 1;
      var items := [];
      while true
        invariant old(offset) <= offset < |content|
        invariant depth == old(depth) + 1 && overread == old(overread)
        invariant ParseItemsAt(content, offset, depth, items) == ParseArrayAt(content, old(offset), old(depth))
        decreases |content| - offset
      {
        offset := offset + 1;
        SkipWhitespace();
        var parsed, item := ParseValue();
        if !parsed {
          return;
        }
        SkipWhitespace();
        if offset >= |content| || content[offset] != COMMA {
          items := items + [item];
          break;
        }
        items := items + [item];
      }
      if offset >= |content| || content[offset] != CLOSE_BRACKET {
        return;
      }
      depth := depth - 1;
      offset := offset + 1;
      ok, value := true, Array(items);
    }

    // parse_object.
    method ParseObject() returns (ok: bool, value: Value)
      requires offset < |content| && content[offset] == OPEN_BRACE
      modifies this`offset, this`depth, this`overread
      ensures Agrees(ParseObjectAt(content, old(offset), old(depth)), ok, value)
      ensures overread == (old(overread) || LooksBehind(ParseObjectAt(content, old(offset), old(depth)), |content|))
      ensures ok ==> depth == old(depth)
      decreases |content| - offset, 2
    {
      hide ParseMemberAt, SkipBlank;
      ok, value := false, Null;
      if depth >= NESTING_LIMIT {
        return;
      }
      depth := depth + 1;
      offset := offset + 1;
      SkipWhitespace();
      if offset < |content| && content[offset] == CLOSE_BRACE {
        depth := depth - 1;
        offset := offset + 1;
        return true, Object([]);
      }
      if offset >= |content| {
        offset := offset - 1;
        return;
      }
      offset := offset - 1;
      var members := [];
      while true
        invariant old(offset) <= offset < |content|
        invariant depth == old(depth) + 1 && overread == old(overread)
        invariant ParseMembersAt(content, offset, depth, members) == ParseObjectAt(content, old(offset), old(depth))
        decreases |content| - offset
      {
        var parsed, member := ParseMember();
        if !parsed {
          return;
        }
        SkipWhitespace();
        if offset >= |content| || content[offset] != COMMA {
          members := members + [member];
          break;
        }
        members := members + [member];
      }
      if offset >= |content| || content[offset] != CLOSE_BRACE {
        return;
      }
      depth := depth - 1;
      offset := offset + 1;
      ok, value := true, Object(members);
    }

    // The part of parse_object that reads one member.
    method ParseMember() returns (ok: bool, member: Member)
      requires offset < |content|
      modifies this`offset, this`depth, this`overread
      ensures Agrees(ParseMemberAt(content, old(offset), old(depth)), ok, member)
      ensures overread == (old(overread) || LooksBehind(ParseMemberAt(content, old(offset), old(depth)), |content|))
      ensures ok ==> depth == old(depth)
      decreases |content| - offset, 0
    {
      hide ParseStringAt, ParseValueAt, SkipBlank;
      offset := offset + 1;
      SkipWhitespace();
      var key, value;
      ok, key := ParseString();
      member := Member(key, Null);
      if !ok {
        return;
      }
      SkipWhitespace();
      if offset >= |content| || content[offset] != COLON {
        return false, member;
      }
      offset := offset + 1;
      SkipWhitespace();
      ok, value := ParseValue();
      member := Member(key, value);
    }
  }

  /**
   cJSON_ParseWithLengthOpts: the tree and the end of it, or the error position. The text of
   cJSON_ParseWithOpts is passed with its terminator. The byte behind the text is read exactly if
   parsing the value fails behind it; the result does not depend on that byte.
   */
  method Parse(text: seq<Byte>, behind: Byte, requireTerminated: bool) returns (r: Result<Value>, ghost overread: bool)
    ensures r == ParseText(text, requireTerminated)
    ensures overread <==> LooksBehind(ParseValueAt(text, SkipBlank(text, BomLength(text)), 0), |text|)
  {
    overread := false;
    if text == [] {
      EmptyText();
      return Fail(0), false;
    }
    var buffer := new ParseBuffer(text, behind);
    buffer.SkipBom();
    buffer.SkipWhitespace();
    var ok, value := buffer.ParseValue();
    overread := buffer.overread;
    if ok && requireTerminated {
      buffer.SkipWhitespace();
      ok := buffer.offset < |text| && text[buffer.offset] == NUL;
    }
    if ok {
      return Ok(value, buffer.offset), overread;
    }
    if buffer.offset < |text| {
      return Fail(buffer.offset), overread;
    } else {
      return Fail(|text| - 1), overread;
    }
  }

  lemma EmptyText()
    ensures ParseValueAt([], 0, 0) == Fail(0)
  {
  }

  // What a caller can look at: only a text that ends in a comma makes the parser read behind it.
  lemma OverreadNeedsComma(text: seq<Byte>)
    requires LooksBehind(ParseValueAt(text, SkipBlank(text, BomLength(text)), 0), |text|)
    ensures text != [] && text[|text|-1] == COMMA
  {
    ValueNeedsComma(text, SkipBlank(text, BomLength(text)), 0);
  }

  // So a text passed with its terminator never does.
  lemma TerminatedIsReadInside(text: seq<Byte>)
    requires text != [] && text[|text|-1] == NUL
    ensures !LooksBehind(ParseValueAt(text, SkipBlank(text, BomLength(text)), 0), |text|)
  {
    ValueNeedsComma(text, SkipBlank(text, BomLength(text)), 0);
  }

  /**
   The exact condition, as a caller can find it out without such a read: the text ends in a comma,
   and parsing it with two colons behind it reports its error at the second one.
   */
  lemma OverreadExactly(text: seq<Byte>)
    ensures LooksBehind(ParseValueAt(text, SkipBlank(text, BomLength(text)), 0), |text|) <==>
            EndsInComma(text) && ParseText(text + STOP, false) == Fail(|text| + 1)
    ensures var t := text + STOP;
            EndsInComma(text) ==> !LooksBehind(ParseValueAt(t, SkipBlank(t, BomLength(t)), 0), |t|)
  {
    hide ParseValueAt, SkipBlank;
    var t := text + STOP;
    ValueNeedsComma(text, SkipBlank(text, BomLength(text)), 0);
    ValueNeedsComma(t, SkipBlank(t, BomLength(t)), 0);
    if EndsInComma(text) {
      if BomLength(t) == BomLength(text) {
        StopBlank(text, BomLength(text));
        StopValue(text, SkipBlank(text, BomLength(text)), 0);
      } else {
        MarkAndComma(text);
      }
    }
  }

  // A byte order mark and a comma: only with the two colons is the mark skipped.
  lemma MarkAndComma(text: seq<Byte>)
    requires EndsInComma(text) && BomLength(text + STOP) != BomLength(text)
    ensures !LooksBehind(ParseValueAt(text, SkipBlank(text, BomLength(text)), 0), |text|)
    ensures ParseText(text + STOP, false) == Fail(3) && |text| == 4
  {
    var t := text + STOP;
    assert t[0..3] == BOM && t[0] == 0xef && t[3] == COMMA;
    assert text == BOM + [COMMA];
    assert SkipBlank(text, 0) == 0 && SkipBlank(t, 3) == 3;
    StartsNothing(text, 0);
    StartsNothing(t, 3);
  }

  lemma StartsNothing(s: seq<Byte>, off: nat)
    requires off < |s| && s[off] in [0xef, COMMA]
    ensures ParseValueAt(s, off, 0) == Fail(off)
  {
    hide ParseArrayAt, ParseObjectAt, ParseNumberAt, ParseStringAt;
    assert !At(s, off, NULL_TEXT);
    assert !At(s, off, TRUE_TEXT);
    assert !At(s, off, FALSE_TEXT);
  }

  // The text {"a":1, of seven bytes without a terminator does.
  lemma OverreadHappens()
    ensures var text: seq<Byte> := [OPEN_BRACE, QUOTE, 0x61, QUOTE, COLON, 0x31, COMMA];
            LooksBehind(ParseValueAt(text, SkipBlank(text, BomLength(text)), 0), |text|)
  {
    var text: seq<Byte> := [OPEN_BRACE, QUOTE, 0x61, QUOTE, COLON, 0x31, COMMA];
    assert BomLength(text) == 0 by {
      assert text[0..3][0] == OPEN_BRACE;
    }
    assert SkipBlank(text, 0) == 0 && SkipBlank(text, 1) == 1;
    FirstMember(text);
    assert SkipBlank(text, 6) == 6 && SkipBlank(text, 7) == 7;
    assert ParseStringAt(text, 7) == Fail(8);
    assert ParseMembersAt(text, 6, 1, [Member([0x61], Number(1.0))]) == Fail(8);
    assert ParseMembersAt(text, 0, 1, []) == Fail(8);
    assert text[0..4][0] == OPEN_BRACE && text[0..5][0] == OPEN_BRACE;
  }

  lemma FirstMember(text: seq<Byte>)
    requires text == [OPEN_BRACE, QUOTE, 0x61, QUOTE, COLON, 0x31, COMMA]
    ensures ParseMemberAt(text, 0, 1) == Ok(Member([0x61], Number(1.0)), 6)
  {
    assert SkipBlank(text, 1) == 1 && SkipBlank(text, 4) == 4 && SkipBlank(text, 5) == 5;
    assert ScanEnd(text, 2) == 3 by { assert ScanEnd(text, 3) == 3; }
    assert Decode(text, 2, 3, []) == Decoded([0x61]) by { assert [] + [text[2]] == [0x61]; }
    assert CString([0x61]) == [0x61];
    hide SkipBlank, Decode, ScanEnd, CString;
    assert NumberRun(text, 5, NUMBER_LIMIT) == 1 by { assert NumberRun(text, 6, NUMBER_LIMIT - 1) == 0; }
    One();
    assert text[5..6] == [0x31];
    assert text[5..7][0] == 0x31;
    assert !At(text, 5, NULL_TEXT) && !At(text, 5, FALSE_TEXT) && !At(text, 5, TRUE_TEXT);
  }

  lemma One()
    ensures Strtod([0x31]) == Conversion(1.0, 1)
  {
    var t: seq<Byte> := [0x31];
    assert DigitsEnd(t, 0) == 1;
    assert t[0..1] == t && t[..0] == [];
    assert Natural(t) == 1 && Natural([]) == 0 && PowerOfTen(0) == 1.0;
  }

  // ----- Error positions -----

  // Where parsing [1 2] stops: at the second number.
  lemma StopsInArray()
    ensures ParseText([0x5b, 0x31, 0x20, 0x32, 0x5d], false) == Fail(3)
  {
    var t: seq<Byte> := [0x5b, 0x31, 0x20, 0x32, 0x5d];
    OneIsParsed(t, 1, 1);
    NoMark(t);
    NotLiteral(t, 0);
    assert SkipBlank(t, 0) == 0 && SkipBlank(t, 1) == 1 && SkipBlank(t, 2) == 3;
  }

  // {1} stops behind the byte that is no quote.
  lemma StopsInObject()
    ensures ParseText([0x7b, 0x31, 0x7d], false) == Fail(2)
  {
    var t: seq<Byte> := [0x7b, 0x31, 0x7d];
    NoMark(t);
    NotLiteral(t, 0);
    assert SkipBlank(t, 0) == 0 && SkipBlank(t, 1) == 1;
    assert ParseMemberAt(t, 0, 1) == Fail(2);
  }

  // A string stops at a bad escape, here \q.
  lemma StopsAtEscape()
    ensures ParseText([0x22, 0x5c, 0x71, 0x22], false) == Fail(1)
  {
    hide ParseStringAt, ParseArrayAt, ParseObjectAt, ParseNumberAt;
    var t: seq<Byte> := [0x22, 0x5c, 0x71, 0x22];
    NoMark(t);
    NotLiteral(t, 0);
    assert SkipBlank(t, 0) == 0;
    UnknownLetter(t);
  }

  lemma UnknownLetter(t: seq<Byte>)
    requires t == [0x22, 0x5c, 0x71, 0x22]
    ensures ParseStringAt(t, 0) == Fail(1)
  {
    hide Utf16At, CString;
    assert ScanEnd(t, 3) == 3;
    assert Decode(t, 1, 3, []) == Undecodable(1);
  }

  lemma NoMark(t: seq<Byte>)
    ensures t != [] && t[0] != 0xef ==> BomLength(t) == 0
  {
    assert At(t, 0, BOM) ==> t[0] == t[0..3][0];
  }

  // The digit 1 with no number byte behind it.
  lemma OneIsParsed(t: seq<Byte>, off: nat, depth: nat)
    requires off + 1 < |t| && t[off] == 0x31 && !IsNumberByte(t[off+1])
    ensures ParseValueAt(t, off, depth) == Ok(Number(1.0), off + 1)
  {
    NotLiteral(t, off);
    assert NumberRun(t, off, NUMBER_LIMIT) == 1 by { assert NumberRun(t, off + 1, NUMBER_LIMIT - 1) == 0; }
    One();
    assert t[off..off+1] == [0x31];
  }
}
