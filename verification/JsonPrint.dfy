/**
 The printer of src/uct_json.c: a buffer that grows as print_value and its helpers reserve
 room in it, proved to hold the text of JsonValue.Render.

 Reserving never fails for lack of memory, only for lack of room.
 */
module JsonPrint {
  import opened Bytes
  import opened JsonString
  import opened JsonValue

  const DEFAULT_BUFFER_SIZE := 256
  const NUMBER_BUFFER_SIZE := 26

  class PrintBuffer {
    var buffer: array<Byte>
    var length: nat
    var offset: nat
    var depth: nat
    const noalloc: bool
    const format: bool

    ghost predicate Valid()
      reads this`buffer, this`length, this`offset
    {
      length <= buffer.Length && length <= INT_MAX && (offset < length || (offset == 0 && length == 0))
    }

    // The most bytes that the buffer can come to have.
    ghost function Capacity(): nat
      reads this`length
    {
      if noalloc then length else INT_MAX
    }

    // What has been printed so far.
    ghost function Before(): (text: seq<Byte>)
      requires Valid()
      reads this`buffer, this`length, this`offset, buffer
      ensures |text| == offset
    {
      buffer[..offset]
    }

    // The bytes that do not belong to the printer.
    ghost function Beyond(): seq<Byte>
      reads this`buffer, this`length, buffer
    {
      if length <= buffer.Length then buffer[length..] else []
    }

    // The buffer holds text behind before, and a terminator; offset is somewhere in text.
    ghost predicate Holds(before: seq<Byte>, text: seq<Byte>)
      reads this`buffer, this`length, this`offset, buffer
    {
      var all := before + text;
      |all| < length <= buffer.Length && buffer[..|all|] == all && buffer[|all|] == NUL && |before| <= offset <= |all|
    }

    // There is room for n more bytes as the printer reckons it: it wants two bytes to spare.
    ghost predicate Fits(n: nat)
      requires Valid()
      reads this`buffer, this`length, this`offset, buffer
    {
      |Before()| + n + 2 <= Capacity()
    }

    constructor (buffer: array<Byte>, length: nat, noalloc: bool, format: bool)
      requires length <= buffer.Length && length <= INT_MAX
      ensures Valid() && this.buffer == buffer && this.length == length && offset == 0 && depth == 0
      ensures this.noalloc == noalloc && this.format == format
    {
      this.buffer, this.length, this.offset, this.depth, this.noalloc, this.format := buffer, length, 0, 0, noalloc, format;
    }

    // realloc: a new block that starts with the bytes of the old one.
    method Reallocate(size: nat)
      requires length <= buffer.Length && length <= size
      modifies this`buffer, this`length
      ensures fresh(buffer) && length == buffer.Length == size
      ensures buffer[..old(length)] == old(buffer[..length])
    {
      var newBuffer := new Byte[size];
      var i := 0;
      while i < length
        invariant i <= length
        invariant unchanged(this)
        invariant newBuffer[..i] == buffer[..i]
      {
        newBuffer[i] := buffer[i];
        i := i + 1;
      }
      buffer, length := newBuffer, size;
    }

    // ensure: room for needed bytes and one more behind offset.
    method Ensure(needed: nat) returns (ok: bool)
      requires Valid()
      modifies this`buffer, this`length
      ensures Valid() && Capacity() == old(Capacity())
      ensures (buffer == old(buffer) && Beyond() == old(Beyond())) || (fresh(buffer) && !noalloc)
      ensures ok <==> |old(Before())| + needed + 1 <= Capacity()
      ensures ok ==> offset + needed + 1 <= length
      ensures Before() == old(Before())
    {
      if length > 0 && offset >= length {
        return false;
      }
      if needed > INT_MAX {
        return false;
      }
      var total := needed + offset + 1;
      if total <= length {
        return true;
      }
      if noalloc {
        return false;
      }
      var newSize;
      if total > INT_MAX / 2 {
        if total > INT_MAX {
          return false;
        }
        newSize := INT_MAX;
      } else {
        newSize := total * 2;
      }
      Reallocate(newSize);
      assert buffer[..offset] == buffer[..old(length)][..offset];
      return true;
    }

    // strcpy and single stores: the bytes behind offset.
    method Write(text: seq<Byte>)
      requires Valid() && offset + |text| <= length
      modifies buffer
      ensures buffer[..offset+|text|] == old(Before()) + text && Beyond() == old(Beyond())
    {
      var k := 0;
      while k < |text|
        invariant k <= |text|
        invariant forall j :: 0 <= j < offset || offset + k <= j < buffer.Length ==> buffer[j] == old(buffer[j])
        invariant forall j :: offset <= j < offset + k ==> buffer[j] == text[j-offset]
      {
        buffer[offset+k] := text[k];
        k := k + 1;
      }
      assert buffer[..offset] == old(Before()) && buffer[length..] == old(buffer[length..]);
      assert buffer[offset..offset+|text|] == text;
      assert buffer[..offset+|text|] == buffer[..offset] + buffer[offset..offset+|text|];
    }

    // The same with a terminator.
    method WriteTerminated(text: seq<Byte>)
      requires Valid() && offset + |text| < length
      modifies buffer
      ensures Holds(old(Before()), text) && Beyond() == old(Beyond())
    {
      Write(text);
      buffer[offset+|text|] := NUL;
    }

    // Reserves, writes and moves offset behind the text.
    method Append(needed: nat, text: seq<Byte>, terminate: bool) returns (ok: bool)
      requires Valid() && |text| <= needed
      modifies this`buffer, this`length, this`offset, buffer
      ensures Valid() && Capacity() == old(Capacity())
      ensures (buffer == old(buffer) && Beyond() == old(Beyond())) || (fresh(buffer) && !noalloc)
      ensures ok <==> |old(Before())| + needed + 1 <= Capacity()
      ensures ok ==> Before() == old(Before()) + text
    {
      ok := Ensure(needed);
      if ok {
        if terminate {
          WriteTerminated(text);
        } else {
          Write(text);
        }
        offset := offset + |text|;
      }
    }

    // Reserves and writes a text with its terminator; offset stays.
    method Finish(needed: nat, text: seq<Byte>) returns (ok: bool)
      requires Valid() && |text| <= needed
      modifies this`buffer, this`length, buffer
      ensures Valid() && Capacity() == old(Capacity())
      ensures (buffer == old(buffer) && Beyond() == old(Beyond())) || (fresh(buffer) && !noalloc)
      ensures ok <==> |old(Before())| + needed + 1 <= Capacity()
      ensures ok ==> Holds(old(Before()), text)
    {
      ok := Ensure(needed);
      if ok {
        WriteTerminated(text);
      }
    }

    // update_offset: to the terminator behind the text that was printed last.
    method UpdateOffset(ghost before: seq<Byte>, ghost text: seq<Byte>)
      requires Valid() && Holds(before, text) && NoNul(text)
      modifies this`offset
      ensures Valid() && Before() == before + text
    {
      ghost var all := before + text;
      var run := 0;
      while buffer[offset+run] != NUL
        invariant offset + run <= |all|
        decreases |all| - run
      {
        run := run + 1;
      }
      if offset + run < |all| {
        assert false;
      }
      offset := offset + run;
    }

    // ----- Strings -----

    // The escape of one byte; sprintf also writes a terminator, which is overwritten later.
    method WriteEscape(at: nat, b: Byte) returns (next: nat)
      requires at + |EscapeByte(b)| + 2 <= length <= buffer.Length
      modifies buffer
      ensures next == at + |EscapeByte(b)|
      ensures buffer[..at] == old(buffer[..at]) && buffer[at..next] == EscapeByte(b)
      ensures buffer[length..] == old(buffer[length..])
    {
      if b > 31 && b != QUOTE && b != BACKSLASH {
        buffer[at] := b;
        next := at + 1;
      } else {
        buffer[at] := BACKSLASH;
        next := at + 2;
        if b == BACKSLASH {
          buffer[at+1] := BACKSLASH;
        } else if b == QUOTE {
          buffer[at+1] := QUOTE;
        } else if b == 8 {
          buffer[at+1] := LETTER_B;
        } else if b == 12 {
          buffer[at+1] := LETTER_F;
        } else if b == 10 {
          buffer[at+1] := LETTER_N;
        } else if b == 13 {
          buffer[at+1] := LETTER_R;
        } else if b == 9 {
          buffer[at+1] := LETTER_T;
        } else {
          buffer[at+1], buffer[at+2], buffer[at+3] := LETTER_U, HexDigit(0), HexDigit(0);
          buffer[at+4], buffer[at+5], buffer[at+6] := HexDigit(b / 16), HexDigit(b % 16), NUL;
          next := at + 6;
        }
      }
    }

    // The loop of print_string_ptr for a string in which something is escaped.
    method WriteEscapes(input: seq<Byte>) returns (out: nat)
      requires Valid() && offset + |RenderString(input)| < length
      modifies buffer
      ensures out == offset + 1 + |Escaped(input)|
      ensures buffer[..out] == old(Before()) + ([QUOTE] + Escaped(input)) && Beyond() == old(Beyond())
    {
      hide Escaped, EscapeByte;
      buffer[offset] := QUOTE;
      out := offset + 1;
      var k := 0;
      assert input[..0] == [];
      EscapedNothing();
      while k < |input|
        invariant k <= |input|
        invariant out == offset + 1 + |Escaped(input[..k])|
        invariant |Escaped(input[..k])| <= |Escaped(input)|
        invariant Beyond() == old(Beyond())
        invariant buffer[..out] == old(Before()) + ([QUOTE] + Escaped(input[..k]))
      {
        EscapedPrefix(input, k);
        var next := WriteEscape(out, input[k]);
        Appended(buffer[..next], out, old(Before()), Escaped(input[..k]), EscapeByte(input[k]));
        out := next;
        k := k + 1;
      }
      assert input[..k] == input;
    }

    // print_string_ptr for such a string.
    method WriteEscaped(input: seq<Byte>)
      requires Valid() && offset + |RenderString(input)| < length
      modifies buffer
      ensures Holds(old(Before()), RenderString(input)) && Beyond() == old(Beyond())
    {
      hide Escaped;
      var out := WriteEscapes(input);
      buffer[out], buffer[out+1] := QUOTE, NUL;
      Appended(buffer[..out+1], out, old(Before()), Escaped(input), [QUOTE]);
      assert [QUOTE] + (Escaped(input) + [QUOTE]) == RenderString(input);
    }

    // The first loop of print_string_ptr.
    static method CountEscapes(input: seq<Byte>) returns (escapes: nat)
      ensures |input| + escapes == |Escaped(input)|
    {
      escapes := 0;
      var k := 0;
      while k < |input|
        invariant k <= |input|
        invariant escapes + k == |Escaped(input[..k])|
      {
        EscapedPrefix(input, k);
        if input[k] == QUOTE || input[k] == BACKSLASH || input[k] in [8, 12, 10, 13, 9] {
          escapes := escapes + 1;
        } else if input[k] < 32 {
          escapes := escapes + 5;
        }
        k := k + 1;
      }
      assert input[..k] == input;
    }

    // print_string_ptr. Success and failure are as for print_value below.
    method PrintString(input: seq<Byte>) returns (ok: bool)
      requires Valid() && NoNul(input)
      modifies this`buffer, this`length, buffer
      ensures Valid() && Capacity() == old(Capacity())
      ensures (buffer == old(buffer) && Beyond() == old(Beyond())) || (fresh(buffer) && !noalloc)
      ensures ok <==> old(Fits(|RenderString(input)|))
      ensures ok ==> Holds(old(Before()), RenderString(input))
    {
      hide Escaped;
      var escapes := CountEscapes(input);
      var outputLength := |input| + escapes;
      ok := Ensure(outputLength + 3);
      if !ok {
        return;
      }
      if escapes == 0 {
        NothingToEscape(input);
        WriteTerminated([QUOTE] + input + [QUOTE]);
      } else {
        WriteEscaped(input);
      }
    }

    // ----- Values -----

    // The end of an array or an object.
    method Close(needed: nat, end: seq<Byte>, ghost before: seq<Byte>, ghost start: seq<Byte>, ghost content: seq<Byte>)
      returns (ok: bool)
      requires Valid() && |end| <= needed && depth > 0
      requires Before() == before + start + content
      modifies this`buffer, this`length, this`depth, buffer
      ensures Valid() && Capacity() == old(Capacity())
      ensures (buffer == old(buffer) && Beyond() == old(Beyond())) || (fresh(buffer) && !noalloc)
      ensures ok <==> |before| + |start| + |content| + needed + 1 <= Capacity()
      ensures ok ==> depth == old(depth) - 1 && Holds(before, start + content + end)
    {
      ok := Finish(needed, end);
      if ok {
        depth := depth - 1;
        assert before + start + content + end == before + (start + content + end);
      }
    }

    /**
     print_value: succeeds exactly when the text and two more bytes fit, and then the buffer
     holds the text and a terminator behind what was there.
     */
    method PrintValue(v: Value) returns (ok: bool)
      requires Valid() && Printable(v)
      modifies this`buffer, this`length, this`offset, this`depth, buffer
      ensures Valid() && Capacity() == old(Capacity())
      ensures (buffer == old(buffer) && Beyond() == old(Beyond())) || (fresh(buffer) && !noalloc)
      ensures ok <==> old(Fits(|Render(v, format, depth)|))
      ensures ok ==> depth == old(depth)
      ensures ok ==> Holds(old(Before()), old(Render(v, format, depth)))
      decreases v, 1
    {
      match v
      case Null => ok := Finish(5, NULL_TEXT);
      case False => ok := Finish(6, FALSE_TEXT);
      case True => ok := Finish(5, TRUE_TEXT);
      case Number(d) =>
        DecimalIsShort(ValueInt(d));
        ok := PrintNumber(d, false, ValueInt(d), []);
      case String(t) => ok := PrintString(t);
      case Array(items) => ok := PrintArray(v);
      case Object(members) => ok := PrintObject(v);
    }

    // print_number. What sprintf gives for a number that is not its integer value is an input; a text
    // that overruns the temporary buffer fails.
    method PrintNumber(double: real, special: bool, valueInt: int, general: seq<Byte>) returns (ok: bool)
      requires Valid()
      modifies this`buffer, this`length, this`offset, buffer
      ensures Valid() && Capacity() == old(Capacity())
      ensures (buffer == old(buffer) && Beyond() == old(Beyond())) || (fresh(buffer) && !noalloc)
      ensures var text := NumberText(double, special, valueInt, general);
              && (ok <==> |text| < NUMBER_BUFFER_SIZE && old(Fits(|text|)))
              && (ok ==> Holds(old(Before()), text))
    {
      var number := general;
      if special {
        number := NULL_TEXT;
      } else if double == valueInt as real {
        number := Decimal(valueInt);
      }
      if |number| > NUMBER_BUFFER_SIZE - 1 {
        return false;
      }
      ok := Finish(|number| + 1, number);
      if ok {
        offset := offset + |number|;
      }
    }

    // print_array.
    method PrintArray(v: Value) returns (ok: bool)
      requires v.Array? && Valid() && Printable(v)
      modifies this`buffer, this`length, this`offset, this`depth, buffer
      ensures Valid() && Capacity() == old(Capacity())
      ensures (buffer == old(buffer) && Beyond() == old(Beyond())) || (fresh(buffer) && !noalloc)
      ensures ok <==> old(Fits(|Render(v, format, depth)|))
      ensures ok ==> depth == old(depth)
      ensures ok ==> Holds(old(Before()), old(Render(v, format, depth)))
      decreases v, 0
    {
      hide RenderItems, Before, Beyond, Valid, Holds, Capacity;
      ghost var whole := RenderItems(v.items, format, depth + 1);
      ok := Append(1, [OPEN_BRACKET], false);
      if !ok {
        return;
      }
      depth := depth + 1;
      ok := PrintItems(v.items);
      if !ok {
        return;
      }
      ok := Close(2, [CLOSE_BRACKET], old(Before()), [OPEN_BRACKET], whole);
    }

    // The loop of print_array.
    method PrintItems(items: seq<Value>) returns (ok: bool)
      requires Valid() && forall i :: 0 <= i < |items| ==> Printable(items[i])
      modifies this`buffer, this`length, this`offset, this`depth, buffer
      ensures Valid() && Capacity() == old(Capacity())
      ensures (buffer == old(buffer) && Beyond() == old(Beyond())) || (fresh(buffer) && !noalloc)
      ensures ok <==> items == [] || old(Fits(|RenderItems(items, format, depth)|))
      ensures ok ==> depth == old(depth)
      ensures ok ==> Before() == old(Before()) + old(RenderItems(items, format, depth))
      decreases items
    {
      hide Render, RenderItem, Printable, Before, Beyond, Valid, Holds, Capacity;
      ok := true;
      var i := 0;
      assert items[0..] == items;
      while i < |items|
        invariant i <= |items|
        invariant Valid() && Capacity() == old(Capacity())
        invariant (buffer == old(buffer) && Beyond() == old(Beyond())) || (fresh(buffer) && !noalloc)
        invariant ok && (i > 0 ==> Fits(0))
        invariant depth == old(depth)
        invariant Before() + RenderItems(items[i..], format, depth) == old(Before() + RenderItems(items, format, depth))
      {
        RenderItemsSplit(items, i, format, depth, Before());
        ok := PrintItem(items[i], i + 1 == |items|);
        if !ok {
          return;
        }
        i := i + 1;
      }
    }

    // One round of the loop of print_array.
    method PrintItem(item: Value, last: bool) returns (ok: bool)
      requires Valid() && Printable(item)
      modifies this`buffer, this`length, this`offset, this`depth, buffer
      ensures Valid() && Capacity() == old(Capacity())
      ensures (buffer == old(buffer) && Beyond() == old(Beyond())) || (fresh(buffer) && !noalloc)
      ensures ok <==> old(Fits(|RenderItem(item, format, depth, last)|))
      ensures ok ==> depth == old(depth)
      ensures ok ==> Before() == old(Before()) + old(RenderItem(item, format, depth, last))
      decreases item, 3
    {
      hide Render, Printable, Before, Beyond, Valid, Holds, Capacity;
      ok := PrintElement(item);
      if !ok || last {
        return;
      }
      var size := if format then 2 else 1;
      ok := Append(size + 1, ItemSeparator(format, last), true);
    }

    // print_value and update_offset: an element of an array or an object.
    method PrintElement(v: Value) returns (ok: bool)
      requires Valid() && Printable(v)
      modifies this`buffer, this`length, this`offset, this`depth, buffer
      ensures Valid() && Capacity() == old(Capacity())
      ensures (buffer == old(buffer) && Beyond() == old(Beyond())) || (fresh(buffer) && !noalloc)
      ensures ok <==> old(Fits(|Render(v, format, depth)|))
      ensures ok ==> depth == old(depth)
      ensures ok ==> Before() == old(Before()) + old(Render(v, format, depth))
      decreases v, 2
    {
      hide Render, Printable, Before, Beyond, Valid, Holds, Capacity;
      ghost var before, text := Before(), Render(v, format, depth);
      ok := PrintValue(v);
      if ok {
        RenderHasNoNul(v, format, depth);
        UpdateOffset(before, text);
      }
    }

    // print_object.
    method PrintObject(v: Value) returns (ok: bool)
      requires v.Object? && Valid() && Printable(v)
      modifies this`buffer, this`length, this`offset, this`depth, buffer
      ensures Valid() && Capacity() == old(Capacity())
      ensures (buffer == old(buffer) && Beyond() == old(Beyond())) || (fresh(buffer) && !noalloc)
      ensures ok <==> old(Fits(|Render(v, format, depth)|))
      ensures ok ==> depth == old(depth)
      ensures ok ==> Holds(old(Before()), old(Render(v, format, depth)))
      decreases v, 0
    {
      hide RenderMembers, Render, ObjectStart, ObjectEnd, Printable, NoNul, Before, Beyond, Valid, Holds, Capacity;
      ObjectParts(v, format, depth);
      ghost var before, whole := Before(), RenderMembers(v.members, format, depth + 1);
      var begin, end := ObjectStart(format), ObjectEnd(format, depth);
      var size := if format then 2 else 1;
      ok := Append(size + 1, begin, false);
      if !ok {
        return;
      }
      depth := depth + 1;
      ok := PrintMembers(v.members);
      if !ok {
        return;
      }
      ok := Close(if format then depth + 1 else 2, end, before, begin, whole);
    }

    // The loop of print_object.
    method PrintMembers(members: seq<Member>) returns (ok: bool)
      requires Valid() && forall i :: 0 <= i < |members| ==> NoNul(members[i].key) && Printable(members[i].value)
      modifies this`buffer, this`length, this`offset, this`depth, buffer
      ensures Valid() && Capacity() == old(Capacity())
      ensures (buffer == old(buffer) && Beyond() == old(Beyond())) || (fresh(buffer) && !noalloc)
      ensures ok <==> members == [] || |old(Before())| + |old(RenderMembers(members, format, depth))| + 2 <= Capacity()
      ensures ok ==> depth == old(depth)
      ensures ok ==> Before() == old(Before()) + old(RenderMembers(members, format, depth))
      decreases members
    {
      hide RenderMember, Printable, NoNul, Before, Beyond, Valid, Holds, Capacity;
      ok := true;
      var i := 0;
      assert members[0..] == members;
      while i < |members|
        invariant i <= |members|
        invariant Valid() && Capacity() == old(Capacity())
        invariant (buffer == old(buffer) && Beyond() == old(Beyond())) || (fresh(buffer) && !noalloc)
        invariant ok && (i > 0 ==> Fits(0))
        invariant depth == old(depth)
        invariant Before() + RenderMembers(members[i..], format, depth) == old(Before() + RenderMembers(members, format, depth))
      {
        RenderMembersSplit(members, i, format, depth, Before());
        ok := PrintMember(members[i], i + 1 == |members|);
        if !ok {
          return;
        }
        i := i + 1;
      }
    }

    // One round of the loop of print_object.
    method PrintMember(m: Member, last: bool) returns (ok: bool)
      requires Valid() && NoNul(m.key) && Printable(m.value)
      modifies this`buffer, this`length, this`offset, this`depth, buffer
      ensures Valid() && Capacity() == old(Capacity())
      ensures (buffer == old(buffer) && Beyond() == old(Beyond())) || (fresh(buffer) && !noalloc)
      ensures ok <==> old(Fits(|RenderMember(m, format, depth, last)|))
      ensures ok ==> depth == old(depth)
      ensures ok ==> Before() == old(Before()) + old(RenderMember(m, format, depth, last))
      decreases m
    {
      ghost var start := Before();
      ghost var key := Indent(format, depth) + RenderString(m.key) + KeyEnd(format);
      ghost var text := Render(m.value, format, depth);
      ghost var end := MemberEnd(format, last);
      ghost var whole := RenderMember(m, format, depth, last);
      assert whole == key + text + end;
      var size := (if format then 1 else 0) + (if last then 0 else 1);
      assert |end| == size;
      Joined(start, key, text, end);
      hide Render, Printable, RenderString, KeyEnd, MemberEnd, RenderMember, Indent, Before, Beyond, Valid, Holds, Capacity;
      ok := PrintKey(m.key);
      if !ok {
        return;
      }
      ok := PrintElement(m.value);
      if !ok {
        return;
      }
      ok := Append(size + 1, MemberEnd(format, last), true);
    }

    // The indentation, the key and the colon; one byte less to spare than a value wants.
    method PrintKey(key: seq<Byte>) returns (ok: bool)
      requires Valid() && NoNul(key)
      modifies this`buffer, this`length, this`offset, buffer
      ensures Valid() && Capacity() == old(Capacity())
      ensures (buffer == old(buffer) && Beyond() == old(Beyond())) || (fresh(buffer) && !noalloc)
      ensures ok <==> old(Fits(|Indent(format, depth) + RenderString(key) + KeyEnd(format)| - 1))
      ensures ok ==> Before() == old(Before()) + old(Indent(format, depth) + RenderString(key) + KeyEnd(format))
    {
      hide Escaped, Before, Beyond, Valid, Holds, Capacity;
      ghost var start := Before();
      if format {
        ok := Append(depth, Tabs(depth), false);
        if !ok {
          return;
        }
      }
      assert Before() == start + Indent(format, depth);
      ok := PrintString(key);
      if !ok {
        return;
      }
      EscapedHasNoNul(key);
      UpdateOffset(start + Indent(format, depth), RenderString(key));
      var size := if format then 2 else 1;
      ok := Append(size, KeyEnd(format), false);
    }
  }

  /**
   cJSON_Print and cJSON_PrintUnformatted: a block of exactly the size of the text and its
   terminator, unless the text is too long for an int.
   */
  method Print(v: Value, format: bool) returns (printed: array?<Byte>)
    requires Printable(v)
    ensures printed != null <==> |Render(v, format, 0)| + 2 <= INT_MAX
    ensures printed != null ==> fresh(printed) && printed[..] == Render(v, format, 0) + [NUL]
  {
    hide Render, Printable;
    var buffer := new Byte[DEFAULT_BUFFER_SIZE];
    var p := new PrintBuffer(buffer, DEFAULT_BUFFER_SIZE, false, format);
    var ok := p.PrintValue(v);
    if !ok {
      return null;
    }
    RenderHasNoNul(v, format, 0);
    p.UpdateOffset([], Render(v, format, 0));
    printed := Trimmed(p.buffer, p.offset);
  }

  // The copy of the finished text into a block of its own.
  method Trimmed(buffer: array<Byte>, n: nat) returns (printed: array<Byte>)
    requires n <= buffer.Length
    ensures fresh(printed) && printed[..] == buffer[..n] + [NUL]
  {
    printed := new Byte[n + 1];
    var i := 0;
    while i < n
      invariant i <= n
      invariant printed[..i] == buffer[..i]
      modifies printed
    {
      printed[i] := buffer[i];
      i := i + 1;
    }
    printed[n] := NUL;
  }

  // cJSON_PrintBuffered: the same with a first guess of the size, and no trimming.
  method PrintBuffered(v: Value, prebuffer: int, format: bool) returns (printed: array?<Byte>)
    requires Printable(v) && prebuffer <= INT_MAX
    ensures printed != null <==> prebuffer >= 0 && |Render(v, format, 0)| + 2 <= INT_MAX
    ensures printed != null ==> var text := Render(v, format, 0);
            fresh(printed) && |text| < printed.Length && printed[..|text|] == text && printed[|text|] == NUL
  {
    hide Render, Printable;
    if prebuffer < 0 {
      return null;
    }
    var buffer := new Byte[prebuffer];
    var p := new PrintBuffer(buffer, prebuffer, false, format);
    var ok := p.PrintValue(v);
    assert [] + Render(v, format, 0) == Render(v, format, 0);
    printed := if ok then p.buffer else null;
  }

  // cJSON_PrintPreallocated: into the memory of the caller, of which length bytes may be used.
  method PrintPreallocated(v: Value, buffer: array?<Byte>, length: int, format: bool) returns (ok: bool)
    requires Printable(v) && length <= INT_MAX
    requires buffer != null ==> length <= buffer.Length
    modifies if buffer == null then {} else {buffer}
    ensures ok <==> buffer != null && |Render(v, format, 0)| + 2 <= length
    ensures ok ==> var text := Render(v, format, 0); buffer[..|text|] == text && buffer[|text|] == NUL
    ensures buffer != null && length >= 0 ==> buffer[length..] == old(buffer[length..])
  {
    hide Render, Printable;
    if length < 0 || buffer == null {
      return false;
    }
    var p := new PrintBuffer(buffer, length, true, format);
    ok := p.PrintValue(v);
    assert [] + Render(v, format, 0) == Render(v, format, 0);
  }

  lemma Appended(s: seq<Byte>, out: nat, before: seq<Byte>, done: seq<Byte>, more: seq<Byte>)
    requires out <= |s| && s[..out] == before + ([QUOTE] + done) && s[out..] == more
    ensures s == before + ([QUOTE] + (done + more))
  {
    assert s == s[..out] + s[out..];
  }

  lemma Joined(a: seq<Byte>, b: seq<Byte>, c: seq<Byte>, d: seq<Byte>)
    ensures a + b + c + d == a + (b + c + d)
  {
  }

  lemma ObjectParts(v: Value, format: bool, depth: nat)
    requires v.Object? && Printable(v)
    ensures Render(v, format, depth)
         == ObjectStart(format) + RenderMembers(v.members, format, depth + 1) + ObjectEnd(format, depth)
    ensures |ObjectStart(format)| == if format then 2 else 1
    ensures |ObjectEnd(format, depth)| == if format then depth + 1 else 1
    ensures forall i :: 0 <= i < |v.members| ==> NoNul(v.members[i].key) && Printable(v.members[i].value)
  {
  }

  lemma RenderItemsSplit(items: seq<Value>, i: nat, format: bool, depth: nat, now: seq<Byte>)
    requires i < |items|
    ensures now + RenderItems(items[i..], format, depth)
         == now + RenderItem(items[i], format, depth, i + 1 == |items|) + RenderItems(items[i+1..], format, depth)
  {
    assert items[i..][1..] == items[i+1..];
  }

  lemma RenderMembersSplit(members: seq<Member>, i: nat, format: bool, depth: nat, now: seq<Byte>)
    requires i < |members|
    ensures now + RenderMembers(members[i..], format, depth)
         == now + RenderMember(members[i], format, depth, i + 1 == |members|) + RenderMembers(members[i+1..], format, depth)
  {
    assert members[i..][1..] == members[i+1..];
  }
}
