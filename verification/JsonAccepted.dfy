/**
 The parser accepts exactly the language of the grammar, and gives every text its value
 (src/uct_json.c), as far as the nesting limit allows.
 */
module JsonAccepted {
  import opened Bytes
  import opened JsonString
  import opened JsonValue
  import opened JsonParse
  import opened JsonGrammar
  import opened JsonTokens

  // ----- White space -----

  lemma BlankSkipped(s: seq<Byte>, off: nat)
    requires off <= |s|
    ensures IsBlank(s[off..SkipBlank(s, off)])
  {
  }

  lemma SkipTo(s: seq<Byte>, off: nat, to: nat)
    requires off <= to < |s| && s[to] > 32 && IsBlank(s[off..to])
    ensures SkipBlank(s, off) == to
  {
    assert forall k :: off <= k < to ==> s[k] == s[off..to][k-off];
  }

  lemma BlankJoined(s: seq<Byte>, a: nat, b: nat, c: nat)
    requires a <= b <= c <= |s| && IsBlank(s[a..b]) && IsBlank(s[b..c])
    ensures IsBlank(s[a..c])
  {
    assert s[a..c] == s[a..b] + s[b..c];
  }

  // ----- Lists, as slices of a text -----

  lemma Slices(s: seq<Byte>, from: nat, off: nat, mid: nat, q: nat, to: nat)
    requires from <= off <= mid <= q <= to <= |s|
    ensures var t := s[from..to];
            && t[..off - from] == s[from..off] && t[off - from..mid - from] == s[off..mid]
            && t[mid - from..q - from] == s[mid..q]
            && (q < to ==> t[q - from] == s[q] && t[q + 1 - from..] == s[q+1..to])
  {
    SliceOfSlice(s, from, to, 0, off - from);
    SliceOfSlice(s, from, to, off - from, mid - from);
    SliceOfSlice(s, from, to, mid - from, q - from);
    if q < to {
      SliceOfSlice(s, from, to, q + 1 - from, to - from);
    }
  }

  lemma ItemsCons(s: seq<Byte>, from: nat, off: nat, mid: nat, q: nat, to: nat, v: Value, rest: seq<Value>)
    requires from <= off <= mid <= q <= to <= |s|
    requires IsBlank(s[from..off]) && IsValue(s[off..mid], v) && IsBlank(s[mid..q])
    requires if rest == [] then q == to else q < to && s[q] == COMMA && IsItems(s[q+1..to], rest)
    ensures IsItems(s[from..to], [v] + rest)
  {
    Slices(s, from, off, mid, q, to);
    assert ([v] + rest)[1..] == rest;
    assert ItemFirst(s[from..to], [v] + rest, off - from, mid - from, q - from) by {
      hide IsBlank, IsValue, IsItems;
    }
  }

  lemma ItemsSplit(s: seq<Byte>, from: nat, to: nat, items: seq<Value>) returns (off: nat, mid: nat, q: nat)
    requires from <= to <= |s| && items != [] && IsItems(s[from..to], items)
    ensures from <= off <= mid <= q <= to
    ensures IsBlank(s[from..off]) && IsValue(s[off..mid], items[0]) && IsBlank(s[mid..q])
    ensures if |items| == 1 then q == to else q < to && s[q] == COMMA && IsItems(s[q+1..to], items[1..])
  {
    var t := s[from..to];
    var i, j, k :| ItemFirst(t, items, i, j, k);
    off, mid, q := from + i, from + j, from + k;
    Slices(s, from, off, mid, q, to);
  }

  lemma MemberMade(s: seq<Byte>, off: nat, j: nat, k: nat, l: nat, next: nat, m: Member)
    requires off <= j <= k < l <= next <= |s|
    requires IsString(s[off..j], m.key) && IsBlank(s[j..k]) && s[k] == COLON && IsBlank(s[k+1..l]) && IsValue(s[l..next], m.value)
    ensures IsMember(s[off..next], m)
  {
    hide IsBlank, IsValue, IsString;
    var t := s[off..next];
    SliceOfSlice(s, off, next, 0, j - off);
    SliceOfSlice(s, off, next, j - off, k - off);
    SliceOfSlice(s, off, next, k + 1 - off, l - off);
    SliceOfSlice(s, off, next, l - off, |t|);
    assert KeyAndValue(t, m, j - off, k - off, l - off);
  }

  lemma MemberSplit(s: seq<Byte>, off: nat, next: nat, m: Member) returns (j: nat, k: nat, l: nat)
    requires off <= next <= |s| && IsMember(s[off..next], m)
    ensures off <= j <= k < l <= next
    ensures IsString(s[off..j], m.key) && IsBlank(s[j..k]) && s[k] == COLON && IsBlank(s[k+1..l]) && IsValue(s[l..next], m.value)
  {
    hide IsBlank, IsValue, IsString;
    var t := s[off..next];
    var a: nat, b: nat, c: nat :| KeyAndValue(t, m, a, b, c);
    SliceOfSlice(s, off, next, 0, a);
    SliceOfSlice(s, off, next, a, b);
    SliceOfSlice(s, off, next, b + 1, c);
    SliceOfSlice(s, off, next, c, |t|);
    j, k, l := off + a, off + b, off + c;
  }

  lemma MembersCons(s: seq<Byte>, from: nat, off: nat, mid: nat, q: nat, to: nat, m: Member, rest: seq<Member>)
    requires from <= off <= mid <= q <= to <= |s|
    requires IsBlank(s[from..off]) && IsMember(s[off..mid], m) && IsBlank(s[mid..q])
    requires if rest == [] then q == to else q < to && s[q] == COMMA && IsMembers(s[q+1..to], rest)
    ensures IsMembers(s[from..to], [m] + rest)
  {
    Slices(s, from, off, mid, q, to);
    assert ([m] + rest)[1..] == rest;
    assert MemberFirst(s[from..to], [m] + rest, off - from, mid - from, q - from) by {
      hide IsBlank, IsMember, IsMembers;
    }
  }

  lemma MembersSplit(s: seq<Byte>, from: nat, to: nat, members: seq<Member>) returns (off: nat, mid: nat, q: nat)
    requires from <= to <= |s| && members != [] && IsMembers(s[from..to], members)
    ensures from <= off <= mid <= q <= to
    ensures IsBlank(s[from..off]) && IsMember(s[off..mid], members[0]) && IsBlank(s[mid..q])
    ensures if |members| == 1 then q == to else q < to && s[q] == COMMA && IsMembers(s[q+1..to], members[1..])
  {
    var t := s[from..to];
    var i, j, k :| MemberFirst(t, members, i, j, k);
    off, mid, q := from + i, from + j, from + k;
    Slices(s, from, off, mid, q, to);
  }

  // ----- What the parser accepts is in the language -----

  /**
   Every value that the parser accepts stands there as the grammar says.
   */
  lemma {:induction false} ValueIsFound(s: seq<Byte>, off: nat, depth: nat)
    requires off <= |s|
    ensures var r := ParseValueAt(s, off, depth); r.Ok? ==> IsValue(s[off..r.next], r.value)
    decreases |s| - off, 3
  {
    hide ParseItemsAt, ParseMembersAt, ParseNumberAt, ParseStringAt, SkipBlank, IsString, IsNumber, IsItems, IsMembers;
    if off < |s| {
      if s[off] == QUOTE {
        var r := ParseStringAt(s, off);
        if r.Ok? {
          StringExactly(s, off, r.value, r.next);
        }
      } else if s[off] == MINUS || IsDigit(s[off]) {
        NumberIsFound(s, off);
      } else if s[off] == OPEN_BRACKET {
        ArrayIsFound(s, off, depth);
      } else if s[off] == OPEN_BRACE {
        ObjectIsFound(s, off, depth);
      }
    }
  }

  lemma {:induction false} ArrayIsFound(s: seq<Byte>, off: nat, depth: nat)
    requires off < |s| && s[off] == OPEN_BRACKET
    ensures var r := ParseArrayAt(s, off, depth); r.Ok? ==> IsValue(s[off..r.next], r.value)
    decreases |s| - off, 1
  {
    hide ParseItemsAt, SkipBlank, IsBlank;
    var r := ParseArrayAt(s, off, depth);
    if r.Ok? {
      var p := SkipBlank(s, off + 1);
      BlankSkipped(s, off + 1);
      if s[p] != CLOSE_BRACKET {
        var rest := ItemsAreFound(s, p - 1, off + 1, depth + 1, []);
        assert [] + rest == rest;
      }
      SliceOfSlice(s, off, r.next, 1, r.next - off - 1);
    }
  }

  lemma {:induction false} ItemsAreFound(s: seq<Byte>, p: nat, from: nat, depth: nat, done: seq<Value>)
    returns (rest: seq<Value>)
    requires p < |s| && from <= p + 1 && IsBlank(s[from..p+1])
    ensures var r := ParseItemsAt(s, p, depth, done);
            r.Ok? ==>
              && r.value == Array(done + rest) && from < r.next && s[r.next-1] == CLOSE_BRACKET
              && IsItems(s[from..r.next-1], rest)
    decreases |s| - p, 0
  {
    hide ParseValueAt, SkipBlank, IsBlank, IsItems, IsValue;
    rest := [];
    var off := SkipBlank(s, p + 1);
    BlankSkipped(s, p + 1);
    BlankJoined(s, from, p + 1, off);
    ValueIsFound(s, off, depth);
    var v := ParseValueAt(s, off, depth);
    if v.Ok? {
      var q := SkipBlank(s, v.next);
      BlankSkipped(s, v.next);
      if q < |s| && s[q] == COMMA {
        Nothing(s, q + 1);
        rest := ItemsAreFound(s, q, q + 1, depth, done + [v.value]);
        var r := ParseItemsAt(s, q, depth, done + [v.value]);
        if r.Ok? {
          assert done + [v.value] + rest == done + ([v.value] + rest);
          NotEmpty(s, q, depth, done + [v.value], rest);
          ItemsCons(s, from, off, v.next, q, r.next - 1, v.value, rest);
        }
      } else if q < |s| && s[q] == CLOSE_BRACKET {
        ItemsCons(s, from, off, v.next, q, q, v.value, []);
        assert [v.value] + [] == [v.value];
      }
      rest := [v.value] + rest;
    }
  }

  lemma Nothing(s: seq<Byte>, i: nat)
    requires i <= |s|
    ensures IsBlank(s[i..i])
  {
  }

  // There is an item behind a comma.
  lemma {:induction false} NotEmpty(s: seq<Byte>, p: nat, depth: nat, done: seq<Value>, rest: seq<Value>)
    requires p < |s| && ParseItemsAt(s, p, depth, done).Ok? && ParseItemsAt(s, p, depth, done).value == Array(done + rest)
    ensures rest != []
    decreases |s| - p
  {
    hide ParseValueAt, SkipBlank;
    ItemsGrow(s, p, depth, done);
  }

  lemma {:induction false} ItemsGrow(s: seq<Byte>, p: nat, depth: nat, done: seq<Value>)
    requires p < |s|
    ensures var r := ParseItemsAt(s, p, depth, done); r.Ok? ==> r.value.Array? && |r.value.items| > |done|
    decreases |s| - p
  {
    hide ParseValueAt, SkipBlank;
    var v := ParseValueAt(s, SkipBlank(s, p + 1), depth);
    if v.Ok? {
      var q := SkipBlank(s, v.next);
      if q < |s| && s[q] == COMMA {
        ItemsGrow(s, q, depth, done + [v.value]);
      }
    }
  }

  lemma {:induction false} ObjectIsFound(s: seq<Byte>, off: nat, depth: nat)
    requires off < |s| && s[off] == OPEN_BRACE
    ensures var r := ParseObjectAt(s, off, depth); r.Ok? ==> IsValue(s[off..r.next], r.value)
    decreases |s| - off, 2
  {
    hide ParseMembersAt, SkipBlank, IsBlank;
    var r := ParseObjectAt(s, off, depth);
    if r.Ok? {
      var p := SkipBlank(s, off + 1);
      BlankSkipped(s, off + 1);
      if s[p] != CLOSE_BRACE {
        var rest := MembersAreFound(s, p - 1, off + 1, depth + 1, []);
        assert [] + rest == rest;
      }
      SliceOfSlice(s, off, r.next, 1, r.next - off - 1);
    }
  }

  lemma {:induction false} MemberIsFound(s: seq<Byte>, p: nat, depth: nat)
    requires p < |s|
    ensures var r := ParseMemberAt(s, p, depth);
            r.Ok? ==> SkipBlank(s, p + 1) <= r.next && IsMember(s[SkipBlank(s, p + 1)..r.next], r.value)
    decreases |s| - p, 0
  {
    hide ParseStringAt, ParseValueAt, SkipBlank, IsBlank, IsValue, IsString, IsMember;
    var off := SkipBlank(s, p + 1);
    var key := ParseStringAt(s, off);
    if key.Ok? {
      StringExactly(s, off, key.value, key.next);
      var q := SkipBlank(s, key.next);
      BlankSkipped(s, key.next);
      if q < |s| && s[q] == COLON {
        var l := SkipBlank(s, q + 1);
        BlankSkipped(s, q + 1);
        ValueIsFound(s, l, depth);
        var v := ParseValueAt(s, l, depth);
        if v.Ok? {
          MemberMade(s, off, key.next, q, l, v.next, Member(key.value, v.value));
        }
      }
    }
  }

  lemma {:induction false} MembersAreFound(s: seq<Byte>, p: nat, from: nat, depth: nat, done: seq<Member>)
    returns (rest: seq<Member>)
    requires p < |s| && from <= p + 1 && IsBlank(s[from..p+1])
    ensures var r := ParseMembersAt(s, p, depth, done);
            r.Ok? ==>
              && rest != [] && r.value == Object(done + rest) && from < r.next && s[r.next-1] == CLOSE_BRACE
              && IsMembers(s[from..r.next-1], rest)
    decreases |s| - p, 1
  {
    hide ParseMemberAt, SkipBlank, IsBlank, IsMembers, IsMember;
    rest := [];
    var off := SkipBlank(s, p + 1);
    BlankSkipped(s, p + 1);
    BlankJoined(s, from, p + 1, off);
    MemberIsFound(s, p, depth);
    var m := ParseMemberAt(s, p, depth);
    if m.Ok? {
      var q := SkipBlank(s, m.next);
      BlankSkipped(s, m.next);
      if q < |s| && s[q] == COMMA {
        Nothing(s, q + 1);
        rest := MembersAreFound(s, q, q + 1, depth, done + [m.value]);
        var r := ParseMembersAt(s, q, depth, done + [m.value]);
        if r.Ok? {
          assert done + [m.value] + rest == done + ([m.value] + rest);
          MembersCons(s, from, off, m.next, q, r.next - 1, m.value, rest);
        }
      } else if q < |s| && s[q] == CLOSE_BRACE {
        MembersCons(s, from, off, m.next, q, q, m.value, []);
        assert [m.value] + [] == [m.value];
      }
      rest := [m.value] + rest;
    }
  }

  // ----- What is in the language is accepted -----

  // The outcome of parsing a value whose innermost part is at the given depth.
  predicate ReadsBack<T(==)>(r: Result<T>, v: T, next: nat, deepest: nat) {
    if deepest <= NESTING_LIMIT then r == Ok(v, next) else r.Fail?
  }

  // The first byte of a value tells its kind.
  lemma FirstByte(t: seq<Byte>, v: Value)
    requires IsValue(t, v)
    ensures t != [] && t[0] > 32 && t[0] != CLOSE_BRACKET && t[0] != CLOSE_BRACE
    ensures v.Null? <==> t[0] == NULL_TEXT[0]
    ensures v.False? <==> t[0] == FALSE_TEXT[0]
    ensures v.True? <==> t[0] == TRUE_TEXT[0]
    ensures v.String? <==> t[0] == QUOTE
    ensures v.Array? <==> t[0] == OPEN_BRACKET
    ensures v.Object? <==> t[0] == OPEN_BRACE
    ensures v.Number? <==> t[0] == MINUS || IsDigit(t[0])
  {
    hide GoodNumeral, NumeralText, NumeralValue, Spells, Unbroken, IsItems, IsMembers;
    if v.Number? {
      var n :| GoodNumeral(n) && t == NumeralText(n) && v.double == NumeralValue(n);
      NumeralBytes(n);
    }
  }

  /**
   Wherever a text of the language stands, and a number that ends it cannot go on, the parser finds
   its value and stops right behind it, exactly if the nesting limit leaves room; otherwise it fails.
   */
  lemma {:induction false} ValueIsRead(v: Value, s: seq<Byte>, off: nat, next: nat, depth: nat)
    requires off <= next <= |s| && IsValue(s[off..next], v) && depth <= NESTING_LIMIT
    requires v.Number? ==> next - off == 63 || NumberStops(s, next)
    ensures ReadsBack(ParseValueAt(s, off, depth), v, next, depth + Nesting(v))
    decreases v, 2
  {
    hide ParseArrayAt, ParseObjectAt, SkipBlank, ParseStringAt, ParseNumberAt, IsString, IsNumber, IsItems, IsMembers, IsDigit;
    FirstByte(s[off..next], v);
    assert s[off] == s[off..next][0];
    NotLiteral(s, off);
    match v
    case Null =>
    case False =>
    case True =>
    case Number(d) => NumberIsRead(s, off, next, d);
    case String(text) => StringExactly(s, off, text, next);
    case Array(_) => ArrayIsRead(v, s, off, next, depth);
    case Object(_) => ObjectIsRead(v, s, off, next, depth);
  }

  lemma ArrayInside(s: seq<Byte>, off: nat, next: nat, v: Value)
    requires v.Array? && off < next <= |s| && IsValue(s[off..next], v)
    ensures off + 1 < next && s[off] == OPEN_BRACKET && s[next-1] == CLOSE_BRACKET && IsItems(s[off+1..next-1], v.items)
    ensures Nesting(v) == 1 + ItemsNesting(v.items)
    ensures v.items == [] ==> Nesting(v) == 1
  {
    hide IsItems;
    SliceOfSlice(s, off, next, 1, next - off - 1);
  }

  lemma {:induction false} ArrayIsRead(v: Value, s: seq<Byte>, off: nat, next: nat, depth: nat)
    requires v.Array? && off < next <= |s| && IsValue(s[off..next], v) && depth <= NESTING_LIMIT
    ensures ReadsBack(ParseArrayAt(s, off, depth), v, next, depth + Nesting(v))
    decreases v, 1
  {
    hide ParseItemsAt, SkipBlank, IsBlank, IsItems, IsValue, Nesting;
    ArrayInside(s, off, next, v);
    if v.items == [] {
      BlankItems(s[off+1..next-1]);
      SkipTo(s, off + 1, next - 1);
    } else {
      var first, mid, q := ItemsSplit(s, off + 1, next - 1, v.items);
      FirstByte(s[first..mid], v.items[0]);
      assert s[first] == s[first..mid][0];
      SkipTo(s, off + 1, first);
      if depth < NESTING_LIMIT {
        Nothing(s, first);
        SkipTo(s, first, first);
        ItemsAreRead(v.items, s, first - 1, off + 1, next - 1, depth + 1, []);
        assert [] + v.items == v.items;
      }
    }
  }

  lemma BlankItems(t: seq<Byte>)
    ensures IsItems(t, []) <==> IsBlank(t)
    ensures IsMembers(t, []) <==> IsBlank(t)
  {
  }

  // A byte that may stand behind a value in a list.
  lemma StopsThere(s: seq<Byte>, mid: nat, q: nat)
    requires mid <= q < |s| && IsBlank(s[mid..q]) && s[q] in {COMMA, CLOSE_BRACKET, CLOSE_BRACE}
    ensures NumberStops(s, mid)
  {
    assert mid < q ==> s[mid] == s[mid..q][0];
  }

  lemma {:induction false} ItemsAreRead(
      items: seq<Value>, s: seq<Byte>, p: nat, from: nat, to: nat, depth: nat, done: seq<Value>)
    requires items != [] && p < |s| && from <= to < |s| && s[to] == CLOSE_BRACKET && IsItems(s[from..to], items)
    requires SkipBlank(s, p + 1) == SkipBlank(s, from) && p < to && depth <= NESTING_LIMIT
    ensures ReadsBack(ParseItemsAt(s, p, depth, done), Array(done + items), to + 1, depth + ItemsNesting(items))
    decreases items
  {
    hide ParseValueAt, SkipBlank, IsValue, IsBlank, IsItems, NumberStops, Nesting;
    var off, mid, q := ItemsSplit(s, from, to, items);
    FirstByte(s[off..mid], items[0]);
    assert s[off] == s[off..mid][0];
    SkipTo(s, from, off);
    StopsThere(s, mid, q);
    SkipTo(s, mid, q);
    ValueIsRead(items[0], s, off, mid, depth);
    if |items| == 1 {
      assert items == [items[0]];
    } else if depth + Nesting(items[0]) <= NESTING_LIMIT {
      ItemsAreRead(items[1..], s, q, q + 1, to, depth, done + [items[0]]);
      assert done + items == done + [items[0]] + items[1..];
    }
  }

  lemma ObjectInside(s: seq<Byte>, off: nat, next: nat, v: Value)
    requires v.Object? && off < next <= |s| && IsValue(s[off..next], v)
    ensures off + 1 < next && s[off] == OPEN_BRACE && s[next-1] == CLOSE_BRACE && IsMembers(s[off+1..next-1], v.members)
    ensures Nesting(v) == 1 + MembersNesting(v.members)
    ensures v.members == [] ==> Nesting(v) == 1
  {
    hide IsMembers;
    SliceOfSlice(s, off, next, 1, next - off - 1);
  }

  lemma {:induction false} ObjectIsRead(v: Value, s: seq<Byte>, off: nat, next: nat, depth: nat)
    requires v.Object? && off < next <= |s| && IsValue(s[off..next], v) && depth <= NESTING_LIMIT
    ensures ReadsBack(ParseObjectAt(s, off, depth), v, next, depth + Nesting(v))
    decreases v, 1
  {
    hide ParseMembersAt, SkipBlank, IsBlank, IsMembers, IsMember, IsValue, Nesting;
    ObjectInside(s, off, next, v);
    if v.members == [] {
      BlankItems(s[off+1..next-1]);
      SkipTo(s, off + 1, next - 1);
    } else {
      var first, mid, q := MembersSplit(s, off + 1, next - 1, v.members);
      KeyFirst(s, first, mid, v.members[0]);
      SkipTo(s, off + 1, first);
      if depth < NESTING_LIMIT {
        Nothing(s, first);
        SkipTo(s, first, first);
        MembersAreRead(v.members, s, first - 1, off + 1, next - 1, depth + 1, []);
        assert [] + v.members == v.members;
      }
    }
  }

  lemma KeyFirst(s: seq<Byte>, off: nat, next: nat, m: Member)
    requires off <= next <= |s| && IsMember(s[off..next], m)
    ensures off < next && s[off] == QUOTE
  {
    hide IsMember, IsBlank, IsValue;
    var j, k, l := MemberSplit(s, off, next, m);
    assert s[off] == s[off..j][0];
  }

  lemma {:induction false} MemberIsRead(m: Member, s: seq<Byte>, p: nat, off: nat, next: nat, depth: nat)
    requires p < off <= next <= |s| && IsMember(s[off..next], m) && SkipBlank(s, p + 1) == off
    requires depth <= NESTING_LIMIT && NumberStops(s, next)
    ensures ReadsBack(ParseMemberAt(s, p, depth), m, next, depth + Nesting(m.value))
    decreases m
  {
    hide ParseStringAt, ParseValueAt, SkipBlank, IsBlank, IsMember, IsValue, Nesting, NumberStops, Spells, Unbroken;
    var j, k, l := MemberSplit(s, off, next, m);
    StringExactly(s, off, m.key, j);
    SkipTo(s, j, k);
    FirstByte(s[l..next], m.value);
    assert s[l] == s[l..next][0];
    SkipTo(s, k + 1, l);
    ValueIsRead(m.value, s, l, next, depth);
  }

  lemma {:induction false} MembersAreRead(
      members: seq<Member>, s: seq<Byte>, p: nat, from: nat, to: nat, depth: nat, done: seq<Member>)
    requires members != [] && p < |s| && from <= to < |s| && s[to] == CLOSE_BRACE && IsMembers(s[from..to], members)
    requires SkipBlank(s, p + 1) == SkipBlank(s, from) && p < to && depth <= NESTING_LIMIT
    ensures ReadsBack(ParseMembersAt(s, p, depth, done), Object(done + members), to + 1, depth + MembersNesting(members))
    decreases members
  {
    hide ParseMemberAt, SkipBlank, IsMember, IsBlank, IsMembers, NumberStops, Nesting;
    var off, mid, q := MembersSplit(s, from, to, members);
    KeyFirst(s, off, mid, members[0]);
    SkipTo(s, from, off);
    StopsThere(s, mid, q);
    SkipTo(s, mid, q);
    MemberIsRead(members[0], s, p, off, mid, depth);
    if |members| == 1 {
      assert members == [members[0]];
    } else if depth + Nesting(members[0].value) <= NESTING_LIMIT {
      MembersAreRead(members[1..], s, q, q + 1, to, depth, done + [members[0]]);
      assert done + members == done + [members[0]] + members[1..];
    }
  }

  // ----- Both together -----

  /**
   At any place and depth, where no number can go on behind it: the parser finds a value and stops
   at next exactly if the text up to there is one of that value, and it nests within the limit.
   */
  lemma ValueExactly(v: Value, s: seq<Byte>, off: nat, next: nat, depth: nat)
    requires off <= next <= |s| && depth <= NESTING_LIMIT && NumberStops(s, next)
    ensures ParseValueAt(s, off, depth) == Ok(v, next) <==>
            IsValue(s[off..next], v) && depth + Nesting(v) <= NESTING_LIMIT
  {
    hide ParseValueAt, IsValue, Nesting, NumberStops;
    ValueIsFound(s, off, depth);
    AcceptedValue(s, off, depth);
    if IsValue(s[off..next], v) {
      ValueIsRead(v, s, off, next, depth);
    }
  }

  /**
   A text with its terminator is accepted as a whole, with a value, exactly if it is a document of
   that value that nests within the limit. So no text has two values.
   */
  lemma DocumentExactly(s: seq<Byte>, v: Value)
    ensures s != [] && ParseText(s, true) == Ok(v, |s| - 1) <==> IsDocument(s, v) && Nesting(v) <= NESTING_LIMIT
    ensures ParseText(s, true).Ok? ==> ParseText(s, true).next == |s| - 1
  {
    hide ParseValueAt, IsValue, Nesting;
    if s != [] {
      var start := SkipBlank(s, BomLength(s));
      ValueIsFound(s, start, 0);
      AcceptedValue(s, start, 0);
      BlankSkipped(s, BomLength(s));
      var r := ParseValueAt(s, start, 0);
      if r.Ok? {
        Terminated(s, r.next);
        MarkAtStart(s);
        assert ParseText(s, true).Ok? ==> Document(s, r.value, BomLength(s), start, r.next);
      }
      if mark: nat, from: nat, next: nat :| Document(s, v, mark, from, next) {
        DocumentIsRead(s, v, mark, from, next);
      }
    }
  }

  lemma MarkAtStart(s: seq<Byte>)
    ensures BomLength(s) == 0 || (BomLength(s) == 3 && s[..3] == [0xef, 0xbb, 0xbf])
    ensures |s| > 4 && s[..3] == [0xef, 0xbb, 0xbf] ==> BomLength(s) == 3
    ensures s != [] && s[0] != 0xef ==> BomLength(s) == 0
  {
    assert |s| >= 3 ==> s[0..3] == s[..3];
    assert At(s, 0, BOM) ==> s[0] == s[0..3][0];
  }

  // White space up to a terminator, and nothing else, leads to the end.
  lemma Terminated(s: seq<Byte>, off: nat)
    requires off <= |s|
    ensures var end := SkipBlank(s, off);
            end < |s| && s[end] == 0 <==> off < |s| && IsBlank(s[off..]) && s[|s|-1] == 0
    ensures var end := SkipBlank(s, off); end < |s| && s[end] == 0 ==> end == |s| - 1
  {
    assert forall k :: off <= k < |s| ==> s[k] == s[off..][k-off];
    if off < |s| && IsBlank(s[off..]) {
      assert BlankEnd(s, off) == |s|;
    }
  }

  lemma DocumentIsRead(s: seq<Byte>, v: Value, mark: nat, from: nat, next: nat)
    requires Document(s, v, mark, from, next)
    ensures ReadsBack(ParseText(s, true), v, |s| - 1, Nesting(v))
  {
    hide ParseValueAt, IsValue, Nesting;
    FirstByte(s[from..next], v);
    assert s[from] == s[from..next][0];
    MarkAtStart(s);
    if mark == 0 {
      StartsPlain(s, from, v, next);
    } else {
      assert s[..3][0] == s[0];
    }
    SkipTo(s, mark, from);
    assert s[next] == s[next..][0];
    Terminated(s, next);
    ValueIsRead(v, s, from, next, 0);
  }

  // Without a mark the first byte is white space or starts a value.
  lemma StartsPlain(s: seq<Byte>, from: nat, v: Value, next: nat)
    requires from < next <= |s| && IsBlank(s[0..from]) && IsValue(s[from..next], v)
    ensures s[0] != 0xef
  {
    hide IsValue;
    FirstByte(s[from..next], v);
    FirstIsAscii(s[from..next], v);
    assert from == 0 ==> s[0] == s[0..next][0];
    assert from > 0 ==> s[0] == s[0..from][0];
  }

  lemma FirstIsAscii(t: seq<Byte>, v: Value)
    requires IsValue(t, v)
    ensures t != [] && t[0] < 0x80
  {
    hide IsValue;
    FirstByte(t, v);
  }
}
