/**
 Strings in JSON text (src/uct_json.c): the two passes of parse_string, the
 UTF-16 escapes, and the escaping that print_string_ptr does.

 Bytes and code points are numbers; the shifts and masks of the C code appear as
 division, remainder and sum.
 */
module JsonString {
  import opened Bytes

  const QUOTE: Byte := 0x22
  const BACKSLASH: Byte := 0x5c
  const SLASH: Byte := 0x2f
  const LETTER_B: Byte := 0x62
  const LETTER_F: Byte := 0x66
  const LETTER_N: Byte := 0x6e
  const LETTER_R: Byte := 0x72
  const LETTER_T: Byte := 0x74
  const LETTER_U: Byte := 0x75

  // ----- UTF-16 escapes -----

  // The value of a hexadecimal digit, or 16 for any other byte.
  function HexValue(b: Byte): (v: nat)
    ensures v <= 16
  {
    if 0x30 <= b <= 0x39 then b - 0x30
    else if 0x41 <= b <= 0x46 then b - 0x41 + 10
    else if 0x61 <= b <= 0x66 then b - 0x61 + 10
    else 16
  }

  // parse_hex4: four digits, or 0 when one of them is none.
  function Hex4(s: seq<Byte>, i: nat): (h: nat)
    requires i + 4 <= |s|
    ensures h <= 0xffff
  {
    var a, b, c, d := HexValue(s[i]), HexValue(s[i+1]), HexValue(s[i+2]), HexValue(s[i+3]);
    if a == 16 || b == 16 || c == 16 || d == 16 then 0
    else ((a * 16 + b) * 16 + c) * 16 + d
  }

  type CodePoint = c: nat | c <= 0x10ffff

  // The bit patterns of the UTF-8 encoding of section 3 of RFC 3629. The section prohibits encoding
  // surrogates; they have a pattern here all the same.
  function Utf8(c: CodePoint): (r: seq<Byte>)
    ensures 1 <= |r| <= 4
    ensures c <= 0xffff ==> |r| <= 3
  {
    if c < 0x80 then [c]
    else if c < 0x800 then [0xc0 + c / 0x40, 0x80 + c % 0x40]
    else if c < 0x1_0000 then [0xe0 + c / 0x1000, 0x80 + c / 0x40 % 0x40, 0x80 + c % 0x40]
    else [0xf0 + c / 0x4_0000, 0x80 + c / 0x1000 % 0x40, 0x80 + c / 0x40 % 0x40, 0x80 + c % 0x40]
  }

  predicate IsHighSurrogate(c: nat) { 0xd800 <= c <= 0xdbff }

  predicate IsLowSurrogate(c: nat) { 0xdc00 <= c <= 0xdfff }

  // The code point of a surrogate pair, section 2.2 of RFC 2781.
  function FromPair(hi: nat, lo: nat): (c: CodePoint)
    ensures 0x1_0000 <= c
  {
    0x1_0000 + hi % 0x400 * 0x400 + lo % 0x400
  }

  datatype Escape = BadEscape | Escape(length: nat, code: CodePoint)

  // The escape \uXXXX or \uXXXX\uXXXX at i; only bytes before end belong to it.
  function Utf16At(s: seq<Byte>, i: nat, end: nat): (e: Escape)
    requires end <= |s|
    ensures e.Escape? ==> (e.length == 6 || e.length == 12) && i + e.length <= end
    ensures e.Escape? && e.length == 6 ==> e.code <= 0xffff
  {
    if i + 6 > end then BadEscape
    else
      var first := Hex4(s, i + 2);
      if IsLowSurrogate(first) then BadEscape
      else if IsHighSurrogate(first) then
        if i + 12 > end then BadEscape
        else if s[i+6] != BACKSLASH || s[i+7] != LETTER_U then BadEscape
        else if !IsLowSurrogate(Hex4(s, i + 8)) then BadEscape
        else Escape(12, FromPair(first, Hex4(s, i + 8)))
      else Escape(6, first)
  }

  // A code point after n groups of six bits have been taken off.
  function Shifted(c: nat, n: nat): nat {
    if n == 0 then c else Shifted(c, n - 1) / 0x40
  }

  // The n-th byte that the encoding loop produces, counted from the end, and the leading byte.
  lemma EncodingBytes(c: CodePoint)
    ensures var r := Utf8(c);
            && (forall n :: 0 <= n < |r| - 1 ==> r[|r| - 1 - n] == 0x80 + Shifted(c, n) % 0x40)
            && (|r| == 1 ==> r[0] == c % 0x80)
            && (|r| == 2 ==> r[0] == 0xc0 + Shifted(c, 1))
            && (|r| == 3 ==> r[0] == 0xe0 + Shifted(c, 2))
            && (|r| == 4 ==> r[0] == 0xf0 + Shifted(c, 3))
  {
    assert Shifted(c, 0) == c && Shifted(c, 1) == c / 0x40;
    assert Shifted(c, 2) == c / 0x40 / 0x40 == c / 0x1000;
    assert Shifted(c, 3) == c / 0x40 / 0x40 / 0x40 == c / 0x4_0000;
  }

  // The encoding part of utf16_literal_to_utf8: from the last byte to the first.
  method EncodeUtf8(output: array<Byte>, at: nat, code: CodePoint) returns (length: nat)
    requires at + |Utf8(code)| <= output.Length
    modifies output
    ensures length == |Utf8(code)|
    ensures output[at..at+length] == Utf8(code)
    ensures output[..at] == old(output[..at]) && output[at+length..] == old(output[at+length..])
  {
    EncodingBytes(code);
    var codepoint := code;
    var mark := 0;
    if codepoint < 0x80 {
      length := 1;
    } else if codepoint < 0x800 {
      length := 2;
      mark := 0xc0;
    } else if codepoint < 0x1_0000 {
      length := 3;
      mark := 0xe0;
    } else {
      length := 4;
      mark := 0xf0;
    }
    assert length == |Utf8(code)|;
    hide Utf8;
    var position := length - 1;
    while position > 0
      invariant 0 <= position < length
      invariant output[..at] == old(output[..at]) && output[at+length..] == old(output[at+length..])
      invariant forall k :: at + position < k < at + length ==> output[k] == Utf8(code)[k-at]
      invariant codepoint == Shifted(code, length - 1 - position)
    {
      output[at+position] := 0x80 + codepoint % 0x40;
      assert output[at+position] == Utf8(code)[length - 1 - (length - 1 - position)];
      codepoint := codepoint / 0x40;
      position := position - 1;
    }
    if length > 1 {
      output[at] := mark + codepoint;
    } else {
      output[at] := codepoint % 0x80;
    }
    assert output[at] == Utf8(code)[0];
    ghost var bytes := output[at..at+length];
    assert forall k :: at <= k < at + length ==> bytes[k-at] == output[k] == Utf8(code)[k-at];
    assert bytes == Utf8(code);
  }

  // ----- parse_string -----

  // The first pass: the closing quote, where a backslash hides the byte after it.
  function ScanEnd(s: seq<Byte>, i: nat): (r: int)
    requires i <= |s|
    ensures r == -1 || (i <= r < |s| && s[r] == QUOTE)
    decreases |s| - i
  {
    if i == |s| then -1
    else if s[i] == QUOTE then i
    else if s[i] == BACKSLASH then (if i + 1 >= |s| then -1 else ScanEnd(s, i + 2))
    else ScanEnd(s, i + 1)
  }

  // How many backslashes the first pass skips from i to end; only those at from or later count.
  function Skipped(s: seq<Byte>, i: nat, end: nat, from: nat): nat
    requires end <= |s|
    decreases end - i
  {
    if i >= end then 0
    else if s[i] == BACKSLASH then (if i >= from then 1 else 0) + Skipped(s, i + 2, end, from)
    else Skipped(s, i + 1, end, from)
  }

  datatype Decoded = Decoded(text: seq<Byte>) | Undecodable(at: nat)

  // The second pass, from i, with what has been written so far.
  function Decode(s: seq<Byte>, i: nat, end: nat, written: seq<Byte>): (r: Decoded)
    requires end < |s|
    ensures r.Undecodable? ==> i <= r.at < end
    decreases end - i
  {
    if i >= end then Decoded(written)
    else if s[i] != BACKSLASH then Decode(s, i + 1, end, written + [s[i]])
    else
      var c := s[i+1];
      if c == LETTER_B then Decode(s, i + 2, end, written + [8])
      else if c == LETTER_F then Decode(s, i + 2, end, written + [12])
      else if c == LETTER_N then Decode(s, i + 2, end, written + [10])
      else if c == LETTER_R then Decode(s, i + 2, end, written + [13])
      else if c == LETTER_T then Decode(s, i + 2, end, written + [9])
      else if c == QUOTE || c == BACKSLASH || c == SLASH then Decode(s, i + 2, end, written + [c])
      else if c == LETTER_U then
        var e := Utf16At(s, i, end);
        if e.BadEscape? then Undecodable(i) else Decode(s, i + e.length, end, written + Utf8(e.code))
      else Undecodable(i)
  }

  // Two backslashes that the first pass skips are never next to each other.
  lemma {:induction false} SkippedPair(s: seq<Byte>, i: nat, end: nat, p: nat)
    requires end <= |s|
    ensures Skipped(s, i, end, p + 2) <= Skipped(s, i, end, p) <= Skipped(s, i, end, p + 2) + 1
    decreases end - i
  {
    if i < end {
      SkippedPair(s, if s[i] == BACKSLASH then i + 2 else i + 1, end, p);
      if s[i] == BACKSLASH && i >= p {
        if i >= p + 2 {
        } else {
          NoneBefore(s, i + 2, end, p, p + 2);
        }
      }
    }
  }

  lemma {:induction false} NoneBefore(s: seq<Byte>, i: nat, end: nat, p: nat, q: nat)
    requires end <= |s| && p <= i && q <= i
    ensures Skipped(s, i, end, p) == Skipped(s, i, end, q)
    decreases end - i
  {
    if i < end {
      NoneBefore(s, if s[i] == BACKSLASH then i + 2 else i + 1, end, p, q);
    }
  }

  lemma {:induction false} SkippedPlain(s: seq<Byte>, i: nat, end: nat, p: nat)
    requires end <= |s| && p < end && s[p] != BACKSLASH
    ensures Skipped(s, i, end, p) == Skipped(s, i, end, p + 1)
    decreases end - i
  {
    if i < end {
      SkippedPlain(s, if s[i] == BACKSLASH then i + 2 else i + 1, end, p);
    }
  }

  lemma {:induction false} SkippedPastEnd(s: seq<Byte>, i: nat, end: nat, p: nat)
    requires end <= |s| && p >= end
    ensures Skipped(s, i, end, p) == 0
    decreases end - i
  {
    if i < end {
      SkippedPastEnd(s, if s[i] == BACKSLASH then i + 2 else i + 1, end, p);
    }
  }

  // The first pass never ends right behind a backslash that it skipped.
  lemma {:induction false} LastIsNotSkipped(s: seq<Byte>, i: nat, end: nat)
    requires i <= |s| && ScanEnd(s, i) == end
    ensures end > 0 ==> Skipped(s, i, end, end - 1) == 0
    decreases end - i
  {
    if i < end {
      LastIsNotSkipped(s, if s[i] == BACKSLASH then i + 2 else i + 1, end);
    }
  }

  // The room that is left for the second pass at position p.
  function Room(s: seq<Byte>, start: nat, end: nat, p: nat): int
    requires end <= |s|
  {
    end - p - Skipped(s, start, end, p)
  }

  // One step of the second pass never writes more than the room it gives up.
  lemma StepFits(s: seq<Byte>, start: nat, end: nat, p: nat)
    requires start <= p < end < |s| && ScanEnd(s, start) == end
    ensures s[p] != BACKSLASH ==> Room(s, start, end, p + 1) == Room(s, start, end, p) - 1
    ensures s[p] == BACKSLASH && p + 2 <= end ==> Room(s, start, end, p + 2) <= Room(s, start, end, p) - 1
    ensures s[p] == BACKSLASH && p + 1 == end ==> Room(s, start, end, p) >= 1
    ensures p + 6 <= end ==> Room(s, start, end, p + 6) <= Room(s, start, end, p) - 3
    ensures p + 12 <= end ==> Room(s, start, end, p + 12) <= Room(s, start, end, p) - 6
    ensures Room(s, start, end, end) == 0
  {
    if s[p] != BACKSLASH {
      SkippedPlain(s, start, end, p);
    }
    SkippedPair(s, start, end, p);
    SkippedPair(s, start, end, p + 2);
    SkippedPair(s, start, end, p + 4);
    SkippedPair(s, start, end, p + 6);
    SkippedPair(s, start, end, p + 8);
    SkippedPair(s, start, end, p + 10);
    SkippedPastEnd(s, start, end, end);
    LastIsNotSkipped(s, start, end);
  }

  /**
   The size estimate: whatever the text between the quotes, also when the two passes split it
   differently, the decoded bytes never exceed what the first pass computed.
   */
  lemma {:induction false} DecodedFits(s: seq<Byte>, start: nat, end: nat, p: nat, written: seq<Byte>)
    requires start <= p && end < |s| && start <= |s| && ScanEnd(s, start) == end
    requires p <= end + 1 && |written| + (if p <= end then Room(s, start, end, p) else 0) <= Room(s, start, end, start)
    ensures var d := Decode(s, p, end, written);
            d.Decoded? ==> |d.text| <= Room(s, start, end, start) == end - start - Skipped(s, start, end, start)
    decreases end - p
  {
    if p < end {
      StepFits(s, start, end, p);
      if s[p] != BACKSLASH {
        DecodedFits(s, start, end, p + 1, written + [s[p]]);
      } else if s[p+1] == LETTER_U {
        var e := Utf16At(s, p, end);
        if e.Escape? {
          DecodedFits(s, start, end, p + e.length, written + Utf8(e.code));
        }
      } else {
        var out: seq<Byte> := [if s[p+1] == LETTER_B then 8 else if s[p+1] == LETTER_F then 12 else if s[p+1] == LETTER_N then 10
                    else if s[p+1] == LETTER_R then 13 else if s[p+1] == LETTER_T then 9 else s[p+1]];
        DecodedFits(s, start, end, p + 2, written + out);
      }
    } else if p == end {
      SkippedPastEnd(s, start, end, end);
    }
  }

  // ----- Escaping -----

  function HexDigit(v: nat, upper: bool := false): (b: Byte)
    requires v < 16
    ensures HexValue(b) == v
  {
    if v < 10 then 0x30 + v else (if upper then 0x41 else 0x61) + v - 10
  }

  // What print_string_ptr writes for one byte; uct_escape_json writes upper-case digits.
  function EscapeByte(b: Byte, upper: bool := false): (r: seq<Byte>)
    ensures |r| == 1 || |r| == 2 || |r| == 6
    ensures |r| == 1 ==> r == [b]
  {
    if b == QUOTE || b == BACKSLASH then [BACKSLASH, b]
    else if b == 8 then [BACKSLASH, LETTER_B]
    else if b == 12 then [BACKSLASH, LETTER_F]
    else if b == 10 then [BACKSLASH, LETTER_N]
    else if b == 13 then [BACKSLASH, LETTER_R]
    else if b == 9 then [BACKSLASH, LETTER_T]
    else if b < 32 then [BACKSLASH, LETTER_U, HexDigit(0), HexDigit(0), HexDigit(b / 16), HexDigit(b % 16, upper)]
    else [b]
  }

  function Escaped(t: seq<Byte>, upper: bool := false): (r: seq<Byte>)
    ensures |r| >= |t|
  {
    if t == [] then [] else Escaped(t[..|t|-1], upper) + EscapeByte(t[|t|-1], upper)
  }

  // The text that stands for a string value.
  function RenderString(t: seq<Byte>): seq<Byte> {
    [QUOTE] + Escaped(t) + [QUOTE]
  }

  lemma {:induction false} NothingToEscape(t: seq<Byte>)
    requires |Escaped(t)| == |t|
    ensures Escaped(t) == t
  {
    if t != [] {
      NothingToEscape(t[..|t|-1]);
    }
  }

  lemma EscapedNothing(upper: bool := false)
    ensures Escaped([], upper) == []
  {
  }

  lemma {:induction false} EscapedPrefix(t: seq<Byte>, k: nat, upper: bool := false)
    requires k < |t|
    ensures Escaped(t[..k+1], upper) == Escaped(t[..k], upper) + EscapeByte(t[k], upper)
    ensures |Escaped(t[..k+1], upper)| <= |Escaped(t, upper)|
    decreases |t|
  {
    assert t[..k+1][..k] == t[..k];
    if k + 1 == |t| {
      assert t[..k+1] == t;
    } else {
      EscapedPrefix(t[..|t|-1], k, upper);
      assert t[..|t|-1][..k+1] == t[..k+1];
    }
  }

  // Both passes take one escaped byte as one step.
  lemma StepOverEscape(s: seq<Byte>, i: nat, end: nat, b: Byte, w: seq<Byte>, upper: bool)
    requires At(s, i, EscapeByte(b, upper)) && i + |EscapeByte(b, upper)| <= end < |s|
    ensures ScanEnd(s, i) == ScanEnd(s, i + |EscapeByte(b, upper)|)
    ensures Decode(s, i, end, w) == Decode(s, i + |EscapeByte(b, upper)|, end, w + [b])
  {
    var e := EscapeByte(b, upper);
    AtByte(s, i, e, 0);
    if |e| > 1 {
      AtByte(s, i, e, 1);
    }
    if |e| == 6 {
      AtByte(s, i, e, 2);
      AtByte(s, i, e, 3);
      AtByte(s, i, e, 4);
      AtByte(s, i, e, 5);
      assert Utf16At(s, i, end) == Escape(6, b);
      assert ScanEnd(s, i + 2) == ScanEnd(s, i + 3) == ScanEnd(s, i + 4);
      assert ScanEnd(s, i + 4) == ScanEnd(s, i + 5) == ScanEnd(s, i + 6);
    }
  }

  lemma {:induction false} OverEscaped(s: seq<Byte>, i: nat, end: nat, t: seq<Byte>, w: seq<Byte>, upper: bool)
    requires At(s, i, Escaped(t, upper)) && i + |Escaped(t, upper)| <= end < |s|
    ensures ScanEnd(s, i) == ScanEnd(s, i + |Escaped(t, upper)|)
    ensures Decode(s, i, end, w) == Decode(s, i + |Escaped(t, upper)|, end, w + t)
  {
    hide ScanEnd, Decode, EscapeByte, At;
    if t == [] {
      assert w + t == w;
    } else {
      var front, last := t[..|t|-1], t[|t|-1];
      AtConcat(s, i, Escaped(front, upper), EscapeByte(last, upper));
      OverEscaped(s, i, end, front, w, upper);
      StepOverEscape(s, i + |Escaped(front, upper)|, end, last, w + front, upper);
      assert w + t == w + front + [last];
    }
  }

  // Decoding undoes escaping.
  lemma DecodeUndoesEscape(s: seq<Byte>, i: nat, t: seq<Byte>, upper: bool := false)
    requires At(s, i, Escaped(t, upper) + [QUOTE])
    ensures var end := i + |Escaped(t, upper)|;
            ScanEnd(s, i) == end && Decode(s, i, end, []) == Decoded(t)
  {
    hide At, Escaped, Utf16At;
    var end := i + |Escaped(t, upper)|;
    AtConcat(s, i, Escaped(t, upper), [QUOTE]);
    AtByte(s, end, [QUOTE], 0);
    OverEscaped(s, i, end, t, [], upper);
    assert [] + t == t;
  }

  // ----- C strings -----

  predicate NoNul(t: seq<Byte>) { NUL !in t }

  // What a reader of a terminated string sees of the bytes.
  function CString(t: seq<Byte>): (r: seq<Byte>)
    ensures NoNul(r) && r <= t
    ensures NoNul(t) ==> r == t
    ensures r == t || t[|r|] == NUL
  {
    if t == [] || t[0] == NUL then []
    else
      var rest := CString(t[1..]);
      assert t == [t[0]] + t[1..];
      [t[0]] + rest
  }

  lemma {:induction false} EscapedHasNoNul(t: seq<Byte>)
    ensures NoNul(Escaped(t)) && NoNul(RenderString(t))
  {
    if t != [] {
      EscapedHasNoNul(t[..|t|-1]);
    }
  }
}
