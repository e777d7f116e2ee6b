/**
 uct_escape_json (src/uct_string.c): escaping for JSON without the quotes, once to measure and
 once to write; and parse_string of src/uct_json.c, which undoes it.
 */
module EscapeJson {
  import opened Bytes
  import opened JsonString
  import opened JsonParse

  // uct_escape_json without a destination: how many bytes escaping adds.
  method ExtraLength(src: seq<Byte>) returns (len: nat)
    ensures |src| + len == |Escaped(src, true)|
  {
    len := 0;
    var k := 0;
    while k < |src|
      invariant k <= |src|
      invariant len + k == |Escaped(src[..k], true)|
    {
      EscapedPrefix(src, k, true);
      var ch := src[k];
      if ch == BACKSLASH || ch == QUOTE {
        len := len + 1;
      } else if ch <= 0x1f {
        if ch == 10 || ch == 13 || ch == 9 || ch == 8 || ch == 12 {
          len := len + 1;
        } else {
          len := len + 5;
        }
      }
      k := k + 1;
    }
    assert src[..k] == src;
  }

  // One round of the writing loop.
  method WriteByte(dst: array<Byte>, at: nat, b: Byte) returns (next: nat)
    requires at + |EscapeByte(b, true)| <= dst.Length
    modifies dst
    ensures next == at + |EscapeByte(b, true)|
    ensures dst[..next] == old(dst[..at]) + EscapeByte(b, true)
    ensures dst[next..] == old(dst[next..])
  {
    var ch := b;
    next := at;
    if ch > 0x1f {
      if ch == BACKSLASH || ch == QUOTE {
        dst[next] := BACKSLASH;
        next := next + 1;
      }
      dst[next] := ch;
      next := next + 1;
    } else {
      dst[next] := BACKSLASH;
      if ch == 10 {
        dst[next+1] := LETTER_N;
      } else if ch == 13 {
        dst[next+1] := LETTER_R;
      } else if ch == 9 {
        dst[next+1] := LETTER_T;
      } else if ch == 8 {
        dst[next+1] := LETTER_B;
      } else if ch == 12 {
        dst[next+1] := LETTER_F;
      } else {
        dst[next+1], dst[next+2], dst[next+3], dst[next+4] := LETTER_U, 0x30, 0x30, 0x30 + ch / 16;
        ch := ch % 16;
        dst[next+5] := if ch < 10 then 0x30 + ch else 0x41 + ch - 10;
        next := next + 4;
      }
      next := next + 2;
    }
    assert dst[at..next] == EscapeByte(b, true);
    hide EscapeByte;
    assert dst[..at] == old(dst[..at]);
    assert dst[..next] == dst[..at] + dst[at..next];
  }

  // uct_escape_json: it needs just the room that the first pass measured.
  method Escape(dst: array<Byte>, src: seq<Byte>) returns (end: nat)
    requires |Escaped(src, true)| <= dst.Length
    modifies dst
    ensures end == |Escaped(src, true)| && dst[..end] == Escaped(src, true)
    ensures dst[end..] == old(dst[end..])
  {
    hide Escaped, EscapeByte;
    end := 0;
    var k := 0;
    assert src[..0] == [];
    EscapedNothing(true);
    while k < |src|
      invariant k <= |src|
      invariant end == |Escaped(src[..k], true)| <= |Escaped(src, true)|
      invariant dst[..end] == Escaped(src[..k], true)
      invariant dst[end..] == old(dst[end..])
    {
      EscapedPrefix(src, k, true);
      ghost var tail := dst[end..];
      var next := WriteByte(dst, end, src[k]);
      assert dst[next..] == tail[next-end..];
      assert old(dst[next..]) == old(dst[end..])[next-end..];
      end := next;
      k := k + 1;
    }
    assert src[..k] == src;
  }

  /**
   Between quotes, the escaped text is parsed to the source as far as a C string goes, so to the
   source itself exactly when that has no NUL byte.
   */
  lemma {:induction false} ParseUndoesEscape(src: seq<Byte>, s: seq<Byte>, off: nat)
    requires At(s, off, [QUOTE] + (Escaped(src, true) + [QUOTE]))
    ensures ParseStringAt(s, off) == Ok(CString(src), off + |Escaped(src, true)| + 2)
    ensures ParseStringAt(s, off).value == src <==> NoNul(src)
  {
    hide Escaped, ScanEnd, Decode;
    AtConcat(s, off, [QUOTE], Escaped(src, true) + [QUOTE]);
    AtByte(s, off, [QUOTE], 0);
    DecodeUndoesEscape(s, off + 1, src, true);
  }

  // What both escapers write, in bytes: a quote, a backslash, the five letters, two control bytes,
  // and what they leave alone.
  lemma EscapesInBytes(upper: bool)
    ensures EscapeByte(0x22, upper) == [0x5c, 0x22] && EscapeByte(0x5c, upper) == [0x5c, 0x5c]
    ensures EscapeByte(8, upper) == [0x5c, 0x62] && EscapeByte(9, upper) == [0x5c, 0x74]
    ensures EscapeByte(10, upper) == [0x5c, 0x6e] && EscapeByte(12, upper) == [0x5c, 0x66]
    ensures EscapeByte(13, upper) == [0x5c, 0x72]
    ensures EscapeByte(0x1f, upper) == [0x5c, 0x75, 0x30, 0x30, 0x31, if upper then 0x46 else 0x66]
    ensures EscapeByte(0x0b, upper) == [0x5c, 0x75, 0x30, 0x30, 0x30, if upper then 0x42 else 0x62]
    ensures forall b: Byte :: b >= 0x20 && b != 0x22 && b != 0x5c ==> EscapeByte(b, upper) == [b]
  {
  }
}
