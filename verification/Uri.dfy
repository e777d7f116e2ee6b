/**
 Percent-encoding (src/uct_string.c): uct_escape_uri with its bit tables, and the state machine
 of uct_unescape_uri.
 */
module Uri {
  import opened Bytes
  import opened JsonString

  const PERCENT: Byte := 0x25
  const QUESTION: Byte := 0x3f

  // The first parameter of the encoder.
  datatype Kind = URI | ARGS | URI_COMPONENT | HTML | REFRESH | MEMCACHED | MAIL_AUTH

  // The bits of the bytes that a kind escapes, 32 to a word.
  function Table(kind: Kind): (words: seq<bv32>)
    ensures |words| == 8
  {
    match kind
    case URI => Words(0x80000029, 0x00000000, 0x80000000)
    case ARGS => Words(0x88000869, 0x00000000, 0x80000000)
    case URI_COMPONENT => Words(0xfc009fff, 0x78000001, 0xb8000001)
    case HTML => Words(0x000000ad, 0x00000000, 0x80000000)
    case REFRESH => Words(0x00000085, 0x00000000, 0x80000000)
    case MEMCACHED => [0xffffffff, 0x00000021, 0, 0, 0, 0, 0, 0]
    case MAIL_AUTH => [0xffffffff, 0x00000021, 0, 0, 0, 0, 0, 0]
  }

  function Words(a: bv32, b: bv32, c: bv32): (words: seq<bv32>)
    ensures |words| == 8
  {
    [0xffffffff, a, b, c, 0xffffffff, 0xffffffff, 0xffffffff, 0xffffffff]
  }

  predicate Bit(w: bv32, k: nat)
    requires k < 32
  {
    w & ((1 as bv32) << k) != 0
  }

  predicate Escapes(kind: Kind, b: Byte) {
    Bit(Table(kind)[b / 32], b % 32)
  }

  // ----- The tables in words -----

  predicate IsAlphanumeric(b: Byte) {
    0x30 <= b <= 0x39 || 0x41 <= b <= 0x5a || 0x61 <= b <= 0x7a
  }

  // What each kind escapes beside the control bytes, the space and, mostly, the bytes from 0x7f on.
  predicate IsEscaped(kind: Kind, b: Byte) {
    match kind
    case URI => b <= 0x20 || b in [0x23, 0x25, 0x3f] || b >= 0x7f
    case ARGS => b <= 0x20 || b in [0x23, 0x25, 0x26, 0x2b, 0x3b, 0x3f] || b >= 0x7f
    case URI_COMPONENT => !IsAlphanumeric(b) && b !in [0x2d, 0x2e, 0x5f, 0x7e]
    case HTML => b <= 0x20 || b in [0x22, 0x23, 0x25, 0x27] || b >= 0x7f
    case REFRESH => b <= 0x20 || b in [0x22, 0x27] || b >= 0x7f
    case MEMCACHED => b <= 0x20 || b == 0x25
    case MAIL_AUTH => b <= 0x20 || b == 0x25
  }

  lemma WordBits(k: nat)
    requires k < 32
    ensures Bit(0xffffffff, k) && !Bit(0, k)
    ensures Bit(0x80000029, k) <==> k in {0, 3, 5, 31}
    ensures Bit(0x88000869, k) <==> k in {0, 3, 5, 6, 11, 27, 31}
    ensures Bit(0x000000ad, k) <==> k in {0, 2, 3, 5, 7}
    ensures Bit(0x00000085, k) <==> k in {0, 2, 7}
    ensures Bit(0x00000021, k) <==> k in {0, 5}
    ensures Bit(0x80000000, k) <==> k == 31
  {
  }

  lemma ComponentBits(k: nat)
    requires k < 32
    ensures Bit(0xfc009fff, k) <==> k <= 12 || k == 15 || 26 <= k
    ensures Bit(0x78000001, k) <==> k == 0 || 27 <= k <= 30
    ensures Bit(0xb8000001, k) <==> k == 0 || 27 <= k <= 29 || k == 31
  {
  }

  // The bit tables escape these bytes.
  lemma TablesInWords(kind: Kind, b: Byte)
    ensures Escapes(kind, b) <==> IsEscaped(kind, b)
  {
    hide Bit;
    if kind.URI_COMPONENT? {
      ComponentBits(b % 32);
    }
    WordBits(b % 32);
  }

  // ----- Escaping -----

  function EscapeByte(kind: Kind, b: Byte): (r: seq<Byte>)
    ensures |r| == if Escapes(kind, b) then 3 else 1
  {
    if Escapes(kind, b) then [PERCENT, HexDigit(b / 16, true), HexDigit(b % 16, true)] else [b]
  }

  function EscapedText(kind: Kind, s: seq<Byte>): seq<Byte> {
    if s == [] then [] else EscapeByte(kind, s[0]) + EscapedText(kind, s[1..])
  }

  function CountEscapes(kind: Kind, s: seq<Byte>): nat {
    if s == [] then 0 else (if Escapes(kind, s[0]) then 1 else 0) + CountEscapes(kind, s[1..])
  }

  // Every escape adds two bytes.
  lemma {:induction false} EscapedLength(kind: Kind, s: seq<Byte>)
    ensures |EscapedText(kind, s)| == |s| + 2 * CountEscapes(kind, s)
    decreases |s|
  {
    hide Escapes;
    if s != [] {
      EscapedLength(kind, s[1..]);
    }
  }

  // uct_escape_uri without a destination: how many bytes are to be escaped.
  method Measure(src: seq<Byte>, kind: Kind) returns (n: nat)
    ensures |EscapedText(kind, src)| == |src| + 2 * n
  {
    hide Escapes;
    n := 0;
    var i := 0;
    assert src[0..] == src;
    while i < |src|
      invariant i <= |src|
      invariant n + CountEscapes(kind, src[i..]) == CountEscapes(kind, src)
    {
      assert src[i..][1..] == src[i+1..];
      if Escapes(kind, src[i]) {
        n := n + 1;
      }
      i := i + 1;
    }
    EscapedLength(kind, src);
  }

  // uct_escape_uri: it needs just the room that was measured.
  method Escape(dst: array<Byte>, src: seq<Byte>, kind: Kind) returns (end: nat)
    requires |EscapedText(kind, src)| <= dst.Length
    modifies dst
    ensures end <= dst.Length && dst[..end] == EscapedText(kind, src)
    ensures dst[end..] == old(dst[end..])
  {
    hide EscapedText, EscapeByte, Escapes;
    end := 0;
    var i := 0;
    assert src[0..] == src;
    while i < |src|
      invariant i <= |src| && end <= dst.Length
      invariant dst[..end] + EscapedText(kind, src[i..]) == EscapedText(kind, src)
      invariant dst[end..] == old(dst[end..])
    {
      EscapedSplit(kind, src, i, dst[..end]);
      ghost var tail := dst[end..];
      var next := WriteByte(dst, end, src[i], kind);
      assert dst[next..] == tail[next-end..];
      assert old(dst[next..]) == old(dst[end..])[next-end..];
      end := next;
      i := i + 1;
    }
    EscapedNothing(kind);
    assert src[i..] == [] && dst[..end] + [] == dst[..end];
  }

  lemma EscapedNothing(kind: Kind)
    ensures EscapedText(kind, []) == []
  {
  }

  lemma EscapedSplit(kind: Kind, src: seq<Byte>, i: nat, done: seq<Byte>)
    requires i < |src|
    ensures done + EscapedText(kind, src[i..]) == done + EscapeByte(kind, src[i]) + EscapedText(kind, src[i+1..])
  {
    assert src[i..][1..] == src[i+1..];
  }

  method WriteByte(dst: array<Byte>, at: nat, b: Byte, kind: Kind) returns (next: nat)
    requires at + |EscapeByte(kind, b)| <= dst.Length
    modifies dst
    ensures next == at + |EscapeByte(kind, b)|
    ensures dst[..next] == old(dst[..at]) + EscapeByte(kind, b)
    ensures dst[next..] == old(dst[next..])
  {
    hide Escapes;
    if Escapes(kind, b) {
      dst[at], dst[at+1], dst[at+2] := PERCENT, HexDigit(b / 16, true), HexDigit(b % 16, true);
      next := at + 3;
    } else {
      dst[at] := b;
      next := at + 1;
    }
    assert dst[..at] == old(dst[..at]);
    assert dst[..next] == dst[..at] + dst[at..next];
  }

  // ----- Unescaping -----

  // What is pending: nothing, a percent sign, or that and a first digit.
  datatype State = Usual | Quoted | Second(digit: Byte)

  // The flags of the second parameter of the decoder.
  datatype Mode = Mode(uri: bool, redirect: bool)

  const PLAIN := Mode(false, false)

  // One byte: what is written, whether decoding ends, and what is pending then.
  function Step(ch: Byte, state: State, mode: Mode): (r: (seq<Byte>, bool, State))
    ensures |r.0| + Pending(r.2) <= Pending(state) + 1
  {
    match state
    case Usual =>
      if ch == QUESTION && (mode.uri || mode.redirect) then ([ch], true, Usual)
      else if ch == PERCENT then ([], false, Quoted)
      else ([ch], false, Usual)
    case Quoted => if HexValue(ch) < 16 then ([], false, Second(ch)) else ([ch], false, Usual)
    case Second(digit) =>
      if HexValue(ch) >= 16 then ([], false, Usual)
      else
        var c := (HexValue(digit) * 16 + HexValue(ch)) % 256;
        var kept := if PERCENT < c < 0x7f then [c] else [PERCENT, digit, ch];
        if 0x30 <= ch <= 0x39 then (if mode.redirect then kept else [c], false, Usual)
        else if mode.uri then ([c], c == QUESTION, Usual)
        else if mode.redirect then (if c == QUESTION then ([c], true, Usual) else (kept, false, Usual))
        else ([c], false, Usual)
  }

  // The bytes that were read for what is pending.
  function Pending(state: State): nat {
    match state
    case Usual => 0
    case Quoted => 1
    case Second(_) => 2
  }

  // What is decoded from s on, and how many bytes are read for it.
  function Run(s: seq<Byte>, state: State, mode: Mode): (r: (seq<Byte>, nat))
    ensures r.1 <= |s|
  {
    if s == [] then ([], 0)
    else
      var (out, done, next) := Step(s[0], state, mode);
      if done then (out, 1)
      else
        var rest := Run(s[1..], next, mode);
        (out + rest.0, 1 + rest.1)
  }

  /**
   uct_unescape_uri: it never writes more than it has read, so a destination of the size of the
   source is enough.
   */
  method Unescape(dst: array<Byte>, src: seq<Byte>, mode: Mode) returns (written: nat, read: nat)
    requires |src| <= dst.Length
    modifies dst
    ensures written <= dst.Length && (dst[..written], read) == Run(src, Usual, mode)
  {
    hide Step, HexValue;
    written, read := 0, 0;
    var state := Usual;
    assert src[0..] == src;
    while read < |src|
      invariant read <= |src| && written + Pending(state) <= read
      invariant dst[..written] + Run(src[read..], state, mode).0 == Run(src, Usual, mode).0
      invariant read + Run(src[read..], state, mode).1 == Run(src, Usual, mode).1
    {
      RunSplit(src, read, state, mode, dst[..written]);
      var out, done;
      out, done, state := Advance(src[read], state, mode);
      written := Put(dst, written, out);
      read := read + 1;
      if done {
        return;
      }
    }
    assert src[read..] == [] && dst[..written] + [] == dst[..written];
  }

  lemma RunSplit(src: seq<Byte>, read: nat, state: State, mode: Mode, before: seq<Byte>)
    requires read < |src|
    ensures var (out, done, next) := Step(src[read], state, mode);
            var (text, n) := Run(src[read..], state, mode);
            if done then before + text == before + out && n == 1
            else before + text == before + out + Run(src[read+1..], next, mode).0 && n == 1 + Run(src[read+1..], next, mode).1
  {
    hide Step;
    assert src[read..][1..] == src[read+1..];
  }

  // The body of the loop: one byte through the switch over the states.
  method Advance(ch: Byte, state: State, mode: Mode) returns (out: seq<Byte>, done: bool, next: State)
    ensures (out, done, next) == Step(ch, state, mode)
  {
    out, done, next := [], false, Usual;
    match state {
      case Usual =>
        if ch == QUESTION && (mode.uri || mode.redirect) {
          return [ch], true, Usual;
        }
        if ch == PERCENT {
          return [], false, Quoted;
        }
        out := [ch];
      case Quoted =>
        if 0x30 <= ch <= 0x39 || 0x41 <= ch <= 0x46 || 0x61 <= ch <= 0x66 {
          return [], false, Second(ch);
        }
        out := [ch];
      case Second(digit) =>
        var decoded := HexValue(digit);
        if 0x30 <= ch <= 0x39 {
          var c := (decoded * 16 + (ch - 0x30)) % 256;
          if mode.redirect {
            if c > PERCENT && c < 0x7f {
              return [c], false, Usual;
            }
            return [PERCENT, digit, ch], false, Usual;
          }
          return [c], false, Usual;
        }
        if 0x41 <= ch <= 0x46 || 0x61 <= ch <= 0x66 {
          var c := (decoded * 16 + HexValue(ch)) % 256;
          if mode.uri {
            return [c], c == QUESTION, Usual;
          }
          if mode.redirect {
            if c == QUESTION {
              return [c], true, Usual;
            }
            if c > PERCENT && c < 0x7f {
              return [c], false, Usual;
            }
            return [PERCENT, digit, ch], false, Usual;
          }
          return [c], false, Usual;
        }
    }
  }

  method Put(dst: array<Byte>, at: nat, out: seq<Byte>) returns (next: nat)
    requires at + |out| <= dst.Length
    modifies dst
    ensures next == at + |out| && dst[..next] == old(dst[..at]) + out
  {
    var k := 0;
    while k < |out|
      invariant k <= |out|
      invariant dst[..at+k] == old(dst[..at]) + out[..k]
    {
      dst[at+k] := out[k];
      k := k + 1;
    }
    next := at + |out|;
    assert out[..k] == out;
  }

  // ----- The round trip -----

  function Unescaped(s: seq<Byte>): seq<Byte> {
    Run(s, Usual, PLAIN).0
  }

  lemma RunCons(b: Byte, s: seq<Byte>, state: State)
    ensures var (out, done, next) := Step(b, state, PLAIN);
            !done && Run([b] + s, state, PLAIN).0 == out + Run(s, next, PLAIN).0
  {
    assert ([b] + s)[1..] == s;
  }

  // A whole escape gives its byte.
  lemma RunEscape(b: Byte, s: seq<Byte>)
    ensures Unescaped([PERCENT, HexDigit(b / 16, true), HexDigit(b % 16, true)] + s) == [b] + Unescaped(s)
  {
    var high, low := HexDigit(b / 16, true), HexDigit(b % 16, true);
    assert [PERCENT, high, low] + s == [PERCENT] + ([high] + ([low] + s));
    hide HexDigit, HexValue;
    RunCons(PERCENT, [high] + ([low] + s), Usual);
    RunCons(high, [low] + s, Quoted);
    RunCons(low, s, Second(high));
    assert b / 16 * 16 + b % 16 == b;
  }

  lemma {:induction false} UnescapeUndoesEscape(kind: Kind, s: seq<Byte>)
    requires Escapes(kind, PERCENT) || PERCENT !in s
    ensures Unescaped(EscapedText(kind, s)) == s
    decreases |s|
  {
    hide Escapes, Step, HexDigit;
    if s != [] {
      var rest := EscapedText(kind, s[1..]);
      UnescapeUndoesEscape(kind, s[1..]);
      if Escapes(kind, s[0]) {
        RunEscape(s[0], rest);
      } else {
        RunPlain(s[0], rest);
      }
    }
  }

  lemma RunPlain(b: Byte, s: seq<Byte>)
    requires b != PERCENT
    ensures Unescaped([b] + s) == [b] + Unescaped(s)
  {
    RunCons(b, s, Usual);
  }

  // ----- Where it fails -----

  // A percent sign counts two, a byte that is escaped counts three, any other counts one.
  function ByteWeight(kind: Kind, b: Byte): nat {
    if b == PERCENT then 2 else if Escapes(kind, b) then 3 else 1
  }

  function Weight(kind: Kind, s: seq<Byte>): nat {
    if s == [] then 0 else ByteWeight(kind, s[0]) + Weight(kind, s[1..])
  }

  lemma {:induction false} WeightAdds(kind: Kind, a: seq<Byte>, b: seq<Byte>)
    ensures Weight(kind, a + b) == Weight(kind, a) + Weight(kind, b)
    decreases |a|
  {
    if a == [] {
      assert a + b == b;
    } else {
      WeightAdds(kind, a[1..], b);
      assert (a + b)[1..] == a[1..] + b;
    }
  }

  // What is pending weighs as much as the bytes that were read for it.
  function StateWeight(state: State): nat {
    match state
    case Usual => 0
    case Quoted => 2
    case Second(_) => 3
  }

  // One byte of the source, escaped or not, never adds weight; leaving a pending state loses some.
  lemma StepWeight(kind: Kind, b: Byte, state: State)
    requires !Escapes(kind, b)
    requires !Escapes(kind, PERCENT)
    ensures var (out, done, next) := Step(b, state, PLAIN);
            && !done
            && Weight(kind, out) + StateWeight(next) <= ByteWeight(kind, b) + StateWeight(state)
            && (state != Usual && next == Usual ==> Weight(kind, out) < ByteWeight(kind, b) + StateWeight(state))
  {
    hide Escapes;
    var (out, done, next) := Step(b, state, PLAIN);
    if out != [] {
      assert out[1..] == [];
      assert Weight(kind, out) == ByteWeight(kind, out[0]);
    }
  }

  lemma EscapedSteps(kind: Kind, b: Byte, state: State, s: seq<Byte>)
    requires Escapes(kind, b) && !Escapes(kind, PERCENT) && forall d: Byte :: HexValue(d) < 16 ==> !Escapes(kind, d)
    ensures var whole := Run(EscapeByte(kind, b) + s, state, PLAIN).0;
            && Weight(kind, whole) <= ByteWeight(kind, b) + StateWeight(state) + Weight(kind, Unescaped(s))
            && (state != Usual ==> Weight(kind, whole) < ByteWeight(kind, b) + StateWeight(state) + Weight(kind, Unescaped(s)))
  {
    hide Escapes, HexDigit, HexValue;
    var high, low := HexDigit(b / 16, true), HexDigit(b % 16, true);
    assert EscapeByte(kind, b) + s == [PERCENT] + ([high] + ([low] + s));
    RunEscape(b, s);
    WeightAdds(kind, [b], Unescaped(s));
    if state != Usual {
      PercentIsNoDigit();
      RunCons(PERCENT, [high] + ([low] + s), state);
      RunPlain(high, [low] + s);
      RunPlain(low, s);
      var out := if state == Quoted then [PERCENT] else [];
      WeightAdds(kind, out, [high] + ([low] + Unescaped(s)));
      WeightAdds(kind, [high], [low] + Unescaped(s));
      WeightAdds(kind, [low], Unescaped(s));
    }
  }

  lemma PercentIsNoDigit()
    ensures HexValue(PERCENT) == 16
  {
  }

  lemma {:induction false} LosesWeight(kind: Kind, s: seq<Byte>, state: State)
    requires !Escapes(kind, PERCENT) && forall d: Byte :: HexValue(d) < 16 ==> !Escapes(kind, d)
    ensures var out := Run(EscapedText(kind, s), state, PLAIN).0;
            && Weight(kind, out) <= Weight(kind, s) + StateWeight(state)
            && (state != Usual || PERCENT in s ==> Weight(kind, out) < Weight(kind, s) + StateWeight(state))
    decreases |s|
  {
    hide Escapes, HexValue, HexDigit, EscapeByte;
    if s != [] {
      var b, rest := s[0], EscapedText(kind, s[1..]);
      assert s == [b] + s[1..];
      if Escapes(kind, b) {
        LosesWeight(kind, s[1..], Usual);
        EscapedSteps(kind, b, state, rest);
      } else {
        var (out, done, next) := Step(b, state, PLAIN);
        LosesWeight(kind, s[1..], next);
        assert EscapeByte(kind, b) == [b] by { NotEscaped(kind, b); }
        RunCons(b, rest, state);
        StepWeight(kind, b, state);
        WeightAdds(kind, out, Run(rest, next, PLAIN).0);
      }
    }
  }

  lemma NotEscaped(kind: Kind, b: Byte)
    requires !Escapes(kind, b)
    ensures EscapeByte(kind, b) == [b]
  {
  }

  /**
   Unescaping undoes escaping for every kind and every text, with one exception: REFRESH, whose
   table leaves the percent sign alone, loses every text that has one.
   */
  lemma RoundTripExactly(kind: Kind, s: seq<Byte>)
    ensures Unescaped(EscapedText(kind, s)) == s <==> kind != REFRESH || PERCENT !in s
  {
    hide Escapes;
    TablesInWords(kind, PERCENT);
    if kind != REFRESH || PERCENT !in s {
      UnescapeUndoesEscape(kind, s);
    } else {
      forall d: Byte | HexValue(d) < 16 ensures !Escapes(kind, d) {
        TablesInWords(kind, d);
      }
      LosesWeight(kind, s, Usual);
    }
  }

  // With REFRESH, the text %41 comes back as A.
  lemma PercentIsLost()
    ensures EscapedText(REFRESH, [PERCENT, 0x34, 0x31]) == [PERCENT, 0x34, 0x31]
    ensures Unescaped([PERCENT, 0x34, 0x31]) == [0x41]
  {
    hide Escapes;
    TablesInWords(REFRESH, PERCENT);
    TablesInWords(REFRESH, 0x34);
    TablesInWords(REFRESH, 0x31);
    assert [PERCENT, 0x34, 0x31][1..] == [0x34, 0x31] && [0x34 as Byte, 0x31][1..] == [0x31] && [0x31 as Byte][1..] == [];
    RunEscape(0x41, []);
    assert [PERCENT, HexDigit(0x41 / 16, true), HexDigit(0x41 % 16, true)] + [] == [PERCENT, 0x34, 0x31];
  }
}
