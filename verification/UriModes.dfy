/**
 The two other modes of uct_unescape_uri (src/uct_string.c), on texts in which every percent sign is
 followed by two hexadecimal digits.
 */
module UriModes {
  import opened Bytes
  import opened JsonString
  import opened Uri

  const WHOLE_URI := Mode(true, false)
  const REDIRECT := Mode(false, true)

  // An escape and the byte that it stands for.
  predicate IsEscape(s: seq<Byte>) {
    |s| >= 3 && s[0] == 0x25 && HexValue(s[1]) < 16 && HexValue(s[2]) < 16
  }

  function EscapedByte(s: seq<Byte>): (c: Byte)
    requires IsEscape(s)
  {
    0x10 * HexValue(s[1]) + HexValue(s[2])
  }

  predicate WellEscaped(s: seq<Byte>)
    decreases |s|
  {
    if s == [] then true
    else if s[0] != 0x25 then WellEscaped(s[1..])
    else IsEscape(s) && WellEscaped(s[3..])
  }

  // The same, and no byte above the percent sign and below DEL is escaped.
  predicate SparselyEscaped(s: seq<Byte>)
    decreases |s|
  {
    if s == [] then true
    else if s[0] != 0x25 then SparselyEscaped(s[1..])
    else IsEscape(s) && !(0x25 < EscapedByte(s) < 0x7f) && SparselyEscaped(s[3..])
  }

  // A text up to its first question mark, and with it.
  function UpToQuestion(t: seq<Byte>): seq<Byte> {
    if t == [] then [] else if t[0] == 0x3f then [0x3f] else [t[0]] + UpToQuestion(t[1..])
  }

  lemma UpToQuestionCons(b: Byte, t: seq<Byte>)
    ensures UpToQuestion([b] + t) == if b == 0x3f then [0x3f] else [b] + UpToQuestion(t)
  {
    assert ([b] + t)[1..] == t;
  }

  // What one plain byte and one escape do in each mode.
  lemma PlainByte(s: seq<Byte>, mode: Mode)
    requires s != [] && s[0] != 0x25
    ensures Run(s, Usual, mode) ==
            if s[0] == 0x3f && (mode.uri || mode.redirect) then ([0x3f], 1)
            else var rest := Run(s[1..], Usual, mode); ([s[0]] + rest.0, 1 + rest.1)
  {
  }

  lemma WholeEscape(s: seq<Byte>, mode: Mode)
    requires IsEscape(s) && !(mode.uri && mode.redirect)
    ensures var c := EscapedByte(s);
            Run(s, Usual, mode) ==
            if c == 0x3f && (mode.uri || mode.redirect) then ([0x3f], 3)
            else
              var rest := Run(s[3..], Usual, mode);
              ((if mode.redirect && !(0x25 < c < 0x7f) then s[..3] else [c]) + rest.0, 3 + rest.1)
  {
    hide Run;
    var a, b := s[1..], s[2..];
    assert a[1..] == b && b[1..] == s[3..] && a[0] == s[1] && b[0] == s[2];
    RunStep(s, Usual, mode);
    RunStep(a, Quoted, mode);
    RunStep(b, Second(s[1]), mode);
    LastDigit(s[1], s[2], mode);
    assert s[..3] == [0x25, s[1], s[2]];
    var after := Run(b, Second(s[1]), mode);
    assert Run(a, Quoted, mode) == (after.0, 1 + after.1);
  }

  lemma RunStep(s: seq<Byte>, state: State, mode: Mode)
    requires s != []
    ensures var (out, done, next) := Step(s[0], state, mode);
            && (done ==> Run(s, state, mode) == (out, 1))
            && (!done ==> var rest := Run(s[1..], next, mode); Run(s, state, mode) == (out + rest.0, 1 + rest.1))
            && forall t: seq<Byte> :: [] + t == t
  {
  }

  lemma LastDigit(digit: Byte, ch: Byte, mode: Mode)
    requires HexValue(digit) < 16 && HexValue(ch) < 16 && !(mode.uri && mode.redirect)
    ensures var c := 0x10 * HexValue(digit) + HexValue(ch);
            Step(ch, Second(digit), mode) ==
            (if mode.redirect && c != 0x3f && !(0x25 < c < 0x7f) then [0x25, digit, ch] else [c],
             c == 0x3f && (mode.uri || mode.redirect), Usual)
  {
  }

  /**
   With UCT_UNESCAPE_URI decoding is as usual, but ends behind the first question mark, escaped or not.
   */
  lemma {:induction false} UriStopsAtQuestion(s: seq<Byte>)
    requires WellEscaped(s)
    ensures Run(s, Usual, WHOLE_URI).0 == UpToQuestion(Unescaped(s))
    decreases |s|
  {
    hide Run, HexValue;
    if s == [] {
      NothingLeft(WHOLE_URI);
      NothingLeft(PLAIN);
    } else if s[0] != 0x25 {
      PlainByte(s, WHOLE_URI);
      PlainByte(s, PLAIN);
      UriStopsAtQuestion(s[1..]);
      UpToQuestionCons(s[0], Unescaped(s[1..]));
    } else {
      WholeEscape(s, WHOLE_URI);
      WholeEscape(s, PLAIN);
      UriStopsAtQuestion(s[3..]);
      UpToQuestionCons(EscapedByte(s), Unescaped(s[3..]));
    }
  }

  lemma NothingLeft(mode: Mode)
    ensures Run([], Usual, mode) == ([], 0)
  {
  }

  /**
   With UCT_UNESCAPE_REDIRECT the text keeps its meaning up to the first question mark: it is well
   escaped, decodes to the same bytes, and only bytes outside of the printable ones are still escaped.
   */
  lemma {:induction false} RedirectKeepsMeaning(s: seq<Byte>)
    requires WellEscaped(s)
    ensures var out := Run(s, Usual, REDIRECT).0;
            WellEscaped(out) && SparselyEscaped(out) && Unescaped(out) == UpToQuestion(Unescaped(s))
    decreases |s|
  {
    hide Run, HexValue;
    NothingLeft(REDIRECT);
    NothingLeft(PLAIN);
    if s == [] {
    } else if s[0] != 0x25 {
      PlainByte(s, REDIRECT);
      PlainByte(s, PLAIN);
      RedirectKeepsMeaning(s[1..]);
      UpToQuestionCons(s[0], Unescaped(s[1..]));
      OutPlain(s[0], if s[0] == 0x3f then [] else Run(s[1..], Usual, REDIRECT).0);
    } else {
      var c := EscapedByte(s);
      WholeEscape(s, REDIRECT);
      WholeEscape(s, PLAIN);
      RedirectKeepsMeaning(s[3..]);
      UpToQuestionCons(c, Unescaped(s[3..]));
      if 0x25 < c < 0x7f {
        OutPlain(c, if c == 0x3f then [] else Run(s[3..], Usual, REDIRECT).0);
      } else {
        OutEscape(s[..3], Run(s[3..], Usual, REDIRECT).0);
      }
    }
  }

  lemma OutPlain(b: Byte, rest: seq<Byte>)
    requires b != 0x25 && WellEscaped(rest) && SparselyEscaped(rest)
    ensures var out := [b] + rest; WellEscaped(out) && SparselyEscaped(out) && Unescaped(out) == [b] + Unescaped(rest)
    ensures [b] + [] == [b]
  {
    var out := [b] + rest;
    assert out[1..] == rest;
    hide Run;
    PlainByte(out, PLAIN);
  }

  lemma OutEscape(e: seq<Byte>, rest: seq<Byte>)
    requires |e| == 3 && IsEscape(e) && !(0x25 < EscapedByte(e) < 0x7f) && WellEscaped(rest) && SparselyEscaped(rest)
    ensures var out := e + rest;
            WellEscaped(out) && SparselyEscaped(out) && Unescaped(out) == [EscapedByte(e)] + Unescaped(rest)
  {
    hide Run, HexValue;
    var out := e + rest;
    assert out[3..] == rest && out[1] == e[1] && out[2] == e[2];
    WholeEscape(out, PLAIN);
  }

  // An escape is written with capital letters.
  lemma EscapeInLetters(kind: Kind, b: Byte)
    requires Escapes(kind, b)
    ensures Uri.EscapeByte(kind, b) == [0x25, "0123456789ABCDEF"[b / 16] as nat, "0123456789ABCDEF"[b % 16] as nat]
  {
    hide Escapes;
    CapitalDigit(b / 16);
    CapitalDigit(b % 16);
  }

  lemma CapitalDigit(v: nat)
    requires v < 16
    ensures HexDigit(v, true) == "0123456789ABCDEF"[v] as nat
  {
  }
}
