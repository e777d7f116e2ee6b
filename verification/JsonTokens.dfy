/**
 The strings and numbers that the parser accepts are those of the grammar, with the values that it
 gives them.
 */
module JsonTokens {
  import opened Bytes
  import opened JsonString
  import opened JsonValue
  import opened JsonParse
  import opened JsonGrammar

  // ----- Strings -----

  lemma Division(c: nat, q: int, r: int)
    requires 0 <= r < 0x40
    ensures c == 0x40 * q + r <==> q == c / 0x40 && r == c % 0x40
  {
  }

  lemma TwoBytes(c: nat, b: seq<Byte>)
    requires |b| == 2
    ensures IsUtf8(c, b) <==> 0x80 <= c < 0x800 && b == [0xc0 + c / 0x40, 0x80 + c % 0x40]
  {
    if IsTail(b[1]) {
      Division(c, Bits(b[0], 0xc0), Bits(b[1], 0x80));
    }
  }

  lemma ThreeBytes(c: nat, b: seq<Byte>)
    requires |b| == 3
    ensures IsUtf8(c, b) <==> 0x800 <= c < 0x1_0000 && b == [0xe0 + c / 0x1000, 0x80 + c / 0x40 % 0x40, 0x80 + c % 0x40]
  {
    assert c / 0x40 / 0x40 == c / 0x1000;
    if IsTail(b[1]) && IsTail(b[2]) {
      Division(c, 0x40 * Bits(b[0], 0xe0) + Bits(b[1], 0x80), Bits(b[2], 0x80));
      Division(c / 0x40, Bits(b[0], 0xe0), Bits(b[1], 0x80));
    }
  }

  lemma FourBytes(c: nat, b: seq<Byte>)
    requires |b| == 4
    ensures IsUtf8(c, b) <==>
            && 0x1_0000 <= c <= 0x10_ffff
            && b == [0xf0 + c / 0x4_0000, 0x80 + c / 0x1000 % 0x40, 0x80 + c / 0x40 % 0x40, 0x80 + c % 0x40]
  {
    assert c / 0x40 / 0x40 == c / 0x1000 && c / 0x1000 / 0x40 == c / 0x4_0000;
    if IsTail(b[1]) && IsTail(b[2]) && IsTail(b[3]) {
      Division(c, 0x1000 * Bits(b[0], 0xf0) + 0x40 * Bits(b[1], 0x80) + Bits(b[2], 0x80), Bits(b[3], 0x80));
      Division(c / 0x40, 0x40 * Bits(b[0], 0xf0) + Bits(b[1], 0x80), Bits(b[2], 0x80));
      Division(c / 0x1000, Bits(b[0], 0xf0), Bits(b[1], 0x80));
    }
  }

  // The bit patterns of the parser are the table of the standard.
  lemma OnlyUtf8(c: nat, b: seq<Byte>)
    ensures IsUtf8(c, b) <==> c <= 0x10_ffff && b == Utf8(c)
  {
    if |b| == 2 {
      TwoBytes(c, b);
    } else if |b| == 3 {
      ThreeBytes(c, b);
    } else if |b| == 4 {
      FourBytes(c, b);
    }
  }

  lemma NibbleIsHexValue(b: Byte)
    ensures Nibble(b) == if HexValue(b) == 16 then -1 else HexValue(b)
  {
  }

  lemma UnitIsHex4(s: seq<Byte>, i: nat)
    requires i + 4 <= |s|
    ensures Unit(s[i..i+4]) == Hex4(s, i)
  {
    hide Nibble, HexValue;
    NibbleIsHexValue(s[i]);
    NibbleIsHexValue(s[i+1]);
    NibbleIsHexValue(s[i+2]);
    NibbleIsHexValue(s[i+3]);
  }

  // The first pass ends at the first quote that no backslash hides.
  lemma {:induction false} ScanFindsQuote(s: seq<Byte>, i: nat, end: nat)
    requires i <= |s|
    ensures ScanEnd(s, i) == end <==> i <= end < |s| && s[end] == QUOTE && Unbroken(s[i..end])
    decreases |s| - i
  {
    if i < |s| && i < end < |s| {
      assert s[i..end][1..] == s[i+1..end];
      if s[i] == BACKSLASH {
        if i + 1 < end {
          assert s[i..end][2..] == s[i+2..end];
          ScanFindsQuote(s, i + 2, end);
        }
      } else {
        ScanFindsQuote(s, i + 1, end);
      }
    }
  }

  // What has been written before has no influence.
  lemma {:induction false} DecodeAppends(s: seq<Byte>, i: nat, end: nat, w: seq<Byte>)
    requires end < |s|
    ensures Decode(s, i, end, w) == var d := Decode(s, i, end, []); if d.Decoded? then Decoded(w + d.text) else d
    decreases end - i
  {
    hide Utf8, Utf16At;
    if i < end {
      var (n, o) := OneStep(s, i, end);
      if n > 0 {
        DecodeAppends(s, i + n, end, w + o);
        DecodeAppends(s, i + n, end, o);
        var d := Decode(s, i + n, end, []);
        assert [] + o == o;
        if d.Decoded? {
          assert w + o + d.text == w + (o + d.text);
        }
      }
    } else {
      assert w + [] == w;
    }
  }

  // What one step of the second pass consumes and writes; nothing for a bad escape.
  function OneStep(s: seq<Byte>, i: nat, end: nat): (r: (nat, seq<Byte>))
    requires i < end < |s|
    ensures forall w :: Decode(s, i, end, w) == if r.0 == 0 then Undecodable(i) else Decode(s, i + r.0, end, w + r.1)
  {
    if s[i] != BACKSLASH then (1, [s[i]])
    else
      var c := s[i+1];
      if c == LETTER_B then (2, [8])
      else if c == LETTER_F then (2, [12])
      else if c == LETTER_N then (2, [10])
      else if c == LETTER_R then (2, [13])
      else if c == LETTER_T then (2, [9])
      else if c == QUOTE || c == BACKSLASH || c == SLASH then (2, [c])
      else if c == LETTER_U then
        var e := Utf16At(s, i, end);
        if e.BadEscape? then (0, []) else (e.length, Utf8(e.code))
      else (0, [])
  }

  // One step in terms of the whole.
  lemma Stepwise(s: seq<Byte>, i: nat, end: nat)
    requires i < end < |s|
    ensures var (n, o) := OneStep(s, i, end);
            var d := Decode(s, i + n, end, []);
            Decode(s, i, end, []) == if n == 0 then Undecodable(i) else if d.Decoded? then Decoded(o + d.text) else d
  {
    hide Decode, Utf16At, Utf8;
    var (n, o) := OneStep(s, i, end);
    assert [] + o == o;
    DecodeAppends(s, i + n, end, o);
  }

  /**
   The second pass writes t exactly if the bytes spell t.
   */
  lemma {:induction false} DecodeSpells(s: seq<Byte>, i: nat, end: nat, t: seq<Byte>)
    requires i <= end < |s| && s[end] == QUOTE
    ensures Decode(s, i, end, []) == Decoded(t) <==> Spells(s[i..end], t)
    decreases end - i, 1
  {
    hide Decode, Utf16At, Utf8, Unit, StartsWith;
    DecodeEnd(s, end);
    if i < end {
      Stepwise(s, i, end);
      var (n, o) := OneStep(s, i, end);
      if s[i] == BACKSLASH && i + 1 < end && s[i+1] == LETTER_U {
        EscapeSpells(s, i, end, t);
      } else if n > 0 && i + n <= end {
        SimpleSpells(s[i..end], t, n, o);
        assert s[i..end][n..] == s[i+n..end];
        if t != [] {
          DecodeSpells(s, i + n, end, t[1..]);
          assert t == [t[0]] + t[1..];
        }
      }
    }
  }

  // A plain byte or a letter spells one byte.
  lemma SimpleSpells(b: seq<Byte>, t: seq<Byte>, n: nat, o: seq<Byte>)
    requires |o| == 1 && b != []
    requires if b[0] != 0x5c then n == 1 && o == [b[0]] else n == 2 <= |b| && b[1] in LETTERS && o == [LETTERS[b[1]]]
    ensures Spells(b, t) <==> t != [] && t[0] == o[0] && Spells(b[n..], t[1..])
  {
  }

  lemma DecodeEnd(s: seq<Byte>, end: nat)
    requires end < |s|
    ensures Decode(s, end, end, []) == Decode(s, end + 1, end, []) == Decoded([])
  {
  }

  lemma {:induction false} EscapeSpells(s: seq<Byte>, i: nat, end: nat, t: seq<Byte>)
    requires i + 1 < end < |s| && s[end] == QUOTE && s[i] == BACKSLASH && s[i+1] == LETTER_U
    ensures Decode(s, i, end, []) == Decoded(t) <==> Spells(s[i..end], t)
    decreases end - i, 0
  {
    hide Decode, Utf16At, Utf8, Unit, StartsWith;
    var b := s[i..end];
    var e := Utf16At(s, i, end);
    Stepwise(s, i, end);
    EscapeInWords(s, i, end);
    if e.Escape? {
      var n := e.length;
      assert b[n..] == s[i+n..end];
      forall rest ensures Decode(s, i + n, end, []) == Decoded(rest) <==> Spells(b[n..], rest) {
        DecodeSpells(s, i + n, end, rest);
      }
      forall rest ensures StartsWith(t, e.code, rest) <==> t == Utf8(e.code) + rest {
        StartsWithUtf8(t, e.code, rest);
      }
    }
  }

  lemma StartsWithUtf8(t: seq<Byte>, c: CodePoint, rest: seq<Byte>)
    ensures StartsWith(t, c, rest) <==> t == Utf8(c) + rest
  {
    hide Utf8;
    if |rest| <= |t| {
      OnlyUtf8(c, t[..|t| - |rest|]);
    }
    if t == Utf8(c) + rest {
      assert t[|t| - |rest|..] == rest && t[..|t| - |rest|] == Utf8(c);
    }
  }

  // The escape at i in terms of its units.
  lemma EscapeInWords(s: seq<Byte>, i: nat, end: nat)
    requires i + 1 < end < |s|
    ensures var b := s[i..end];
            Utf16At(s, i, end) ==
              if |b| < 6 then BadEscape
              else
                var hi := Unit(b[2..6]);
                if 0xd800 <= hi <= 0xdbff then
                  if |b| >= 12 && b[6] == 0x5c && b[7] == 0x75 && 0xdc00 <= Unit(b[8..12]) <= 0xdfff
                  then Escape(12, 0x1_0000 + 0x400 * (hi - 0xd800) + (Unit(b[8..12]) - 0xdc00))
                  else BadEscape
                else if 0xdc00 <= hi <= 0xdfff then BadEscape
                else Escape(6, hi)
  {
    hide Unit, Hex4;
    var b := s[i..end];
    if |b| >= 6 {
      SliceOfSlice(s, i, end, 2, 6);
      UnitIsHex4(s, i + 2);
    }
    if |b| >= 12 {
      SliceOfSlice(s, i, end, 8, 12);
      UnitIsHex4(s, i + 8);
    }
  }

  /**
   parse_string succeeds with a text exactly if a string token of the grammar stands there, and the
   text is what it spells.
   */
  lemma StringExactly(s: seq<Byte>, off: nat, text: seq<Byte>, next: nat)
    requires off <= |s|
    ensures ParseStringAt(s, off) == Ok(text, next) <==> off < next <= |s| && IsString(s[off..next], text)
  {
    hide ScanEnd, Decode, Spells, Unbroken, CString;
    if off + 1 < next <= |s| {
      StringToken(s, off, text, next);
      ScanFindsQuote(s, off + 1, next - 1);
    }
  }

  lemma StringToken(s: seq<Byte>, off: nat, text: seq<Byte>, next: nat)
    requires off + 1 < next <= |s|
    ensures IsString(s[off..next], text) <==>
            && s[off] == QUOTE && s[next-1] == QUOTE && Unbroken(s[off+1..next-1])
            && var d := Decode(s, off + 1, next - 1, []); d.Decoded? && CString(d.text) == text
  {
    hide Decode, Spells, Unbroken, CString;
    var t := s[off..next];
    SliceOfSlice(s, off, next, 1, |t| - 1);
    if s[next-1] == QUOTE {
      var d := Decode(s, off + 1, next - 1, []);
      if d.Decoded? {
        DecodeSpells(s, off + 1, next - 1, d.text);
      }
      if spelled :| Spells(t[1..|t|-1], spelled) && text == CString(spelled) {
        DecodeSpells(s, off + 1, next - 1, spelled);
      }
    }
  }

  // ----- Numbers -----

  lemma {:induction false} PowersAgree(n: nat)
    ensures PowerOfTen(n) == Power(n) as real
  {
    if n > 0 {
      PowersAgree(n - 1);
    }
  }

  lemma {:induction false} PowerAdds(m: nat, n: nat)
    ensures Power(m + n) == Power(m) * Power(n)
  {
    if m > 0 {
      PowerAdds(m - 1, n);
    }
  }

  // Digits before others count as many tens as there are others.
  lemma {:induction false} BaseTenConcat(a: seq<Byte>, b: seq<Byte>)
    requires AreDigits(a) && AreDigits(b)
    ensures AreDigits(a + b) && BaseTen(a + b) == BaseTen(a) * Power(|b|) + BaseTen(b)
  {
    if a == [] {
      assert a + b == b;
    } else {
      BaseTenConcat(a[1..], b);
      assert (a + b)[1..] == a[1..] + b;
      PowerAdds(|a| - 1, |b|);
      Regroup(a[0] - 0x30, Power(|a| - 1), Power(|b|), BaseTen(a[1..]), BaseTen(b));
    }
  }

  lemma Regroup(d: nat, p: nat, q: nat, x: nat, y: nat)
    ensures d * (p * q) + (x * q + y) == (d * p + x) * q + y
  {
    assert d * (p * q) == d * p * q;
    assert (d * p + x) * q == d * p * q + x * q;
  }

  lemma {:induction false} NaturalIsBaseTen(t: seq<Byte>)
    requires AreDigits(t)
    ensures forall k :: 0 <= k < |t| ==> IsDigit(t[k])
    ensures Natural(t) == BaseTen(t)
  {
    if t != [] {
      var last := |t| - 1;
      NaturalIsBaseTen(t[..last]);
      assert t == t[..last] + [t[last]];
      BaseTenConcat(t[..last], [t[last]]);
      assert BaseTen([t[last]]) == t[last] - 0x30 by {
        assert Power(0) == 1 && [t[last]][1..] == [];
      }
      assert Power(1) == 10 * Power(0) == 10;
    }
  }

  // The digits before and behind the point, read apart, give the digits read together.
  lemma Mantissa(whole: seq<Byte>, fraction: seq<Byte>)
    requires AreDigits(whole) && AreDigits(fraction)
    ensures AreDigits(whole + fraction)
    ensures forall k :: 0 <= k < |whole| ==> IsDigit(whole[k])
    ensures forall k :: 0 <= k < |fraction| ==> IsDigit(fraction[k])
    ensures Natural(whole) as real + Natural(fraction) as real / PowerOfTen(|fraction|)
         == BaseTen(whole + fraction) as real / Power(|fraction|) as real
  {
    NaturalIsBaseTen(whole);
    NaturalIsBaseTen(fraction);
    BaseTenConcat(whole, fraction);
    PowersAgree(|fraction|);
    AddFraction(BaseTen(whole), BaseTen(fraction), Power(|fraction|));
  }

  lemma AddFraction(x: nat, y: nat, p: nat)
    requires p > 0
    ensures x as real + y as real / p as real == (x * p + y) as real / p as real
  {
    assert (x * p + y) as real == x as real * p as real + y as real;
  }

  // The exponent as the parser counts it.
  function ExponentOf(e: Exponent): int
    requires GoodExponent(e)
  {
    if e.NoExponent? then 0
    else
      NaturalIsBaseTen(e.digits);
      var count: int := Natural(e.digits);
      if e.sign == [0x2d] then -count else count
  }

  lemma ScalesAgree(x: real, e: Exponent)
    requires GoodExponent(e)
    ensures Scaled(x, ExponentOf(e)) == Scale(x, e)
  {
    hide Natural, BaseTen, AreDigits;
    if e.Exponent? {
      NaturalIsBaseTen(e.digits);
      PowersAgree(BaseTen(e.digits));
      assert BaseTen(e.digits) == 0 ==> Power(BaseTen(e.digits)) == 1;
    }
  }

  lemma ScaledNegates(x: real, e: int)
    ensures Scaled(-x, e) == -Scaled(x, e)
  {
    hide PowerOfTen;
    Negated(x, PowerOfTen(if e >= 0 then e else -e));
  }

  lemma Negated(x: real, p: real)
    requires p > 0.0
    ensures (-x) * p == -(x * p) && (-x) / p == -(x / p)
  {
  }

  lemma ValueOfParts(n: Numeral)
    requires GoodNumeral(n)
    ensures forall k :: 0 <= k < |n.whole| ==> IsDigit(n.whole[k])
    ensures forall k :: 0 <= k < |n.fraction| ==> IsDigit(n.fraction[k])
    ensures var m := Natural(n.whole) as real + Natural(n.fraction) as real / PowerOfTen(|n.fraction|);
            Scaled(if n.minus then -m else m, ExponentOf(n.exponent)) == NumeralValue(n)
  {
    hide Natural, BaseTen, Power, PowerOfTen, AreDigits, Scaled, Scale, ExponentOf;
    Mantissa(n.whole, n.fraction);
    var m := Natural(n.whole) as real + Natural(n.fraction) as real / PowerOfTen(|n.fraction|);
    ScaledNegates(m, ExponentOf(n.exponent));
    ScalesAgree(m, n.exponent);
  }

  // ----- where the parts of a number stand -----

  lemma DigitsThere(t: seq<Byte>, i: nat, digits: seq<Byte>)
    requires At(t, i, digits) && AreDigits(digits)
    requires i + |digits| < |t| ==> !IsDigit(t[i + |digits|])
    ensures DigitsEnd(t, i) == i + |digits| && t[i..i+|digits|] == digits
  {
    forall k | i <= k < i + |digits| ensures IsDigit(t[k]) {
      AtByte(t, i, digits, k - i);
    }
    EndOfDigits(t, i, i + |digits|);
  }

  lemma {:induction false} EndOfDigits(t: seq<Byte>, i: nat, end: nat)
    requires i <= end <= |t| && forall k :: i <= k < end ==> IsDigit(t[k])
    requires end < |t| ==> !IsDigit(t[end])
    ensures DigitsEnd(t, i) == end
    decreases end - i
  {
    if i < end {
      EndOfDigits(t, i + 1, end);
    }
  }

  // The exponent at the end of a text.
  lemma ExponentThere(t: seq<Byte>, i: nat, e: Exponent)
    requires GoodExponent(e) && At(t, i, ExponentText(e)) && i + |ExponentText(e)| == |t|
    ensures ConvertExponent(t, i) == (ExponentOf(e), |t|)
    ensures i < |t| ==> !IsDigit(t[i]) && t[i] != DOT
  {
    hide Natural, AreDigits, DigitsEnd, At, ExponentText, SignLength, IsDigit;
    NoExponentText();
    if e.Exponent? {
      ExponentPlaces(t, i, e);
      DigitsThere(t, i + 1 + |e.sign|, e.digits);
    }
  }

  lemma NoExponentText()
    ensures ExponentText(NoExponent) == []
  {
  }

  lemma ExponentPlaces(t: seq<Byte>, i: nat, e: Exponent)
    requires GoodExponent(e) && e.Exponent? && At(t, i, ExponentText(e)) && i + |ExponentText(e)| == |t|
    ensures i + 1 < |t| && t[i] == e.mark && !IsDigit(t[i]) && t[i] != DOT
    ensures SignLength(t, i + 1) == |e.sign| && (t[i+1] == MINUS <==> e.sign == [0x2d])
    ensures At(t, i + 1 + |e.sign|, e.digits) && i + 1 + |e.sign| + |e.digits| == |t|
  {
    hide AreDigits, At;
    var start := i + 1 + |e.sign|;
    AtConcat(t, i, [e.mark] + e.sign, e.digits);
    AtConcat(t, i, [e.mark], e.sign);
    AtByte(t, i, [e.mark], 0);
    FirstDigit(e.digits);
    AtByte(t, start, e.digits, 0);
    if e.sign != [] {
      AtByte(t, i + 1, e.sign, 0);
    }
  }

  lemma FirstDigit(t: seq<Byte>)
    requires AreDigits(t) && t != []
    ensures IsDigit(t[0])
  {
  }

  // A numeral is converted as a whole, to its value.
  lemma StrtodOfNumeral(n: Numeral)
    requires GoodNumeral(n)
    ensures Strtod(NumeralText(n)) == Conversion(NumeralValue(n), |NumeralText(n)|)
  {
    hide Natural, DigitsEnd, ConvertExponent, Scaled, NumeralValue, PowerOfTen, ExponentOf, NumeralText, GoodNumeral, SignLength;
    var t := NumeralText(n);
    NumeralParts(n, t);
    NumeralTail(n, t);
    ValueOfParts(n);
    SomeDigits(n);
  }

  lemma SomeDigits(n: Numeral)
    requires GoodNumeral(n)
    ensures |n.whole| + |n.fraction| > 0 && (!n.point ==> n.fraction == [])
  {
  }

  lemma NumeralParts(n: Numeral, t: seq<Byte>)
    requires GoodNumeral(n) && t == NumeralText(n)
    ensures var start := if n.minus then 1 else 0;
            var whole := start + |n.whole|;
            && SignLength(t, 0) == start && (t[0] == MINUS <==> n.minus)
            && DigitsEnd(t, start) == whole && t[start..whole] == n.whole
            && (n.point <==> whole < |t| && t[whole] == DOT)
  {
    hide *;
    var start := if n.minus then 1 else 0;
    var whole := start + |n.whole|;
    Places(n, t);
    Good(n);
    if !n.point {
      ExponentThere(t, whole, n.exponent);
    }
    NoDigit(t, whole);
    DigitsThere(t, start, n.whole);
  }

  lemma NumeralTail(n: Numeral, t: seq<Byte>)
    requires GoodNumeral(n) && t == NumeralText(n)
    ensures var whole := (if n.minus then 1 else 0) + |n.whole|;
            var end := whole + (if n.point then 1 + |n.fraction| else 0);
            && end <= |t| && ConvertExponent(t, end) == (ExponentOf(n.exponent), |t|)
            && (n.point ==> DigitsEnd(t, whole + 1) == end && t[whole+1..end] == n.fraction)
  {
    hide *;
    var whole := (if n.minus then 1 else 0) + |n.whole|;
    var end := whole + (if n.point then 1 + |n.fraction| else 0);
    Places(n, t);
    Good(n);
    ExponentThere(t, end, n.exponent);
    if n.point {
      DigitsThere(t, whole + 1, n.fraction);
    }
  }

  lemma NoDigit(t: seq<Byte>, i: nat)
    ensures i < |t| && t[i] == DOT ==> !IsDigit(t[i])
  {
  }

  lemma Good(n: Numeral)
    requires GoodNumeral(n)
    ensures AreDigits(n.whole) && AreDigits(n.fraction) && GoodExponent(n.exponent)
  {
  }

  lemma Places(n: Numeral, t: seq<Byte>)
    requires GoodNumeral(n) && t == NumeralText(n)
    ensures var start := if n.minus then 1 else 0;
            var whole := start + |n.whole|;
            var end := whole + (if n.point then 1 + |n.fraction| else 0);
            && t != [] && SignLength(t, 0) == start && (t[0] == MINUS <==> n.minus)
            && At(t, start, n.whole) && At(t, end, ExponentText(n.exponent)) && end + |ExponentText(n.exponent)| == |t|
            && whole <= |t| && (n.point ==> whole < |t| && t[whole] == DOT && At(t, whole + 1, n.fraction))
            && (n.point && whole + 1 + |n.fraction| < |t| ==> !IsDigit(t[end]))
            && (!n.point ==> end == whole)
  {
    hide AreDigits, ExponentText, At, GoodExponent;
    var sign, point := if n.minus then [0x2d] else [], if n.point then [0x2e] else [];
    var rest := ExponentText(n.exponent);
    var end := |sign| + |n.whole| + |point| + |n.fraction|;
    Itself(t);
    AtConcat(t, 0, sign + n.whole + point + n.fraction, rest);
    AtConcat(t, 0, sign + n.whole + point, n.fraction);
    AtConcat(t, 0, sign + n.whole, point);
    AtConcat(t, 0, sign, n.whole);
    ExponentThere(t, end, n.exponent);
    if n.minus {
      AtByte(t, 0, sign, 0);
    } else {
      FirstDigit(n.whole);
      AtByte(t, 0, n.whole, 0);
    }
    if n.point {
      AtByte(t, |sign| + |n.whole|, point, 0);
    }
  }

  lemma Itself(t: seq<Byte>)
    ensures At(t, 0, t)
  {
  }

  // What strtod converts is a numeral.
  lemma PrefixIsNumeral(t: seq<Byte>) returns (n: Numeral)
    requires t != [] && (t[0] == MINUS || IsDigit(t[0])) && Strtod(t).length > 0
    ensures GoodNumeral(n) && NumeralText(n) == t[..Strtod(t).length] && NumeralValue(n) == Strtod(t).value
  {
    hide Natural, DigitsEnd, ConvertExponent, Scaled, NumeralValue, PowerOfTen, ExponentOf, ExponentText;
    var start := SignLength(t, 0);
    var whole := DigitsEnd(t, start);
    var point := whole < |t| && t[whole] == DOT;
    var end := if point then DigitsEnd(t, whole + 1) else whole;
    var e := ExponentFound(t, end);
    var fraction := if point then t[whole+1..end] else [];
    n := Numeral(t[0] == MINUS, t[start..whole], point, fraction, e);
    ValueOfParts(n);
    TextOfParts(t, start, whole, end, n);
  }

  lemma TextOfParts(t: seq<Byte>, start: nat, whole: nat, end: nat, n: Numeral)
    requires start <= whole <= end <= |t| && start == (if n.minus then 1 else 0) && (n.minus ==> t[0] == MINUS)
    requires n.whole == t[start..whole]
    requires if n.point then whole < end && t[whole] == DOT && n.fraction == t[whole+1..end] else whole == end && n.fraction == []
    requires end + |ExponentText(n.exponent)| <= |t| && t[end..end + |ExponentText(n.exponent)|] == ExponentText(n.exponent)
    ensures NumeralText(n) == t[..end + |ExponentText(n.exponent)|]
  {
    hide ExponentText;
    var sign, point := if n.minus then [0x2d] else [], if n.point then [0x2e] else [];
    assert t[..start] == sign;
    assert t[..whole] == sign + n.whole;
    assert t[..end] == sign + n.whole + point + n.fraction;
    assert t[..end + |ExponentText(n.exponent)|] == t[..end] + t[end..end + |ExponentText(n.exponent)|];
  }

  lemma ExponentFound(t: seq<Byte>, i: nat) returns (e: Exponent)
    requires i <= |t|
    ensures GoodExponent(e)
    ensures ConvertExponent(t, i) == (ExponentOf(e), i + |ExponentText(e)|)
    ensures i + |ExponentText(e)| <= |t| && t[i..i + |ExponentText(e)|] == ExponentText(e)
  {
    hide Natural, DigitsEnd;
    e := NoExponent;
    if i < |t| && (t[i] == LETTER_E || t[i] == CAPITAL_E) {
      var start := i + 1 + SignLength(t, i + 1);
      var end := DigitsEnd(t, start);
      if start < end {
        e := Exponent(t[i], t[i+1..start], t[start..end]);
        assert start > i + 1 ==> t[i+1..start] == [t[i+1]];
        assert t[i..end] == [t[i]] + t[i+1..start] + t[start..end];
      }
    }
  }

  // A number cannot go on at the given offset.
  predicate NumberStops(s: seq<Byte>, off: nat) {
    off < |s| ==> !IsNumberByte(s[off])
  }

  lemma {:induction false} RunOverNumber(s: seq<Byte>, off: nat, next: nat, limit: nat)
    requires off <= next <= |s| && forall k :: off <= k < next ==> IsNumberByte(s[k])
    requires next - off == limit || (next - off < limit && NumberStops(s, next))
    ensures NumberRun(s, off, limit) == next - off
    decreases next - off
  {
    if off < next {
      RunOverNumber(s, off + 1, next, limit - 1);
    }
  }

  lemma NumeralBytes(n: Numeral)
    requires GoodNumeral(n)
    ensures var t := NumeralText(n);
            t != [] && (t[0] == MINUS || IsDigit(t[0])) && forall k :: 0 <= k < |t| ==> IsNumberByte(t[k])
  {
    hide GoodNumeral, GoodExponent, ExponentText, IsNumberByte, At, IsDigit;
    var t := NumeralText(n);
    Good(n);
    Places(n, t);
    DigitsAreNumberBytes(n.whole);
    DigitsAreNumberBytes(n.fraction);
    ExponentBytes(n.exponent);
    Marks();
    if !n.minus {
      assert n.whole != [] by { WholeThere(n); }
      FirstDigit(n.whole);
      AtByte(t, 0, n.whole, 0);
    }
  }

  lemma WholeThere(n: Numeral)
    requires GoodNumeral(n) && !n.minus
    ensures n.whole != []
  {
  }

  lemma Marks()
    ensures IsNumberByte(0x2d) && IsNumberByte(0x2e)
  {
  }

  lemma DigitsAreNumberBytes(t: seq<Byte>)
    requires AreDigits(t)
    ensures forall k :: 0 <= k < |t| ==> IsNumberByte(t[k])
  {
  }

  lemma ExponentBytes(e: Exponent)
    requires GoodExponent(e)
    ensures forall k :: 0 <= k < |ExponentText(e)| ==> IsNumberByte(ExponentText(e)[k])
  {
  }

  /**
   A number token is read as a whole, and for its value, if it has 63 bytes or cannot go on.
   */
  lemma NumberIsRead(s: seq<Byte>, off: nat, next: nat, d: real)
    requires off <= next <= |s| && IsNumber(s[off..next], d) && (next - off == 63 || NumberStops(s, next))
    ensures ParseNumberAt(s, off) == Ok(Number(d), next)
    ensures off < next && (s[off] == MINUS || IsDigit(s[off]))
  {
    hide Strtod, NumberRun, IsNumberByte, GoodNumeral, NumeralText, NumeralValue;
    var t := s[off..next];
    var n :| GoodNumeral(n) && t == NumeralText(n) && d == NumeralValue(n);
    NumeralBytes(n);
    StrtodOfNumeral(n);
    forall k | off <= k < next ensures IsNumberByte(s[k]) {
      assert s[k] == t[k-off];
    }
    RunOverNumber(s, off, next, NUMBER_LIMIT);
    assert s[off] == t[0];
  }

  lemma StartOfRun(s: seq<Byte>, off: nat)
    requires off < |s| && (s[off] == MINUS || IsDigit(s[off]))
    ensures NumberRun(s, off, NUMBER_LIMIT) > 0
  {
  }

  // And what is read is a number token.
  lemma NumberIsFound(s: seq<Byte>, off: nat)
    requires off < |s| && (s[off] == MINUS || IsDigit(s[off]))
    ensures var r := ParseNumberAt(s, off); r.Ok? ==> r.value.Number? && IsNumber(s[off..r.next], r.value.double)
  {
    hide Strtod, NumberRun, GoodNumeral, NumeralText, NumeralValue;
    var run := NumberRun(s, off, NUMBER_LIMIT);
    StartOfRun(s, off);
    var t := s[off..off+run];
    if Strtod(t).length > 0 {
      var n := PrefixIsNumeral(t);
      SliceOfSlice(s, off, off + run, 0, Strtod(t).length);
    }
  }
}
