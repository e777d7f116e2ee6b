/**
 uct_utf8_decode (src/uct_string.c), which reads one character of two and more bytes, as the
 partner of the UTF-8 encoder behind the \u escapes of JSON strings (src/uct_json.c).
 */
module Utf8Decode {
  import opened Bytes
  import opened JsonString

  const INCOMPLETE := 0xffff_fffe
  const ERROR := 0xffff_ffff

  // What a leading byte says: its payload, the largest value that needs no such sequence, and
  // the number of bytes that follow; length 0 for a byte that cannot lead.
  datatype Lead = Lead(payload: nat, valid: nat, length: nat)

  function LeadOf(b: Byte): (l: Lead)
    ensures l.length <= 3
  {
    if b >= 0xf0 then Lead(b % 0x08, 0xffff, 3)
    else if b >= 0xe0 then Lead(b % 0x10, 0x7ff, 2)
    else if b >= 0xc2 then Lead(b % 0x20, 0x7f, 1)
    else Lead(0, 0, 0)
  }

  // The payload of the first k bytes that follow.
  function Payload(p: seq<Byte>, k: nat): nat
    requires k < |p|
  {
    if k == 0 then LeadOf(p[0]).payload else Payload(p, k - 1) * 0x40 + p[k] % 0x40
  }

  // The first of the n bytes behind the leading one that is a plain ASCII byte, or n + 1.
  function FirstAscii(p: seq<Byte>, n: nat): (k: nat)
    requires n < |p|
    ensures 1 <= k <= n + 1
    ensures forall j :: 1 <= j < k ==> p[j] >= 0x80
    ensures k <= n ==> p[k] < 0x80
  {
    if n == 0 then 1
    else if FirstAscii(p, n - 1) < n then FirstAscii(p, n - 1)
    else if p[n] < 0x80 then n else n + 1
  }

  // The value and the number of bytes that are consumed.
  function Decoded(p: seq<Byte>): (r: (nat, nat))
    requires p != []
    ensures r.1 <= |p|
  {
    var lead := LeadOf(p[0]);
    if lead.length == 0 then (ERROR, 1)
    else if |p| - 1 < lead.length then (INCOMPLETE, 0)
    else
      var k := FirstAscii(p, lead.length);
      if k <= lead.length then (ERROR, k + 1)
      else (if Payload(p, lead.length) > lead.valid then Payload(p, lead.length) else ERROR, lead.length + 1)
  }

  lemma {:induction false} FirstAsciiFound(p: seq<Byte>, n: nat, k: nat)
    requires 1 <= k <= n < |p| && p[k] < 0x80 && forall j :: 1 <= j < k ==> p[j] >= 0x80
    ensures FirstAscii(p, n) == k
  {
    assert FirstAscii(p, n) >= k;
  }

  // uct_utf8_decode: p is what can be read.
  method Decode(p: seq<Byte>) returns (value: nat, used: nat)
    requires p != []
    ensures (value, used) == Decoded(p)
  {
    var u: nat := p[0];
    var valid: nat, len: nat;
    if u >= 0xf0 {
      u, valid, len := u % 0x08, 0xffff, 3;
    } else if u >= 0xe0 {
      u, valid, len := u % 0x10, 0x7ff, 2;
    } else if u >= 0xc2 {
      u, valid, len := u % 0x20, 0x7f, 1;
    } else {
      return ERROR, 1;
    }
    if |p| - 1 < len {
      return INCOMPLETE, 0;
    }
    used := 1;
    ghost var length := len;
    while len > 0
      invariant used + len == length + 1 && 1 <= used && len >= 0
      invariant u == Payload(p, used - 1)
      invariant forall j :: 1 <= j < used ==> p[j] >= 0x80
    {
      var i := p[used];
      used := used + 1;
      if i < 0x80 {
        FirstAsciiFound(p, length, used - 1);
        return ERROR, used;
      }
      u := u * 0x40 + i % 0x40;
      len := len - 1;
    }
    if u > valid {
      return u, used;
    }
    return ERROR, used;
  }

  // The leading byte and the n - 1 bytes behind it have the forms of the table in section 3 of RFC 3629.
  predicate WellFormed(p: seq<Byte>, n: nat) {
    0 < n <= |p| && p[0] < 0xf8 && forall j :: 1 <= j < n ==> 0x80 <= p[j] < 0xc0
  }

  function Value2(a: nat, b: nat): nat { a % 0x20 * 0x40 + b % 0x40 }

  function Value3(a: nat, b: nat, c: nat): nat { (a % 0x10 * 0x40 + b % 0x40) * 0x40 + c % 0x40 }

  function Value4(a: nat, b: nat, c: nat, d: nat): nat { ((a % 0x08 * 0x40 + b % 0x40) * 0x40 + c % 0x40) * 0x40 + d % 0x40 }

  lemma Decoded2(p: seq<Byte>)
    requires |p| >= 2 && 0xc2 <= p[0] < 0xe0 && p[1] >= 0x80
    ensures var v := Value2(p[0], p[1]);
            Decoded(p) == (if v > 0x7f then v else ERROR, 2)
  {
    assert Payload(p, 1) == Payload(p, 0) * 0x40 + p[1] % 0x40;
  }

  lemma Decoded3(p: seq<Byte>)
    requires |p| >= 3 && 0xe0 <= p[0] < 0xf0 && p[1] >= 0x80 && p[2] >= 0x80
    ensures var v := Value3(p[0], p[1], p[2]);
            Decoded(p) == (if v > 0x7ff then v else ERROR, 3)
  {
    assert Payload(p, 1) == Payload(p, 0) * 0x40 + p[1] % 0x40;
    assert Payload(p, 2) == Payload(p, 1) * 0x40 + p[2] % 0x40;
  }

  lemma Decoded4(p: seq<Byte>)
    requires |p| >= 4 && 0xf0 <= p[0] && p[1] >= 0x80 && p[2] >= 0x80 && p[3] >= 0x80
    ensures var v := Value4(p[0], p[1], p[2], p[3]);
            Decoded(p) == (if v > 0xffff then v else ERROR, 4)
  {
    assert Payload(p, 1) == Payload(p, 0) * 0x40 + p[1] % 0x40;
    assert Payload(p, 2) == Payload(p, 1) * 0x40 + p[2] % 0x40;
    assert Payload(p, 3) == Payload(p, 2) * 0x40 + p[3] % 0x40;
  }

  lemma Parts2(c: nat)
    requires 0x80 <= c < 0x800
    ensures var a, b := 0xc0 + c / 0x40, 0x80 + c % 0x40;
            0xc2 <= a < 0xe0 && 0x80 <= b < 0xc0 && Value2(a, b) == c
  {
    assert (0xc0 + c / 0x40) % 0x20 == c / 0x40;
  }

  lemma Parts3(c: nat)
    requires 0x800 <= c < 0x1_0000
    ensures var a, b, d := 0xe0 + c / 0x1000, 0x80 + c / 0x40 % 0x40, 0x80 + c % 0x40;
            0xe0 <= a < 0xf0 && 0x80 <= b < 0xc0 && 0x80 <= d < 0xc0 && Value3(a, b, d) == c
  {
    assert (0xe0 + c / 0x1000) % 0x10 == c / 0x1000;
    assert c / 0x40 == c / 0x1000 * 0x40 + c / 0x40 % 0x40;
  }

  lemma Parts4(c: CodePoint)
    requires 0x1_0000 <= c
    ensures var a, b, d, e := 0xf0 + c / 0x4_0000, 0x80 + c / 0x1000 % 0x40, 0x80 + c / 0x40 % 0x40, 0x80 + c % 0x40;
            0xf0 <= a < 0xf8 && 0x80 <= b < 0xc0 && 0x80 <= d < 0xc0 && 0x80 <= e < 0xc0 && Value4(a, b, d, e) == c
  {
    assert (0xf0 + c / 0x4_0000) % 0x08 == c / 0x4_0000;
    assert c / 0x40 == c / 0x1000 * 0x40 + c / 0x40 % 0x40;
    assert c / 0x1000 == c / 0x4_0000 * 0x40 + c / 0x1000 % 0x40;
  }

  // Decoding undoes encoding, whatever follows.
  lemma DecodeUndoesEncode(c: CodePoint, rest: seq<Byte>)
    requires c >= 0x80
    ensures Decoded(Utf8(c) + rest) == (c as nat, |Utf8(c)|)
    ensures WellFormed(Utf8(c), |Utf8(c)|)
  {
    hide Decoded;
    var e := Utf8(c);
    var p := e + rest;
    assert forall j :: 0 <= j < |e| ==> p[j] == e[j];
    if c < 0x800 {
      Parts2(c);
      Decoded2(p);
    } else if c < 0x1_0000 {
      Parts3(c);
      Decoded3(p);
    } else {
      Parts4(c);
      Decoded4(p);
    }
  }

  /**
   What is decoded is the shortest pattern for its value and nothing else, exactly when the leading
   byte and the bytes behind it have the right forms: the code checks them less.
   */
  lemma EncodeUndoesDecode(p: seq<Byte>)
    requires p != [] && Decoded(p).0 <= 0x10_ffff
    ensures var (c, used) := Decoded(p);
            && c >= 0x80 && 2 <= used <= |p|
            && (p[..used] == Utf8(c) <==> WellFormed(p, used))
  {
    var (c, used) := Decoded(p);
    DecodedRange(p);
    if p[..used] == Utf8(c) {
      DecodeUndoesEncode(c, []);
      assert forall j :: 1 <= j < used ==> p[j] == p[..used][j];
    }
    if WellFormed(p, used) {
      FromWellFormed(p);
    }
  }

  // A value that is no error comes from a leading byte and bytes that are not ASCII.
  lemma DecodedRange(p: seq<Byte>)
    requires p != [] && Decoded(p).0 <= 0x10_ffff
    ensures var (c, used) := Decoded(p);
            && c >= 0x80 && used == LeadOf(p[0]).length + 1 && 2 <= used <= |p|
            && forall j :: 1 <= j < used ==> p[j] >= 0x80
  {
  }

  lemma FromWellFormed(p: seq<Byte>)
    requires p != [] && Decoded(p).0 <= 0x10_ffff && WellFormed(p, Decoded(p).1)
    ensures p[..Decoded(p).1] == Utf8(Decoded(p).0)
  {
    hide Decoded;
    DecodedRange(p);
    var b := p[0];
    if b < 0xe0 {
      Decoded2(p);
      TwoBytes(b, p[1]);
      assert p[..2] == [b, p[1]];
    } else if b < 0xf0 {
      Decoded3(p);
      ThreeBytes(b, p[1], p[2]);
      assert p[..3] == [b, p[1], p[2]];
    } else {
      Decoded4(p);
      FourBytes(b, p[1], p[2], p[3]);
      assert p[..4] == [b, p[1], p[2], p[3]];
    }
  }

  lemma TwoBytes(b: Byte, x: Byte)
    requires 0xc2 <= b < 0xe0 && 0x80 <= x < 0xc0
    ensures var v := Value2(b, x); 0x80 <= v < 0x800 && Utf8(v) == [b, x]
  {
    var v := Value2(b, x);
    assert b % 0x20 == b - 0xc0 && x % 0x40 == x - 0x80;
    assert v / 0x40 == b - 0xc0 && v % 0x40 == x - 0x80;
  }

  lemma ThreeBytes(b: Byte, x: Byte, y: Byte)
    requires 0xe0 <= b < 0xf0 && 0x80 <= x < 0xc0 && 0x80 <= y < 0xc0
    requires Value3(b, x, y) > 0x7ff
    ensures var v := Value3(b, x, y); v < 0x1_0000 && Utf8(v) == [b, x, y]
  {
    var v := Value3(b, x, y);
    assert b % 0x10 == b - 0xe0 && x % 0x40 == x - 0x80 && y % 0x40 == y - 0x80;
    var w: nat := (b - 0xe0) * 0x40 + x - 0x80;
    assert v / 0x40 == w && v % 0x40 == y - 0x80;
    assert w / 0x40 == b - 0xe0 && w % 0x40 == x - 0x80;
    assert v / 0x1000 == w / 0x40;
  }

  lemma TakeSix(q: nat, r: nat)
    requires r < 0x40
    ensures (q * 0x40 + r) / 0x40 == q && (q * 0x40 + r) % 0x40 == r
  {
  }

  // Four groups of six bits, put together and taken apart.
  lemma Groups(b: nat, x: nat, y: nat, z: nat)
    requires x < 0x40 && y < 0x40 && z < 0x40
    ensures var v := ((b * 0x40 + x) * 0x40 + y) * 0x40 + z;
            v % 0x40 == z && v / 0x40 % 0x40 == y && v / 0x1000 % 0x40 == x && v / 0x4_0000 == b
  {
    var u := b * 0x40 + x;
    var w := u * 0x40 + y;
    TakeSix(w, z);
    TakeSix(u, y);
    TakeSix(b, x);
    var v := w * 0x40 + z;
    assert v / 0x1000 == v / 0x40 / 0x40;
    assert v / 0x4_0000 == v / 0x1000 / 0x40;
  }

  lemma FourBytes(b: Byte, x: Byte, y: Byte, z: Byte)
    requires 0xf0 <= b < 0xf8 && 0x80 <= x < 0xc0 && 0x80 <= y < 0xc0 && 0x80 <= z < 0xc0
    requires 0xffff < Value4(b, x, y, z) <= 0x10_ffff
    ensures Utf8(Value4(b, x, y, z)) == [b, x, y, z]
  {
    hide Utf8, Value4;
    FourParts(b, x, y, z);
    Groups(b - 0xf0, x - 0x80, y - 0x80, z - 0x80);
    LongUtf8(Value4(b, x, y, z));
  }

  lemma FourParts(b: nat, x: nat, y: nat, z: nat)
    requires 0xf0 <= b < 0xf8 && 0x80 <= x < 0xc0 && 0x80 <= y < 0xc0 && 0x80 <= z < 0xc0
    ensures Value4(b, x, y, z) == (((b - 0xf0) * 0x40 + (x - 0x80)) * 0x40 + (y - 0x80)) * 0x40 + (z - 0x80)
  {
    assert b % 0x08 == b - 0xf0 && x % 0x40 == x - 0x80 && y % 0x40 == y - 0x80 && z % 0x40 == z - 0x80;
  }

  lemma LongUtf8(v: CodePoint)
    requires v > 0xffff
    ensures Utf8(v) == [0xf0 + v / 0x4_0000, 0x80 + v / 0x1000 % 0x40, 0x80 + v / 0x40 % 0x40, 0x80 + v % 0x40]
  {
  }

  // Where the value of three bytes is a surrogate.
  lemma SurrogateBytes(b: Byte, x: Byte, y: Byte)
    requires 0xe0 <= b < 0xf0 && 0x80 <= x < 0xc0 && 0x80 <= y < 0xc0
    ensures 0xd800 <= Value3(b, x, y) <= 0xdfff <==> b == 0xed && x >= 0xa0
  {
    assert b % 0x10 == b - 0xe0 && x % 0x40 == x - 0x80 && y % 0x40 == y - 0x80;
  }

  /**
   The exact condition for RFC 3629: what is consumed is the encoding of a scalar value if and only
   if the bytes have the right forms and do not start like a surrogate.
   */
  lemma DecodesByTheStandard(p: seq<Byte>)
    requires p != [] && Decoded(p).0 <= 0x10_ffff
    ensures var (c, used) := Decoded(p);
            && 2 <= used <= |p|
            && (IsScalar(c) && p[..used] == Utf8(c) <==> WellFormed(p, used) && !(p[0] == 0xed && p[1] >= 0xa0))
  {
    hide Decoded, Utf8;
    var (c, used) := Decoded(p);
    EncodeUndoesDecode(p);
    DecodedRange(p);
    if WellFormed(p, used) {
      if p[0] < 0xe0 {
        Decoded2(p);
        TwoBytes(p[0], p[1]);
      } else if p[0] < 0xf0 {
        Decoded3(p);
        SurrogateBytes(p[0], p[1], p[2]);
      } else {
        Decoded4(p);
      }
    }
  }

  // A byte above the continuation bytes is taken for one, a leading byte from 0xf8 on for one of
  // four bytes, and a surrogate for a character: the first two decode like the encodings of U+00E9
  // and U+10000, the last one to a value that no encoding has.
  lemma OtherBytesAreAccepted()
    ensures Decoded([0xc3, 0xa9]) == Decoded([0xc3, 0xe9]) == (0xe9, 2)
    ensures Decoded([0xf0, 0x90, 0x80, 0x80]) == Decoded([0xf8, 0x90, 0x80, 0x80]) == (0x1_0000, 4)
    ensures Decoded([0xed, 0xa0, 0x80]) == (0xd800, 3) && WellFormed([0xed, 0xa0, 0x80], 3)
  {
    hide Decoded;
    Decoded2([0xc3, 0xa9]);
    Decoded2([0xc3, 0xe9]);
    Decoded3([0xed, 0xa0, 0x80]);
    Decoded4([0xf0, 0x90, 0x80, 0x80]);
    Decoded4([0xf8, 0x90, 0x80, 0x80]);
  }

  // ----- With the escapes of JSON -----

  predicate IsScalar(c: CodePoint) { !IsHighSurrogate(c) && !IsLowSurrogate(c) }

  // The surrogate pair of section 2.1 of RFC 2781.
  function HighHalf(c: CodePoint): nat
    requires c > 0xffff
  {
    0xd800 + (c - 0x1_0000) / 0x400
  }

  function LowHalf(c: CodePoint): nat
    requires c > 0xffff
  {
    0xdc00 + (c - 0x1_0000) % 0x400
  }

  lemma PairOf(c: CodePoint)
    requires c > 0xffff
    ensures IsHighSurrogate(HighHalf(c)) && IsLowSurrogate(LowHalf(c)) && FromPair(HighHalf(c), LowHalf(c)) == c
  {
  }

  lemma HalvesOf(hi: nat, lo: nat)
    requires IsHighSurrogate(hi) && IsLowSurrogate(lo)
    ensures var c := FromPair(hi, lo); c > 0xffff && HighHalf(c) == hi && LowHalf(c) == lo && IsScalar(c)
  {
    assert hi % 0x400 == hi - 0xd800 && lo % 0x400 == lo - 0xdc00;
    var c := FromPair(hi, lo);
    assert c - 0x1_0000 == (hi - 0xd800) * 0x400 + (lo - 0xdc00);
  }

  // A \uXXXX with the given value, in digits of either case, stands at i.
  predicate UnitAt(s: seq<Byte>, i: nat, value: nat) {
    i + 6 <= |s| && s[i] == BACKSLASH && s[i+1] == LETTER_U && Hex4(s, i + 2) == value
  }

  // c is written at i as one escape or as a pair of them.
  predicate WrittenAt(s: seq<Byte>, i: nat, c: CodePoint) {
    if c <= 0xffff then UnitAt(s, i, c) else UnitAt(s, i, HighHalf(c)) && UnitAt(s, i + 6, LowHalf(c))
  }

  /**
   From UTF-16 escape to UTF-8 and back: a scalar value from 0x80 on, written as one or two
   escapes, is converted to its encoding, and decoding that gives the value and consumes it all.
   */
  lemma EscapeToUtf8AndBack(s: seq<Byte>, i: nat, end: nat, c: CodePoint, rest: seq<Byte>)
    requires IsScalar(c) && c >= 0x80 && end <= |s|
    requires WrittenAt(s, i, c) && i + (if c <= 0xffff then 6 else 12) <= end
    ensures Utf16At(s, i, end) == Escape(if c <= 0xffff then 6 else 12, c)
    ensures Decoded(Utf8(Utf16At(s, i, end).code) + rest) == (c as nat, |Utf8(c)|)
  {
    hide Utf8, Decoded, Hex4;
    if c > 0xffff {
      PairOf(c);
    }
    DecodeUndoesEncode(c, rest);
  }

  // And an escape that is accepted is one of a scalar value.
  lemma AcceptedIsScalar(s: seq<Byte>, i: nat, end: nat)
    requires end <= |s| && Utf16At(s, i, end).Escape?
    ensures var e := Utf16At(s, i, end); IsScalar(e.code) && (e.length == 12 <==> e.code > 0xffff)
    ensures var e := Utf16At(s, i, end); s[i] == BACKSLASH && s[i+1] == LETTER_U ==> WrittenAt(s, i, e.code)
  {
    hide Hex4;
    var e := Utf16At(s, i, end);
    if e.length == 12 {
      hide FromPair;
      HalvesOf(Hex4(s, i + 2), Hex4(s, i + 8));
    }
  }

  // ----- When nothing is decoded -----

  // How many bytes the leading byte asks for.
  function Wanted(b: Byte): nat {
    if b >= 0xf0 then 4 else if b >= 0xe0 then 3 else 2
  }

  /**
   The two answers that are no value: one asks for more bytes and consumes none, the other is for a
   byte that cannot lead, for an ASCII byte in the sequence, which is consumed too, and for a value
   that needs fewer bytes.
   */
  lemma NothingDecoded(p: seq<Byte>)
    requires p != []
    ensures var (c, used) := Decoded(p);
            && (c == 0xffff_fffe <==> p[0] >= 0xc2 && |p| < Wanted(p[0]))
            && (c == 0xffff_fffe ==> used == 0)
            && (p[0] < 0xc2 ==> c == 0xffff_ffff && used == 1)
            && (p[0] >= 0xc2 && |p| >= Wanted(p[0]) ==>
                 && 2 <= used <= Wanted(p[0]) && (forall j :: 1 <= j < used - 1 ==> p[j] >= 0x80)
                 && (c != 0xffff_ffff ==> used == Wanted(p[0]) && p[used-1] >= 0x80
                                          && c > (if used == 2 then 0x7f else if used == 3 then 0x7ff else 0xffff))
                 && (used < Wanted(p[0]) ==> p[used-1] < 0x80))
  {
    if p[0] >= 0xc2 && |p| >= Wanted(p[0]) {
      PayloadIsSmall(p, Wanted(p[0]) - 1);
    }
  }

  lemma PayloadIsSmall(p: seq<Byte>, k: nat)
    requires k < |p| && k <= 3
    ensures Payload(p, k) < 0x80_0000
  {
    assert Payload(p, 0) < 0x20;
    assert k >= 1 ==> Payload(p, 1) == Payload(p, 0) * 0x40 + p[1] % 0x40;
    assert k >= 2 ==> Payload(p, 2) == Payload(p, 1) * 0x40 + p[2] % 0x40;
    assert k >= 3 ==> Payload(p, 3) == Payload(p, 2) * 0x40 + p[3] % 0x40;
  }
}
