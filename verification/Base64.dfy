/**
 Base64 and base64url (src/uct_string.c), with the alphabets of sections 4 and 5 of RFC 4648.

 Shifts and masks appear as division, remainder and sum; an OR of bytes without common bits is
 their sum.
 */
module Base64 {
  import opened Bytes

  const PAD: Byte := 0x3d
  const NO_VALUE: Byte := 77

  datatype Option<T> = None | Some(value: T)

  // The basis of the encoders.
  function Letter(v: nat, url: bool): (b: Byte)
    requires v < 64
    ensures b != PAD
  {
    if v < 26 then 0x41 + v
    else if v < 52 then 0x61 + v - 26
    else if v < 62 then 0x30 + v - 52
    else if v == 62 then (if url then 0x2d else 0x2b)
    else (if url then 0x5f else 0x2f)
  }

  // The basis of the decoders.
  function Value(b: Byte, url: bool): (v: Byte)
    ensures v < 64 || v == NO_VALUE
  {
    if 0x41 <= b <= 0x5a then b - 0x41
    else if 0x61 <= b <= 0x7a then b - 0x61 + 26
    else if 0x30 <= b <= 0x39 then b - 0x30 + 52
    else if b == (if url then 0x2d else 0x2b) then 62
    else if b == (if url then 0x5f else 0x2f) then 63
    else NO_VALUE
  }

  // The two tables are inverse to each other.
  lemma TablesAgree(v: nat, b: Byte, url: bool)
    requires v < 64
    ensures Value(Letter(v, url), url) == v
    ensures Value(b, url) < 64 ==> Letter(Value(b, url), url) == b
  {
  }

  // The alphabet of table 1 of RFC 4648, and that of table 2, which differs in the last two letters.
  lemma LettersInWords(v: nat, url: bool)
    requires v < 64
    ensures var b := Letter(v, url);
            && (v < 26 ==> b == "ABCDEFGHIJKLMNOPQRSTUVWXYZ"[v] as nat)
            && (26 <= v < 52 ==> b == "abcdefghijklmnopqrstuvwxyz"[v - 26] as nat)
            && (52 <= v < 62 ==> b == "0123456789"[v - 52] as nat)
            && (62 <= v ==> b == (if url then "-_" else "+/")[v - 62] as nat)
  {
  }

  // ----- Encoding -----

  function Triple(a: Byte, b: Byte, c: Byte, url: bool): seq<Byte> {
    [Letter(a / 4, url), Letter(a % 4 * 16 + b / 16, url), Letter(b % 16 * 4 + c / 64, url), Letter(c % 64, url)]
  }

  // The letters for the one or two bytes that are left over.
  function TailLetters(s: seq<Byte>, url: bool): (r: seq<Byte>)
    requires |s| <= 2
    ensures |r| == if s == [] then 0 else |s| + 1
  {
    if s == [] then []
    else if |s| == 1 then [Letter(s[0] / 4, url), Letter(s[0] % 4 * 16, url)]
    else [Letter(s[0] / 4, url), Letter(s[0] % 4 * 16 + s[1] / 16, url), Letter(s[1] % 16 * 4, url)]
  }

  function Pads(n: nat, url: bool): seq<Byte> {
    if url || n == 0 then [] else if n == 1 then [PAD, PAD] else [PAD]
  }

  function Tail(s: seq<Byte>, url: bool): seq<Byte>
    requires |s| <= 2
  {
    TailLetters(s, url) + Pads(|s|, url)
  }

  function Encoded(s: seq<Byte>, url: bool): (r: seq<Byte>)
    ensures |r| <= (|s| + 2) / 3 * 4
    ensures !url ==> |r| == (|s| + 2) / 3 * 4
  {
    if |s| <= 2 then Tail(s, url) else Triple(s[0], s[1], s[2], url) + Encoded(s[3..], url)
  }

  // One round of the loop: three bytes, four letters.
  method WriteTriple(dst: array<Byte>, at: nat, a: Byte, b: Byte, c: Byte, url: bool)
    requires at + 4 <= dst.Length
    modifies dst
    ensures dst[..at+4] == old(dst[..at]) + Triple(a, b, c, url)
  {
    dst[at] := Letter(a / 4, url);
    dst[at+1] := Letter(a % 4 * 16 + b / 16, url);
    dst[at+2] := Letter(b % 16 * 4 + c / 64, url);
    dst[at+3] := Letter(c % 64, url);
    assert dst[..at] == old(dst[..at]);
  }

  // What follows the loop.
  method WriteTail(dst: array<Byte>, at: nat, s: seq<Byte>, url: bool) returns (length: nat)
    requires |s| <= 2 && (s != [] ==> at + 4 <= dst.Length) && at <= dst.Length
    modifies dst
    ensures length <= dst.Length && dst[..length] == old(dst[..at]) + Tail(s, url)
  {
    length := at;
    if s != [] {
      dst[at] := Letter(s[0] / 4, url);
      if |s| == 1 {
        dst[at+1] := Letter(s[0] % 4 * 16, url);
        length := at + 2;
        if !url {
          dst[length] := PAD;
          length := length + 1;
        }
      } else {
        dst[at+1] := Letter(s[0] % 4 * 16 + s[1] / 16, url);
        dst[at+2] := Letter(s[1] % 16 * 4, url);
        length := at + 3;
      }
      if !url {
        dst[length] := PAD;
        length := length + 1;
      }
    }
    assert dst[at..length] == Tail(s, url);
    assert dst[..at] == old(dst[..at]);
    assert dst[..length] == dst[..at] + dst[at..length];
  }

  // uct_encode_base64 and uct_encode_base64url.
  method Encode(dst: array<Byte>, src: seq<Byte>, url: bool) returns (length: nat)
    requires (|src| + 2) / 3 * 4 <= dst.Length
    modifies dst
    ensures length <= dst.Length && dst[..length] == Encoded(src, url)
  {
    hide Triple, Tail, Encoded, Letter;
    length := 0;
    var i := 0;
    ghost var rounds := 0;
    ghost var all := (|src| + 2) / 3;
    assert 3 * all >= |src| && 4 * all <= dst.Length;
    assert src[0..] == src;
    while |src| - i > 2
      invariant i <= |src| && i == 3 * rounds && length == 4 * rounds
      invariant dst[..length] + Encoded(src[i..], url) == Encoded(src, url)
    {
      Unfolded(src, i, dst[..length], url);
      WriteTriple(dst, length, src[i], src[i+1], src[i+2], url);
      length, i, rounds := length + 4, i + 3, rounds + 1;
    }
    OnlyTail(src[i..], url);
    length := WriteTail(dst, length, src[i..], url);
  }

  lemma OnlyTail(s: seq<Byte>, url: bool)
    requires |s| <= 2
    ensures Encoded(s, url) == Tail(s, url)
  {
  }

  lemma Unfolded(src: seq<Byte>, i: nat, done: seq<Byte>, url: bool)
    requires i + 2 < |src|
    ensures done + Encoded(src[i..], url)
         == done + Triple(src[i], src[i+1], src[i+2], url) + Encoded(src[i+3..], url)
  {
    assert src[i..][3..] == src[i+3..];
  }

  // ----- Decoding -----

  // The bytes before the first padding byte, unless one of them has no value.
  function DataLength(t: seq<Byte>, url: bool): (n: Option<nat>)
    ensures n.Some? ==> n.value <= |t| && forall k :: 0 <= k < n.value ==> Value(t[k], url) < 64
  {
    if t == [] || t[0] == PAD then Some(0)
    else if Value(t[0], url) == NO_VALUE then None
    else
      match DataLength(t[1..], url)
      case None => None
      case Some(n) =>
        assert forall k :: 1 <= k < n + 1 ==> t[k] == t[1..][k-1];
        Some(n + 1)
  }

  function First(a: Byte, b: Byte): (r: Byte) { a * 4 % 256 + b / 16 % 4 }

  function Second(b: Byte, c: Byte): (r: Byte) { b * 16 % 256 + c / 4 % 16 }

  function Third(c: Byte, d: Byte): (r: Byte) { c * 64 % 256 + d % 64 }

  predicate AllValues(t: seq<Byte>, url: bool) { forall k :: 0 <= k < |t| ==> Value(t[k], url) < 64 }

  // Four letters, three bytes.
  function Quad(t: seq<Byte>, url: bool): (r: seq<Byte>)
    requires |t| >= 4
    ensures |r| == 3
  {
    var a, b, c, d := Value(t[0], url), Value(t[1], url), Value(t[2], url), Value(t[3], url);
    [First(a, b), Second(b, c), Third(c, d)]
  }

  function Rest(t: seq<Byte>, url: bool): (r: seq<Byte>)
    requires |t| <= 3
    ensures |r| == if |t| == 0 then 0 else |t| - 1
  {
    (if |t| > 1 then [First(Value(t[0], url), Value(t[1], url))] else [])
    + (if |t| > 2 then [Second(Value(t[1], url), Value(t[2], url))] else [])
  }

  function Bits(t: seq<Byte>, url: bool): seq<Byte> {
    if |t| > 3 then Quad(t, url) + Bits(t[4..], url) else Rest(t, url)
  }

  function Decoded(t: seq<Byte>, url: bool): Option<seq<Byte>> {
    match DataLength(t, url)
    case None => None
    case Some(n) => if n % 4 == 1 then None else Some(Bits(t[..n], url))
  }

  // The first loop of the decoder: the length of the data, or None for a byte without a value.
  method MeasureData(src: seq<Byte>, url: bool) returns (n: Option<nat>)
    ensures n == DataLength(src, url)
  {
    var len := 0;
    assert src[0..] == src;
    while len < |src|
      invariant len <= |src|
      invariant DataLength(src, url) == AddTo(len, DataLength(src[len..], url))
    {
      assert src[len..][1..] == src[len+1..];
      if src[len] == PAD {
        break;
      }
      if Value(src[len], url) == NO_VALUE {
        return None;
      }
      len := len + 1;
    }
    return Some(len);
  }

  function AddTo(k: nat, n: Option<nat>): Option<nat> {
    match n
    case None => None
    case Some(m) => Some(k + m)
  }

  // uct_decode_base64 and uct_decode_base64url.
  method Decode(dst: array<Byte>, src: seq<Byte>, url: bool) returns (ok: bool, length: nat)
    requires (|src| + 3) / 4 * 3 <= dst.Length
    modifies dst
    ensures ok <==> Decoded(src, url).Some?
    ensures ok ==> length <= dst.Length && dst[..length] == Decoded(src, url).value
    ensures !ok ==> dst[..] == old(dst[..])
  {
    hide Quad, Rest, DataLength;
    length := 0;
    var measured := MeasureData(src, url);
    if measured.None? {
      return false, 0;
    }
    var n := measured.value;
    if n % 4 == 1 {
      return false, 0;
    }
    var data := src[..n];
    var i := 0;
    ghost var rounds := 0;
    assert data[0..] == data;
    while n - i > 3
      invariant i <= n && i == 4 * rounds && length == 3 * rounds
      invariant dst[..length] + Bits(data[i..], url) == Bits(data, url)
    {
      UnfoldedBits(data, i, dst[..length], url);
      WriteQuad(dst, length, data[i..], url);
      length, i, rounds := length + 3, i + 4, rounds + 1;
    }
    length := WriteRest(dst, length, data[i..], url);
    ok := true;
  }

  method WriteQuad(dst: array<Byte>, at: nat, t: seq<Byte>, url: bool)
    requires |t| >= 4 && at + 3 <= dst.Length
    modifies dst
    ensures dst[..at+3] == old(dst[..at]) + Quad(t, url)
  {
    dst[at] := First(Value(t[0], url), Value(t[1], url));
    dst[at+1] := Second(Value(t[1], url), Value(t[2], url));
    dst[at+2] := Third(Value(t[2], url), Value(t[3], url));
    assert dst[..at] == old(dst[..at]);
  }

  method WriteRest(dst: array<Byte>, at: nat, t: seq<Byte>, url: bool) returns (length: nat)
    requires |t| <= 3 && at + |Rest(t, url)| <= dst.Length
    modifies dst
    ensures length == at + |Rest(t, url)| && dst[..length] == old(dst[..at]) + Rest(t, url)
  {
    length := at;
    if |t| > 1 {
      dst[length] := First(Value(t[0], url), Value(t[1], url));
      length := length + 1;
    }
    if |t| > 2 {
      dst[length] := Second(Value(t[1], url), Value(t[2], url));
      length := length + 1;
    }
    assert dst[..at] == old(dst[..at]);
    assert dst[at..length] == Rest(t, url);
    assert dst[..length] == dst[..at] + dst[at..length];
  }

  lemma UnfoldedBits(t: seq<Byte>, i: nat, done: seq<Byte>, url: bool)
    requires i + 3 < |t|
    ensures done + Bits(t[i..], url) == done + Quad(t[i..], url) + Bits(t[i+4..], url)
  {
    assert t[i..][4..] == t[i+4..];
  }

  // ----- The round trip -----

  lemma ThreeBytes(a: Byte, b: Byte, c: Byte)
    ensures First(a / 4, a % 4 * 16 + b / 16) == a
    ensures Second(a % 4 * 16 + b / 16, b % 16 * 4 + c / 64) == b
    ensures Third(b % 16 * 4 + c / 64, c % 64) == c
  {
    assert (a % 4 * 16 + b / 16) / 16 == a % 4;
    assert (b % 16 * 4 + c / 64) / 4 == b % 16;
    assert (a % 4 * 16 + b / 16) * 16 % 256 == b / 16 * 16;
    assert (b % 16 * 4 + c / 64) * 64 % 256 == c / 64 * 64;
  }

  // Letters before the rest of a text only add to the length of the data.
  lemma {:induction false} DataGoesOn(a: seq<Byte>, b: seq<Byte>, url: bool)
    requires AllValues(a, url) && forall k :: 0 <= k < |a| ==> a[k] != PAD
    ensures DataLength(a + b, url) == AddTo(|a|, DataLength(b, url))
    decreases |a|
  {
    if a == [] {
      assert a + b == b;
    } else {
      DataGoesOn(a[1..], b, url);
      assert (a + b)[1..] == a[1..] + b;
    }
  }

  /**
   The round trip: decoding what was encoded, in the same alphabet, gives every byte back, with
   or without padding.
   */
  lemma {:induction false} DecodeUndoesEncode(s: seq<Byte>, url: bool)
    ensures Decoded(Encoded(s, url), url) == Some(s)
    decreases |s|
  {
    hide Triple, Tail, Decoded;
    if |s| <= 2 {
      TailRoundTrip(s, url);
    } else {
      DecodeUndoesEncode(s[3..], url);
      TripleRoundTrip(s[0], s[1], s[2], url);
      DecodeTriple(Triple(s[0], s[1], s[2], url), Encoded(s[3..], url), url);
      assert [s[0], s[1], s[2]] + s[3..] == s;
    }
  }

  // Four letters in front of an encoded text.
  lemma DecodeTriple(first: seq<Byte>, rest: seq<Byte>, url: bool)
    requires |first| == 4 && AllValues(first, url) && (forall k :: 0 <= k < |first| ==> first[k] != PAD)
    requires Decoded(rest, url).Some?
    ensures Decoded(first + rest, url) == Some(Quad(first, url) + Decoded(rest, url).value)
  {
    hide Quad, Rest, Bits, DataLength;
    DataGoesOn(first, rest, url);
    var n := DataLength(rest, url).value;
    assert (first + rest)[..n+4] == first + rest[..n];
    BitsOfTriple(first, rest[..n], url);
  }

  lemma BitsOfTriple(first: seq<Byte>, rest: seq<Byte>, url: bool)
    requires |first| == 4
    ensures Bits(first + rest, url) == Quad(first, url) + Bits(rest, url)
  {
    assert (first + rest)[4..] == rest;
    assert Quad(first + rest, url) == Quad(first, url);
  }

  lemma TripleRoundTrip(a: Byte, b: Byte, c: Byte, url: bool)
    ensures var t := Triple(a, b, c, url);
            |t| == 4 && AllValues(t, url) && (forall k :: 0 <= k < |t| ==> t[k] != PAD) && Quad(t, url) == [a, b, c]
  {
    hide Letter, Value, First, Second, Third;
    var p, q, r, u := a / 4, a % 4 * 16 + b / 16, b % 16 * 4 + c / 64, c % 64;
    TablesAgree(p, 0, url);
    TablesAgree(q, 0, url);
    TablesAgree(r, 0, url);
    TablesAgree(u, 0, url);
    ThreeBytes(a, b, c);
  }

  lemma TailRoundTrip(s: seq<Byte>, url: bool)
    requires |s| <= 2
    ensures Decoded(Tail(s, url), url) == Some(s)
  {
    hide Rest, TailLetters, Pads, DataLength, Value;
    var t, pads := TailLetters(s, url), Pads(|s|, url);
    LettersRoundTrip(s, url);
    DataGoesOn(t, pads, url);
    PadsEnd(|s|, url);
    assert Tail(s, url)[..|t|] == t;
  }

  lemma PadsEnd(n: nat, url: bool)
    ensures DataLength(Pads(n, url), url) == Some(0)
  {
  }

  lemma LettersRoundTrip(s: seq<Byte>, url: bool)
    requires |s| <= 2
    ensures var t := TailLetters(s, url);
            AllValues(t, url) && (forall k :: 0 <= k < |t| ==> t[k] != PAD) && Rest(t, url) == s
  {
    hide Letter, Value, First, Second, Third;
    if |s| == 1 {
      TablesAgree(s[0] / 4, 0, url);
      TablesAgree(s[0] % 4 * 16, 0, url);
      ThreeBytes(s[0], 0, 0);
    } else if |s| == 2 {
      TablesAgree(s[0] / 4, 0, url);
      TablesAgree(s[0] % 4 * 16 + s[1] / 16, 0, url);
      TablesAgree(s[1] % 16 * 4, 0, url);
      ThreeBytes(s[0], s[1], 0);
    }
  }

  // Three bytes and their four letters are the same number of 24 bits, the first ones counting most.
  lemma GroupIsOneNumber(a: Byte, b: Byte, c: Byte, url: bool)
    ensures var t := Triple(a, b, c, url);
            && |t| == 4 && (forall k :: 0 <= k < 4 ==> Value(t[k], url) < 64)
            && 0x4_0000 * Value(t[0], url) + 0x1000 * Value(t[1], url) + 0x40 * Value(t[2], url) + Value(t[3], url)
               == 0x1_0000 * a + 0x100 * b + c
  {
    hide Letter, Value;
    TablesAgree(a / 4, 0, url);
    TablesAgree(a % 4 * 16 + b / 16, 0, url);
    TablesAgree(b % 16 * 4 + c / 64, 0, url);
    TablesAgree(c % 64, 0, url);
  }

  // Answers of section 10 of RFC 4648: "f", "fo", "foo" and "foob".
  lemma KnownAnswers()
    ensures Encoded([0x66], false) == [0x5a, 0x67, 0x3d, 0x3d]
    ensures Encoded([0x66, 0x6f], false) == [0x5a, 0x6d, 0x38, 0x3d]
    ensures Encoded([0x66, 0x6f, 0x6f], false) == [0x5a, 0x6d, 0x39, 0x76]
    ensures Encoded([0x66, 0x6f, 0x6f, 0x62], false) == [0x5a, 0x6d, 0x39, 0x76, 0x59, 0x67, 0x3d, 0x3d]
    ensures Encoded([0x66, 0x6f], true) == [0x5a, 0x6d, 0x38]
  {
    assert [0x66, 0x6f, 0x6f][3..] == [] && [0x66, 0x6f, 0x6f, 0x62][3..] == [0x62];
  }
}
