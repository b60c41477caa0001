/** Percent-encoding of byte strings (section 2.1 of RFC 3986), with the form rule that '+' is a space. */
module UrlCodec {
  import opened Bytes

  const PLUS: Byte := 43
  const PERCENT: Byte := 37
  const SPACE: Byte := 32

  predicate IsDigit(c: Byte) {
    48 <= c <= 57
  }

  predicate IsAlnum(c: Byte) {
    97 <= c <= 122 || 65 <= c <= 90 || IsDigit(c)
  }

  predicate IsHex(c: Byte) {
    97 <= c <= 102 || 65 <= c <= 70 || IsDigit(c)
  }

  function Char2Hex(c: Byte): int {
    if IsDigit(c) then c - 48 else if 97 <= c <= 102 then c - 97 + 10 else if 65 <= c <= 70 then c - 65 + 10 else c
  }

  function HexDigit(n: int): Byte
    requires 0 <= n < 16
  {
    if n < 10 then 48 + n else 65 + n - 10
  }

  function EncodeByte(c: Byte): seq<Byte> {
    if IsAlnum(c) then [c] else [PERCENT, HexDigit(c / 16), HexDigit(c % 16)]
  }

  function Encode(s: seq<Byte>): seq<Byte> {
    if s == [] then [] else EncodeByte(s[0]) + Encode(s[1..])
  }

  predicate EscapeAt(s: seq<Byte>, i: nat) {
    i + 2 < |s| && s[i] == PERCENT && IsHex(s[i + 1]) && IsHex(s[i + 2])
  }

  function Unescape(hi: Byte, lo: Byte): Byte {
    (Char2Hex(hi) * 16 + Char2Hex(lo)) % 256
  }

  function Decode(s: seq<Byte>): seq<Byte>
    decreases |s|
  {
    if s == [] then []
    else if s[0] == PLUS then [SPACE] + Decode(s[1..])
    else if EscapeAt(s, 0) then [Unescape(s[1], s[2])] + Decode(s[3..])
    else [s[0]] + Decode(s[1..])
  }

  lemma DecodesByte(c: Byte, rest: seq<Byte>)
    ensures Decode(EncodeByte(c) + rest) == [c] + Decode(rest)
  {
    var s := EncodeByte(c) + rest;
    if IsAlnum(c) {
      assert s[1..] == rest;
    } else {
      hide HexDigit, Char2Hex, IsHex;
      DigitsBack(c);
      assert s == [PERCENT, HexDigit(c / 16), HexDigit(c % 16)] + rest && s[3..] == rest;
      assert EscapeAt(s, 0);
    }
  }

  lemma DigitsBack(c: Byte)
    ensures IsHex(HexDigit(c / 16)) && IsHex(HexDigit(c % 16))
    ensures Char2Hex(HexDigit(c / 16)) * 16 + Char2Hex(HexDigit(c % 16)) == c
  {
    assert c == c / 16 * 16 + c % 16;
  }

  /** Decoding undoes encoding, for every byte string. */
  lemma {:induction false} RoundTrip(s: seq<Byte>)
    ensures Decode(Encode(s)) == s
    decreases |s|
  {
    if s != [] {
      DecodesByte(s[0], Encode(s[1..]));
      RoundTrip(s[1..]);
      assert s == [s[0]] + s[1..];
    }
  }

  /** What is encoded is letters, digits and percent signs, so nothing in it can end a parameter. */
  lemma {:induction false} Alphabet(s: seq<Byte>)
    ensures forall k :: 0 <= k < |Encode(s)| ==> IsAlnum(Encode(s)[k]) || Encode(s)[k] == PERCENT
    decreases |s|
  {
    if s != [] {
      Alphabet(s[1..]);
      assert forall k :: 0 <= k < |EncodeByte(s[0])| ==> IsAlnum(EncodeByte(s[0])[k]) || EncodeByte(s[0])[k] == PERCENT;
    }
  }

  /** Letters and digits stay as they are. */
  lemma {:induction false} PlainStays(s: seq<Byte>)
    requires forall k :: 0 <= k < |s| ==> IsAlnum(s[k])
    ensures Encode(s) == s
    decreases |s|
  {
    if s != [] {
      PlainStays(s[1..]);
      assert s == [s[0]] + s[1..];
    }
  }

  /** Any other byte becomes a percent sign and its two digits, the higher one first, in upper case. */
  lemma OtherIsEscaped(c: Byte)
    requires !IsAlnum(c)
    ensures var e := Encode([c]);
            && |e| == 3 && e[0] == PERCENT
            && (IsDigit(e[1]) || 65 <= e[1] <= 70) && (IsDigit(e[2]) || 65 <= e[2] <= 70)
            && 16 * Char2Hex(e[1]) + Char2Hex(e[2]) == c
  {
    assert [c][1..] == [];
    assert Encode([c]) == EncodeByte(c) + [];
    assert c == c / 16 * 16 + c % 16;
  }

  lemma {:induction false} EncodeSplits(a: seq<Byte>, b: seq<Byte>)
    ensures Encode(a + b) == Encode(a) + Encode(b)
    decreases |a|
  {
    hide EncodeByte;
    if a == [] {
      assert a + b == b;
    } else {
      EncodeSplits(a[1..], b);
      assert (a + b)[1..] == a[1..] + b;
    }
  }

  /** What is no plus sign and no escape is left alone, a broken escape included; a plus sign is a space. */
  lemma {:induction false} OthersDecodeAsTheyAre(s: seq<Byte>)
    requires forall k :: 0 <= k < |s| ==> s[k] != PLUS && !EscapeAt(s, k)
    ensures Decode(s) == s && Decode([PLUS] + s) == [SPACE] + s
    decreases |s|
  {
    assert ([PLUS] + s)[1..] == s;
    if s != [] {
      hide EscapeAt;
      forall k: nat | k < |s| - 1
        ensures s[1..][k] != PLUS && !EscapeAt(s[1..], k)
      {
        EscapeInTail(s, k);
      }
      OthersDecodeAsTheyAre(s[1..]);
      assert !EscapeAt(s, 0);
      assert s == [s[0]] + s[1..];
    }
  }

  lemma EscapeInTail(s: seq<Byte>, k: nat)
    requires k + 1 < |s|
    ensures EscapeAt(s[1..], k) <==> EscapeAt(s, k + 1)
  {
  }

  /** Escapes are read in either case: both of these are the byte 171. */
  lemma EitherCase()
    ensures Decode([PERCENT, 65, 66]) == Decode([PERCENT, 97, 98]) == [171]
  {
    assert [PERCENT, 65, 66][3..] == [] && [PERCENT, 97, 98][3..] == [];
  }

  lemma EncodeFrom(s: seq<Byte>, i: nat, done: seq<Byte>)
    requires i < |s|
    ensures done + Encode(s[i..]) == done + EncodeByte(s[i]) + Encode(s[i + 1..])
  {
    hide EncodeByte;
    assert s[i..][1..] == s[i + 1..];
  }

  lemma EncodeNothing()
    ensures Encode([]) == []
  {
  }

  method EncodeLoop(url: seq<Byte>) returns (encoded: seq<Byte>)
    ensures encoded == Encode(url)
  {
    hide Encode;
    encoded := [];
    assert url[0..] == url && [] + Encode(url) == Encode(url);
    for i := 0 to |url|
      invariant encoded + Encode(url[i..]) == Encode(url)
    {
      EncodeFrom(url, i, encoded);
      var c := url[i];
      if IsAlnum(c) {
        encoded := encoded + [c];
      } else {
        encoded := encoded + [PERCENT, HexDigit(c / 16), HexDigit(c % 16)];
      }
    }
    EncodeNothing();
    assert url[|url|..] == [] && encoded + [] == encoded;
  }

  lemma DecodeFrom(s: seq<Byte>, i: nat, done: seq<Byte>)
    requires i < |s|
    ensures done + Decode(s[i..]) ==
            if s[i] == PLUS then done + [SPACE] + Decode(s[i + 1..])
            else if EscapeAt(s, i) then done + [Unescape(s[i + 1], s[i + 2])] + Decode(s[i + 3..])
            else done + [s[i]] + Decode(s[i + 1..])
  {
    hide Unescape;
    var rest := s[i..];
    assert rest[1..] == s[i + 1..] && (|rest| >= 3 ==> rest[3..] == s[i + 3..]);
  }

  method DecodeLoop(encoded: seq<Byte>) returns (url: seq<Byte>)
    ensures url == Decode(encoded)
  {
    hide Decode, Unescape;
    url := [];
    var i := 0;
    assert encoded[0..] == encoded && [] + Decode(encoded) == Decode(encoded);
    while i < |encoded|
      invariant 0 <= i <= |encoded|
      invariant url + Decode(encoded[i..]) == Decode(encoded)
    {
      DecodeFrom(encoded, i, url);
      if encoded[i] == PLUS {
        url := url + [SPACE];
      } else if EscapeAt(encoded, i) {
        url := url + [Unescape(encoded[i + 1], encoded[i + 2])];
        i := i + 2;
      } else {
        url := url + [encoded[i]];
      }
      i := i + 1;
    }
    DecodeNothing();
    assert encoded[|encoded|..] == [] && url + [] == url;
  }

  lemma DecodeNothing()
    ensures Decode([]) == []
  {
  }
}
