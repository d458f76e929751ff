/** Base 64 encoding with the URL- and filename-safe alphabet (section 5 of RFC 4648),
    decoded the way java.util.Base64.getUrlDecoder() does: padding is optional, but
    when present it must complete the final unit exactly, a final unit of one
    character is rejected, and any character outside the alphabet is rejected. */
module Base64Url {
  import opened JavaLang

  /** The 64 characters of the alphabet: A-Z, a-z, 0-9, '-' and '_'. */
  predicate IsAlphabet(c: char) {
    ('A' <= c <= 'Z') || ('a' <= c <= 'z') || ('0' <= c <= '9') || c == '-' || c == '_'
  }

  predicate AllAlphabet(s: string) {
    forall i :: 0 <= i < |s| ==> IsAlphabet(s[i])
  }

  /** A six-bit group. */
  type Sextet = v: int | 0 <= v < 64

  /** The value a character of the alphabet stands for. */
  function SextetOf(c: char): Sextet
    requires IsAlphabet(c)
  {
    if 'A' <= c <= 'Z' then (c as int) - ('A' as int)
    else if 'a' <= c <= 'z' then (c as int) - ('a' as int) + 26
    else if '0' <= c <= '9' then (c as int) - ('0' as int) + 52
    else if c == '-' then 62
    else 63
  }

  /** The character of the alphabet that stands for v. */
  function CharOf(v: Sextet): (c: char)
    ensures IsAlphabet(c) && SextetOf(c) == v
  {
    if v < 26 then (('A' as int) + v) as char
    else if v < 52 then (('a' as int) + v - 26) as char
    else if v < 62 then (('0' as int) + v - 52) as char
    else if v == 62 then '-'
    else '_'
  }

  /** The number of characters before the first one outside the alphabet. */
  function AlphabetPrefix(s: string): (n: nat)
    ensures n <= |s| && AllAlphabet(s[..n])
    ensures n < |s| ==> !IsAlphabet(s[n])
    decreases |s|
  {
    if s == [] || !IsAlphabet(s[0]) then 0
    else
      var n := 1 + AlphabetPrefix(s[1..]);
      assert forall i :: 1 <= i < n ==> s[..n][i] == s[1..][..n - 1][i - 1];
      n
  }

  /** The three bytes a full unit of four characters stands for. */
  function DecodeUnit(c0: char, c1: char, c2: char, c3: char): seq<Byte>
    requires IsAlphabet(c0) && IsAlphabet(c1) && IsAlphabet(c2) && IsAlphabet(c3)
  {
    var v0, v1, v2, v3 := SextetOf(c0), SextetOf(c1), SextetOf(c2), SextetOf(c3);
    [v0 * 4 + v1 / 16, (v1 % 16) * 16 + v2 / 4, (v2 % 4) * 64 + v3]
  }

  /** The bytes of a run of alphabet characters: full units, then a final unit of two
      characters (one byte) or three characters (two bytes); leftover low bits are ignored. */
  function DecodeBody(s: string): seq<Byte>
    requires AllAlphabet(s) && |s| % 4 != 1
    decreases |s|
  {
    if |s| >= 4 then DecodeUnit(s[0], s[1], s[2], s[3]) + DecodeBody(s[4..])
    else if |s| == 3 then
      var v0, v1, v2 := SextetOf(s[0]), SextetOf(s[1]), SextetOf(s[2]);
      [v0 * 4 + v1 / 16, (v1 % 16) * 16 + v2 / 4]
    else if |s| == 2 then [SextetOf(s[0]) * 4 + SextetOf(s[1]) / 16]
    else []
  }

  /** Base64.getUrlDecoder().decode(s), with None for IllegalArgumentException. */
  function Decode(s: string): Option<seq<Byte>> {
    var n := AlphabetPrefix(s);
    var tail := s[n..];
    if n % 4 == 1 then None
    else if tail == [] || (tail == "=" && n % 4 == 3) || (tail == "==" && n % 4 == 2) then
      Some(DecodeBody(s[..n]))
    else None
  }

  /** The four characters of three bytes. */
  function EncodeUnit(b0: Byte, b1: Byte, b2: Byte): (u: string)
    ensures |u| == 4
  {
    [CharOf(b0 / 4), CharOf((b0 % 4) * 16 + b1 / 16), CharOf((b1 % 16) * 4 + b2 / 64), CharOf(b2 % 64)]
  }

  /** The characters of the bytes, four per three bytes, without padding. */
  function EncodeBody(b: seq<Byte>): string
    decreases |b|
  {
    if |b| >= 3 then EncodeUnit(b[0], b[1], b[2]) + EncodeBody(b[3..])
    else if |b| == 2 then
      [CharOf(b[0] / 4), CharOf((b[0] % 4) * 16 + b[1] / 16), CharOf((b[1] % 16) * 4)]
    else if |b| == 1 then [CharOf(b[0] / 4), CharOf((b[0] % 4) * 16)]
    else []
  }

  /** The '=' characters that complete the final unit. */
  function Padding(n: nat): string {
    if n % 3 == 1 then "==" else if n % 3 == 2 then "=" else ""
  }

  /** Base64.getUrlEncoder().encodeToString(b), or with .withoutPadding() when pad is false. */
  function Encode(b: seq<Byte>, pad: bool): string {
    EncodeBody(b) + (if pad then Padding(|b|) else "")
  }

  /** Encoded text is made of the alphabet only. */
  lemma {:induction false} EncodeBodyAlphabet(b: seq<Byte>)
    ensures AllAlphabet(EncodeBody(b))
    decreases |b|
  {
    if |b| >= 3 {
      EncodeBodyAlphabet(b[3..]);
      var e := EncodeBody(b);
      var u := EncodeUnit(b[0], b[1], b[2]);
      var rest := EncodeBody(b[3..]);
      assert forall i :: 0 <= i < 4 ==> e[i] == u[i];
      assert forall i :: 4 <= i < |e| ==> e[i] == rest[i - 4];
    }
  }

  /** Three more bytes and four more characters leave both remainders as they were. */
  lemma RemainderAfterUnit(n: nat, m: nat)
    ensures (n + 3) % 3 == n % 3 && (m + 4) % 4 == m % 4
  {
  }

  /** Four characters per three bytes, and two or three for a final one or two bytes. */
  lemma {:induction false} EncodeBodyLength(b: seq<Byte>)
    ensures |EncodeBody(b)| % 4 == (if |b| % 3 == 0 then 0 else |b| % 3 + 1)
    decreases |b|
  {
    if |b| >= 3 {
      EncodeBodyLength(b[3..]);
      assert |EncodeBody(b)| == 4 + |EncodeBody(b[3..])|;
      RemainderAfterUnit(|b[3..]|, |EncodeBody(b[3..])|);
    }
  }

  /** The shape of encoded text. */
  lemma EncodeBodyShape(b: seq<Byte>)
    ensures AllAlphabet(EncodeBody(b))
    ensures |EncodeBody(b)| % 4 == (if |b| % 3 == 0 then 0 else |b| % 3 + 1)
  {
    EncodeBodyAlphabet(b);
    EncodeBodyLength(b);
  }

  lemma DecodeUnitOfEncoded(b0: Byte, b1: Byte, b2: Byte)
    ensures var u := EncodeUnit(b0, b1, b2); DecodeUnit(u[0], u[1], u[2], u[3]) == [b0, b1, b2]
  {
    assert ((b0 % 4) * 16 + b1 / 16) / 16 == b0 % 4;
    assert ((b0 % 4) * 16 + b1 / 16) % 16 == b1 / 16;
    assert ((b1 % 16) * 4 + b2 / 64) / 4 == b1 % 16;
    assert ((b1 % 16) * 4 + b2 / 64) % 4 == b2 / 64;
  }

  lemma {:induction false} DecodeBodyOfEncoded(b: seq<Byte>)
    ensures AllAlphabet(EncodeBody(b)) && |EncodeBody(b)| % 4 != 1
    ensures DecodeBody(EncodeBody(b)) == b
    decreases |b|
  {
    EncodeBodyShape(b);
    var e := EncodeBody(b);
    if |b| >= 3 {
      DecodeBodyOfEncoded(b[3..]);
      DecodeUnitOfEncoded(b[0], b[1], b[2]);
      assert e[4..] == EncodeBody(b[3..]);
      assert b == b[..3] + b[3..];
    } else if |b| == 2 {
      assert ((b[0] % 4) * 16 + b[1] / 16) / 16 == b[0] % 4;
      assert ((b[0] % 4) * 16 + b[1] / 16) % 16 == b[1] / 16;
    } else if |b| == 1 {
      assert ((b[0] % 4) * 16) / 16 == b[0] % 4;
    }
  }

  lemma {:induction false} AlphabetPrefixOfPadded(e: string, p: string)
    requires AllAlphabet(e)
    requires p == [] || p[0] == '='
    ensures AlphabetPrefix(e + p) == |e|
    decreases |e|
  {
    if e != [] {
      assert (e + p)[1..] == e[1..] + p;
      AlphabetPrefixOfPadded(e[1..], p);
    }
  }

  /** Decoding undoes encoding, with or without padding. */
  lemma DecodeEncode(b: seq<Byte>, pad: bool)
    ensures Decode(Encode(b, pad)) == Some(b)
  {
    var e := EncodeBody(b);
    var p := if pad then Padding(|b|) else "";
    var s := e + p;
    assert s == Encode(b, pad);
    DecodeBodyOfEncoded(b);
    EncodeBodyShape(b);
    AlphabetPrefixOfPadded(e, p);
    var n := AlphabetPrefix(s);
    assert n == |e|;
    assert s[..n] == e;
    assert s[n..] == p;
    assert n % 4 != 1;
    assert p == [] || (p == "=" && n % 4 == 3) || (p == "==" && n % 4 == 2);
  }

  /** Encoded text never contains '.', so it is always a single piece of a dot-separated token. */
  lemma EncodeHasNoDot(b: seq<Byte>, pad: bool)
    ensures '.' !in Encode(b, pad)
  {
    EncodeBodyShape(b);
    var e := Encode(b, pad);
    forall i | 0 <= i < |e|
      ensures e[i] != '.'
    {
      if i >= |EncodeBody(b)| {
        assert e[i] == '=';
      }
    }
  }
}
