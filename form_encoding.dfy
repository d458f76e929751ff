/** application/x-www-form-urlencoded text (section 17.13.4.1 of HTML 4.01) as
    java.net.URLEncoder.encode(s, UTF_8) produces it, a decoder that inverts it,
    and query strings made of encoded key=value pairs joined by '&'. */
module FormEncoding {
  import opened JavaLang
  import opened JavaStrings

  /** The characters URLEncoder leaves as they are. */
  predicate IsUnreserved(c: char) {
    ('a' <= c <= 'z') || ('A' <= c <= 'Z') || ('0' <= c <= '9') || c == '.' || c == '-' || c == '*' || c == '_'
  }

  /** The characters that can appear in encoded text. */
  predicate IsEncodedChar(c: char) {
    IsUnreserved(c) || c == '+' || c == '%'
  }

  /** The UTF-8 bytes of a Unicode scalar value. */
  function Utf8(c: char): (r: seq<Byte>)
    ensures 1 <= |r| <= 4
  {
    var cp := c as int;
    if cp < 0x80 then [cp]
    else if cp < 0x800 then [0xC0 + cp / 64, 0x80 + cp % 64]
    else if cp < 0x1_0000 then [0xE0 + cp / 4096, 0x80 + (cp / 64) % 64, 0x80 + cp % 64]
    else [0xF0 + cp / 262144, 0x80 + (cp / 4096) % 64, 0x80 + (cp / 64) % 64, 0x80 + cp % 64]
  }

  /** An upper-case hexadecimal digit, as URLEncoder writes them. */
  function HexDigit(v: nat): (c: char)
    requires v < 16
    ensures IsUnreserved(c)
  {
    if v < 10 then (('0' as int) + v) as char else (('A' as int) + v - 10) as char
  }

  /** '%' and two hexadecimal digits per byte. */
  function PercentEncode(bs: seq<Byte>): (r: string)
    ensures |r| == 3 * |bs|
    ensures forall i :: 0 <= i < |r| ==> IsEncodedChar(r[i])
    decreases |bs|
  {
    if bs == [] then []
    else ['%', HexDigit(bs[0] / 16), HexDigit(bs[0] % 16)] + PercentEncode(bs[1..])
  }

  /** How URLEncoder writes one character. */
  function EncodeChar(c: char): string {
    if IsUnreserved(c) then [c]
    else if c == ' ' then "+"
    else PercentEncode(Utf8(c))
  }

  /** URLEncoder.encode(s, StandardCharsets.UTF_8). */
  function FormEncode(s: string): string
    decreases |s|
  {
    if s == [] then [] else EncodeChar(s[0]) + FormEncode(s[1..])
  }

  /** Encoded text is made of unreserved characters, '+' and '%' only. */
  lemma {:induction false} FormEncodeAlphabet(s: string)
    ensures forall i :: 0 <= i < |FormEncode(s)| ==> IsEncodedChar(FormEncode(s)[i])
    decreases |s|
  {
    if s != [] {
      FormEncodeAlphabet(s[1..]);
      var h := EncodeChar(s[0]);
      var t := FormEncode(s[1..]);
      assert forall i :: |h| <= i < |h| + |t| ==> FormEncode(s)[i] == t[i - |h|];
    }
  }

  /** The value of a hexadecimal digit of either case. */
  function HexValue(c: char): Option<nat> {
    if '0' <= c <= '9' then Some((c as int) - ('0' as int))
    else if 'A' <= c <= 'F' then Some((c as int) - ('A' as int) + 10)
    else if 'a' <= c <= 'f' then Some((c as int) - ('a' as int) + 10)
    else None
  }

  /** The n bytes written as "%XX" groups at the start of s. */
  function PercentBytes(s: string, n: nat): (r: Option<seq<Byte>>)
    ensures r.Some? ==> |r.value| == n && 3 * n <= |s|
    decreases n
  {
    if n == 0 then Some([])
    else if |s| < 3 || s[0] != '%' then None
    else match (HexValue(s[1]), HexValue(s[2]))
      case (Some(hi), Some(lo)) =>
        if hi < 16 && lo < 16 then
          match PercentBytes(s[3..], n - 1)
          case Some(rest) => Some([hi * 16 + lo] + rest)
          case None => None
        else None
      case _ => None
  }

  /** The length of the UTF-8 sequence a lead byte opens, or 0 for a byte that opens none. */
  function Utf8Length(lead: Byte): nat {
    if lead < 0x80 then 1
    else if 0xC0 <= lead < 0xE0 then 2
    else if 0xE0 <= lead < 0xF0 then 3
    else if 0xF0 <= lead < 0xF8 then 4
    else 0
  }

  predicate IsContinuation(b: Byte) {
    0x80 <= b < 0xC0
  }

  /** The scalar value of a UTF-8 sequence whose lead byte announces its length. */
  function Utf8Decode(bs: seq<Byte>): (r: Option<char>)
    requires 1 <= |bs| <= 4
  {
    if Utf8Length(bs[0]) != |bs| || exists i :: 1 <= i < |bs| && !IsContinuation(bs[i]) then None
    else
      var b: seq<int> := bs;
      var cp :=
        if |b| == 1 then b[0]
        else if |b| == 2 then (b[0] - 0xC0) * 64 + (b[1] - 0x80)
        else if |b| == 3 then (b[0] - 0xE0) * 4096 + (b[1] - 0x80) * 64 + (b[2] - 0x80)
        else (b[0] - 0xF0) * 262144 + (b[1] - 0x80) * 4096 + (b[2] - 0x80) * 64 + (b[3] - 0x80);
      if (0 <= cp < 0xD800) || (0xE000 <= cp < 0x11_0000) then Some(cp as char) else None
  }

  /** Decoding form-encoded text: '+' is a space, "%XX" groups are UTF-8 bytes, and any
      other character stands for itself. None for text that no encoder could produce. */
  function FormDecode(s: string): (r: Option<string>)
    decreases |s|
  {
    if s == [] then Some([])
    else if s[0] == '+' then
      match FormDecode(s[1..]) case Some(t) => Some([' '] + t) case None => None
    else if s[0] != '%' then
      match FormDecode(s[1..]) case Some(t) => Some([s[0]] + t) case None => None
    else match PercentBytes(s, 1)
      case None => None
      case Some(lead) =>
        var n := Utf8Length(lead[0]);
        if n == 0 then None
        else match PercentBytes(s, n)
          case None => None
          case Some(bs) =>
            match Utf8Decode(bs)
            case None => None
            case Some(c) =>
              match FormDecode(s[3 * n..]) case Some(t) => Some([c] + t) case None => None
  }

  lemma HexRoundTrip(v: nat)
    requires v < 16
    ensures HexValue(HexDigit(v)) == Some(v)
  {
  }

  lemma {:induction false} PercentBytesOfEncoded(bs: seq<Byte>, rest: string, n: nat)
    requires n <= |bs|
    ensures PercentBytes(PercentEncode(bs) + rest, n) == Some(bs[..n])
    decreases n
  {
    if n > 0 {
      var s := PercentEncode(bs) + rest;
      HexRoundTrip(bs[0] / 16);
      HexRoundTrip(bs[0] % 16);
      assert s[3..] == PercentEncode(bs[1..]) + rest;
      PercentBytesOfEncoded(bs[1..], rest, n - 1);
      assert bs[..n] == [bs[0]] + bs[1..][..n - 1];
    }
  }

  /** A character below U+0800 written as two bytes reads back. */
  lemma Utf8TwoBytes(c: char)
    requires 0x80 <= c as int < 0x800
    ensures Utf8Decode(Utf8(c)) == Some(c)
  {
    var cp := c as int;
    assert cp == (cp / 64) * 64 + cp % 64;
    assert IsContinuation(Utf8(c)[1]);
  }

  /** A character below U+10000 written as three bytes reads back. */
  lemma Utf8ThreeBytes(c: char)
    requires 0x800 <= c as int < 0x1_0000
    ensures Utf8Decode(Utf8(c)) == Some(c)
  {
    var cp := c as int;
    var bs := Utf8(c);
    assert cp == (cp / 64) * 64 + cp % 64;
    assert cp / 64 == (cp / 4096) * 64 + (cp / 64) % 64;
    assert cp / 4096 < 16;
    assert IsContinuation(bs[1]) && IsContinuation(bs[2]);
  }

  /** A character from U+10000 on written as four bytes reads back. */
  lemma Utf8FourBytes(c: char)
    requires 0x1_0000 <= c as int
    ensures Utf8Decode(Utf8(c)) == Some(c)
  {
    var cp := c as int;
    var bs := Utf8(c);
    assert cp == (cp / 64) * 64 + cp % 64;
    assert cp / 64 == (cp / 4096) * 64 + (cp / 64) % 64;
    assert cp / 4096 == (cp / 262144) * 64 + (cp / 4096) % 64;
    assert cp / 262144 < 5;
    assert IsContinuation(bs[1]) && IsContinuation(bs[2]) && IsContinuation(bs[3]);
  }

  /** The lead byte announces the length of the sequence, and the sequence reads back
      as the character. */
  lemma Utf8RoundTrip(c: char)
    ensures Utf8Length(Utf8(c)[0]) == |Utf8(c)|
    ensures Utf8Decode(Utf8(c)) == Some(c)
  {
    var cp := c as int;
    if cp < 0x80 {
    } else if cp < 0x800 {
      Utf8TwoBytes(c);
    } else if cp < 0x1_0000 {
      Utf8ThreeBytes(c);
    } else {
      Utf8FourBytes(c);
    }
  }

  /** Decoding the encoding of one character yields that character and leaves the rest. */
  lemma DecodeEncodedChar(c: char, rest: string)
    ensures FormDecode(EncodeChar(c) + rest) ==
      (match FormDecode(rest) case Some(t) => Some([c] + t) case None => None)
  {
    var s := EncodeChar(c) + rest;
    if IsUnreserved(c) {
      assert s[0] == c && s[1..] == rest;
    } else if c == ' ' {
      assert s[0] == '+' && s[1..] == rest;
    } else {
      var bs := Utf8(c);
      Utf8RoundTrip(c);
      PercentBytesOfEncoded(bs, rest, 1);
      PercentBytesOfEncoded(bs, rest, |bs|);
      assert bs[..|bs|] == bs;
      assert bs[..1] == [bs[0]];
      assert s[0] == '%';
      assert s[3 * |bs|..] == rest;
    }
  }

  /** Decoding undoes URLEncoder.encode: distinct texts have distinct encodings. */
  lemma {:induction false} FormDecodeEncode(s: string)
    ensures FormDecode(FormEncode(s)) == Some(s)
    decreases |s|
  {
    if s != [] {
      FormDecodeEncode(s[1..]);
      DecodeEncodedChar(s[0], FormEncode(s[1..]));
      assert [s[0]] + s[1..] == s;
    }
  }

  /** One `key=value` pair with both halves encoded. */
  function Pair(p: (string, string)): string {
    FormEncode(p.0) + "=" + FormEncode(p.1)
  }

  /** The text of each pair, in order. */
  function PairTexts(ps: seq<(string, string)>): seq<string> {
    seq(|ps|, i requires 0 <= i < |ps| => Pair(ps[i]))
  }

  /** The pairs joined by '&', in order, as the query-string loop of the article request builds them. */
  function QueryString(ps: seq<(string, string)>): string {
    Join(PairTexts(ps), '&')
  }

  /** URLEncoder output never contains the characters that structure a query string. */
  lemma EncodedHasNoDelimiter(s: string)
    ensures '&' !in FormEncode(s) && '=' !in FormEncode(s) && '?' !in FormEncode(s)
  {
    FormEncodeAlphabet(s);
  }

  /** A pair ends with neither '?' nor '&', and holds no '&'. */
  lemma PairShape(p: (string, string))
    ensures |Pair(p)| >= 1 && Pair(p)[|Pair(p)| - 1] != '?'
    ensures '&' !in Pair(p)
  {
    EncodedHasNoDelimiter(p.0);
    EncodedHasNoDelimiter(p.1);
    var r := Pair(p);
    if FormEncode(p.1) != [] {
      assert r[|r| - 1] == FormEncode(p.1)[|FormEncode(p.1)| - 1];
    }
  }

  /** The '&'-separated pieces of a query string are its pairs, each of which splits at '='
      into the encoded key and the encoded value, and those decode to the original key and value. */
  lemma QueryStringPieces(ps: seq<(string, string)>)
    requires |ps| >= 1
    ensures Pieces(QueryString(ps), '&') == PairTexts(ps)
  {
    var ts := PairTexts(ps);
    forall i | 0 <= i < |ts|
      ensures '&' !in ts[i]
    {
      PairShape(ps[i]);
    }
    PiecesOfJoin(ts, '&');
  }

  /** Each pair reads back as its key and value. */
  lemma PairDecodes(p: (string, string))
    ensures |Pieces(Pair(p), '=')| == 2
    ensures FormDecode(Pieces(Pair(p), '=')[0]) == Some(p.0)
    ensures FormDecode(Pieces(Pair(p), '=')[1]) == Some(p.1)
  {
    EncodedHasNoDelimiter(p.0);
    EncodedHasNoDelimiter(p.1);
    PiecesAfterPlain(FormEncode(p.0), FormEncode(p.1), '=');
    PiecesOfPlain(FormEncode(p.1), '=');
    FormDecodeEncode(p.0);
    FormDecodeEncode(p.1);
  }

  /** Text made only of unreserved characters is encoded as itself. */
  lemma {:induction false} FormEncodeUnreserved(s: string)
    requires forall i :: 0 <= i < |s| ==> IsUnreserved(s[i])
    ensures FormEncode(s) == s
    decreases |s|
  {
    if s != [] {
      FormEncodeUnreserved(s[1..]);
      assert [s[0]] + s[1..] == s;
    }
  }

  /** The decimal text of an int is encoded as itself: digits and '-' are unreserved. */
  lemma IntTextEncodesAsItself(n: int)
    ensures FormEncode(IntToString(n)) == IntToString(n)
  {
    var t := IntToString(n);
    var digits := NatToString(if n < 0 then -n else n);
    assert forall i :: 0 <= i < |digits| ==> IsUnreserved(digits[i]);
    assert forall i :: 0 <= i < |t| ==> IsUnreserved(t[i]) by {
      if n < 0 {
        assert forall i :: 1 <= i < |t| ==> t[i] == digits[i - 1];
      }
    }
    FormEncodeUnreserved(t);
  }

  /** Reading one `key=value` piece back: exactly one '=' and two decodable halves. */
  function DecodePair(piece: string): Option<(string, string)> {
    var halves := Pieces(piece, '=');
    if |halves| != 2 then None
    else match (FormDecode(halves[0]), FormDecode(halves[1]))
      case (Some(k), Some(v)) => Some((k, v))
      case _ => None
  }

  /** Reading a query string back: one entry per '&'-separated piece, in order. */
  function DecodeQuery(q: string): (r: seq<Option<(string, string)>>)
    ensures |r| == |Pieces(q, '&')|
  {
    var ps := Pieces(q, '&');
    seq(|ps|, i requires 0 <= i < |ps| => DecodePair(ps[i]))
  }

  /** Reading a query string back yields the pairs it was built from, in order. */
  lemma DecodeQueryString(ps: seq<(string, string)>)
    requires |ps| >= 1
    ensures DecodeQuery(QueryString(ps)) == seq(|ps|, i requires 0 <= i < |ps| => Some(ps[i]))
  {
    QueryStringPieces(ps);
    forall i | 0 <= i < |ps|
      ensures DecodePair(Pair(ps[i])) == Some(ps[i])
    {
      PairDecodes(ps[i]);
    }
  }
}
