/**
 The YouTube search link shown under each recommendation
 (recommend_music.py:109-111): the title and the artist joined by a space,
 encoded by `urllib.parse.quote_plus`, after a fixed search URL.

 `quote_plus` encodes the text as UTF-8 and writes each byte as itself when
 it is an ASCII letter or digit or one of `_ . - ~`, as "+" when it is a
 space, and as "%XX" (two upper-case hex digits) otherwise. The partner
 definitions are the decoding side: `UnquotePlusBytes` (what
 `unquote_plus` does before decoding) and `DecodeUtf8`.
 */
module SearchLink {
  import opened Wrappers
  import opened SeqFacts

  newtype byte = x: int | 0 <= x < 256

  const SearchPrefix: string := "https://www.youtube.com/results?search_query="

  /** The characters `quote_plus` never escapes. */
  predicate Unreserved(c: char) {
    ('A' <= c <= 'Z') || ('a' <= c <= 'z') || ('0' <= c <= '9') || c == '_' || c == '.' || c == '-' || c == '~'
  }

  // UTF-8

  predicate IsContinuation(b: byte) {
    0x80 <= b < 0xC0
  }

  /** The UTF-8 encoding of one character: one to four bytes. */
  function Utf8(c: char): (r: seq<byte>)
    ensures 1 <= |r| <= 4
    ensures |r| == 1 <==> (c as int) < 0x80
    ensures |r| == 1 ==> r[0] as int == c as int
    ensures forall i :: 1 <= i < |r| ==> IsContinuation(r[i])
  {
    var n := c as int;
    var q1 := n / 64;
    var q2 := q1 / 64;
    var q3 := q2 / 64;
    if n < 0x80 then
      [n as byte]
    else if n < 0x800 then
      [(0xC0 + q1) as byte, (0x80 + n % 64) as byte]
    else if n < 0x10000 then
      [(0xE0 + q2) as byte, (0x80 + q1 % 64) as byte, (0x80 + n % 64) as byte]
    else
      [(0xF0 + q3) as byte, (0x80 + q2 % 64) as byte, (0x80 + q1 % 64) as byte, (0x80 + n % 64) as byte]
  }

  /** `s.encode('utf-8')`. */
  function Utf8String(s: string): (r: seq<byte>)
    ensures |s| <= |r| <= 4 * |s|
  {
    if s == [] then [] else Utf8(s[0]) + Utf8String(s[1..])
  }

  /** The low six bits a continuation byte carries. */
  function Payload(b: byte): (v: int)
    requires IsContinuation(b)
    ensures 0 <= v < 64
  {
    b as int - 0x80
  }

  /**
   The first character encoded at the start of `bs`, with the number of
   bytes it takes; `None` when the bytes there are not well-formed UTF-8
   (a stray continuation byte, a truncated sequence, an overlong form, a
   surrogate, or a value past U+10FFFF).
   */
  function DecodeFirst(bs: seq<byte>): (r: Option<(char, nat)>)
    requires bs != []
    ensures r.Some? ==> 1 <= r.value.1 <= |bs|
  {
    var b0 := bs[0] as int;
    if b0 < 0x80 then
      Some((b0 as char, 1))
    else if 0xC0 <= b0 < 0xE0 && |bs| >= 2 && IsContinuation(bs[1]) then
      var n := (b0 - 0xC0) * 64 + Payload(bs[1]);
      if 0x80 <= n then Some((n as char, 2)) else None
    else if 0xE0 <= b0 < 0xF0 && |bs| >= 3 && IsContinuation(bs[1]) && IsContinuation(bs[2]) then
      var n := ((b0 - 0xE0) * 64 + Payload(bs[1])) * 64 + Payload(bs[2]);
      if 0x800 <= n && !(0xD800 <= n < 0xE000) then Some((n as char, 3)) else None
    else if 0xF0 <= b0 < 0xF8 && |bs| >= 4 && IsContinuation(bs[1]) && IsContinuation(bs[2]) && IsContinuation(bs[3]) then
      var n := (((b0 - 0xF0) * 64 + Payload(bs[1])) * 64 + Payload(bs[2])) * 64 + Payload(bs[3]);
      if 0x10000 <= n < 0x110000 then Some((n as char, 4)) else None
    else
      None
  }

  /** Strict UTF-8 decoding: the text, or `None` if the bytes are not well-formed. */
  function DecodeUtf8(bs: seq<byte>): (r: Option<string>)
    decreases |bs|
    ensures r.Some? ==> |r.value| <= |bs|
  {
    if bs == [] then
      Some([])
    else
      match DecodeFirst(bs)
      case None => None
      case Some((c, k)) =>
        match DecodeUtf8(bs[k..])
        case None => None
        case Some(rest) => Some([c] + rest)
  }

  /** Division by 64 taken twice is division by 4096. */
  lemma {:induction false} DivTwice(n: int)
    requires 0 <= n
    ensures n / 64 / 64 == n / 4096
    ensures (n / 4096) * 4096 + ((n / 64) % 64) * 64 + n % 64 == n
  {
    var q1 := n / 64;
    var q2 := q1 / 64;
    assert n == 64 * q1 + n % 64;
    assert q1 == 64 * q2 + q1 % 64;
    assert n == 4096 * q2 + 64 * (q1 % 64) + n % 64;
  }

  /** Each character's bytes decode back to that character, whatever follows. */
  lemma {:induction false} DecodeFirstUtf8(c: char, rest: seq<byte>)
    ensures DecodeFirst(Utf8(c) + rest) == Some((c, |Utf8(c)|))
  {
    var n := c as int;
    if n < 0x80 {
      assert (Utf8(c) + rest)[0] == n as byte;
    } else if n < 0x800 {
      DecodeTwo(c, rest);
    } else if n < 0x10000 {
      DecodeThree(c, rest);
    } else {
      DecodeFour(c, rest);
    }
  }

  lemma {:induction false} DecodeTwo(c: char, rest: seq<byte>)
    requires 0x80 <= c as int < 0x800
    ensures DecodeFirst(Utf8(c) + rest) == Some((c, 2))
  {
    var n := c as int;
    var bs := Utf8(c) + rest;
    assert n == 64 * (n / 64) + n % 64;
    assert bs[0] as int == 0xC0 + n / 64 && Payload(bs[1]) == n % 64;
  }

  lemma {:induction false} DecodeThree(c: char, rest: seq<byte>)
    requires 0x800 <= c as int < 0x10000
    ensures DecodeFirst(Utf8(c) + rest) == Some((c, 3))
  {
    var n := c as int;
    var bs := Utf8(c) + rest;
    var q1 := n / 64;
    DivTwice(n);
    assert bs[0] as int == 0xE0 + q1 / 64 && Payload(bs[1]) == q1 % 64 && Payload(bs[2]) == n % 64;
  }

  lemma {:induction false} DecodeFour(c: char, rest: seq<byte>)
    requires 0x10000 <= c as int
    ensures DecodeFirst(Utf8(c) + rest) == Some((c, 4))
  {
    var n := c as int;
    var bs := Utf8(c) + rest;
    var q1 := n / 64;
    var q2 := q1 / 64;
    DivTwice(n);
    DivTwice(q1);
    assert bs[0] as int == 0xF0 + q2 / 64;
    assert Payload(bs[1]) == q2 % 64 && Payload(bs[2]) == q1 % 64 && Payload(bs[3]) == n % 64;
    assert q2 == 64 * (q2 / 64) + q2 % 64;
  }

  /** Decoding undoes encoding. */
  lemma {:induction false} Utf8RoundTrip(s: string)
    ensures DecodeUtf8(Utf8String(s)) == Some(s)
  {
    if s != [] {
      var bs := Utf8String(s);
      var k := |Utf8(s[0])|;
      DecodeFirstUtf8(s[0], Utf8String(s[1..]));
      assert bs[k..] == Utf8String(s[1..]);
      Utf8RoundTrip(s[1..]);
      assert [s[0]] + s[1..] == s;
    }
  }

  /** Encoding is injective: different texts give different bytes. */
  lemma {:induction false} Utf8Injective(s: string, t: string)
    requires Utf8String(s) == Utf8String(t)
    ensures s == t
  {
    Utf8RoundTrip(s);
    Utf8RoundTrip(t);
  }

  // quote_plus and its inverse

  /** The hex digit for `d`, upper case as `quote_plus` writes it. */
  function HexDigit(d: int): (c: char)
    requires 0 <= d < 16
    ensures '0' <= c <= '9' || 'A' <= c <= 'F'
  {
    if d < 10 then (48 + d) as char else (55 + d) as char
  }

  predicate IsHexDigit(c: char) {
    ('0' <= c <= '9') || ('A' <= c <= 'F') || ('a' <= c <= 'f')
  }

  function HexValue(c: char): (d: int)
    requires IsHexDigit(c)
    ensures 0 <= d < 16
  {
    if c <= '9' then c as int - 48 else if c <= 'F' then c as int - 55 else c as int - 87
  }

  /** `%XX` for each byte. */
  function PercentBytes(bs: seq<byte>): (r: string)
    ensures |r| == 3 * |bs|
  {
    if bs == [] then [] else ['%', HexDigit(bs[0] as int / 16), HexDigit(bs[0] as int % 16)] + PercentBytes(bs[1..])
  }

  /** What `quote_plus` writes for one character. */
  function QuoteChar(c: char): (r: string)
    ensures 1 <= |r| <= 12
  {
    if Unreserved(c) then [c] else if c == ' ' then "+" else PercentBytes(Utf8(c))
  }

  /** The characters that may appear in `quote_plus` output. */
  predicate FormSafe(c: char) {
    Unreserved(c) || c == '+' || c == '%'
  }

  lemma {:induction false} PercentBytesSafe(bs: seq<byte>)
    ensures forall i :: 0 <= i < |PercentBytes(bs)| ==> FormSafe(PercentBytes(bs)[i])
  {
    if bs != [] {
      PercentBytesSafe(bs[1..]);
    }
  }

  lemma {:induction false} QuoteCharSafe(c: char)
    ensures forall i :: 0 <= i < |QuoteChar(c)| ==> FormSafe(QuoteChar(c)[i])
  {
    if !Unreserved(c) && c != ' ' {
      PercentBytesSafe(Utf8(c));
    }
  }

  predicate IsUpperHexDigit(c: char) {
    ('0' <= c <= '9') || ('A' <= c <= 'F')
  }

  /** Every "%" in `r` starts an escape written with two upper-case hex digits. */
  ghost predicate UpperEscapes(r: string) {
    forall i :: 0 <= i < |r| && r[i] == '%' ==>
      i + 2 < |r| && IsUpperHexDigit(r[i + 1]) && IsUpperHexDigit(r[i + 2])
  }

  lemma {:induction false} UpperEscapesAppend(a: string, b: string)
    requires UpperEscapes(a) && UpperEscapes(b)
    ensures UpperEscapes(a + b)
  {
    forall i | 0 <= i < |a + b| && (a + b)[i] == '%'
      ensures i + 2 < |a + b| && IsUpperHexDigit((a + b)[i + 1]) && IsUpperHexDigit((a + b)[i + 2])
    {
      if i < |a| {
        assert a[i] == '%';
      } else {
        assert b[i - |a|] == '%';
      }
    }
  }

  lemma {:induction false} PercentBytesUpper(bs: seq<byte>)
    ensures UpperEscapes(PercentBytes(bs))
  {
    if bs != [] {
      var h := ['%', HexDigit(bs[0] as int / 16), HexDigit(bs[0] as int % 16)];
      assert UpperEscapes(h) by {
        forall i | 0 <= i < 3 && h[i] == '%' ensures i == 0 {
        }
      }
      PercentBytesUpper(bs[1..]);
      UpperEscapesAppend(h, PercentBytes(bs[1..]));
    }
  }

  /** Every "%" in the output of `quote_plus` is followed by two upper-case hex digits. */
  lemma {:induction false} QuotePlusUpperEscapes(s: string)
    ensures UpperEscapes(QuotePlus(s))
  {
    if s != [] {
      var c := s[0];
      if !Unreserved(c) && c != ' ' {
        PercentBytesUpper(Utf8(c));
      }
      QuotePlusUpperEscapes(s[1..]);
      UpperEscapesAppend(QuoteChar(c), QuotePlus(s[1..]));
    }
  }

  /** `urllib.parse.quote_plus(s)` with the default `safe`, encoding and error handling. */
  function QuotePlus(s: string): (r: string)
    ensures |s| <= |r|
    ensures forall i :: 0 <= i < |r| ==> FormSafe(r[i])
  {
    if s == [] then
      []
    else
      QuoteCharSafe(s[0]);
      QuoteChar(s[0]) + QuotePlus(s[1..])
  }

  /**
   `unquote_plus` up to its final decoding step: "+" becomes a space, "%"
   followed by two hex digits (either case) becomes that byte, and any
   other character, a lone "%" included, stands for its own UTF-8 bytes.
   */
  function UnquotePlusBytes(q: string): (r: seq<byte>)
  {
    if q == [] then
      []
    else if q[0] == '+' then
      [32 as byte] + UnquotePlusBytes(q[1..])
    else if q[0] == '%' && |q| >= 3 && IsHexDigit(q[1]) && IsHexDigit(q[2]) then
      [(HexValue(q[1]) * 16 + HexValue(q[2])) as byte] + UnquotePlusBytes(q[3..])
    else
      Utf8(q[0]) + UnquotePlusBytes(q[1..])
  }

  lemma {:induction false} HexRoundTrip(d: int)
    requires 0 <= d < 16
    ensures IsHexDigit(HexDigit(d)) && HexValue(HexDigit(d)) == d
  {
  }

  /** One `%XX` escape decodes to its byte. */
  lemma {:induction false} UnquoteEscape(q: string, b: byte)
    requires |q| >= 3 && q[..3] == ['%', HexDigit(b as int / 16), HexDigit(b as int % 16)]
    ensures UnquotePlusBytes(q) == [b] + UnquotePlusBytes(q[3..])
  {
    var hi, lo := b as int / 16, b as int % 16;
    HexRoundTrip(hi);
    HexRoundTrip(lo);
    assert q[0] == '%' && q[1] == HexDigit(hi) && q[2] == HexDigit(lo) by {
      assert q[0] == q[..3][0] && q[1] == q[..3][1] && q[2] == q[..3][2];
    }
  }

  lemma {:induction false} UnquotePercentBytes(bs: seq<byte>, rest: string)
    ensures UnquotePlusBytes(PercentBytes(bs) + rest) == bs + UnquotePlusBytes(rest)
  {
    if bs != [] {
      var b := bs[0];
      var h := ['%', HexDigit(b as int / 16), HexDigit(b as int % 16)];
      var q := h + PercentBytes(bs[1..]) + rest;
      AfterThree(h, PercentBytes(bs[1..]), rest);
      UnquoteEscape(q, b);
      UnquotePercentBytes(bs[1..], rest);
      ConsAppend(bs, UnquotePlusBytes(rest));
    } else {
      assert PercentBytes(bs) + rest == rest;
    }
  }

  lemma {:induction false} UnquoteQuoteChar(c: char, rest: string)
    ensures UnquotePlusBytes(QuoteChar(c) + rest) == Utf8(c) + UnquotePlusBytes(rest)
  {
    var q := QuoteChar(c) + rest;
    if Unreserved(c) {
      assert q[0] == c && q[1..] == rest;
    } else if c == ' ' {
      assert q[0] == '+' && q[1..] == rest;
    } else {
      UnquotePercentBytes(Utf8(c), rest);
    }
  }

  /** Undoing the `%XX` and "+" escapes gives back the UTF-8 bytes of the text. */
  lemma {:induction false} UnquoteQuotePlus(s: string)
    ensures UnquotePlusBytes(QuotePlus(s)) == Utf8String(s)
  {
    if s != [] {
      UnquoteQuoteChar(s[0], QuotePlus(s[1..]));
      UnquoteQuotePlus(s[1..]);
    }
  }

  /** Letters, digits and `_ . - ~` pass through `quote_plus` unchanged. */
  lemma {:induction false} QuotePlusKeepsPlain(s: string)
    requires forall i :: 0 <= i < |s| ==> Unreserved(s[i])
    ensures QuotePlus(s) == s
  {
    if s != [] {
      QuotePlusKeepsPlain(s[1..]);
      assert [s[0]] + s[1..] == s;
    }
  }

  /** A space becomes "+". */
  lemma {:induction false} QuotePlusSpace()
    ensures QuotePlus(" ") == "+"
  {
    assert " "[1..] == [];
  }

  /** `quote_plus` works character by character: the encoding of a concatenation is the concatenation of the encodings. */
  lemma {:induction false} QuotePlusAppend(s: string, t: string)
    ensures QuotePlus(s + t) == QuotePlus(s) + QuotePlus(t)
  {
    if s == [] {
      assert s + t == t;
    } else {
      var c, rest := s[0], s[1..];
      HeadOfAppend(s, t);
      QuotePlusAppend(rest, t);
      calc {
        QuotePlus(s + t);
        QuoteChar(c) + QuotePlus(rest + t);
        QuoteChar(c) + (QuotePlus(rest) + QuotePlus(t));
        { AppendAssoc(QuoteChar(c), QuotePlus(rest), QuotePlus(t)); }
        QuoteChar(c) + QuotePlus(rest) + QuotePlus(t);
      }
    }
  }

  /** The search text: `f"{title} {artist}"`. */
  function Query(title: string, artist: string): (q: string)
    ensures |q| == |title| + |artist| + 1 && q[|title|] == ' '
    ensures q[..|title|] == title && q[|title| + 1..] == artist
  {
    title + " " + artist
  }

  /**
   The link: the fixed search URL followed by the encoded search text. The
   encoded part holds no space, "&", "#", "=" or "?", so it stays one query
   parameter, and decoding it gives the search text back.
   */
  function SearchUrl(title: string, artist: string): (url: string)
    ensures |url| >= |SearchPrefix| && url[..|SearchPrefix|] == SearchPrefix
    ensures forall i :: |SearchPrefix| <= i < |url| ==> FormSafe(url[i])
    ensures DecodeUtf8(UnquotePlusBytes(url[|SearchPrefix|..])) == Some(Query(title, artist))
  {
    var encoded := QuotePlus(Query(title, artist));
    UnquoteQuotePlus(Query(title, artist));
    Utf8RoundTrip(Query(title, artist));
    var url := SearchPrefix + encoded;
    assert url[|SearchPrefix|..] == encoded;
    url
  }

  /** The link is the search URL, the encoded title, "+" for the joining space, and the encoded artist. */
  lemma {:induction false} SearchUrlParts(title: string, artist: string)
    ensures SearchUrl(title, artist) == SearchPrefix + QuotePlus(title) + "+" + QuotePlus(artist)
  {
    var q := Query(title, artist);
    assert SearchUrl(title, artist) == SearchPrefix + QuotePlus(q);
    QuotePlusAppend(title + " ", artist);
    QuotePlusAppend(title, " ");
    QuotePlusSpace();
    calc {
      SearchPrefix + QuotePlus(q);
      SearchPrefix + (QuotePlus(title) + "+" + QuotePlus(artist));
      { AppendAssoc(SearchPrefix, QuotePlus(title) + "+", QuotePlus(artist));
        AppendAssoc(SearchPrefix, QuotePlus(title), "+"); }
      SearchPrefix + QuotePlus(title) + "+" + QuotePlus(artist);
    }
  }

  /** Distinct searches give distinct links. */
  lemma {:induction false} SearchUrlInjective(t1: string, a1: string, t2: string, a2: string)
    requires SearchUrl(t1, a1) == SearchUrl(t2, a2)
    ensures Query(t1, a1) == Query(t2, a2)
  {
  }

  /**
   The link does not tell the title from the artist: moving a word across
   the joining space gives the same link.
   */
  lemma {:induction false} QueryAmbiguous(title: string, word: string, artist: string)
    ensures SearchUrl(title + " " + word, artist) == SearchUrl(title, word + " " + artist)
  {
    assert Query(title + " " + word, artist) == Query(title, word + " " + artist);
  }

  /** None of the separators that would end or split the query parameter survives encoding. */
  lemma {:induction false} FormSafeExcludes(c: char)
    requires FormSafe(c)
    ensures c != ' ' && c != '&' && c != '#' && c != '=' && c != '?'
  {
  }
}
