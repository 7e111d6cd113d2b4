/** Python's `urllib.parse.quote_plus` as `build_url` calls it, with the
    defaults `safe=''`, `encoding='utf-8'`: the text is encoded as UTF-8;
    each byte of the unreserved set of RFC 3986 section 2.3 (ALPHA, DIGIT,
    `-`, `.`, `_`, `~`) stays as it is, the space byte becomes `+`, and every
    other byte becomes `%` and two upper-case hex digits (RFC 3986 section
    2.1). The decoder beside it (`UnquotePlus`) is the inverse that shows no
    information is lost. */
module UrlQuote {
  import opened Wrappers
  import opened Text

  newtype byte = x: int | 0 <= x < 256

  /** The characters that `quote_plus` never escapes. */
  predicate IsUnreserved(c: char)
  {
    || 'A' <= c <= 'Z' || 'a' <= c <= 'z' || '0' <= c <= '9'
    || c == '-' || c == '.' || c == '_' || c == '~'
  }

  /** The characters an encoded query may contain. */
  predicate IsEncodedChar(c: char)
  {
    IsUnreserved(c) || c == '+' || c == '%'
  }

  predicate IsScalar(n: int)
  {
    0 <= n < 0xD800 || 0xE000 <= n < 0x11_0000
  }

  predicate IsContinuation(b: byte)
  {
    0x80 <= b < 0xC0
  }

  /** UTF-8 encoding of one Unicode scalar value (RFC 3629 section 3). */
  function Utf8(c: char): (bs: seq<byte>)
    ensures 1 <= |bs| <= 4
    ensures |bs| == 1 <==> c as int < 0x80
    ensures |bs| == 1 ==> bs[0] as int == c as int
    ensures |bs| > 1 ==> forall i :: 0 <= i < |bs| ==> bs[i] >= 0x80
  {
    var n := c as int;
    if n < 0x80 then [n as byte]
    else if n < 0x800 then [(0xC0 + n / 64) as byte, (0x80 + n % 64) as byte]
    else if n < 0x1_0000 then
      [(0xE0 + n / 4096) as byte, (0x80 + n / 64 % 64) as byte, (0x80 + n % 64) as byte]
    else
      [(0xF0 + n / 262144) as byte, (0x80 + n / 4096 % 64) as byte,
       (0x80 + n / 64 % 64) as byte, (0x80 + n % 64) as byte]
  }

  /** `s.encode('utf-8')`: the characters' encodings one after the other. */
  function Utf8Encode(s: string): (bs: seq<byte>)
    ensures |bs| >= |s|
    ensures bs == [] <==> s == []
  {
    if s == [] then [] else Utf8(s[0]) + Utf8Encode(s[1..])
  }

  /** How many bytes a UTF-8 sequence starting with `b` has; 0 when `b`
      cannot start one. */
  function Width(b: byte): nat
  {
    if b < 0x80 then 1
    else if 0xC2 <= b < 0xE0 then 2
    else if 0xE0 <= b < 0xF0 then 3
    else if 0xF0 <= b < 0xF5 then 4
    else 0
  }

  /** The scalar value a well-formed UTF-8 sequence of one to four bytes
      stands for, rejecting truncated, overlong and surrogate forms. */
  function DecodeChar(w: seq<byte>): Option<char>
  {
    if |w| == 0 || Width(w[0]) != |w| then None
    else if |w| == 1 then Some(w[0] as int as char)
    else if exists i :: 1 <= i < |w| && !IsContinuation(w[i]) then None
    else
      var n :=
        if |w| == 2 then (w[0] as int - 0xC0) * 64 + (w[1] as int - 0x80)
        else if |w| == 3 then
          (w[0] as int - 0xE0) * 4096 + (w[1] as int - 0x80) * 64 + (w[2] as int - 0x80)
        else
          (w[0] as int - 0xF0) * 262144 + (w[1] as int - 0x80) * 4096
          + (w[2] as int - 0x80) * 64 + (w[3] as int - 0x80);
      var least := if |w| == 2 then 0x80 else if |w| == 3 then 0x800 else 0x1_0000;
      if least <= n && IsScalar(n) then Some(n as char) else None
  }

  /** `bs.decode('utf-8')`, failing on malformed input. */
  function Utf8Decode(bs: seq<byte>): Option<string>
    decreases |bs|
  {
    if bs == [] then Some([])
    else
      var n := Width(bs[0]);
      if n == 0 || |bs| < n then None
      else
        match DecodeChar(bs[..n])
        case None => None
        case Some(c) =>
          match Utf8Decode(bs[n..])
          case None => None
          case Some(rest) => Some([c] + rest)
  }

  /** The upper-case hex digit of `d`. */
  function HexDigit(d: int): (c: char)
    requires 0 <= d < 16
    ensures IsUnreserved(c)
    ensures HexValue(c) == Some(d)
  {
    if d < 10 then ('0' as int + d) as char else ('A' as int + d - 10) as char
  }

  /** The value of a hex digit of either case. */
  function HexValue(c: char): (v: Option<int>)
    ensures v.Some? ==> 0 <= v.value < 16
  {
    if '0' <= c <= '9' then Some(c as int - '0' as int)
    else if 'A' <= c <= 'F' then Some(c as int - 'A' as int + 10)
    else if 'a' <= c <= 'f' then Some(c as int - 'a' as int + 10)
    else None
  }

  /** What `quote_plus` writes for one byte. */
  function QuoteByte(b: byte): (e: string)
    ensures e == "+" <==> b == 0x20
    ensures |e| == 1 <==> b == 0x20 || (b < 0x80 && IsUnreserved(b as int as char))
    ensures |e| == 1 || |e| == 3
    ensures forall k :: 0 <= k < |e| ==> IsEncodedChar(e[k])
    ensures |e| == 3 ==> e[0] == '%'
  {
    if b < 0x80 && IsUnreserved(b as int as char) then [b as int as char]
    else if b == 0x20 then "+"
    else ['%', HexDigit(b as int / 16), HexDigit(b as int % 16)]
  }

  /** The byte-level escaping of `quote_plus`. */
  function Quote(bs: seq<byte>): string
  {
    if bs == [] then [] else QuoteByte(bs[0]) + Quote(bs[1..])
  }

  /** `quote_plus(s)` with Python's default arguments. */
  function QuotePlus(s: string): string
  {
    Quote(Utf8Encode(s))
  }

  /** Percent-decoding of a form-encoded string, as `unquote_plus` does it:
      `+` is a space byte, `%` with two hex digits is that byte, a `%`
      without them stands for itself, any other character for its UTF-8
      bytes. */
  function Unquote(e: string): seq<byte>
  {
    if e == [] then []
    else if e[0] == '+' then [0x20] + Unquote(e[1..])
    else if e[0] == '%' && |e| >= 3 && HexValue(e[1]).Some? && HexValue(e[2]).Some? then
      [(HexValue(e[1]).value * 16 + HexValue(e[2]).value) as byte] + Unquote(e[3..])
    else Utf8(e[0]) + Unquote(e[1..])
  }

  /** `unquote_plus(e)`, failing where the decoded bytes are not UTF-8. */
  function UnquotePlus(e: string): Option<string>
  {
    Utf8Decode(Unquote(e))
  }

  /** The shape of `quote_plus` output: unreserved characters, `+`, and
      `%` followed by two upper-case hex digits, nothing else. */
  predicate IsFormEncoded(e: string)
    decreases |e|
  {
    || e == []
    || ((IsUnreserved(e[0]) || e[0] == '+') && IsFormEncoded(e[1..]))
    || (|e| >= 3 && e[0] == '%' && IsUpperHex(e[1]) && IsUpperHex(e[2]) && IsFormEncoded(e[3..]))
  }

  predicate IsUpperHex(c: char)
  {
    '0' <= c <= '9' || 'A' <= c <= 'F'
  }

  lemma QuoteByteDecodes(b: byte, rest: string)
    ensures Unquote(QuoteByte(b) + rest) == [b] + Unquote(rest)
  {
    var e := QuoteByte(b) + rest;
    if b < 0x80 && IsUnreserved(b as int as char) {
      assert e[0] == b as int as char && e[1..] == rest;
    } else if b == 0x20 {
      assert e[0] == '+' && e[1..] == rest;
    } else {
      assert e[0] == '%' && e[1] == HexDigit(b as int / 16) && e[2] == HexDigit(b as int % 16);
      assert e[3..] == rest;
    }
  }

  /** Percent-decoding undoes the byte-level escaping. */
  lemma {:induction false} UnquoteQuote(bs: seq<byte>)
    ensures Unquote(Quote(bs)) == bs
    decreases |bs|
  {
    if bs != [] {
      QuoteByteDecodes(bs[0], Quote(bs[1..]));
      UnquoteQuote(bs[1..]);
    }
  }

  lemma TwoByteDecodes(n: int)
    requires 0x80 <= n < 0x800
    ensures (0xC0 + n / 64 - 0xC0) * 64 + (0x80 + n % 64 - 0x80) == n
  {
  }

  lemma ThreeByteDecodes(n: int)
    requires 0x800 <= n < 0x1_0000
    ensures (n / 4096) * 4096 + (n / 64 % 64) * 64 + n % 64 == n
  {
    var a, r := n / 4096, n % 4096;
    assert n == a * 4096 + r;
    assert n / 64 == a * 64 + r / 64;
    assert n / 64 % 64 == r / 64;
    assert n % 64 == r % 64;
  }

  lemma FourByteDecodes(n: int)
    requires 0x1_0000 <= n < 0x11_0000
    ensures (n / 262144) * 262144 + (n / 4096 % 64) * 4096 + (n / 64 % 64) * 64 + n % 64 == n
  {
    var a, r := n / 262144, n % 262144;
    assert n == a * 262144 + r;
    assert n / 4096 == a * 64 + r / 4096;
    assert n / 4096 % 64 == r / 4096;
    assert n / 64 == a * 4096 + r / 64;
    assert n / 64 % 64 == r / 64 % 64;
    assert n % 64 == r % 64;
    ThreeByteDecodes'(r);
  }

  lemma ThreeByteDecodes'(r: int)
    requires 0 <= r < 262144
    ensures (r / 4096) * 4096 + (r / 64 % 64) * 64 + r % 64 == r
  {
    var a, q := r / 4096, r % 4096;
    assert r == a * 4096 + q;
    assert r / 64 == a * 64 + q / 64;
    assert r / 64 % 64 == q / 64;
    assert r % 64 == q % 64;
  }

  /** Decoding the UTF-8 encoding of one character gives that character back. */
  lemma DecodeCharUtf8(c: char)
    ensures Width(Utf8(c)[0]) == |Utf8(c)|
    ensures DecodeChar(Utf8(c)) == Some(c)
  {
    var n := c as int;
    var w := Utf8(c);
    if n < 0x80 {
    } else if n < 0x800 {
      TwoByteDecodes(n);
    } else if n < 0x1_0000 {
      ThreeByteDecodes(n);
    } else {
      FourByteDecodes(n);
    }
    assert forall i :: 1 <= i < |w| ==> IsContinuation(w[i]);
  }

  /** UTF-8 decoding undoes UTF-8 encoding. */
  lemma {:induction false} Utf8RoundTrip(s: string)
    ensures Utf8Decode(Utf8Encode(s)) == Some(s)
    decreases |s|
  {
    if s != [] {
      var w := Utf8(s[0]);
      var bs := Utf8Encode(s);
      DecodeCharUtf8(s[0]);
      assert bs[0] == w[0];
      assert bs[..|w|] == w;
      assert bs[|w|..] == Utf8Encode(s[1..]);
      Utf8RoundTrip(s[1..]);
      assert s == [s[0]] + s[1..];
    }
  }

  /** `unquote_plus(quote_plus(s)) == s`: the encoded query loses nothing. */
  lemma QuotePlusRoundTrip(s: string)
    ensures UnquotePlus(QuotePlus(s)) == Some(s)
  {
    UnquoteQuote(Utf8Encode(s));
    Utf8RoundTrip(s);
  }

  /** Different queries never encode alike. */
  lemma QuotePlusInjective(s: string, t: string)
    requires QuotePlus(s) == QuotePlus(t)
    ensures s == t
  {
    QuotePlusRoundTrip(s);
    QuotePlusRoundTrip(t);
  }

  lemma {:induction false} FormEncodedAppend(a: string, b: string)
    requires IsFormEncoded(a) && IsFormEncoded(b)
    ensures IsFormEncoded(a + b)
    decreases |a|
  {
    var e := a + b;
    if a == [] {
      assert e == b;
    } else if (IsUnreserved(a[0]) || a[0] == '+') && IsFormEncoded(a[1..]) {
      FormEncodedAppend(a[1..], b);
      assert e[0] == a[0] && e[1..] == a[1..] + b;
    } else {
      assert |a| >= 3 && a[0] == '%' && IsUpperHex(a[1]) && IsUpperHex(a[2]) && IsFormEncoded(a[3..]);
      FormEncodedAppend(a[3..], b);
      assert e[..3] == a[..3] && e[3..] == a[3..] + b;
    }
  }

  lemma {:induction false} QuoteIsFormEncoded(bs: seq<byte>)
    ensures IsFormEncoded(Quote(bs))
    decreases |bs|
  {
    if bs != [] {
      var e := QuoteByte(bs[0]);
      if |e| == 1 {
        assert e[1..] == [];
      } else {
        assert IsUpperHex(e[1]) && IsUpperHex(e[2]);
        assert e[3..] == [];
      }
      QuoteIsFormEncoded(bs[1..]);
      FormEncodedAppend(e, Quote(bs[1..]));
    }
  }

  /** Form-encoded text holds no whitespace at all, the space least of all. */
  lemma {:induction false} FormEncodedHasNoSpace(e: string)
    requires IsFormEncoded(e)
    ensures NoSpace(e)
    decreases |e|
  {
    if e != [] {
      if (IsUnreserved(e[0]) || e[0] == '+') && IsFormEncoded(e[1..]) {
        FormEncodedHasNoSpace(e[1..]);
        assert forall k :: 1 <= k < |e| ==> e[k] == e[1..][k - 1];
      } else {
        FormEncodedHasNoSpace(e[3..]);
        assert forall k :: 3 <= k < |e| ==> e[k] == e[3..][k - 3];
      }
    }
  }

  /** `quote_plus` output has the form-encoded shape and no whitespace. */
  lemma QuotePlusShape(s: string)
    ensures IsFormEncoded(QuotePlus(s))
    ensures NoSpace(QuotePlus(s))
  {
    QuoteIsFormEncoded(Utf8Encode(s));
    FormEncodedHasNoSpace(QuotePlus(s));
  }

  lemma {:induction false} QuoteLength(bs: seq<byte>)
    ensures |Quote(bs)| >= |bs|
    ensures Quote(bs) == [] <==> bs == []
    decreases |bs|
  {
    if bs != [] {
      QuoteLength(bs[1..]);
    }
  }

  /** The encoding is never shorter than the query, and empty exactly for
      the empty query. */
  lemma QuotePlusLength(s: string)
    ensures |QuotePlus(s)| >= |s|
    ensures QuotePlus(s) == [] <==> s == []
  {
    QuoteLength(Utf8Encode(s));
  }

  /** A query made only of unreserved characters is left as it is. */
  lemma {:induction false} QuotePlusKeepsUnreserved(s: string)
    requires forall k :: 0 <= k < |s| ==> IsUnreserved(s[k])
    ensures QuotePlus(s) == s
    decreases |s|
  {
    if s != [] {
      var c := s[0];
      assert Utf8(c) == [c as int as byte];
      assert Utf8Encode(s) == [c as int as byte] + Utf8Encode(s[1..]);
      assert QuoteByte(c as int as byte) == [c];
      QuotePlusKeepsUnreserved(s[1..]);
      assert s == [c] + s[1..];
    }
  }

  /** Two words of unreserved characters joined by a space are encoded as
      the two words joined by `+`. */
  lemma QuotePlusTwoWords(a: string, b: string)
    requires forall k :: 0 <= k < |a| ==> IsUnreserved(a[k])
    requires forall k :: 0 <= k < |b| ==> IsUnreserved(b[k])
    ensures QuotePlus(a + " " + b) == a + "+" + b
  {
    QuotePlusAppend(a + " ", b);
    QuotePlusAppend(a, " ");
    QuotePlusKeepsUnreserved(a);
    QuotePlusKeepsUnreserved(b);
    QuoteChar(' ');
  }

  /** A space is the only thing that becomes `+`; in particular a query's
      spaces are each written as `+`. */
  lemma QuoteChar(c: char)
    ensures c == ' ' ==> QuotePlus([c]) == "+"
    ensures IsUnreserved(c) ==> QuotePlus([c]) == [c]
    ensures !IsUnreserved(c) && c != ' ' ==> QuotePlus([c])[0] == '%'
    ensures !IsUnreserved(c) && c != ' ' && c as int < 0x80 ==>
      QuotePlus([c]) == ['%', HexDigit(c as int / 16), HexDigit(c as int % 16)]
  {
    assert Utf8Encode([c]) == Utf8(c) + Utf8Encode([]);
    var w := Utf8(c);
    if |w| == 1 {
      assert Quote(w) == QuoteByte(w[0]) + Quote([]);
    } else {
      assert Quote(w) == QuoteByte(w[0]) + Quote(w[1..]);
    }
  }

  lemma {:induction false} Utf8EncodeAppend(a: string, b: string)
    ensures Utf8Encode(a + b) == Utf8Encode(a) + Utf8Encode(b)
    decreases |a|
  {
    if a == [] {
      assert a + b == b;
    } else {
      assert (a + b)[0] == a[0] && (a + b)[1..] == a[1..] + b;
      Utf8EncodeAppend(a[1..], b);
    }
  }

  lemma {:induction false} QuoteAppend(a: seq<byte>, b: seq<byte>)
    ensures Quote(a + b) == Quote(a) + Quote(b)
    decreases |a|
  {
    if a == [] {
      assert a + b == b;
    } else {
      assert (a + b)[0] == a[0] && (a + b)[1..] == a[1..] + b;
      QuoteAppend(a[1..], b);
    }
  }

  /** `quote_plus` works character by character: the encoding of a
      concatenation is the concatenation of the encodings. */
  lemma QuotePlusAppend(a: string, b: string)
    ensures QuotePlus(a + b) == QuotePlus(a) + QuotePlus(b)
  {
    Utf8EncodeAppend(a, b);
    QuoteAppend(Utf8Encode(a), Utf8Encode(b));
  }
}
