/** `urllib.parse.quote(s, safe='')`: the string is encoded as UTF-8 and
    every byte outside the always-safe set (ASCII letters, digits and
    `_.-~`) becomes `%XY` with upper-case hexadecimal digits. A Dafny
    `char` is a Unicode scalar value, so the encoding never fails. */
module UrlParse {
  import opened PyStr

  type Byte = x: int | 0 <= x < 256

  /** The characters `quote` never escapes. */
  predicate IsUnreserved(c: char) {
    || ('A' <= c <= 'Z') || ('a' <= c <= 'z') || ('0' <= c <= '9')
    || c == '_' || c == '.' || c == '-' || c == '~'
  }

  /** The UTF-8 encoding of one scalar value (RFC 3629, section 3). */
  function Utf8(c: char): (bs: seq<Byte>)
    ensures 1 <= |bs| <= 4
    ensures |bs| == 1 <==> c as int < 0x80
    ensures |bs| > 1 ==> forall k :: 0 <= k < |bs| ==> bs[k] >= 0x80
  {
    var n := c as int;
    if n < 0x80 then [n]
    else if n < 0x800 then [0xC0 + n / 0x40, 0x80 + n % 0x40]
    else if n < 0x1_0000 then
      [0xE0 + n / 0x1000, 0x80 + (n / 0x40) % 0x40, 0x80 + n % 0x40]
    else
      [0xF0 + n / 0x4_0000, 0x80 + (n / 0x1000) % 0x40,
       0x80 + (n / 0x40) % 0x40, 0x80 + n % 0x40]
  }

  /** Python's `s.encode('utf-8')`. */
  function Utf8Encode(s: string): seq<Byte>
  {
    if s == [] then [] else Utf8(s[0]) + Utf8Encode(s[1..])
  }

  /** The upper-case hexadecimal digit for `d`, as `'%02X'` writes it. */
  function HexDigit(d: int): char
    requires 0 <= d < 16
  {
    if d < 10 then ('0' as int + d) as char else ('A' as int + d - 10) as char
  }

  /** `'%%%02X' % b`. */
  function EscapeByte(b: Byte): string
  {
    ['%', HexDigit(b / 16), HexDigit(b % 16)]
  }

  /** `%XY` for every byte. */
  function Escape(bs: seq<Byte>): (r: string)
    ensures |r| == 3 * |bs|
  {
    if bs == [] then [] else EscapeByte(bs[0]) + Escape(bs[1..])
  }

  /** The quoting of one character: itself when always-safe, otherwise
      every byte of its UTF-8 encoding escaped. `QuoteMatchesBytes` shows
      this agrees with Python's byte-by-byte loop. */
  function QuoteChar(c: char): string
  {
    if IsUnreserved(c) then [c] else Escape(Utf8(c))
  }

  /** `urllib.parse.quote(s, safe='')`. */
  function Quote(s: string): (r: string)
    ensures |r| >= |s|
  {
    if s == [] then [] else QuoteChar(s[0]) + Quote(s[1..])
  }

  /** `quote_from_bytes` with `safe=''`, the loop Python runs over the
      UTF-8 bytes: an always-safe byte stands for itself, any other byte
      becomes `%XY`. */
  function QuoteBytes(bs: seq<Byte>): string
  {
    if bs == [] then [] else QuoteByte(bs[0]) + QuoteBytes(bs[1..])
  }

  function QuoteByte(b: Byte): string
  {
    if IsUnreserved(b as char) then [b as char] else EscapeByte(b)
  }

  lemma {:induction false} QuoteBytesAppend(a: seq<Byte>, b: seq<Byte>)
    ensures QuoteBytes(a + b) == QuoteBytes(a) + QuoteBytes(b)
  {
    if a != [] {
      assert (a + b)[1..] == a[1..] + b;
      QuoteBytesAppend(a[1..], b);
      AppendAssoc(QuoteByte(a[0]), QuoteBytes(a[1..]), QuoteBytes(b));
    } else {
      assert a + b == b;
    }
  }

  /** Bytes none of which is always-safe are all escaped. */
  lemma {:induction false} EscapeIsQuoteBytes(bs: seq<Byte>)
    requires forall k :: 0 <= k < |bs| ==> !IsUnreserved(bs[k] as char)
    ensures QuoteBytes(bs) == Escape(bs)
  {
    if bs != [] {
      EscapeIsQuoteBytes(bs[1..]);
    }
  }

  /** Quoting one character is quoting the bytes of its UTF-8 encoding. */
  lemma QuoteCharBytes(c: char)
    ensures QuoteChar(c) == QuoteBytes(Utf8(c))
  {
    var bs := Utf8(c);
    if c as int < 0x80 {
      assert bs == [c as int] && (c as int) as char == c;
    } else {
      EscapeIsQuoteBytes(bs);
    }
  }

  /** Quoting character by character, as `Quote` does, gives what Python's
      byte loop gives on the UTF-8 encoding. */
  lemma {:induction false} QuoteMatchesBytes(s: string)
    ensures Quote(s) == QuoteBytes(Utf8Encode(s))
  {
    if s != [] {
      QuoteMatchesBytes(s[1..]);
      QuoteCharBytes(s[0]);
      QuoteBytesAppend(Utf8(s[0]), Utf8Encode(s[1..]));
    }
  }

  /** The value of an upper-case hexadecimal digit. */
  function HexValue(h: char): (r: Option<int>)
    ensures r.Some? ==> 0 <= r.value < 16
  {
    if '0' <= h <= '9' then Some(h as int - '0' as int)
    else if 'A' <= h <= 'F' then Some(h as int - 'A' as int + 10)
    else None
  }

  /** The first byte a percent-encoded string stands for, and how many
      characters it takes: `%XY` with upper-case hexadecimal digits, or a
      single ASCII character standing for itself. */
  function DecodeUnit(t: string): (r: Option<(Byte, nat)>)
    ensures r.Some? ==> 1 <= r.value.1 <= |t|
  {
    if t == [] then None
    else if t[0] == '%' then
      if |t| >= 3 && HexValue(t[1]).Some? && HexValue(t[2]).Some? then
        Some((HexValue(t[1]).value * 16 + HexValue(t[2]).value, 3))
      else None
    else if t[0] as int < 0x80 then Some((t[0] as int, 1))
    else None
  }

  /** Strict percent-decoding back to bytes. */
  function PercentDecode(t: string): Option<seq<Byte>>
    decreases |t|
  {
    if t == [] then Some([])
    else match DecodeUnit(t)
      case None => None
      case Some((b, n)) =>
        match PercentDecode(t[n..])
        case Some(rest) => Some([b] + rest)
        case None => None
  }

  predicate IsContinuation(b: Byte) {
    0x80 <= b < 0xC0
  }

  /** The scalar value with code `n`, if there is one. */
  function ToChar(n: int): Option<char>
  {
    if 0 <= n < 0xD800 || 0xE000 <= n < 0x11_0000 then Some(n as char) else None
  }

  /** The first UTF-8 sequence of `bs`: its character and its length. */
  function DecodeFirst(bs: seq<Byte>): (r: Option<(char, nat)>)
    ensures r.Some? ==> 1 <= r.value.1 <= |bs|
  {
    if bs == [] then None
    else
    var b0: int, b1: int, b2: int, b3: int :=
      bs[0], if |bs| > 1 then bs[1] else 0,
      if |bs| > 2 then bs[2] else 0, if |bs| > 3 then bs[3] else 0;
    if bs[0] < 0x80 then Some((bs[0] as char, 1))
    else if 0xC0 <= bs[0] < 0xE0 && |bs| >= 2 && IsContinuation(bs[1]) then
      match ToChar((b0 - 0xC0) * 0x40 + (b1 - 0x80))
      case Some(c) => Some((c, 2))
      case None => None
    else if 0xE0 <= bs[0] < 0xF0 && |bs| >= 3
      && IsContinuation(bs[1]) && IsContinuation(bs[2]) then
      match ToChar((b0 - 0xE0) * 0x1000 + (b1 - 0x80) * 0x40 + (b2 - 0x80))
      case Some(c) => Some((c, 3))
      case None => None
    else if 0xF0 <= bs[0] < 0xF8 && |bs| >= 4
      && IsContinuation(bs[1]) && IsContinuation(bs[2]) && IsContinuation(bs[3]) then
      match ToChar((b0 - 0xF0) * 0x4_0000 + (b1 - 0x80) * 0x1000
                   + (b2 - 0x80) * 0x40 + (b3 - 0x80))
      case Some(c) => Some((c, 4))
      case None => None
    else None
  }

  /** Decoding a UTF-8 byte sequence. */
  function Utf8Decode(bs: seq<Byte>): Option<string>
    decreases |bs|
  {
    if bs == [] then Some([])
    else match DecodeFirst(bs)
      case None => None
      case Some((c, n)) =>
        match Utf8Decode(bs[n..])
        case Some(rest) => Some([c] + rest)
        case None => None
  }

  /** A strict percent-decoder that agrees with `urllib.parse.unquote` on
      the output of `Quote`. */
  function Unquote(t: string): Option<string>
  {
    match PercentDecode(t)
    case Some(bs) => Utf8Decode(bs)
    case None => None
  }

  /** The hexadecimal digits read back as the value they were written for. */
  lemma HexRoundTrip(d: int)
    requires 0 <= d < 16
    ensures HexValue(HexDigit(d)) == Some(d)
    ensures IsUnreserved(HexDigit(d))
  {
  }

  /** Percent-decoding reads one `%XY` back as the byte it was written for. */
  lemma DecodeEscapeByte(b: Byte, u: string, t: string, rest: seq<Byte>)
    requires u == EscapeByte(b) + t
    requires PercentDecode(t) == Some(rest)
    ensures PercentDecode(u) == Some([b] + rest)
  {
    HexRoundTrip(b / 16);
    HexRoundTrip(b % 16);
    assert u[3..] == t;
    assert HexValue(u[1]) == Some(b / 16) && HexValue(u[2]) == Some(b % 16);
    assert DecodeUnit(u) == Some((b, 3));
  }

  /** Percent-decoding undoes `Escape`. */
  lemma {:induction false} DecodeEscape(bs: seq<Byte>, t: string, rest: seq<Byte>)
    requires PercentDecode(t) == Some(rest)
    ensures PercentDecode(Escape(bs) + t) == Some(bs + rest)
  {
    if bs == [] {
      assert Escape(bs) + t == t;
      assert bs + rest == rest;
    } else {
      var b := bs[0];
      var tail := Escape(bs[1..]) + t;
      assert PercentDecode(Escape(bs) + t) == Some([b] + (bs[1..] + rest)) by {
        assert Escape(bs) + t == EscapeByte(b) + tail;
        DecodeEscape(bs[1..], t, rest);
        DecodeEscapeByte(b, Escape(bs) + t, tail, bs[1..] + rest);
      }
      assert bs + rest == [b] + (bs[1..] + rest);
    }
  }

  /** Percent-decoding a quoted string gives its UTF-8 encoding. */
  lemma {:induction false} DecodeQuote(s: string)
    ensures PercentDecode(Quote(s)) == Some(Utf8Encode(s))
  {
    if s != [] {
      var c := s[0];
      DecodeQuote(s[1..]);
      if IsUnreserved(c) {
        assert (QuoteChar(c) + Quote(s[1..]))[1..] == Quote(s[1..]);
      } else {
        DecodeEscape(Utf8(c), Quote(s[1..]), Utf8Encode(s[1..]));
      }
    }
  }

  /** Every character's UTF-8 encoding decodes back to it, whatever follows. */
  lemma DecodeUtf8(c: char, rest: seq<Byte>)
    ensures DecodeFirst(Utf8(c) + rest) == Some((c, |Utf8(c)|))
  {
    var n := c as int;
    if n < 0x80 {
    } else if n < 0x800 {
      DecodeUtf8Two(c, rest);
    } else if n < 0x1_0000 {
      DecodeUtf8Three(c, rest);
    } else {
      DecodeUtf8Four(c, rest);
    }
  }

  lemma DecodeUtf8Two(c: char, rest: seq<Byte>)
    requires 0x80 <= c as int < 0x800
    ensures DecodeFirst(Utf8(c) + rest) == Some((c, 2))
  {
    var n := c as int;
    assert (n / 0x40) * 0x40 + n % 0x40 == n;
    assert ToChar(n) == Some(c);
  }

  lemma DecodeUtf8Three(c: char, rest: seq<Byte>)
    requires 0x800 <= c as int < 0x1_0000
    ensures DecodeFirst(Utf8(c) + rest) == Some((c, 3))
  {
    var n := c as int;
    var q := n / 0x40;
    assert (n / 0x1000) * 0x40 + q % 0x40 == q;
    assert q * 0x40 + n % 0x40 == n;
    assert ToChar(n) == Some(c);
  }

  lemma DecodeUtf8Four(c: char, rest: seq<Byte>)
    requires 0x1_0000 <= c as int
    ensures DecodeFirst(Utf8(c) + rest) == Some((c, 4))
  {
    var n := c as int;
    var q := n / 0x40;
    var p := n / 0x1000;
    assert (n / 0x4_0000) * 0x40 + p % 0x40 == p;
    assert p * 0x40 + q % 0x40 == q;
    assert q * 0x40 + n % 0x40 == n;
    assert ToChar(n) == Some(c);
  }

  /** UTF-8 decoding undoes UTF-8 encoding. */
  lemma {:induction false} Utf8RoundTrip(s: string)
    ensures Utf8Decode(Utf8Encode(s)) == Some(s)
  {
    if s != [] {
      var c := s[0];
      DecodeUtf8(c, Utf8Encode(s[1..]));
      assert (Utf8(c) + Utf8Encode(s[1..]))[|Utf8(c)|..] == Utf8Encode(s[1..]);
      Utf8RoundTrip(s[1..]);
      assert s == [c] + s[1..];
    }
  }

  /** Quoting loses nothing: unquoting gives the original string back. */
  lemma QuoteRoundTrip(s: string)
    ensures Unquote(Quote(s)) == Some(s)
  {
    DecodeQuote(s);
    Utf8RoundTrip(s);
  }

  /** Different strings quote differently. */
  lemma QuoteInjective(s: string, t: string)
    requires Quote(s) == Quote(t)
    ensures s == t
  {
    QuoteRoundTrip(s);
    QuoteRoundTrip(t);
  }

  /** `quote` leaves a string unchanged exactly when every character of it
      is always-safe. */
  lemma {:induction false} QuoteIdentity(s: string)
    ensures Quote(s) == s <==> forall k :: 0 <= k < |s| ==> IsUnreserved(s[k])
  {
    if s != [] {
      QuoteIdentity(s[1..]);
      var c := s[0];
      if !IsUnreserved(c) {
        assert Quote(s)[0] == '%';
      } else {
        assert Quote(s) == [c] + Quote(s[1..]);
        assert s == [c] + s[1..];
        if Quote(s) == s {
          assert Quote(s[1..]) == s[1..];
        }
        if forall k :: 0 <= k < |s| ==> IsUnreserved(s[k]) {
          assert forall k :: 0 <= k < |s[1..]| ==> IsUnreserved(s[1..][k]) by {
            forall k | 0 <= k < |s[1..]| ensures IsUnreserved(s[1..][k]) {
              assert s[1..][k] == s[k + 1];
            }
          }
        }
        if forall k :: 0 <= k < |s[1..]| ==> IsUnreserved(s[1..][k]) {
          assert forall k :: 0 <= k < |s| ==> IsUnreserved(s[k]) by {
            forall k | 0 <= k < |s| ensures IsUnreserved(s[k]) {
              if k > 0 { assert s[k] == s[1..][k - 1]; }
            }
          }
        }
      }
    }
  }

  /** A quoted string holds only always-safe characters and `%`: in
      particular no whitespace and no `/`. */
  lemma {:induction false} QuoteAlphabet(s: string)
    ensures forall k :: 0 <= k < |Quote(s)| ==> IsUnreserved(Quote(s)[k]) || Quote(s)[k] == '%'
  {
    if s != [] {
      var c := s[0];
      QuoteAlphabet(s[1..]);
      if !IsUnreserved(c) { EscapeAlphabet(Utf8(c)); }
      var q := Quote(s);
      assert q == QuoteChar(c) + Quote(s[1..]);
      forall k | 0 <= k < |q| ensures IsUnreserved(q[k]) || q[k] == '%' {
        if k >= |QuoteChar(c)| { assert q[k] == Quote(s[1..])[k - |QuoteChar(c)|]; }
      }
    }
  }

  lemma {:induction false} EscapeAlphabet(bs: seq<Byte>)
    ensures forall k :: 0 <= k < |Escape(bs)| ==> IsUnreserved(Escape(bs)[k]) || Escape(bs)[k] == '%'
  {
    if bs != [] {
      EscapeAlphabet(bs[1..]);
      var e := Escape(bs);
      var hi, lo := bs[0] / 16, bs[0] % 16;
      HexRoundTrip(hi);
      HexRoundTrip(lo);
      forall k | 0 <= k < |e| ensures IsUnreserved(e[k]) || e[k] == '%' {
        if k >= 3 { assert e[k] == Escape(bs[1..])[k - 3]; }
        else { assert e[k] == EscapeByte(bs[0])[k]; }
      }
    }
  }
}
