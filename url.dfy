/**
 * `encode_path` (Python's `urllib.parse.quote(path, safe="/")`) and the
 * source-blob URL built from it. Percent-encoding follows section 2.1 of
 * RFC 3986: every character other than the unreserved ones of section 2.3
 * and `/` becomes `%` and two upper-case hexadecimal digits. Only ASCII
 * paths are modelled, where each character is one byte.
 */
module Url {
  import opened Strings

  predicate IsAscii(s: string)
  {
    forall i :: 0 <= i < |s| ==> s[i] < 128 as char
  }

  /** Unreserved characters of RFC 3986, section 2.3. */
  predicate Unreserved(c: char)
  {
    ('A' <= c <= 'Z') || ('a' <= c <= 'z') || ('0' <= c <= '9')
    || c == '_' || c == '.' || c == '-' || c == '~'
  }

  /** What `quote(..., safe="/")` leaves as it is. */
  predicate Safe(c: char)
  {
    Unreserved(c) || c == '/'
  }

  predicate AllSafe(s: string)
  {
    forall i :: 0 <= i < |s| ==> Safe(s[i])
  }

  function HexDigit(n: nat): (c: char)
    requires n < 16
    ensures Unreserved(c)
  {
    if n < 10 then ('0' as int + n) as char else ('A' as int + n - 10) as char
  }

  /** The value of a hexadecimal digit of either case. */
  function HexValue(c: char): Option<nat>
  {
    if '0' <= c <= '9' then Some(c as int - '0' as int)
    else if 'A' <= c <= 'F' then Some(c as int - 'A' as int + 10)
    else if 'a' <= c <= 'f' then Some(c as int - 'a' as int + 10)
    else None
  }

  /** One character of `encode_path`: a safe character stands for itself;
      any other becomes `%` and the two upper-case hexadecimal digits of its
      code, high digit first. */
  function QuoteChar(c: char): (r: string)
    requires c < 128 as char
    ensures Safe(c) ==> r == [c]
    ensures !Safe(c) ==> (|r| == 3 && r[0] == '%'
      && HexValue(r[1]) == Some(c as int / 16) && HexValue(r[2]) == Some(c as int % 16)
      && !('a' <= r[1] <= 'z') && !('a' <= r[2] <= 'z'))
  {
    if Safe(c) then [c] else ['%', HexDigit(c as int / 16), HexDigit(c as int % 16)]
  }

  /** `encode_path`: safe characters are copied, every other character grows
      into a three-character escape, so the result is never shorter and has
      the same length exactly when nothing needed escaping, in which case it
      is the input. Only safe characters and `%` appear in the output. */
  function Quote(s: string): (r: string)
    requires IsAscii(s)
    ensures |r| >= |s|
    ensures |r| == |s| <==> AllSafe(s)
    ensures AllSafe(s) ==> r == s
    ensures forall i :: 0 <= i < |r| ==> Safe(r[i]) || r[i] == '%'
    decreases |s|
  {
    if s == [] then []
    else
      var rest := Quote(s[1..]);
      assert AllSafe(s) <==> Safe(s[0]) && AllSafe(s[1..]) by {
        if Safe(s[0]) && AllSafe(s[1..]) {
          forall i | 0 <= i < |s| ensures Safe(s[i]) {
            if i > 0 { assert s[i] == s[1..][i - 1]; }
          }
        }
      }
      QuoteChar(s[0]) + rest
  }

  /** Encoding works character by character: the encoding of a
      concatenation is the concatenation of the encodings. */
  lemma {:induction false} QuoteConcat(a: string, b: string)
    requires IsAscii(a) && IsAscii(b)
    ensures IsAscii(a + b) && Quote(a + b) == Quote(a) + Quote(b)
    decreases |a|
  {
    assert IsAscii(a + b) by {
      forall i | 0 <= i < |a + b| ensures (a + b)[i] < 128 as char {
        if i >= |a| { assert (a + b)[i] == b[i - |a|]; }
      }
    }
    if a == [] {
      assert a + b == b;
    } else {
      assert IsAscii(a[1..]) by {
        forall i | 0 <= i < |a[1..]| ensures a[1..][i] < 128 as char {
          assert a[1..][i] == a[i + 1];
        }
      }
      assert (a + b)[0] == a[0];
      assert (a + b)[1..] == a[1..] + b;
      QuoteConcat(a[1..], b);
      assert Quote(a + b) == QuoteChar(a[0]) + (Quote(a[1..]) + Quote(b));
    }
  }

  /** Percent-decoding: every `%` followed by two hexadecimal digits stands
      for the character with that code; everything else is taken as it is. */
  function Unquote(s: string): string
    decreases |s|
  {
    if |s| >= 3 && s[0] == '%' && HexValue(s[1]).Some? && HexValue(s[2]).Some? then
      [(HexValue(s[1]).value * 16 + HexValue(s[2]).value) as char] + Unquote(s[3..])
    else if s == [] then []
    else [s[0]] + Unquote(s[1..])
  }

  lemma UnquoteQuoteChar(c: char, rest: string)
    requires c < 128 as char
    ensures Unquote(QuoteChar(c) + rest) == [c] + Unquote(rest)
  {
    var q := QuoteChar(c) + rest;
    if Safe(c) {
      assert q[0] == c && q[1..] == rest;
    } else {
      var hi, lo := c as int / 16, c as int % 16;
      assert HexValue(HexDigit(hi)) == Some(hi);
      assert HexValue(HexDigit(lo)) == Some(lo);
      assert q[0] == '%' && q[1] == HexDigit(hi) && q[2] == HexDigit(lo);
      assert q[3..] == rest;
      assert (hi * 16 + lo) as char == c;
    }
  }

  /** Decoding what `encode_path` produced gives the path back: the encoding
      loses nothing. */
  lemma {:induction false} UnquoteQuote(s: string)
    requires IsAscii(s)
    ensures Unquote(Quote(s)) == s
    decreases |s|
  {
    if s != [] {
      assert IsAscii(s[1..]) by {
        forall i | 0 <= i < |s[1..]| ensures s[1..][i] < 128 as char {
          assert s[1..][i] == s[i + 1];
        }
      }
      UnquoteQuoteChar(s[0], Quote(s[1..]));
      UnquoteQuote(s[1..]);
      assert s == [s[0]] + s[1..];
    }
  }

  /** The part of the source URL that comes before the encoded path. */
  function UrlPrefix(account: string, container: string): string
  {
    "https://" + account + ".blob.core.windows.net/" + container + "/"
  }

  /** The source-blob URL: scheme and account host, the container, `/`, and
      the encoded path, which decodes back to the path. */
  function SourceUrl(account: string, container: string, path: string): (url: string)
    requires IsAscii(path)
    ensures StartsWith(url, UrlPrefix(account, container))
    ensures Unquote(url[|UrlPrefix(account, container)|..]) == path
  {
    UnquoteQuote(path);
    var url := UrlPrefix(account, container) + Quote(path);
    assert url[..|UrlPrefix(account, container)|] == UrlPrefix(account, container);
    assert url[|UrlPrefix(account, container)|..] == Quote(path);
    url
  }
}
