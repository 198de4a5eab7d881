/**
  Conversion of an Explorer `LocationURL` such as `file:///C:/Users/A%20B` to
  a Windows path (`C:\Users\A B`): drop the eight-character scheme prefix,
  percent-decode as section 2.1 of RFC 3986 describes, and turn every `/` into
  `\`.
 */
module FileUrl {
  import opened Common

  const FileScheme: string := "file:///"

  predicate IsHexDigit(c: char) {
    ('0' <= c <= '9') || ('a' <= c <= 'f') || ('A' <= c <= 'F')
  }

  function HexValue(c: char): (v: nat)
    requires IsHexDigit(c)
    ensures v < 16
  {
    if '0' <= c <= '9' then c as int - '0' as int
    else if 'a' <= c <= 'f' then c as int - 'a' as int + 10
    else c as int - 'A' as int + 10
  }

  /** Upper-case hex digit for a value below 16. */
  function HexChar(v: nat): (c: char)
    requires v < 16
    ensures IsHexDigit(c) && HexValue(c) == v
  {
    if v < 10 then ('0' as int + v) as char else ('A' as int + v - 10) as char
  }

  /** `urllib.parse.unquote`: every `%` followed by two hex digits becomes the
      character with that code; any other `%` stays as it is. */
  function PercentDecode(s: string): (r: string)
    ensures |r| <= |s|
    ensures (forall k :: 0 <= k < |s| ==> s[k] != '%') ==> r == s
  {
    if s == "" then ""
    else if |s| >= 3 && s[0] == '%' && IsHexDigit(s[1]) && IsHexDigit(s[2]) then
      [(16 * HexValue(s[1]) + HexValue(s[2])) as char] + PercentDecode(s[3..])
    else
      [s[0]] + PercentDecode(s[1..])
  }

  /** Characters left literal in a URL path: the unreserved set of RFC 3986
      plus the path delimiters `/` and `:`, and everything outside ASCII. */
  predicate IsUrlSafe(c: char) {
    ('a' <= c <= 'z') || ('A' <= c <= 'Z') || ('0' <= c <= '9')
    || c == '-' || c == '.' || c == '_' || c == '~' || c == '/' || c == ':'
    || c as int >= 128
  }

  /** Percent-encoding of one character. */
  function EncodeChar(c: char): (r: string)
    ensures !IsUrlSafe(c) ==> |r| == 3 && r[0] == '%'
    ensures IsUrlSafe(c) ==> r == [c]
  {
    if IsUrlSafe(c) then [c]
    else ['%', HexChar(c as int / 16), HexChar(c as int % 16)]
  }

  /** Percent-encoding of a string: the inverse direction of `PercentDecode`. */
  function PercentEncode(s: string): (r: string)
    ensures |r| >= |s|
  {
    if s == "" then "" else EncodeChar(s[0]) + PercentEncode(s[1..])
  }

  /** Decoding undoes encoding. */
  lemma {:induction false} DecodeEncode(s: string)
    ensures PercentDecode(PercentEncode(s)) == s
  {
    if s != "" {
      var c := s[0];
      var rest := PercentEncode(s[1..]);
      DecodeEncode(s[1..]);
      assert PercentEncode(s) == EncodeChar(c) + rest;
      if IsUrlSafe(c) {
        assert c != '%';
        assert (EncodeChar(c) + rest)[1..] == rest;
      } else {
        var e := EncodeChar(c) + rest;
        assert e[3..] == rest;
        assert 16 * HexValue(e[1]) + HexValue(e[2]) == c as int;
      }
    }
  }

  /** The `LocationURL` fallback of the path lookup: `None` unless the URL
      starts with `file:///`; otherwise the decoded remainder with forward
      slashes turned into backslashes. */
  function FileUrlToPath(url: string): (r: Option<string>)
    ensures r.Some? <==> StartsWith(url, FileScheme)
    ensures r.Some? ==> forall k :: 0 <= k < |r.value| ==> r.value[k] != '/'
    ensures r.Some? ==> |r.value| <= |url| - |FileScheme|
  {
    if StartsWith(url, FileScheme) then
      Some(ReplaceChar(PercentDecode(url[|FileScheme|..]), '/', '\\'))
    else
      None
  }

  /** The URL Explorer reports for a local folder path. */
  function PathToFileUrl(path: string): (url: string)
    ensures StartsWith(url, FileScheme)
  {
    FileScheme + PercentEncode(ReplaceChar(path, '\\', '/'))
  }

  /** A folder path without forward slashes survives the trip through its
      `file:///` URL unchanged. */
  lemma FileUrlRoundTrip(path: string)
    requires forall k :: 0 <= k < |path| ==> path[k] != '/'
    ensures FileUrlToPath(PathToFileUrl(path)) == Some(path)
  {
    var url := PathToFileUrl(path);
    var slashed := ReplaceChar(path, '\\', '/');
    assert url[|FileScheme|..] == PercentEncode(slashed);
    DecodeEncode(slashed);
    assert ReplaceChar(slashed, '/', '\\') == path;
  }
}
