/**
  Shared vocabulary for the xPlorer model: an Option type, the Python string
  primitives the add-on relies on (`str.strip`, `str.lower`/`str.upper` on the
  characters that matter, decimal formatting of counters) and small sequence
  helpers.
 */
module Common {

  datatype Option<+T> = None | Some(value: T)

  /** An accessibility object as the screen reader reports it: the name of the
      application module that owns it and its native window handle. */
  datatype AppObject = AppObject(appName: string, windowHandle: int)

  /** The application name every guard in the add-on compares against. */
  const ExplorerApp: string := "explorer"

  /** True when the object is present and belongs to File Explorer. */
  predicate InExplorer(obj: Option<AppObject>) {
    obj.Some? && obj.value.appName == ExplorerApp
  }

  /** The characters for which Python's `str.isspace` holds (29 of them);
      `str.strip()` with no argument removes exactly these. Written as ranges
      rather than a set display, which the solver would have to unfold
      member by member. */
  predicate IsSpace(c: char) {
    || c == ' '
    || '\t' <= c <= '\r'
    || '\U{001C}' <= c <= '\U{001F}'
    || c == '\U{0085}' || c == '\U{00A0}' || c == '\U{1680}'
    || '\U{2000}' <= c <= '\U{200A}'
    || c == '\U{2028}' || c == '\U{2029}' || c == '\U{202F}'
    || c == '\U{205F}' || c == '\U{3000}'
  }

  /** Python's `s.strip(chars)`, with the characters to remove given as a
      predicate: the longest infix of `s` that neither starts nor ends with a
      character to drop. */
  function StripChars(s: string, drop: char -> bool): (r: string)
    ensures |r| <= |s|
    ensures r == "" || (!drop(r[0]) && !drop(r[|r| - 1]))
    ensures r == "" <==> forall k :: 0 <= k < |s| ==> drop(s[k])
    ensures (|s| > 0 && !drop(s[0]) && !drop(s[|s| - 1])) ==> r == s
    ensures |s| > 0 && !drop(s[0]) ==> |r| > 0 && r == s[..|r|]
  {
    if |s| > 0 && drop(s[0]) then StripChars(s[1..], drop)
    else if |s| > 0 && drop(s[|s| - 1]) then StripChars(s[..|s| - 1], drop)
    else s
  }

  /** `s[i..j]` is what is left after cutting off, on either side, only
      characters to drop. */
  predicate CutAround(s: string, i: int, j: int, drop: char -> bool) {
    && 0 <= i <= j <= |s|
    && (forall k :: 0 <= k < i ==> drop(s[k]))
    && (forall k :: j <= k < |s| ==> drop(s[k]))
  }

  /** The stripped form is an infix of `s`, and everything cut off on either
      side is a character to drop. */
  lemma {:induction false} StripCharsInfix(s: string, drop: char -> bool)
    ensures exists i, j :: CutAround(s, i, j, drop) && StripChars(s, drop) == s[i..j]
    decreases |s|
  {
    if |s| > 0 && drop(s[0]) {
      var t := s[1..];
      StripCharsInfix(t, drop);
      var i, j :| CutAround(t, i, j, drop) && StripChars(t, drop) == t[i..j];
      CutAroundFront(s, i, j, drop);
      assert t[i..j] == s[i + 1..j + 1];
    } else if |s| > 0 && drop(s[|s| - 1]) {
      var t := s[..|s| - 1];
      StripCharsInfix(t, drop);
      var i, j :| CutAround(t, i, j, drop) && StripChars(t, drop) == t[i..j];
      CutAroundBack(s, i, j, drop);
      assert t[i..j] == s[i..j];
    } else {
      assert CutAround(s, 0, |s|, drop);
      assert StripChars(s, drop) == s[0..|s|];
    }
  }

  lemma CutAroundFront(s: string, i: int, j: int, drop: char -> bool)
    requires |s| > 0 && drop(s[0]) && CutAround(s[1..], i, j, drop)
    ensures CutAround(s, i + 1, j + 1, drop)
  {
    forall k | 1 <= k < |s| ensures s[k] == s[1..][k - 1] { }
  }

  lemma CutAroundBack(s: string, i: int, j: int, drop: char -> bool)
    requires |s| > 0 && drop(s[|s| - 1]) && CutAround(s[..|s| - 1], i, j, drop)
    ensures CutAround(s, i, j, drop)
  {
    forall k | 0 <= k < |s| - 1 ensures s[k] == s[..|s| - 1][k] { }
  }

  /** A property of every character of `s` holds for every character of its
      stripped form, which is an infix of `s`. */
  lemma {:induction false} StripCharsKeeps(s: string, drop: char -> bool, p: char -> bool)
    requires forall k :: 0 <= k < |s| ==> p(s[k])
    ensures forall k :: 0 <= k < |StripChars(s, drop)| ==> p(StripChars(s, drop)[k])
  {
    if |s| > 0 && drop(s[0]) {
      StripCharsKeeps(s[1..], drop, p);
    } else if |s| > 0 && drop(s[|s| - 1]) {
      StripCharsKeeps(s[..|s| - 1], drop, p);
    }
  }

  /** Only whitespace, or nothing at all: what `Strip` reduces to "". */
  predicate Blank(s: string) {
    forall k :: 0 <= k < |s| ==> IsSpace(s[k])
  }

  /** No whitespace at either end. */
  predicate Trimmed(s: string) {
    s == "" || (!IsSpace(s[0]) && !IsSpace(s[|s| - 1]))
  }

  /** Python's `s.strip()`. */
  function Strip(s: string): (r: string)
    ensures |r| <= |s|
    ensures Trimmed(r)
  {
    StripChars(s, IsSpace)
  }

  /** `Strip` gives "" exactly for blank strings. Kept out of `Strip`'s own
      contract, where it makes every term with two stripped strings costly. */
  lemma StripEmptyIffBlank(s: string)
    ensures Strip(s) == "" <==> Blank(s)
  {
  }

  /** Stripping a string that has no surrounding whitespace changes nothing;
      in particular stripping is idempotent. */
  lemma StripIdentity(s: string)
    requires Trimmed(s)
    ensures Strip(s) == s
  {
    if s == "" {
      assert Strip(s) == "";
    }
  }

  lemma StripIdempotent(s: string)
    ensures Strip(Strip(s)) == Strip(s)
  {
    StripIdentity(Strip(s));
  }

  predicate StartsWith(s: string, prefix: string) {
    |prefix| <= |s| && s[..|prefix|] == prefix
  }

  predicate EndsWith(s: string, suffix: string) {
    |suffix| <= |s| && s[|s| - |suffix|..] == suffix
  }

  /** A string ends with any of its tails. */
  lemma EndsWithSuffix(u: string, t: string)
    ensures EndsWith(u + t, t)
  {
    assert (u + t)[|u|..] == t;
  }

  /** Ending with a string that ends with `c` is ending with `c`. */
  lemma EndsWithTrans(a: string, b: string, c: string)
    requires EndsWith(a, b) && EndsWith(b, c)
    ensures EndsWith(a, c)
  {
    assert a[|a| - |c|..] == b[|b| - |c|..];
  }

  /** `str.lower()` restricted to ASCII letters; other characters are kept. */
  function LowerChar(c: char): char {
    if 'A' <= c <= 'Z' then (c as int - 'A' as int + 'a' as int) as char else c
  }

  function UpperChar(c: char): char {
    if 'a' <= c <= 'z' then (c as int - 'a' as int + 'A' as int) as char else c
  }

  function Lower(s: string): (r: string)
    ensures |r| == |s|
    ensures forall k :: 0 <= k < |s| ==> r[k] == LowerChar(s[k])
  {
    if s == "" then "" else [LowerChar(s[0])] + Lower(s[1..])
  }

  function Upper(s: string): (r: string)
    ensures |r| == |s|
    ensures forall k :: 0 <= k < |s| ==> r[k] == UpperChar(s[k])
  {
    if s == "" then "" else [UpperChar(s[0])] + Upper(s[1..])
  }

  /** The lower-cased path ends in a dot and the three-letter `ext` exactly
      when the path has a dot four from the end and its last three characters lower to `ext`. */
  lemma {:induction false} LowerEndsWithExt(path: string, ext: string)
    requires |ext| == 3
    ensures EndsWith(Lower(path), ['.'] + ext) <==>
            |path| >= 4 && path[|path| - 4] == '.' && Lower(path[|path| - 3..]) == ext
  {
    if |path| >= 4 {
      LowerTail(path, |path| - 3);
      SplitLastFour(Lower(path), '.', ext);
      assert LowerChar(path[|path| - 4]) == '.' <==> path[|path| - 4] == '.';
    }
  }

  /** The last four characters are `d` then `ext` exactly when the fourth
      from the end is `d` and the last three are `ext`. */
  lemma SplitLastFour(x: string, d: char, ext: string)
    requires |x| >= 4 && |ext| == 3
    ensures x[|x| - 4..] == [d] + ext <==> x[|x| - 4] == d && x[|x| - 3..] == ext
  {
    assert x[|x| - 4..] == [x[|x| - 4]] + x[|x| - 3..];
    if x[|x| - 4..] == [d] + ext {
      assert ([d] + ext)[1..] == ext;
    }
  }

  /** Lower-casing a tail is the tail of the lower-cased string. */
  lemma {:induction false} LowerTail(s: string, i: nat)
    requires i <= |s|
    ensures Lower(s)[i..] == Lower(s[i..])
  {
    if i > 0 {
      LowerTail(s[1..], i - 1);
      assert s[1..][i - 1..] == s[i..];
    }
  }

  /** Lower-casing forgets an earlier upper-casing. */
  lemma LowerOfUpper(s: string)
    ensures Lower(Upper(s)) == Lower(s)
  {
    forall k | 0 <= k < |s|
      ensures Lower(Upper(s))[k] == Lower(s)[k]
    {
      var c := s[k];
      assert Upper(s)[k] == UpperChar(c);
    }
  }

  /** Every occurrence of `c` replaced by `d` (Python's `s.replace(c, d)` for
      single characters). */
  function ReplaceChar(s: string, c: char, d: char): (r: string)
    ensures |r| == |s|
    ensures forall k :: 0 <= k < |s| ==> r[k] == (if s[k] == c then d else s[k])
  {
    if s == "" then "" else [if s[0] == c then d else s[0]] + ReplaceChar(s[1..], c, d)
  }

  function DigitChar(d: nat): char
    requires d < 10
  {
    ('0' as int + d) as char
  }

  /** Decimal rendering of a counter, as Python's `str(n)` / f-string. */
  function NatToString(n: nat): (r: string)
    ensures |r| >= 1
    ensures forall k :: 0 <= k < |r| ==> '0' <= r[k] <= '9'
    ensures n >= 10 ==> |r| >= 2
  {
    if n < 10 then [DigitChar(n)] else NatToString(n / 10) + [DigitChar(n % 10)]
  }

  /** The value of a string of decimal digits, read left to right. */
  function DecimalValue(s: string): nat
    requires forall k :: 0 <= k < |s| ==> '0' <= s[k] <= '9'
  {
    if s == [] then 0
    else DecimalValue(s[..|s| - 1]) * 10 + (s[|s| - 1] as int - '0' as int)
  }

  /** Reading the rendering of a counter back gives the counter, and the
      rendering has no leading zero. */
  lemma {:induction false} NatToStringValue(n: nat)
    ensures DecimalValue(NatToString(n)) == n
    ensures NatToString(n)[0] == '0' ==> n == 0
  {
    if n >= 10 {
      var s := NatToString(n);
      NatToStringValue(n / 10);
      assert s[..|s| - 1] == NatToString(n / 10);
    }
  }

  /** Different counters render differently, so numbered candidate names never
      collide. */
  lemma {:induction false} NatToStringInjective(a: nat, b: nat)
    requires NatToString(a) == NatToString(b)
    ensures a == b
  {
    var sa, sb := NatToString(a), NatToString(b);
    if a < 10 || b < 10 {
      assert sa[0] == sb[0];
    } else {
      assert sa[|sa| - 1] == sb[|sb| - 1];
      assert DigitChar(a % 10) == DigitChar(b % 10);
      assert NatToString(a / 10) == sa[..|sa| - 1] == sb[..|sb| - 1] == NatToString(b / 10);
      NatToStringInjective(a / 10, b / 10);
    }
  }
}
