/**
  The parts of Python's `str` that the modelled code relies on: clamped slicing,
  `startswith`/`endswith`/`in`, `split`/`join`, `strip`, ASCII case mapping,
  `isnumeric`, `str(int)`, `int(str)` and `replace`.
 */
module PyStr {
  import opened Common

  // ---------------------------------------------------------------------------
  // Prefixes, suffixes and substrings

  predicate StartsWith(s: string, p: string) {
    |p| <= |s| && s[..|p|] == p
  }

  predicate EndsWith(s: string, p: string) {
    |p| <= |s| && s[|s| - |p|..] == p
  }

  /** Two prefixes of the same text: the shorter is a prefix of the longer. */
  lemma PrefixCompare(x: string, a: string, b: string)
    requires StartsWith(x, a)
    ensures StartsWith(x, b) ==> StartsWith(a, b) || StartsWith(b, a)
  {
    if StartsWith(x, b) {
      if |a| <= |b| {
        assert b[..|a|] == x[..|a|];
      } else {
        assert a[..|b|] == x[..|b|];
      }
    }
  }

  /** `p` occurs in `s` at position `i`. */
  predicate OccursAt(s: string, p: string, i: int) {
    0 <= i && i + |p| <= |s| && s[i..i + |p|] == p
  }

  /** Python's `p in s`. */
  predicate Contains(s: string, p: string)
    decreases |s|
  {
    StartsWith(s, p) || (s != [] && Contains(s[1..], p))
  }

  /** `p in s` holds exactly when `p` occurs at some position of `s`. */
  lemma {:induction false} ContainsIff(s: string, p: string)
    ensures Contains(s, p) <==> exists i :: OccursAt(s, p, i)
    decreases |s|
  {
    if s != [] {
      ContainsIff(s[1..], p);
    }
    if exists i :: OccursAt(s, p, i) {
      var i :| OccursAt(s, p, i);
      if i > 0 {
        assert s[1..][i - 1..i - 1 + |p|] == s[i..i + |p|];
        assert OccursAt(s[1..], p, i - 1);
      }
    }
    if Contains(s, p) && !StartsWith(s, p) {
      var i :| OccursAt(s[1..], p, i);
      assert s[1..][i..i + |p|] == s[i + 1..i + 1 + |p|];
      assert OccursAt(s, p, i + 1);
    }
    if StartsWith(s, p) {
      assert OccursAt(s, p, 0);
    }
  }

  /** A text without the first character of `p` does not contain `p`. */
  lemma {:induction false} AbsentFirstChar(s: string, p: string)
    requires |p| > 0 && p[0] !in s
    ensures !Contains(s, p)
    decreases |s|
  {
    if s != [] {
      AbsentFirstChar(s[1..], p);
      assert s[0] != p[0];
    }
  }

  // ---------------------------------------------------------------------------
  // Slicing

  /** How Python normalises one bound of `s[start:stop]` for a string of length `n`. */
  function ClampIndex(i: int, n: nat): (k: nat)
    ensures k <= n
    ensures 0 <= i <= n ==> k == i
    ensures n <= i ==> k == n
  {
    if i < 0 then (if n + i < 0 then 0 else n + i)
    else if i > n then n
    else i
  }

  /** Python's `s[start:stop]`: out-of-range bounds are clamped, never an error. */
  function Slice(s: string, start: int, stop: int): (r: string)
    ensures |r| <= |s|
    ensures 0 <= start <= stop ==> |r| <= stop - start
    ensures 0 <= stop <= start ==> r == []
    ensures 0 <= start <= stop <= |s| ==> r == s[start..stop]
    ensures 0 <= start && |s| <= start ==> r == []
  {
    var a := ClampIndex(start, |s|);
    var b := ClampIndex(stop, |s|);
    if a < b then s[a..b] else []
  }

  /** Slicing inside the string: every piece comes from the stated position. */
  lemma SliceIsInfix(s: string, start: int, stop: int)
    ensures Slice(s, start, stop) == [] || OccursAt(s, Slice(s, start, stop), ClampIndex(start, |s|))
  {
  }

  // ---------------------------------------------------------------------------
  // Splitting and joining on one character

  /** Python's `s.split(sep)` for a one-character separator. */
  function Split(s: string, sep: char): (parts: seq<string>)
    ensures |parts| >= 1
    ensures forall k :: 0 <= k < |parts| ==> sep !in parts[k]
    decreases |s|
  {
    if s == [] then [[]]
    else
      var rest := Split(s[1..], sep);
      if s[0] == sep then [[]] + rest
      else [[s[0]] + rest[0]] + rest[1..]
  }

  /** Python's `sep.join(parts)`. */
  function Join(parts: seq<string>, sep: char): string
    decreases |parts|
  {
    if |parts| == 0 then []
    else if |parts| == 1 then parts[0]
    else parts[0] + [sep] + Join(parts[1..], sep)
  }

  /** Joining the pieces of a split gives back the original text. */
  lemma {:induction false} JoinSplit(s: string, sep: char)
    ensures Join(Split(s, sep), sep) == s
    decreases |s|
  {
    if s != [] {
      JoinSplit(s[1..], sep);
      var rest := Split(s[1..], sep);
      if s[0] == sep {
        assert Split(s, sep) == [[]] + rest;
        assert s == [sep] + s[1..];
      } else {
        var parts := Split(s, sep);
        assert parts == [[s[0]] + rest[0]] + rest[1..];
        if |rest| == 1 {
          assert s == [s[0]] + rest[0];
        } else {
          assert parts[1..] == rest[1..];
          assert Join(rest, sep) == rest[0] + [sep] + Join(rest[1..], sep);
          assert s == [s[0]] + s[1..];
        }
      }
    }
  }

  lemma {:induction false} SplitNoSep(x: string, sep: char)
    requires sep !in x
    ensures Split(x, sep) == [x]
    decreases |x|
  {
    if x != [] {
      SplitNoSep(x[1..], sep);
      assert [x[0]] + x[1..] == x;
    }
  }

  lemma {:induction false} SplitAfterSep(x: string, y: string, sep: char)
    requires sep !in x
    ensures Split(x + [sep] + y, sep) == [x] + Split(y, sep)
    decreases |x|
  {
    if x == [] {
      assert (x + [sep] + y)[1..] == y;
    } else {
      SplitAfterSep(x[1..], y, sep);
      assert (x + [sep] + y)[1..] == x[1..] + [sep] + y;
      assert [x[0]] + x[1..] == x;
    }
  }

  /** The first piece of a split begins with any separator-free prefix of the text. */
  lemma {:induction false} SplitFirstPrefix(x: string, y: string, sep: char)
    requires sep !in x
    ensures StartsWith(Split(x + y, sep)[0], x)
    decreases |x|
  {
    if x != [] {
      SplitFirstPrefix(x[1..], y, sep);
      assert (x + y)[1..] == x[1..] + y;
      assert [x[0]] + x[1..] == x;
    }
  }

  /** Joining pieces that do not contain `c`, with a separator other than `c`, does not introduce `c`. */
  lemma {:induction false} JoinNoSep(parts: seq<string>, sep: char, c: char)
    requires sep != c
    requires forall k :: 0 <= k < |parts| ==> c !in parts[k]
    ensures c !in Join(parts, sep)
    decreases |parts|
  {
    if |parts| > 1 {
      JoinNoSep(parts[1..], sep, c);
    }
  }

  lemma JoinTwo(a: string, b: string, sep: char)
    ensures Join([a, b], sep) == a + [sep] + b
  {
    assert [a, b][1..] == [b];
  }

  /** Splitting a join of separator-free pieces gives back the pieces. */
  lemma {:induction false} SplitJoin(parts: seq<string>, sep: char)
    requires |parts| >= 1
    requires forall k :: 0 <= k < |parts| ==> sep !in parts[k]
    ensures Split(Join(parts, sep), sep) == parts
    decreases |parts|
  {
    if |parts| == 1 {
      SplitNoSep(parts[0], sep);
    } else {
      SplitJoin(parts[1..], sep);
      SplitAfterSep(parts[0], Join(parts[1..], sep), sep);
      assert [parts[0]] + parts[1..] == parts;
    }
  }

  // ---------------------------------------------------------------------------
  // Stripping

  /** Python's `s.lstrip(chars)`. */
  function LStrip(s: string, chars: set<char>): (r: string)
    ensures |r| <= |s| && r == s[|s| - |r|..]
    ensures forall k :: 0 <= k < |s| - |r| ==> s[k] in chars
    ensures r == [] || r[0] !in chars
    decreases |s|
  {
    if s != [] && s[0] in chars then LStrip(s[1..], chars) else s
  }

  /** Python's `s.rstrip(chars)`. */
  function RStrip(s: string, chars: set<char>): (r: string)
    ensures |r| <= |s| && r == s[..|r|]
    ensures forall k :: |r| <= k < |s| ==> s[k] in chars
    ensures r == [] || r[|r| - 1] !in chars
    decreases |s|
  {
    if s != [] && s[|s| - 1] in chars then RStrip(s[..|s| - 1], chars) else s
  }

  /** Python's `s.strip(chars)`. */
  function Strip(s: string, chars: set<char>): (r: string)
    ensures r == [] || (r[0] !in chars && r[|r| - 1] !in chars)
  {
    RStrip(LStrip(s, chars), chars)
  }

  predicate AllIn(s: string, chars: set<char>) {
    forall k :: 0 <= k < |s| ==> s[k] in chars
  }

  lemma {:induction false} LStripPrefix(pre: string, rest: string, chars: set<char>)
    requires AllIn(pre, chars)
    requires rest == [] || rest[0] !in chars
    ensures LStrip(pre + rest, chars) == rest
    decreases |pre|
  {
    if pre != [] {
      assert (pre + rest)[1..] == pre[1..] + rest;
      LStripPrefix(pre[1..], rest, chars);
    }
  }

  lemma {:induction false} RStripSuffix(rest: string, post: string, chars: set<char>)
    requires AllIn(post, chars)
    requires rest == [] || rest[|rest| - 1] !in chars
    ensures RStrip(rest + post, chars) == rest
    decreases |post|
  {
    if post != [] {
      assert (rest + post)[..|rest + post| - 1] == rest + post[..|post| - 1];
      RStripSuffix(rest, post[..|post| - 1], chars);
    }
  }

  /**
    `strip` removes exactly the stripped characters at both ends: a text made of
    a run of such characters, a middle that neither starts nor ends with one,
    and another run, strips to that middle.
   */
  lemma StripExact(pre: string, mid: string, post: string, chars: set<char>)
    requires AllIn(pre, chars) && AllIn(post, chars)
    requires mid == [] || (mid[0] !in chars && mid[|mid| - 1] !in chars)
    ensures Strip(pre + mid + post, chars) == mid
  {
    if mid == [] {
      assert pre + mid + post == pre + post;
      assert AllIn(pre + post, chars);
      LStripPrefix(pre + post, [], chars);
      assert pre + post + [] == pre + post;
    } else {
      assert pre + mid + post == pre + (mid + post);
      LStripPrefix(pre, mid + post, chars);
      RStripSuffix(mid, post, chars);
    }
  }

  /** Stripping twice is stripping once. */
  lemma StripIdempotent(s: string, chars: set<char>)
    ensures Strip(Strip(s, chars), chars) == Strip(s, chars)
  {
    var r := Strip(s, chars);
    StripExact([], r, [], chars);
    assert [] + r + [] == r;
  }

  /**
    The characters Python's argument-less `strip()` removes (`str.isspace`):
    tab to carriage return, the four information separators and space, NEL,
    no-break space, the Ogham space mark, the typographic spaces U+2000 to
    U+200A, the line and paragraph separators, and three more spaces.
   */
  predicate IsSpace(c: char) {
    || '\t' <= c <= '\r'
    || '\U{001C}' <= c <= ' '
    || c == '\U{0085}' || c == '\U{00A0}' || c == '\U{1680}'
    || '\U{2000}' <= c <= '\U{200A}'
    || c == '\U{2028}' || c == '\U{2029}' || c == '\U{202F}' || c == '\U{205F}' || c == '\U{3000}'
  }

  const Whitespace: set<char> := set c: char | IsSpace(c)

  // ---------------------------------------------------------------------------
  // Case (ASCII letters only)

  predicate IsAsciiUpper(c: char) { 'A' <= c <= 'Z' }
  predicate IsAsciiLower(c: char) { 'a' <= c <= 'z' }

  function LowerChar(c: char): (d: char)
    ensures !IsAsciiUpper(d)
    ensures !IsAsciiUpper(c) ==> d == c
  {
    if IsAsciiUpper(c) then (c as int + 32) as char else c
  }

  function UpperChar(c: char): (d: char)
    ensures !IsAsciiLower(d)
    ensures !IsAsciiLower(c) ==> d == c
  {
    if IsAsciiLower(c) then (c as int - 32) as char else c
  }

  /** Python's `s.lower()`: the same length, no upper-case letter left. */
  function Lower(s: string): (r: string)
    ensures |r| == |s|
    ensures forall k :: 0 <= k < |r| ==> !IsAsciiUpper(r[k])
  {
    seq(|s|, k requires 0 <= k < |s| => LowerChar(s[k]))
  }

  /** Python's `s.upper()`: the same length, no lower-case letter left. */
  function Upper(s: string): (r: string)
    ensures |r| == |s|
    ensures forall k :: 0 <= k < |r| ==> !IsAsciiLower(r[k])
  {
    seq(|s|, k requires 0 <= k < |s| => UpperChar(s[k]))
  }

  /** Python's `s.isupper()`: at least one cased character and none in lower case. */
  predicate IsUpper(s: string) {
    (exists k :: 0 <= k < |s| && IsAsciiUpper(s[k]))
    && forall k :: 0 <= k < |s| ==> !IsAsciiLower(s[k])
  }

  // ---------------------------------------------------------------------------
  // Decimal numbers

  predicate IsDigit(c: char) { '0' <= c <= '9' }

  /** Python's `s.isnumeric()` restricted to the ASCII digits. */
  predicate IsNumeric(s: string) {
    |s| > 0 && forall k :: 0 <= k < |s| ==> IsDigit(s[k])
  }

  function DigitChar(d: nat): (c: char)
    requires d < 10
    ensures IsDigit(c)
  {
    ('0' as int + d) as char
  }

  function DigitValue(c: char): nat
    requires IsDigit(c)
  {
    c as int - '0' as int
  }

  /** The value of a string of decimal digits. */
  function DigitsValue(s: string): nat
    requires forall k :: 0 <= k < |s| ==> IsDigit(s[k])
    decreases |s|
  {
    if s == [] then 0 else DigitsValue(s[..|s| - 1]) * 10 + DigitValue(s[|s| - 1])
  }

  /** Python's `str(n)` for a natural number. */
  function NatToString(n: nat): (s: string)
    ensures IsNumeric(s)
    decreases n
  {
    if n < 10 then [DigitChar(n)] else NatToString(n / 10) + [DigitChar(n % 10)]
  }

  /** `str(n)` has no leading zero: only `0` itself starts with the digit 0. */
  lemma {:induction false} NatToStringCanonical(n: nat)
    requires NatToString(n)[0] == '0'
    ensures n == 0
    decreases n
  {
    if n >= 10 {
      assert NatToString(n)[0] == NatToString(n / 10)[0];
      NatToStringCanonical(n / 10);
    }
  }

  /** Python's `str(i)`. */
  function IntToString(i: int): (s: string)
    ensures |s| >= 1
  {
    if i < 0 then "-" + NatToString(-i) else NatToString(i)
  }

  /**
    Python's `int(s)`: an optional sign followed by decimal digits; anything
    else raises ValueError (here `None`).
   */
  function ParseInt(s: string): (r: Option<int>)
    ensures r.Some? ==> |s| >= 1
  {
    if |s| >= 1 && (s[0] == '+' || s[0] == '-') then
      if IsNumeric(s[1..]) then
        var v: int := DigitsValue(s[1..]);
        Some(if s[0] == '-' then -v else v)
      else None
    else if IsNumeric(s) then Some(DigitsValue(s))
    else None
  }

  /** Reading back the decimal text of a natural number gives the number. */
  lemma {:induction false} DigitsValueNatToString(n: nat)
    ensures DigitsValue(NatToString(n)) == n
    decreases n
  {
    if n >= 10 {
      DigitsValueNatToString(n / 10);
      var s := NatToString(n);
      assert s[..|s| - 1] == NatToString(n / 10);
    }
  }

  /** `int(str(i)) == i`. */
  lemma ParseIntToString(i: int)
    ensures ParseInt(IntToString(i)) == Some(i)
  {
    if i < 0 {
      var s := IntToString(i);
      assert s[1..] == NatToString(-i);
      DigitsValueNatToString(-i);
    } else {
      DigitsValueNatToString(i);
    }
  }

  /** Different numbers have different decimal texts. */
  lemma NatToStringInjective(a: nat, b: nat)
    requires NatToString(a) == NatToString(b)
    ensures a == b
  {
    DigitsValueNatToString(a);
    DigitsValueNatToString(b);
  }

  // ---------------------------------------------------------------------------
  // Replacement

  /** Python's `s.replace(pat, rep)`: every occurrence, left to right, without overlap. */
  function ReplaceAll(s: string, pat: string, rep: string): string
    requires |pat| > 0
    decreases |s|
  {
    if |s| < |pat| then s
    else if s[..|pat|] == pat then rep + ReplaceAll(s[|pat|..], pat, rep)
    else [s[0]] + ReplaceAll(s[1..], pat, rep)
  }

  /** A text without any occurrence of `pat` is left alone. */
  lemma {:induction false} ReplaceAllAbsent(s: string, pat: string, rep: string)
    requires |pat| > 0
    requires !Contains(s, pat)
    ensures ReplaceAll(s, pat, rep) == s
    decreases |s|
  {
    if |s| >= |pat| {
      assert s[..|pat|] != pat;
      ReplaceAllAbsent(s[1..], pat, rep);
      assert [s[0]] + s[1..] == s;
    }
  }

  /** Python's `sep.join(parts)` for a separator of any length. */
  function JoinText(parts: seq<string>, sep: string): string
    decreases |parts|
  {
    if |parts| == 0 then []
    else if |parts| == 1 then parts[0]
    else parts[0] + sep + JoinText(parts[1..], sep)
  }

  /**
    Python's `s.split(pat)`: the pieces between the occurrences of `pat`,
    found from left to right without overlap, as `replace` finds them.
   */
  function SplitText(s: string, pat: string): (parts: seq<string>)
    requires |pat| > 0
    ensures |parts| >= 1
    decreases |s|
  {
    if |s| < |pat| then [s]
    else if s[..|pat|] == pat then [[]] + SplitText(s[|pat|..], pat)
    else
      var rest := SplitText(s[1..], pat);
      [[s[0]] + rest[0]] + rest[1..]
  }

  /** Extending the first piece extends the joined text in front. */
  lemma JoinTextPrepend(x: string, parts: seq<string>, sep: string)
    requires |parts| >= 1
    ensures JoinText([x + parts[0]] + parts[1..], sep) == x + JoinText(parts, sep)
  {
    var ps := [x + parts[0]] + parts[1..];
    if |parts| > 1 {
      assert ps[1..] == parts[1..];
    }
  }

  /** A piece found at the front, then the rest: the joined pieces start with the separator. */
  lemma JoinTextEmptyFront(parts: seq<string>, sep: string)
    requires |parts| >= 1
    ensures JoinText([[]] + parts, sep) == sep + JoinText(parts, sep)
  {
    assert ([[]] + parts)[1..] == parts;
  }

  /**
    The pieces of a split, joined by the pattern, give back the text; no
    piece contains the pattern.
   */
  lemma {:induction false} SplitTextJoin(s: string, pat: string)
    requires |pat| > 0
    ensures JoinText(SplitText(s, pat), pat) == s
    ensures forall k :: 0 <= k < |SplitText(s, pat)| ==> !Contains(SplitText(s, pat)[k], pat)
    decreases |s|
  {
    var parts := SplitText(s, pat);
    if |s| < |pat| {
      ShortAbsent(s, pat);
    } else if s[..|pat|] == pat {
      var rest := SplitText(s[|pat|..], pat);
      SplitTextJoin(s[|pat|..], pat);
      JoinTextEmptyFront(rest, pat);
      assert pat + s[|pat|..] == s;
      assert parts[0] == [] && parts[1..] == rest;
      assert !Contains(parts[0], pat);
    } else {
      var rest := SplitText(s[1..], pat);
      SplitTextJoin(s[1..], pat);
      JoinTextPrepend([s[0]], rest, pat);
      assert [s[0]] + s[1..] == s;
      assert parts[1..] == rest[1..];
      JoinTextFirst(rest, pat);
      FirstPieceAbsent(s, pat, rest[0]);
      assert forall k :: 1 <= k < |parts| ==> parts[k] == rest[k];
    }
  }

  lemma ShortAbsent(s: string, pat: string)
    requires |s| < |pat|
    ensures !Contains(s, pat)
  {
    ContainsIff(s, pat);
  }

  /**
    The first piece, when the text does not start with the pattern, is its
    first character before a piece without the pattern, and is a prefix of
    the text; so it does not contain the pattern either.
   */
  lemma FirstPieceAbsent(s: string, pat: string, f: string)
    requires |pat| > 0 && |s| >= |pat| && s[..|pat|] != pat
    requires !Contains(f, pat)
    requires StartsWith(s[1..], f)
    ensures !Contains([s[0]] + f, pat)
  {
    var x := [s[0]] + f;
    assert !StartsWith(x, pat) by {
      if |x| >= |pat| {
        assert x[..|pat|] == s[..|pat|];
      }
    }
    assert x[1..] == f;
  }

  /** The joined text starts with the first piece. */
  lemma JoinTextFirst(parts: seq<string>, sep: string)
    requires |parts| >= 1
    ensures StartsWith(JoinText(parts, sep), parts[0])
  {
    if |parts| > 1 {
      assert JoinText(parts, sep) == parts[0] + (sep + JoinText(parts[1..], sep));
    }
  }

  /** `replace` puts the replacement between the pieces of the split. */
  lemma {:induction false} ReplaceAllSplit(s: string, pat: string, rep: string)
    requires |pat| > 0
    ensures ReplaceAll(s, pat, rep) == JoinText(SplitText(s, pat), rep)
    decreases |s|
  {
    if |s| < |pat| {
    } else if s[..|pat|] == pat {
      ReplaceAllSplit(s[|pat|..], pat, rep);
      JoinTextEmptyFront(SplitText(s[|pat|..], pat), rep);
    } else {
      var rest := SplitText(s[1..], pat);
      ReplaceAllSplit(s[1..], pat, rep);
      JoinTextPrepend([s[0]], rest, rep);
    }
  }

  /**
    When no occurrence of the pattern can start in `p` and run on into `t`
    (`t` starts with no proper part of the pattern's end), `replace` works on
    `p` and `t` separately.
   */
  lemma {:induction false} ReplaceAllConcat(p: string, t: string, pat: string, rep: string)
    requires |pat| > 0
    requires forall k :: 0 < k < |pat| ==> !StartsWith(t, pat[k..])
    ensures ReplaceAll(p + t, pat, rep) == ReplaceAll(p, pat, rep) + ReplaceAll(t, pat, rep)
    decreases |p|
  {
    if p == [] {
      assert p + t == t;
    } else if StartsWith(p, pat) {
      ReplaceAllConcat(p[|pat|..], t, pat, rep);
      ConcatMatchStep(p, t, pat, rep);
    } else {
      ReplaceAllConcat(p[1..], t, pat, rep);
      NoStraddle(p, t, pat);
      ConcatCopyStep(p, t, pat, rep);
    }
  }

  /** A separator that `replace` passes over, and that no occurrence runs into, splits the work in two. */
  lemma ReplaceAllAroundSeparator(p: string, sep: string, y: string, pat: string, rep: string)
    requires |pat| > 0
    requires forall k :: 0 < k < |pat| ==> !StartsWith(sep + y, pat[k..])
    requires ReplaceAll(sep + y, pat, rep) == sep + ReplaceAll(y, pat, rep)
    ensures ReplaceAll(p + sep + y, pat, rep) == ReplaceAll(p, pat, rep) + sep + ReplaceAll(y, pat, rep)
  {
    ReplaceAllConcat(p, sep + y, pat, rep);
    assert p + sep + y == p + (sep + y);
  }

  /** The step of `ReplaceAllConcat` where `p` starts with the pattern. */
  lemma ConcatMatchStep(p: string, t: string, pat: string, rep: string)
    requires |pat| > 0 && StartsWith(p, pat)
    requires ReplaceAll(p[|pat|..] + t, pat, rep) == ReplaceAll(p[|pat|..], pat, rep) + ReplaceAll(t, pat, rep)
    ensures ReplaceAll(p + t, pat, rep) == ReplaceAll(p, pat, rep) + ReplaceAll(t, pat, rep)
  {
    assert (p + t)[..|pat|] == pat;
    assert (p + t)[|pat|..] == p[|pat|..] + t;
  }

  /** The step of `ReplaceAllConcat` where `p` does not start with the pattern. */
  lemma ConcatCopyStep(p: string, t: string, pat: string, rep: string)
    requires |pat| > 0 && p != [] && !StartsWith(p, pat) && !StartsWith(p + t, pat)
    requires ReplaceAll(p[1..] + t, pat, rep) == ReplaceAll(p[1..], pat, rep) + ReplaceAll(t, pat, rep)
    ensures ReplaceAll(p + t, pat, rep) == ReplaceAll(p, pat, rep) + ReplaceAll(t, pat, rep)
  {
    CopyHeadConcat(p, t, pat, rep);
    CopyHead(p, pat, rep);
  }

  /** `CopyHead` for a text given as two parts. */
  lemma CopyHeadConcat(p: string, t: string, pat: string, rep: string)
    requires |pat| > 0 && p != [] && !StartsWith(p + t, pat)
    ensures ReplaceAll(p + t, pat, rep) == [p[0]] + ReplaceAll(p[1..] + t, pat, rep)
  {
    var s := p + t;
    CopyHead(s, pat, rep);
    assert s[1..] == p[1..] + t;
  }

  /** An occurrence at the front of `p + t` lies in `p`, or `t` would start with a proper part of the pattern's end. */
  lemma NoStraddle(p: string, t: string, pat: string)
    requires |pat| > 0 && p != [] && !StartsWith(p, pat)
    requires forall k :: 0 < k < |pat| ==> !StartsWith(t, pat[k..])
    ensures !StartsWith(p + t, pat)
  {
    var s := p + t;
    if |p| >= |pat| {
      assert s[..|pat|] == p[..|pat|];
    } else if |s| >= |pat| {
      var k := |p|;
      assert !StartsWith(t, pat[k..]);
      assert s[..|pat|][k..] == t[..|pat| - k];
    }
  }

  /** A text that does not start with the pattern keeps its first character in front. */
  lemma CopyHead(s: string, pat: string, rep: string)
    requires s != [] && |pat| > 0 && !StartsWith(s, pat)
    ensures ReplaceAll(s, pat, rep) == [s[0]] + ReplaceAll(s[1..], pat, rep)
  {
    if |s| < |pat| {
      assert ReplaceAll(s[1..], pat, rep) == s[1..];
      assert [s[0]] + s[1..] == s;
    }
  }
}
