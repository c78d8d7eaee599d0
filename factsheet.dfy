/**
  The planetary fact sheet: the NASA table is read by an HTML reader outside
  this model, and what is modelled is how its texts are normalised. Each
  cell is turned into a truth value, a missing value or the stripped text,
  and each row heading into a lower-case identifier without units. The two
  copies of the code differ in what `convert_element` strips: spaces and
  stars in one, whitespace in the other.
 */
module Factsheet {
  import opened PyStr

  // ---------------------------------------------------------------------------
  // Cells

  /** A converted cell: Yes/No (1.0/0.0 in one copy, True/False in the other), NaN, or text. */
  datatype Cell = Flag(flag: bool) | Missing | Text(text: string)

  /** The characters `strip(' *')` removes. */
  const StarPadding: set<char> := {' ', '*'}

  /**
    The choice both copies make on the stripped text: an exact "Yes" or "No"
    first, then any text containing "Unknown", else the text itself.
   */
  function Classify(t: string): (c: Cell)
    ensures c == Flag(true) <==> t == "Yes"
    ensures c == Flag(false) <==> t == "No"
    ensures c == Missing <==> Contains(t, "Unknown")
    ensures c.Text? ==> c.text == t
  {
    NoUnknownInShort("Yes");
    NoUnknownInShort("No");
    if t == "Yes" then Flag(true)
    else if t == "No" then Flag(false)
    else if Contains(t, "Unknown") then Missing
    else Text(t)
  }

  /** `convert_element` of the newer copy: the cell text stripped of spaces and stars, then classified. */
  function ConvertStarred(el: string): (c: Cell)
    ensures c.Text? ==> c.text == [] || (c.text[0] !in StarPadding && c.text[|c.text| - 1] !in StarPadding)
    ensures c.Text? ==> !Contains(c.text, "Unknown")
  {
    Classify(Strip(el, StarPadding))
  }

  /** `convert_element` of the older copy: the cell text stripped of whitespace, then classified. */
  function ConvertPlain(el: string): (c: Cell)
    ensures c.Text? ==> c.text == [] || (c.text[0] !in Whitespace && c.text[|c.text| - 1] !in Whitespace)
    ensures c.Text? ==> !Contains(c.text, "Unknown")
  {
    Classify(Strip(el, Whitespace))
  }

  /**
    Padding around a text does not change how it converts: a text that
    neither starts nor ends with a space or a star, surrounded by spaces and
    stars, converts as the bare text does (so `* Yes *` is true).
   */
  lemma ConvertStarredPadded(pre: string, mid: string, post: string)
    requires AllIn(pre, StarPadding) && AllIn(post, StarPadding)
    requires mid == [] || (mid[0] !in StarPadding && mid[|mid| - 1] !in StarPadding)
    ensures ConvertStarred(pre + mid + post) == Classify(mid)
  {
    StripExact(pre, mid, post, StarPadding);
  }

  /** The same for whitespace and the older copy. */
  lemma ConvertPlainPadded(pre: string, mid: string, post: string)
    requires AllIn(pre, Whitespace) && AllIn(post, Whitespace)
    requires mid == [] || (mid[0] !in Whitespace && mid[|mid| - 1] !in Whitespace)
    ensures ConvertPlain(pre + mid + post) == Classify(mid)
  {
    StripExact(pre, mid, post, Whitespace);
  }

  /** Text left as text converts to itself again: converting is stable. */
  lemma ConvertStable(el: string)
    ensures ConvertStarred(el).Text? ==> ConvertStarred(ConvertStarred(el).text) == ConvertStarred(el)
    ensures ConvertPlain(el).Text? ==> ConvertPlain(ConvertPlain(el).text) == ConvertPlain(el)
  {
    StripIdempotent(el, StarPadding);
    StripIdempotent(el, Whitespace);
  }

  /**
    The copies disagree on a footnote star: a cell text followed by `*` (the
    one padding character that is not whitespace)
    converts as the bare text in the newer copy (so `Yes*` is true), while
    the older copy keeps the star and never reads such a cell as Yes or No.
   */
  lemma FootnoteStar(mid: string, star: char)
    requires star in StarPadding && star !in Whitespace
    requires mid != [] && mid[0] !in StarPadding && mid[0] !in Whitespace
    requires mid[|mid| - 1] !in StarPadding
    ensures ConvertStarred(mid + [star]) == Classify(mid)
    ensures ConvertPlain(mid + [star]) == Classify(mid + [star])
    ensures !ConvertPlain(mid + [star]).Flag?
  {
    StarStripped(mid, star);
    StarKept(mid, star);
    PaddedNotFlag(mid + [star]);
  }

  lemma StarStripped(mid: string, star: char)
    requires star in StarPadding
    requires mid != [] && mid[0] !in StarPadding && mid[|mid| - 1] !in StarPadding
    ensures ConvertStarred(mid + [star]) == Classify(mid)
  {
    assert AllIn([star], StarPadding);
    assert mid + [star] == [] + mid + [star];
    ConvertStarredPadded([], mid, [star]);
  }

  lemma StarKept(mid: string, star: char)
    requires star !in Whitespace
    requires mid != [] && mid[0] !in Whitespace
    ensures ConvertPlain(mid + [star]) == Classify(mid + [star])
  {
    var t := mid + [star];
    assert t[|t| - 1] == star && t[0] == mid[0];
    assert t == [] + t + [];
    ConvertPlainPadded([], t, []);
  }

  /** "Yes" and "No" end in a letter, so a text ending in a space or a star is neither. */
  lemma PaddedNotFlag(t: string)
    requires t != [] && t[|t| - 1] in StarPadding
    ensures !Classify(t).Flag?
  {
    var yes := "Yes";
    var no := "No";
    assert yes[|yes| - 1] == 's' && no[|no| - 1] == 'o';
  }

  /** A text shorter than "Unknown" does not contain it. */
  lemma NoUnknownInShort(t: string)
    requires |t| < 7
    ensures !Contains(t, "Unknown")
  {
    ContainsIff(t, "Unknown");
  }

  // ---------------------------------------------------------------------------
  // Row headings as identifiers

  /** Each occurrence of `a` replaced by `b`, everything else in place. */
  function ReplaceChar(s: string, a: char, b: char): (r: string)
    ensures |r| == |s|
  {
    seq(|s|, k requires 0 <= k < |s| => if s[k] == a then b else s[k])
  }

  lemma JoinPrepend(x: string, parts: seq<string>, sep: char)
    requires |parts| >= 1
    ensures Join([x + parts[0]] + parts[1..], sep) == x + Join(parts, sep)
  {
    var ps := [x + parts[0]] + parts[1..];
    if |parts| > 1 {
      assert ps[1..] == parts[1..];
    }
  }

  /** `'_'.join(t.split(' '))` replaces every space by an underscore. */
  lemma {:induction false} JoinSplitReplaces(s: string, a: char, b: char)
    ensures Join(Split(s, a), b) == ReplaceChar(s, a, b)
    decreases |s|
  {
    if s != [] {
      JoinSplitReplaces(s[1..], a, b);
      var rest := Split(s[1..], a);
      if s[0] == a {
        assert Split(s, a) == [[]] + rest;
        if |rest| == 1 {
          assert Join([[]] + rest, b) == [] + [b] + Join(rest, b) by {
            assert ([[]] + rest)[1..] == rest;
          }
        } else {
          assert ([[]] + rest)[1..] == rest;
        }
        assert ReplaceChar(s, a, b) == [b] + ReplaceChar(s[1..], a, b);
      } else {
        JoinPrepend([s[0]], rest, b);
        assert ReplaceChar(s, a, b) == [s[0]] + ReplaceChar(s[1..], a, b);
      }
    }
  }

  /** The heading before its first `(`, stripped and lower-cased. */
  function FirstToken(index: string): string {
    Lower(Strip(Split(index, '(')[0], Whitespace))
  }

  /**
    The two renames, the ring-system one checked first; every other name,
    and an identifier's shape, is kept.
   */
  function Rename(attr: string): (r: string)
    ensures StartsWith(attr, "ring_system") ==> r == "is_ring_system"
    ensures !StartsWith(attr, "ring_system") && StartsWith(attr, "global_magnetic") ==> r == "has_global_magnetic_field"
    ensures !StartsWith(attr, "ring_system") && !StartsWith(attr, "global_magnetic") ==> r == attr
    ensures r != attr ==> StartsWith(attr, "ring_system") || StartsWith(attr, "global_magnetic")
    ensures Normalised(attr) ==> Normalised(r)
  {
    RenamesNormalised();
    if StartsWith(attr, "ring_system") then "is_ring_system"
    else if StartsWith(attr, "global_magnetic") then "has_global_magnetic_field"
    else attr
  }

  /** What an identifier looks like: no `(`, no space, no upper case, no whitespace at either end. */
  predicate Normalised(attr: string) {
    && '(' !in attr
    && ' ' !in attr
    && (forall k :: 0 <= k < |attr| ==> !IsAsciiUpper(attr[k]))
    && (attr == [] || (attr[0] !in Whitespace && attr[|attr| - 1] !in Whitespace))
  }

  /**
    `map_pretty_index_to_attribute`: the heading without its units, stripped,
    lower-cased and with spaces as underscores, then renamed when it starts
    with `ring_system` or `global_magnetic`.
   */
  function Identifier(index: string): (attr: string)
    ensures attr == Rename(ReplaceChar(FirstToken(index), ' ', '_'))
    ensures Normalised(attr)
  {
    var t := FirstToken(index);
    JoinSplitReplaces(t, ' ', '_');
    UnderscoredNormalised(index);
    RenamesNormalised();
    Rename(Join(Split(t, ' '), '_'))
  }

  /** Lower-casing turns no character into whitespace or into `(`. */
  lemma LowerCharKeeps(c: char)
    ensures LowerChar(c) in Whitespace ==> c in Whitespace
    ensures LowerChar(c) == '(' ==> c == '('
  {
  }

  lemma UnderscoredNormalised(index: string)
    ensures Normalised(ReplaceChar(FirstToken(index), ' ', '_'))
  {
    var s := Strip(Split(index, '(')[0], Whitespace);
    LowerKeeps(s);
    UnderscoreKeeps(Lower(s));
  }

  /** Lower-casing a stripped text without `(` keeps it so. */
  lemma LowerKeeps(s: string)
    requires '(' !in s && (s == [] || (s[0] !in Whitespace && s[|s| - 1] !in Whitespace))
    ensures var t := Lower(s); '(' !in t && (t == [] || (t[0] !in Whitespace && t[|t| - 1] !in Whitespace))
  {
    var t := Lower(s);
    forall k | 0 <= k < |t|
      ensures t[k] != '('
    {
      LowerCharKeeps(s[k]);
    }
    if t != [] {
      LowerCharKeeps(s[0]);
      LowerCharKeeps(s[|s| - 1]);
    }
  }

  /** Replacing spaces by underscores in such a lower-case text gives an identifier. */
  lemma UnderscoreKeeps(t: string)
    requires '(' !in t && (t == [] || (t[0] !in Whitespace && t[|t| - 1] !in Whitespace))
    requires forall k :: 0 <= k < |t| ==> !IsAsciiUpper(t[k])
    ensures Normalised(ReplaceChar(t, ' ', '_'))
  {
    var u := ReplaceChar(t, ' ', '_');
    assert forall k :: 0 <= k < |u| ==> u[k] == t[k] || u[k] == '_';
    if u != [] {
      assert '_' !in Whitespace;
    }
  }

  /** A name of lower-case letters and underscores is an identifier. */
  lemma SnakeCaseNormalised(attr: string)
    requires forall k :: 0 <= k < |attr| ==> IsAsciiLower(attr[k]) || attr[k] == '_'
    ensures Normalised(attr)
  {
    if attr != [] {
      assert attr[0] !in Whitespace;
      assert attr[|attr| - 1] !in Whitespace;
    }
  }

  lemma RenamesNormalised()
    ensures Normalised("is_ring_system") && Normalised("has_global_magnetic_field")
  {
    SnakeCaseNormalised("is_ring_system");
    SnakeCaseNormalised("has_global_magnetic_field");
  }

  /** An identifier maps to itself, up to the renames. */
  lemma NormalisedFixed(attr: string)
    requires Normalised(attr)
    ensures Identifier(attr) == Rename(attr)
  {
    FirstTokenFixed(attr);
    assert ReplaceChar(attr, ' ', '_') == attr;
  }

  lemma FirstTokenFixed(attr: string)
    requires Normalised(attr)
    ensures FirstToken(attr) == attr
  {
    SplitNoSep(attr, '(');
    assert Strip(attr, Whitespace) == attr by {
      StripExact([], attr, [], Whitespace);
      assert [] + attr + [] == attr;
    }
    assert Lower(attr) == attr;
  }

  /** The renamed identifiers are left as they are by a second rename. */
  lemma RenameFixed()
    ensures Rename("is_ring_system") == "is_ring_system"
    ensures Rename("has_global_magnetic_field") == "has_global_magnetic_field"
  {
    var a := "is_ring_system";
    var b := "has_global_magnetic_field";
    assert a[..11][0] != "ring_system"[0];
    assert b[..11][0] != "ring_system"[0];
    assert b[..15][0] != "global_magnetic"[0];
  }

  /** Normalising an identifier again leaves it unchanged. */
  lemma IdentifierIdempotent(index: string)
    ensures Identifier(Identifier(index)) == Identifier(index)
  {
    var attr := Identifier(index);
    NormalisedFixed(attr);
    RenameFixed();
  }

  /** `lstrip` of a concatenation: the second part is reached only when the first strips away entirely. */
  lemma {:induction false} LStripAppend(x: string, y: string, chars: set<char>)
    ensures LStrip(x + y, chars) == if LStrip(x, chars) == [] then LStrip(y, chars) else LStrip(x, chars) + y
    decreases |x|
  {
    if x == [] {
      assert x + y == y;
    } else {
      assert (x + y)[0] == x[0];
      assert (x + y)[1..] == x[1..] + y;
      if x[0] in chars {
        LStripAppend(x[1..], y, chars);
      }
    }
  }

  /** Whitespace at the end of a text does not survive `strip()`. */
  lemma StripTrailing(x: string, w: char, chars: set<char>)
    requires w in chars
    ensures Strip(x + [w], chars) == Strip(x, chars)
  {
    LStripAppend(x, [w], chars);
    var l := LStrip(x, chars);
    if l == [] {
      assert [w][1..] == [];
    } else {
      assert (l + [w])[..|l|] == l;
    }
  }

  /**
    The units in parentheses are removed: a heading `name (units)` gives the
    identifier of the bare name.
   */
  lemma IdentifierDropsUnits(name: string, units: string)
    requires '(' !in name
    ensures Identifier(name + " (" + units + ")") == Identifier(name)
  {
    var heading := name + " (" + units + ")";
    assert heading == (name + " ") + ['('] + (units + ")");
    SplitAfterSep(name + " ", units + ")", '(');
    SplitNoSep(name, '(');
    StripTrailing(name, ' ', Whitespace);
  }

  // ---------------------------------------------------------------------------
  // Exponents in the headings

  /**
    The headings' exponents as the HTML table lost them: "1024" becomes
    "10^24", then "106" becomes "10^6". Taken together: the heading is cut
    at each `1024`, the millions are rewritten inside each piece, and the
    pieces are joined by `10^24`; no `106` is found across a cut.
   */
  function RewriteExponents(heading: string): (r: string)
    ensures r == JoinText(RewriteMillions(SplitText(heading, "1024")), "10^24")
  {
    ReplaceAllSplit(heading, "1024", "10^24");
    MillionOverJoin(SplitText(heading, "1024"));
    ReplaceAll(ReplaceAll(heading, "1024", "10^24"), "106", "10^6")
  }

  /** Each piece with its `106`s rewritten to `10^6`. */
  function RewriteMillions(parts: seq<string>): (r: seq<string>)
    ensures |r| == |parts|
    ensures forall i :: 0 <= i < |parts| ==> r[i] == ReplaceAll(parts[i], "106", "10^6")
  {
    seq(|parts|, i requires 0 <= i < |parts| => ReplaceAll(parts[i], "106", "10^6"))
  }

  /** The inserted `10^24` is never part of a `106`, so the million rewrite passes over it. */
  lemma SepUntouched(y: string)
    ensures ReplaceAll("10^24" + y, "106", "10^6") == "10^24" + ReplaceAll(y, "106", "10^6")
  {
    var s := "10^24" + y;
    assert s[0] == '1' && s[2] == '^';
    ReplaceAllNoMatchAt(s, "106", "10^6", 2);
    assert s[1..] == "0^24" + y;
    ReplaceAllSkips("0^24", y, "106", "10^6");
    assert [s[0]] + ("0^24" + ReplaceAll(y, "106", "10^6")) == "10^24" + ReplaceAll(y, "106", "10^6");
  }

  /** The million rewrite works on each side of a `10^24` separately. */
  lemma MillionBarrier(p: string, y: string)
    ensures ReplaceAll(p + "10^24" + y, "106", "10^6")
         == ReplaceAll(p, "106", "10^6") + "10^24" + ReplaceAll(y, "106", "10^6")
  {
    SepNoOverlap("10^24" + y);
    SepUntouched(y);
    ReplaceAllAroundSeparator(p, "10^24", y, "106", "10^6");
  }

  /** A text starting with `1` starts with no proper part of the end of `106`. */
  lemma SepNoOverlap(t: string)
    requires t != [] && t[0] == '1'
    ensures forall k :: 0 < k < 3 ==> !StartsWith(t, "106"[k..])
  {
    forall k | 0 < k < 3
      ensures !StartsWith(t, "106"[k..])
    {
      assert "106"[k..][0] != '1';
    }
  }

  /** Rewriting millions in text joined by `10^24` rewrites each piece. */
  lemma {:induction false} MillionOverJoin(parts: seq<string>)
    ensures ReplaceAll(JoinText(parts, "10^24"), "106", "10^6") == JoinText(RewriteMillions(parts), "10^24")
    decreases |parts|
  {
    var ms := RewriteMillions(parts);
    if |parts| == 0 {
      assert ReplaceAll([], "106", "10^6") == [];
    } else if |parts| == 1 {
    } else {
      MillionBarrier(parts[0], JoinText(parts[1..], "10^24"));
      MillionOverJoin(parts[1..]);
      assert ms[1..] == RewriteMillions(parts[1..]);
    }
  }

  /** A text without the first character of the pattern is left alone, and stays in front of what follows. */
  lemma {:induction false} ReplaceAllSkips(x: string, y: string, pat: string, rep: string)
    requires |pat| > 0 && pat[0] !in x
    ensures ReplaceAll(x + y, pat, rep) == x + ReplaceAll(y, pat, rep)
    decreases |x|
  {
    if x == [] {
      assert x + y == y;
    } else {
      var s := x + y;
      assert s[0] == x[0] && s[1..] == x[1..] + y;
      ReplaceAllSkips(x[1..], y, pat, rep);
      ReplaceAllNoMatch(s, pat, rep);
      assert [x[0]] + x[1..] == x;
    }
  }

  /** A text that does not start with the pattern's first character keeps that character in front. */
  lemma ReplaceAllNoMatch(s: string, pat: string, rep: string)
    requires |pat| > 0 && s != [] && s[0] != pat[0]
    ensures ReplaceAll(s, pat, rep) == [s[0]] + ReplaceAll(s[1..], pat, rep)
  {
    if |s| < |pat| {
      ReplaceAllShort(s[1..], pat, rep);
      assert [s[0]] + s[1..] == s;
    } else {
      assert s[..|pat|][0] == s[0];
    }
  }

  lemma ReplaceAllShort(s: string, pat: string, rep: string)
    requires |pat| > 0 && |s| < |pat|
    ensures ReplaceAll(s, pat, rep) == s
  {
  }

  /** A pattern at the front is replaced and the rest is rewritten on its own. */
  lemma ReplaceAllFront(pat: string, y: string, rep: string)
    requires |pat| > 0
    ensures ReplaceAll(pat + y, pat, rep) == rep + ReplaceAll(y, pat, rep)
  {
    assert (pat + y)[..|pat|] == pat;
    assert (pat + y)[|pat|..] == y;
  }

  /** One occurrence of the pattern, with no other place its first character appears, is replaced. */
  lemma ReplaceOnly(pre: string, pat: string, post: string, rep: string)
    requires |pat| > 0 && pat[0] !in pre && pat[0] !in post
    ensures ReplaceAll(pre + pat + post, pat, rep) == pre + rep + post
  {
    assert pre + pat + post == pre + (pat + post);
    ReplaceAllSkips(pre, pat + post, pat, rep);
    ReplaceAllFront(pat, post, rep);
    ReplaceAllSkips(post, [], pat, rep);
    assert post + [] == post;
    ReplaceAllShort([], pat, rep);
    assert pre + (rep + post) == pre + rep + post;
  }

  /** A middle part the rewrite leaves alone, between parts without the pattern's first character, is left alone. */
  lemma KeepOnly(pre: string, mid: string, post: string, pat: string, rep: string)
    requires |pat| > 0 && pat[0] !in pre
    requires ReplaceAll(mid + post, pat, rep) == mid + post
    ensures ReplaceAll(pre + mid + post, pat, rep) == pre + mid + post
  {
    assert pre + mid + post == pre + (mid + post);
    ReplaceAllSkips(pre, mid + post, pat, rep);
  }

  /**
    A heading whose only `1` starts the exponent `1024` gets `10^24` in its
    place, and the second rewrite does not touch it.
   */
  lemma RewriteMassExponent(pre: string, post: string)
    requires '1' !in pre && '1' !in post
    ensures RewriteExponents(pre + "1024" + post) == pre + "10^24" + post
  {
    ReplaceOnly(pre, "1024", post, "10^24");
    RewriteRepUntouched(post);
    KeepOnly(pre, "10^24", post, "106", "10^6");
  }

  /** The inserted `10^24` is not an occurrence of `106`. */
  lemma RewriteRepUntouched(post: string)
    requires '1' !in post
    ensures ReplaceAll("10^24" + post, "106", "10^6") == "10^24" + post
  {
    var s := "10^24" + post;
    assert s[0] == '1' && s[2] == '^';
    ReplaceAllNoMatchAt(s, "106", "10^6", 2);
    assert s[1..] == "0^24" + post;
    ReplaceAllSkips("0^24", post, "106", "10^6");
    ReplaceAllSkips(post, [], "106", "10^6");
    assert post + [] == post;
    ReplaceAllShort([], "106", "10^6");
    assert [s[0]] + s[1..] == s;
  }

  /** `106` is not an occurrence of `1024`. */
  lemma MillionUntouched(post: string)
    requires '1' !in post
    ensures ReplaceAll("106" + post, "1024", "10^24") == "106" + post
  {
    var s := "106" + post;
    assert s[0] == '1' && s[2] == '6';
    ReplaceAllNoMatchAt(s, "1024", "10^24", 2);
    assert s[1..] == "06" + post;
    ReplaceAllSkips("06" + post, [], "1024", "10^24");
    assert "06" + post + [] == "06" + post;
    ReplaceAllShort([], "1024", "10^24");
    assert [s[0]] + s[1..] == s;
  }

  /** A text that differs from the pattern at some position within both does not start with it. */
  lemma ReplaceAllNoMatchAt(s: string, pat: string, rep: string, i: nat)
    requires s != [] && |pat| > 0 && i < |pat| && (i < |s| ==> s[i] != pat[i])
    ensures ReplaceAll(s, pat, rep) == [s[0]] + ReplaceAll(s[1..], pat, rep)
  {
    if |s| < |pat| {
      ReplaceAllShort(s[1..], pat, rep);
      assert [s[0]] + s[1..] == s;
    } else {
      assert s[..|pat|][i] == s[i];
    }
  }

  /**
    A heading whose only `1` starts `106` gets `10^6` in its place; the first
    rewrite does not touch it.
   */
  lemma RewriteMillionExponent(pre: string, post: string)
    requires '1' !in pre && '1' !in post
    ensures RewriteExponents(pre + "106" + post) == pre + "10^6" + post
  {
    MillionUntouched(post);
    KeepOnly(pre, "106", post, "1024", "10^24");
    ReplaceOnly(pre, "106", post, "10^6");
  }

  /** A heading with no `1` at all is left alone by both rewrites. */
  lemma RewriteWithoutOne(heading: string)
    requires '1' !in heading
    ensures RewriteExponents(heading) == heading
  {
    ReplaceAllSkips(heading, [], "1024", "10^24");
    ReplaceAllSkips(heading, [], "106", "10^6");
    assert heading + [] == heading;
    assert ReplaceAll([], "1024", "10^24") == [];
    assert ReplaceAll([], "106", "10^6") == [];
  }
}
