/**
  `replace_url_suffix`: the URL of an index label becomes the URL of its table
  by swapping the suffix of the URL's path, keeping upper-case file names
  upper-case. Splitting the URL into its five parts and joining them again
  (`urlsplit`/`urlunsplit`) is left to the URL library; the model works on the
  split parts.
 */
module UrlSuffix {
  import opened Common
  import opened PyStr
  import opened PurePath

  /** The five parts `urlsplit` returns. */
  datatype SplitUrl = SplitUrl(scheme: string, netloc: string, path: string, query: string, fragment: string)


  /**
    The suffix of the URL path is replaced by `newSuffix`, written in upper
    case when the old suffix is upper case. Only the path changes; a path
    without a file name, or an invalid new suffix, raises ValueError.
   */
  function ReplaceUrlSuffix(url: SplitUrl, newSuffix: string): (r: Result<SplitUrl>)
    ensures r.Ok? ==> r.value == url.(path := r.value.path)
    ensures r.Err? <==> !ValidSuffix(newSuffix) || Name(ParsePath(url.path)) == []
    ensures r.Err? ==> r.error == ValueError
  {
    var p := ParsePath(url.path);
    var suffix := if IsUpper(Suffix(Name(p))) then Upper(newSuffix) else newSuffix;
    UpperKeepsValidity(newSuffix);
    match WithSuffix(p, suffix)
    case Err(e) => Err(e)
    case Ok(q) => Ok(url.(path := PathString(q)))
  }

  /** Upper-casing changes letters only, so it keeps a suffix valid or invalid. */
  lemma UpperKeepsValidity(s: string)
    ensures ValidSuffix(Upper(s)) <==> ValidSuffix(s)
    ensures |s| > 0 ==> ('.' in s[1..] <==> '.' in Upper(s)[1..])
  {
    var u := Upper(s);
    assert forall k :: 0 <= k < |s| ==> (u[k] == '/' <==> s[k] == '/') && (u[k] == '.' <==> s[k] == '.');
    if '/' in u {
      var k :| 0 <= k < |u| && u[k] == '/';
      assert s[k] == '/';
    }
    if '/' in s {
      var k :| 0 <= k < |s| && s[k] == '/';
      assert u[k] == '/';
    }
    if |s| > 0 {
      if '.' in s[1..] {
        var k :| 0 <= k < |s[1..]| && s[1..][k] == '.';
        assert u[1..][k] == '.';
      }
      if '.' in u[1..] {
        var k :| 0 <= k < |u[1..]| && u[1..][k] == '.';
        assert s[1..][k] == '.';
      }
      if s == "." {
        assert u == ".";
      }
      if u == "." {
        assert s[0] == '.';
        assert s == ".";
      }
    }
  }

  /**
    For a one-dot suffix such as `.tab` and a path with a file name, the new
    path keeps the directory and the stem, and its suffix is the new one,
    upper-cased exactly when the old suffix was upper case.
   */
  lemma ReplaceUrlSuffixKeepsCase(url: SplitUrl, newSuffix: string)
    requires Name(ParsePath(url.path)) != []
    requires |newSuffix| >= 2 && newSuffix[0] == '.' && '.' !in newSuffix[1..] && '/' !in newSuffix
    ensures ReplaceUrlSuffix(url, newSuffix).Ok?
    ensures var p := ParsePath(url.path);
            var q := ParsePath(ReplaceUrlSuffix(url, newSuffix).value.path);
            && Parent(q) == Parent(p)
            && Stem(Name(q)) == Stem(Name(p))
            && Suffix(Name(q)) == (if IsUpper(Suffix(Name(p))) then Upper(newSuffix) else newSuffix)
  {
    var p := ParsePath(url.path);
    var suffix := if IsUpper(Suffix(Name(p))) then Upper(newSuffix) else newSuffix;
    UpperKeepsValidity(newSuffix);
    assert Upper(newSuffix)[0] == '.';
    var q := WithSuffix(p, suffix).value;
    ParsePathString(q);
    assert ParsePath(ReplaceUrlSuffix(url, newSuffix).value.path) == q;
    assert q.parts[..|q.parts| - 1] == p.parts[..|p.parts| - 1];
    SuffixOfAppended(Stem(Name(p)), suffix);
    var n := Stem(Name(p)) + suffix;
    assert n[..|n| - |suffix|] == Stem(Name(p));
  }

  /** A suffix of one dot followed by at least one character, none of them a dot or a separator. */
  predicate OneDotSuffix(suffix: string) {
    |suffix| >= 2 && suffix[0] == '.' && '.' !in suffix[1..] && '/' !in suffix
  }

  /**
    The exact new URL path for a file `stem + ext` in a top-level directory:
    the same directory and stem, followed by the new suffix in the case of the
    old one.
   */
  lemma ReplaceUrlSuffixInDirectory(url: SplitUrl, dir: string, stem: string, ext: string, newSuffix: string)
    requires IsComponent(dir) && stem != [] && '/' !in stem
    requires OneDotSuffix(ext) && OneDotSuffix(newSuffix)
    requires url.path == "/" + dir + "/" + stem + ext
    ensures ReplaceUrlSuffix(url, newSuffix)
            == Ok(url.(path := "/" + dir + "/" + stem + (if IsUpper(ext) then Upper(newSuffix) else newSuffix)))
  {
    var suffix := if IsUpper(ext) then Upper(newSuffix) else newSuffix;
    var p := Path(true, [dir, stem + ext]);
    var q := Path(true, [dir, stem + suffix]);
    ParseTwoParts(dir, stem, ext);
    assert Suffix(Name(p)) == ext && Stem(stem + ext) == stem by {
      SuffixOfAppended(stem, ext);
    }
    assert WithSuffix(p, suffix) == Ok(q) by {
      UpperKeepsValidity(newSuffix);
      WithSuffixOfTwoParts(dir, stem, ext, suffix);
    }
    ReplaceUrlSuffixBy(url, newSuffix, p, q);
    AbsoluteTwoParts(dir, stem, suffix);
  }

  /** The result of `ReplaceUrlSuffix` once the parsed path and its new form are known. */
  lemma ReplaceUrlSuffixBy(url: SplitUrl, newSuffix: string, p: Path, q: Path)
    requires ParsePath(url.path) == p
    requires WithSuffix(p, if IsUpper(Suffix(Name(p))) then Upper(newSuffix) else newSuffix) == Ok(q)
    ensures ReplaceUrlSuffix(url, newSuffix) == Ok(url.(path := PathString(q)))
  {
  }

  /** The text of an absolute path of two parts, the second a stem and a suffix. */
  lemma AbsoluteTwoParts(dir: string, stem: string, ext: string)
    ensures PathString(Path(true, [dir, stem + ext])) == "/" + dir + "/" + stem + ext
  {
    JoinTwo(dir, stem + ext, '/');
    assert "/" + (dir + ['/'] + (stem + ext)) == "/" + dir + "/" + stem + ext;
  }

  /** Parsing the text of an absolute path of two parts gives those parts back. */
  lemma ParseTwoParts(dir: string, stem: string, ext: string)
    requires IsComponent(dir) && stem != [] && '/' !in stem && '/' !in ext && ext != []
    ensures ParsePath("/" + dir + "/" + stem + ext) == Path(true, [dir, stem + ext])
  {
    var p := Path(true, [dir, stem + ext]);
    assert Normal(p) by {
      assert '/' !in stem + ext;
      assert |stem + ext| >= 2;
    }
    AbsoluteTwoParts(dir, stem, ext);
    ParsePathString(p);
  }

  /** A new suffix replaces only the second of two parts. */
  lemma WithSuffixOfTwoParts(dir: string, stem: string, ext: string, suffix: string)
    requires stem != [] && OneDotSuffix(ext) && OneDotSuffix(suffix)
    requires Stem(stem + ext) == stem
    ensures WithSuffix(Path(true, [dir, stem + ext]), suffix) == Ok(Path(true, [dir, stem + suffix]))
  {
    var p := Path(true, [dir, stem + ext]);
    assert Name(p) == stem + ext;
    assert p.parts[..1] + [stem + suffix] == [dir, stem + suffix];
  }
}
