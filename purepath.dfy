/**
  The POSIX flavour of Python's `pathlib` as the modelled code uses it:
  `Path(s)`, `str(path)`, `.parent`, `/`, `.name`, `.suffix` and `.with_suffix`.
 */
module PurePath {
  import opened Common
  import opened PyStr

  /** A path as pathlib holds it: rooted or relative, and its named components. */
  datatype Path = Path(absolute: bool, parts: seq<string>)

  /** A component pathlib keeps: not empty, not `.`, no separator. */
  predicate IsComponent(x: string) {
    x != [] && x != "." && '/' !in x
  }

  predicate Normal(p: Path) {
    forall k :: 0 <= k < |p.parts| ==> IsComponent(p.parts[k])
  }

  /** Drops the empty and `.` pieces of a split path. */
  function KeepComponents(pieces: seq<string>): (r: seq<string>)
    ensures |r| <= |pieces|
    ensures forall k :: 0 <= k < |r| ==> IsComponent(r[k])
    decreases |pieces|
  {
    if pieces == [] then []
    else if IsComponent(pieces[0]) then [pieces[0]] + KeepComponents(pieces[1..])
    else KeepComponents(pieces[1..])
  }

  /** `Path(s)`: empty and `.` components are dropped. */
  function ParsePath(s: string): (p: Path)
    ensures Normal(p)
    ensures p.absolute <==> StartsWith(s, "/")
  {
    Path(StartsWith(s, "/"), KeepComponents(Split(s, '/')))
  }

  /** `str(path)`. */
  function PathString(p: Path): string {
    if p.absolute then "/" + Join(p.parts, '/')
    else if p.parts == [] then "."
    else Join(p.parts, '/')
  }

  lemma {:induction false} KeepComponentsAll(pieces: seq<string>)
    requires forall k :: 0 <= k < |pieces| ==> IsComponent(pieces[k])
    ensures KeepComponents(pieces) == pieces
    decreases |pieces|
  {
    if pieces != [] {
      KeepComponentsAll(pieces[1..]);
    }
  }

  /** Reading back the text of a normal path gives the same path. */
  lemma ParsePathString(p: Path)
    requires Normal(p)
    ensures ParsePath(PathString(p)) == p
  {
    var s := PathString(p);
    if p.parts == [] {
      if p.absolute {
        assert Split("/", '/') == [[], []];
      } else {
        SplitNoSep(".", '/');
      }
    } else {
      SplitJoin(p.parts, '/');
      KeepComponentsAll(p.parts);
      var body := Join(p.parts, '/');
      if p.absolute {
        assert s == [] + ['/'] + body;
        SplitAfterSep([], body, '/');
        assert KeepComponents(Split(s, '/')) == KeepComponents(Split(body, '/'));
      } else {
        assert p.parts[0] != [] && p.parts[0][0] != '/';
        assert Join(p.parts, '/')[0] == p.parts[0][0];
      }
    }
  }

  /** `path.parent`: the path without its last component (a bare root or `.` is its own parent). */
  function Parent(p: Path): (q: Path)
    ensures q.absolute == p.absolute
    ensures p.parts != [] ==> q.parts == p.parts[..|p.parts| - 1]
    ensures p.parts == [] ==> q == p
  {
    if p.parts == [] then p else Path(p.absolute, p.parts[..|p.parts| - 1])
  }

  /** `dir / name`: a rooted `name` replaces `dir`, a relative one is appended to it. */
  function JoinPath(dir: Path, name: string): (q: Path)
    ensures Normal(dir) ==> Normal(q)
  {
    var n := ParsePath(name);
    if n.absolute then n else Path(dir.absolute, dir.parts + n.parts)
  }

  /** `path.name`: the last component, or empty. */
  function Name(p: Path): string {
    if p.parts == [] then [] else p.parts[|p.parts| - 1]
  }

  /** Python's `s.rfind(c)`: the last position of `c`, or -1. */
  function RFind(s: string, c: char): (i: int)
    ensures -1 <= i < |s|
    ensures 0 <= i ==> s[i] == c
    ensures forall k :: i < k < |s| ==> s[k] != c
    decreases |s|
  {
    if s == [] then -1
    else if s[|s| - 1] == c then |s| - 1
    else RFind(s[..|s| - 1], c)
  }

  /** `path.suffix` of a name: from its last dot, unless that dot is first or last. */
  function Suffix(name: string): (r: string)
    ensures r == [] || (|r| >= 2 && r[0] == '.' && '.' !in r[1..] && |r| < |name| && EndsWith(name, r))
  {
    var i := RFind(name, '.');
    if 0 < i < |name| - 1 then name[i..] else []
  }

  /** The name without its suffix. */
  function Stem(name: string): (r: string)
    ensures name != [] ==> r != []
  {
    name[..|name| - |Suffix(name)|]
  }

  /** A suffix `with_suffix` accepts: empty, or a dot followed by something, without separator. */
  predicate ValidSuffix(suffix: string) {
    '/' !in suffix && (suffix == [] || (suffix[0] == '.' && suffix != "."))
  }

  /** `path.with_suffix(suffix)`: replace the suffix of the last component. */
  function WithSuffix(p: Path, suffix: string): (r: Result<Path>)
    ensures r.Err? <==> !ValidSuffix(suffix) || Name(p) == []
    ensures r.Err? ==> r.error == ValueError
    ensures r.Ok? ==> r.value.absolute == p.absolute && |r.value.parts| == |p.parts|
    ensures r.Ok? ==> r.value.parts[..|p.parts| - 1] == p.parts[..|p.parts| - 1]
    ensures r.Ok? ==> Name(r.value) == Stem(Name(p)) + suffix
    ensures r.Ok? && Normal(p) && suffix != [] ==> Normal(r.value)
  {
    if !ValidSuffix(suffix) then Err(ValueError)
    else if Name(p) == [] then Err(ValueError)
    else
      var name := Name(p);
      var newName := Stem(name) + suffix;
      assert Normal(p) && suffix != [] ==> IsComponent(newName) by {
        if Normal(p) && suffix != [] {
          assert IsComponent(p.parts[|p.parts| - 1]);
          assert forall k :: 0 <= k < |Stem(name)| ==> Stem(name)[k] == name[k];
          assert '/' !in Stem(name);
        }
      }
      var q := Path(p.absolute, p.parts[..|p.parts| - 1] + [newName]);
      assert q.parts[..|p.parts| - 1] == p.parts[..|p.parts| - 1];
      Ok(q)
  }

  /**
    A one-dot suffix written after a non-empty stem is that name's suffix, and
    the stem is what remains without it.
   */
  lemma SuffixOfAppended(stem: string, suffix: string)
    requires stem != []
    requires |suffix| >= 2 && suffix[0] == '.' && '.' !in suffix[1..]
    ensures Suffix(stem + suffix) == suffix
    ensures Stem(stem + suffix) == stem
  {
    var n := stem + suffix;
    forall k | |stem| < k < |n| ensures n[k] != '.' {
      assert n[k] == suffix[1..][k - |stem| - 1];
    }
    assert n[|stem|] == '.';
    assert RFind(n, '.') == |stem|;
    assert n[|stem|..] == suffix;
  }
}
