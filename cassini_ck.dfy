/**
  Cassini CK (attitude) kernel names (`CK_FNAME`), the search that sorts them
  into old-style, new-style and special names (`CKSEARCH`), and the choice of
  the highest version (`find_highest_version`). A regular CK name reads
  `<start>_<end><type><version>.bc`: a start date of five (YYDOY, new style)
  or six (YYMMDD, old style) digits, an end date of the same width, a type
  letter `r`, `p` or `c`, and a version character.
 */
module CassiniCk {
  import opened Common
  import opened PyStr
  import opened CassiniNames

  /** `CK_FNAME.tokens`. */
  function Tokens(fname: string): (tokens: seq<string>)
    ensures |tokens| >= 1
  {
    SplitName(fname).tokens
  }

  /**
    `CK_FNAME.type_index`: 6 after a six-character first token (`is_len6`), 5
    otherwise; for a start date of either width, the type character comes
    right after an end date as wide as the start date.
   */
  function TypeIndex(fname: string): (i: nat)
    ensures i == 5 || i == 6
    ensures |Tokens(fname)[0]| == 5 || |Tokens(fname)[0]| == 6 ==> i == |Tokens(fname)[0]|
  {
    if |Tokens(fname)[0]| == 6 then 6 else 5
  }

  /**
    `CK_FNAME.type`: the character of the second token at the type index, or
    None when the second token or that character is missing.
   */
  function CkType(fname: string): (t: Option<char>)
    ensures t.Some? <==> |Tokens(fname)| >= 2 && TypeIndex(fname) < |Tokens(fname)[1]|
    ensures t.Some? ==> t.value == Tokens(fname)[1][TypeIndex(fname)]
  {
    var tokens := Tokens(fname);
    if |tokens| >= 2 && TypeIndex(fname) < |tokens[1]| then Some(tokens[1][TypeIndex(fname)]) else None
  }

  /** `CK_FNAME.version`: the character after the type character; IndexError when it is missing. */
  function CkVersion(fname: string): (r: Result<char>)
    ensures r.Err? ==> r.error == IndexError
    ensures r.Ok? <==> |Tokens(fname)| >= 2 && TypeIndex(fname) + 1 < |Tokens(fname)[1]|
    ensures r.Ok? ==> CkType(fname).Some? && r.value == Tokens(fname)[1][TypeIndex(fname) + 1]
  {
    var tokens := Tokens(fname);
    if |tokens| >= 2 && TypeIndex(fname) + 1 < |tokens[1]| then Ok(tokens[1][TypeIndex(fname) + 1])
    else Err(IndexError)
  }

  predicate IsKnownType(t: Option<char>) {
    t == Some('r') || t == Some('p') || t == Some('c')
  }

  /**
    `CK_FNAME.is_special`: two or three tokens, a numeric first token and a
    type of `r`, `p` or `c` make a regular name; anything else is special.
   */
  predicate CkIsSpecial(fname: string)
    ensures var tokens := Tokens(fname);
            !CkIsSpecial(fname) <==>
              && (|tokens| == 2 || |tokens| == 3)
              && IsNumeric(tokens[0])
              && TypeIndex(fname) < |tokens[1]|
              && tokens[1][TypeIndex(fname)] in {'r', 'p', 'c'}
  {
    var tokens := Tokens(fname);
    |tokens| < 2 || |tokens| > 3 || !IsNumeric(tokens[0]) || !IsKnownType(CkType(fname))
  }

  /** `CK_FNAME.is_old_style`: a six-character start date; special names raise TypeError. */
  function CkIsOldStyle(fname: string): (r: Result<bool>)
    ensures r.Err? <==> CkIsSpecial(fname)
    ensures r.Err? ==> r.error == TypeError
    ensures r.Ok? ==> (r.value <==> |Tokens(fname)[0]| == 6)
  {
    if CkIsSpecial(fname) then Err(TypeError) else Ok(|Tokens(fname)[0]| == 6)
  }

  /** `CK_FNAME.start_date`: the first token as a date; any failure gives None. */
  function CkStartDate(fname: string, strptime: DateParser): (d: Option<Date>)
    ensures d.Some? <==> CasDate2Dt(Tokens(fname)[0], strptime).Ok?
    ensures d.Some? ==> d.value == CasDate2Dt(Tokens(fname)[0], strptime).value
  {
    match CasDate2Dt(Tokens(fname)[0], strptime)
    case Ok(v) => Some(v)
    case Err(_) => None
  }

  /**
    `CK_FNAME.end_date` as written: the first five characters of the second
    token as a date, whatever the width of the start date. A missing second
    token raises IndexError.
   */
  function CkEndDate(fname: string, strptime: DateParser): (r: Result<Date>)
    ensures |Tokens(fname)| < 2 ==> r == Err(IndexError)
    ensures |Tokens(fname)| >= 2 ==> r == CasDate2Dt(Slice(Tokens(fname)[1], 0, 5), strptime)
  {
    var tokens := Tokens(fname);
    if |tokens| < 2 then Err(IndexError) else CasDate2Dt(Slice(tokens[1], 0, 5), strptime)
  }

  /**
    The end date as the type index implies it: the end date is as wide as the
    start date, so it is the part of the second token before the type
    character, read as YYMMDD when it has six digits.
   */
  function CkEndDateIntended(fname: string, strptime: DateParser): (r: Result<Date>)
    ensures |Tokens(fname)| < 2 ==> r == Err(IndexError)
    ensures TypeIndex(fname) == 5 ==> r == CkEndDate(fname, strptime)
    ensures |Tokens(fname)| >= 2 ==> r == CasDate2Dt(Slice(Tokens(fname)[1], 0, TypeIndex(fname)), strptime)
  {
    var tokens := Tokens(fname);
    if |tokens| < 2 then Err(IndexError) else CasDate2Dt(Slice(tokens[1], 0, TypeIndex(fname)), strptime)
  }

  /** Which end date the hit test reads: the one `end_date` computes, or the intended one. */
  datatype EndReading = AsWritten | Intended

  /** The end date under the given reading. */
  function EndDate(fname: string, strptime: DateParser, reading: EndReading): (r: Result<Date>)
    ensures reading == AsWritten ==> r == CkEndDate(fname, strptime)
    ensures reading == Intended ==> r == CkEndDateIntended(fname, strptime)
  {
    match reading
    case AsWritten => CkEndDate(fname, strptime)
    case Intended => CkEndDateIntended(fname, strptime)
  }

  // ---------------------------------------------------------------------------
  // Regular names

  /** The regular CK name with the given fields. */
  function CkFileName(start: string, end: string, t: char, v: char, ext: string): string {
    start + "_" + end + [t, v] + "." + ext
  }

  predicate NoSeparator(x: string) {
    '_' !in x && '.' !in x
  }

  /**
    A regular name is classified by its fields: it is not special, its type
    and version are the two characters after the end date, it is old style
    exactly when the start date has six digits, its start date is the start
    field read as a date and its intended end date the end field.
   */
  lemma RegularCkName(start: string, end: string, t: char, v: char, ext: string, strptime: DateParser)
    requires IsNumeric(start) && (|start| == 5 || |start| == 6)
    requires IsNumeric(end) && |end| == |start|
    requires t == 'r' || t == 'p' || t == 'c'
    requires v != '_' && v != '.'
    requires '.' !in ext
    ensures var fname := CkFileName(start, end, t, v, ext);
            && Tokens(fname) == [start, end + [t, v]]
            && !CkIsSpecial(fname)
            && CkType(fname) == Some(t)
            && CkVersion(fname) == Ok(v)
            && CkIsOldStyle(fname) == Ok(|start| == 6)
            && CkStartDate(fname, strptime).Some? == CasDate2Dt(start, strptime).Ok?
            && CkEndDateIntended(fname, strptime) == CasDate2Dt(end, strptime)
  {
    assert NoSeparator(start) && NoSeparator(end);
    var second := end + [t, v];
    assert NoSeparator(second);
    SplitNameOfJoin([start, second], [ext]);
    var fname := CkFileName(start, end, t, v, ext);
    JoinTwo(start, second, '_');
    JoinTwo(start + "_" + second, ext, '.');
    assert fname == Join([Join([start, second], '_')] + [ext], '.');
    assert Tokens(fname) == [start, second];
    assert second[..|end|] == end;
  }

  /**
    As written, the end date of an old-style name is read from only the first
    five of its six digits, as a day of the year.
   */
  lemma OldStyleEndDateAsWritten(start: string, end: string, t: char, v: char, ext: string, strptime: DateParser)
    requires IsNumeric(start) && |start| == 6
    requires IsNumeric(end) && |end| == 6
    requires t == 'r' || t == 'p' || t == 'c'
    requires v != '_' && v != '.'
    requires '.' !in ext
    ensures CkEndDate(CkFileName(start, end, t, v, ext), strptime) == CasDate2Dt(end[..5], strptime)
  {
    RegularCkName(start, end, t, v, ext, strptime);
    assert (end + [t, v])[..5] == end[..5];
  }

  /**
    So two old-style names that differ only in the last digit of the end date
    get the same end date, whatever the date parser: `000201_000207ra.bc` and
    `000201_000208ra.bc` both end on day 20 of 2000.
   */
  lemma EndDateIgnoresLastDigit(strptime: DateParser)
    ensures CkEndDate(CkFileName("000201", "000207", 'r', 'a', "bc"), strptime)
            == CkEndDate(CkFileName("000201", "000208", 'r', 'a', "bc"), strptime)
            == CasDate2Dt("00020", strptime)
  {
    OldStyleEndDateAsWritten("000201", "000207", 'r', 'a', "bc", strptime);
    OldStyleEndDateAsWritten("000201", "000208", 'r', 'a', "bc", strptime);
    assert "000207"[..5] == "00020" == "000208"[..5];
  }

  /**
    With the intended reading the end date is the whole end field: for an
    old-style name its six digits read as YYMMDD.
   */
  lemma OldStyleEndDateIntended(start: string, end: string, t: char, v: char, ext: string, strptime: DateParser)
    requires IsNumeric(start) && |start| == 6
    requires IsNumeric(end) && |end| == 6
    requires t == 'r' || t == 'p' || t == 'c'
    requires v != '_' && v != '.'
    requires '.' !in ext
    ensures CkEndDateIntended(CkFileName(start, end, t, v, ext), strptime).Ok?
            <==> strptime(end, YearMonthDay).Some?
    ensures CkEndDateIntended(CkFileName(start, end, t, v, ext), strptime).Ok?
            ==> CkEndDateIntended(CkFileName(start, end, t, v, ext), strptime).value == strptime(end, YearMonthDay).value
  {
    RegularCkName(start, end, t, v, ext, strptime);
  }

  // ---------------------------------------------------------------------------
  // Sorting names into buckets

  datatype CkStyle = Special | OldStyle | NewStyle

  /** The bucket `sort_fnames` puts a name in; label files (`.lbl`) go nowhere. */
  function BucketOf(fname: string): (b: Option<CkStyle>)
    ensures b.None? <==> EndsWith(fname, ".lbl")
    ensures b == Some(Special) <==> !EndsWith(fname, ".lbl") && CkIsSpecial(fname)
    ensures b == Some(OldStyle) <==> !EndsWith(fname, ".lbl") && CkIsOldStyle(fname) == Ok(true)
    ensures b == Some(NewStyle) <==> !EndsWith(fname, ".lbl") && CkIsOldStyle(fname) == Ok(false)
  {
    if EndsWith(fname, ".lbl") then None
    else match CkIsOldStyle(fname)
      case Err(_) => Some(Special)
      case Ok(isOld) => if isOld then Some(OldStyle) else Some(NewStyle)
  }

  /** The names of `fnames` that belong in bucket `style`, in their order. */
  function Bucket(fnames: seq<string>, style: CkStyle): (b: seq<string>)
    ensures forall x :: x in b <==> x in fnames && BucketOf(x) == Some(style)
    decreases |fnames|
  {
    if fnames == [] then []
    else
      var last := fnames[|fnames| - 1];
      Bucket(fnames[..|fnames| - 1], style) + (if BucketOf(last) == Some(style) then [last] else [])
  }

  /** A bucket of two runs of names is the bucket of the first run, then that of the second. */
  lemma {:induction false} BucketConcat(a: seq<string>, b: seq<string>, style: CkStyle)
    ensures Bucket(a + b, style) == Bucket(a, style) + Bucket(b, style)
    decreases |b|
  {
    if b == [] {
      assert a + b == a;
    } else {
      assert (a + b)[..|a + b| - 1] == a + b[..|b| - 1];
      BucketConcat(a, b[..|b| - 1], style);
    }
  }

  /** The names of `fnames` that are not label files, in their order. */
  function NonLabels(fnames: seq<string>): (r: seq<string>)
    ensures forall x :: x in r <==> x in fnames && !EndsWith(x, ".lbl")
    decreases |fnames|
  {
    if fnames == [] then []
    else
      var last := fnames[|fnames| - 1];
      NonLabels(fnames[..|fnames| - 1]) + (if EndsWith(last, ".lbl") then [] else [last])
  }

  /**
    The three buckets together hold every name that is not a label file, each
    exactly as often as it occurs in `fnames`.
   */
  lemma {:induction false} BucketsPartition(fnames: seq<string>)
    ensures multiset(Bucket(fnames, Special)) + multiset(Bucket(fnames, OldStyle)) + multiset(Bucket(fnames, NewStyle))
            == multiset(NonLabels(fnames))
    decreases |fnames|
  {
    if fnames != [] {
      BucketsPartition(fnames[..|fnames| - 1]);
    }
  }

  /**
    The hit test of `search_target`: start date at or before the target and
    end date at or after it, the end date read as `reading` says. A missing
    start date fails the comparison with TypeError; the end date is read only
    when the start date passes.
   */
  function Hit(fname: string, target: Date, strptime: DateParser, reading: EndReading): (r: Result<bool>)
    ensures CkStartDate(fname, strptime).None? ==> r == Err(TypeError)
    ensures r == Ok(true) <==>
              && CkStartDate(fname, strptime).Some?
              && CkStartDate(fname, strptime).value <= target
              && EndDate(fname, strptime, reading).Ok?
              && EndDate(fname, strptime, reading).value >= target
    ensures r.Err? <==>
              || CkStartDate(fname, strptime).None?
              || (CkStartDate(fname, strptime).value <= target && EndDate(fname, strptime, reading).Err?)
  {
    match CkStartDate(fname, strptime)
    case None => Err(TypeError)   // None compared with a time
    case Some(s) =>
      if s <= target then
        match EndDate(fname, strptime, reading)
        case Err(e) => Err(e)
        case Ok(e) => Ok(e >= target)
      else Ok(false)
  }

  /** The names of `fnames` that contain the target, or the first error met. */
  function Hits(fnames: seq<string>, target: Date, strptime: DateParser, reading: EndReading): Result<seq<string>>
    decreases |fnames|
  {
    if fnames == [] then Ok([])
    else
      var last := fnames[|fnames| - 1];
      match Hits(fnames[..|fnames| - 1], target, strptime, reading)
      case Err(e) => Err(e)
      case Ok(h) =>
        match Hit(last, target, strptime, reading)
        case Err(e) => Err(e)
        case Ok(b) => Ok(if b then h + [last] else h)
  }

  /**
    The search fails exactly when the test fails on some name; otherwise the
    hits are exactly the names whose dates enclose the target.
   */
  lemma {:induction false} HitsExact(fnames: seq<string>, target: Date, strptime: DateParser, reading: EndReading)
    ensures Hits(fnames, target, strptime, reading).Err? <==>
              exists k :: 0 <= k < |fnames| && Hit(fnames[k], target, strptime, reading).Err?
    ensures Hits(fnames, target, strptime, reading).Ok? ==>
              forall x :: x in Hits(fnames, target, strptime, reading).value <==>
                x in fnames && Hit(x, target, strptime, reading) == Ok(true)
    decreases |fnames|
  {
    if fnames != [] {
      var init := fnames[..|fnames| - 1];
      var last := fnames[|fnames| - 1];
      HitsExact(init, target, strptime, reading);
      assert forall k :: 0 <= k < |init| ==> init[k] == fnames[k];
      assert fnames == init + [last];
      if Hits(fnames, target, strptime, reading).Err? && Hits(init, target, strptime, reading).Ok? {
        assert Hit(fnames[|fnames| - 1], target, strptime, reading).Err?;
      }
      if Hits(fnames, target, strptime, reading).Ok? {
        forall x | x in fnames && Hit(x, target, strptime, reading).Ok?
          ensures x in init || x == last
        {
        }
      }
    }
  }

  /**
    `CKSEARCH`: the target time, the names searched, and the three lists
    `sort_fnames` fills. The change date between old and new style is a class
    constant of the source, given here at construction because dates are
    abstract.
   */
  class CkSearch {
    const target: Date
    const changeDate: Date
    const fnames: seq<string>
    var oldStyle: seq<string>
    var newStyle: seq<string>
    var special: seq<string>

    /** The three lists are the buckets of `fnames`. */
    predicate Sorted()
      reads this
    {
      && special == Bucket(fnames, Special)
      && oldStyle == Bucket(fnames, OldStyle)
      && newStyle == Bucket(fnames, NewStyle)
    }

    constructor (target: Date, fnames: seq<string>, changeDate: Date)
      ensures this.target == target && this.fnames == fnames && this.changeDate == changeDate
      ensures Sorted()
    {
      this.target := target;
      this.fnames := fnames;
      this.changeDate := changeDate;
      oldStyle := [];
      newStyle := [];
      special := [];
      new;
      SortFnames();
    }

    /**
      `sort_fnames`: every name that is not a label file is appended to the
      list of its style, in input order.
     */
    method SortFnames()
      modifies this
      ensures Sorted()
    {
      oldStyle := [];
      newStyle := [];
      special := [];
      for i := 0 to |fnames|
        invariant special == Bucket(fnames[..i], Special)
        invariant oldStyle == Bucket(fnames[..i], OldStyle)
        invariant newStyle == Bucket(fnames[..i], NewStyle)
      {
        var fname := fnames[i];
        assert fnames[..i + 1][..i] == fnames[..i];
        if EndsWith(fname, ".lbl") {
          continue;
        }
        if CkIsSpecial(fname) {
          special := special + [fname];
        } else if CkIsOldStyle(fname).value {
          oldStyle := oldStyle + [fname];
        } else {
          newStyle := newStyle + [fname];
        }
      }
      assert fnames[..|fnames|] == fnames;
    }

    /**
      `search_target`: the old-style names before the change date, the
      new-style ones from it on, filtered by the hit test in order.
     */
    method SearchTarget(strptime: DateParser, reading: EndReading) returns (hits: Result<seq<string>>)
      requires Sorted()
      ensures hits == Hits(Bucket(fnames, if target < changeDate then OldStyle else NewStyle), target, strptime, reading)
    {
      var toSearch := if target < changeDate then oldStyle else newStyle;
      assert toSearch == Bucket(fnames, if target < changeDate then OldStyle else NewStyle);
      var found: seq<string> := [];
      for i := 0 to |toSearch|
        invariant Hits(toSearch[..i], target, strptime, reading) == Ok(found)
      {
        var hit := Hit(toSearch[i], target, strptime, reading);
        HitsStep(toSearch, i, target, strptime, reading);
        if hit.Err? {
          HitsErrorStays(toSearch, i + 1, target, strptime, reading);
          return Err(hit.error);
        }
        if hit.value {
          found := found + [toSearch[i]];
        }
      }
      assert toSearch[..|toSearch|] == toSearch;
      hits := Ok(found);
    }
  }

  /** One more name: the search of the longer prefix adds that name's test to the shorter one's. */
  lemma HitsStep(fnames: seq<string>, i: nat, target: Date, strptime: DateParser, reading: EndReading)
    requires i < |fnames|
    ensures var prev := Hits(fnames[..i], target, strptime, reading);
            var hit := Hit(fnames[i], target, strptime, reading);
            Hits(fnames[..i + 1], target, strptime, reading) ==
              if prev.Err? then prev
              else if hit.Err? then Err(hit.error)
              else Ok(if hit.value then prev.value + [fnames[i]] else prev.value)
  {
    assert fnames[..i + 1][..i] == fnames[..i];
  }

  /** Once the search of a prefix fails, the search of the whole list fails with the same error. */
  lemma {:induction false} HitsErrorStays(fnames: seq<string>, i: nat, target: Date, strptime: DateParser, reading: EndReading)
    requires i <= |fnames|
    requires Hits(fnames[..i], target, strptime, reading).Err?
    ensures Hits(fnames, target, strptime, reading) == Hits(fnames[..i], target, strptime, reading)
    decreases |fnames| - i
  {
    if i < |fnames| {
      assert fnames[..i + 1][..i] == fnames[..i];
      HitsErrorStays(fnames, i + 1, target, strptime, reading);
    } else {
      assert fnames[..i] == fnames;
    }
  }

  /** The search of a single name is that name's hit test. */
  lemma HitsSingle(fname: string, target: Date, strptime: DateParser, reading: EndReading)
    ensures Hit(fname, target, strptime, reading) == Ok(false) ==> Hits([fname], target, strptime, reading) == Ok([])
    ensures Hit(fname, target, strptime, reading) == Ok(true) ==> Hits([fname], target, strptime, reading) == Ok([fname])
  {
    assert [fname][..0] == [];
    assert Hits([], target, strptime, reading) == Ok([]);
    assert [] + [fname] == [fname];
  }

  /**
    The hit test of a regular old-style name whose start date is at or before
    the target: as written it compares the target with the first five end
    digits read as a day of the year, as intended with the six read as YYMMDD.
   */
  lemma OldStyleHit(start: string, end: string, t: char, v: char, ext: string, strptime: DateParser, target: Date)
    requires IsNumeric(start) && |start| == 6
    requires IsNumeric(end) && |end| == 6
    requires t == 'r' || t == 'p' || t == 'c'
    requires v != '_' && v != '.'
    requires '.' !in ext
    requires strptime(start, YearMonthDay).Some? && strptime(start, YearMonthDay).value <= target
    ensures var fname := CkFileName(start, end, t, v, ext);
            strptime(end[..5], YearDayOfYear).Some? ==>
              Hit(fname, target, strptime, AsWritten) == Ok(strptime(end[..5], YearDayOfYear).value >= target)
    ensures var fname := CkFileName(start, end, t, v, ext);
            strptime(end, YearMonthDay).Some? ==>
              Hit(fname, target, strptime, Intended) == Ok(strptime(end, YearMonthDay).value >= target)
  {
    RegularCkName(start, end, t, v, ext, strptime);
    OldStyleEndDateAsWritten(start, end, t, v, ext, strptime);
  }

  /** A regular name with a six-digit start field, not a label file, goes to the old-style bucket. */
  lemma OldStyleBucket(start: string, end: string, t: char, v: char, ext: string)
    requires IsNumeric(start) && |start| == 6
    requires IsNumeric(end) && |end| == 6
    requires t == 'r' || t == 'p' || t == 'c'
    requires v != '_' && v != '.'
    requires '.' !in ext && |ext| >= 1 && ext[|ext| - 1] != 'l'
    ensures BucketOf(CkFileName(start, end, t, v, ext)) == Some(OldStyle)
  {
    var fname := CkFileName(start, end, t, v, ext);
    RegularCkName(start, end, t, v, ext, (s: string, f: DateFormat) => None);
    assert fname[|fname| - 1] == ext[|ext| - 1];
    assert !EndsWith(fname, ".lbl") by {
      if |fname| >= 4 { assert fname[|fname| - 4..][3] == fname[|fname| - 1]; }
    }
  }

  /**
    What the end date as written costs the search: an old-style kernel for
    1 to 7 February 2000 is not found for a target inside that week, once
    day 20 of 2000 (what `end_date` reads from `000207`) lies before the
    target; the intended end date finds it.
   */
  lemma SearchMissesOldStyleKernel(strptime: DateParser, target: Date)
    requires strptime("000201", YearMonthDay).Some? && strptime("000207", YearMonthDay).Some?
    requires strptime("00020", YearDayOfYear).Some?
    requires strptime("000201", YearMonthDay).value <= target <= strptime("000207", YearMonthDay).value
    requires strptime("00020", YearDayOfYear).value < target
    ensures var fname := CkFileName("000201", "000207", 'r', 'a', "bc");
            && BucketOf(fname) == Some(OldStyle)
            && Hits([fname], target, strptime, AsWritten) == Ok([])
            && Hits([fname], target, strptime, Intended) == Ok([fname])
  {
    var fname := CkFileName("000201", "000207", 'r', 'a', "bc");
    assert "000207"[..5] == "00020";
    OldStyleHit("000201", "000207", 'r', 'a', "bc", strptime, target);
    OldStyleBucket("000201", "000207", 'r', 'a', "bc");
    HitsSingle(fname, target, strptime, AsWritten);
    HitsSingle(fname, target, strptime, Intended);
  }

  // ---------------------------------------------------------------------------
  // The highest version

  /**
    `find_highest_version` from a position on, with the best version so far
    and its name: a name of type `r` is returned at once; otherwise a strictly
    greater version replaces the best one. A missing version raises IndexError.
   */
  function HighestFrom(fnames: seq<string>, version: char, best: string): Result<string>
    decreases |fnames|
  {
    if fnames == [] then Ok(best)
    else if CkType(fnames[0]) == Some('r') then Ok(fnames[0])
    else match CkVersion(fnames[0])
      case Err(e) => Err(e)
      case Ok(v) =>
        if v > version then HighestFrom(fnames[1..], v, fnames[0])
        else HighestFrom(fnames[1..], version, best)
  }

  /** `find_highest_version`: the loop over the names with the best version starting at '0'. */
  method FindHighestVersion(fnames: seq<string>) returns (r: Result<string>)
    ensures r == HighestFrom(fnames, '0', "")
  {
    var version := '0';
    var bestFname := "";
    for i := 0 to |fnames|
      invariant HighestFrom(fnames, '0', "") == HighestFrom(fnames[i..], version, bestFname)
    {
      var fname := fnames[i];
      assert fnames[i..][1..] == fnames[i + 1..];
      if CkType(fname) == Some('r') {
        return Ok(fname);
      }
      var v := CkVersion(fname);
      if v.Err? {
        return Err(v.error);
      }
      if v.value > version {
        version := v.value;
        bestFname := fname;
      }
    }
    r := Ok(bestFname);
  }

  /** Names none of which has type `r` and all of which have a version. */
  predicate AllOrdinary(fnames: seq<string>) {
    forall j :: 0 <= j < |fnames| ==> CkType(fnames[j]) != Some('r') && CkVersion(fnames[j]).Ok?
  }

  /** The version character of a name that has one. */
  function Ver(fname: string): char
    requires CkVersion(fname).Ok?
  {
    CkVersion(fname).value
  }

  /** No version of `fnames` exceeds `version`. */
  predicate NoneAbove(fnames: seq<string>, version: char)
    requires AllOrdinary(fnames)
  {
    forall j :: 0 <= j < |fnames| ==> Ver(fnames[j]) <= version
  }

  /**
    Name `i` has a version above `version`, no name has a greater one and
    every earlier name has a smaller one: it is the first name with the
    greatest version.
   */
  predicate Winner(fnames: seq<string>, i: int, version: char)
    requires AllOrdinary(fnames)
  {
    && 0 <= i < |fnames|
    && Ver(fnames[i]) > version
    && (forall j :: 0 <= j < |fnames| ==> Ver(fnames[j]) <= Ver(fnames[i]))
    && (forall j :: 0 <= j < i ==> Ver(fnames[j]) < Ver(fnames[i]))
  }

  /**
    The first name of type `r` is the answer when every name before it has a
    version.
   */
  lemma {:induction false} HighestReleaseFirst(fnames: seq<string>, i: nat, version: char, best: string)
    requires i < |fnames| && CkType(fnames[i]) == Some('r')
    requires AllOrdinary(fnames[..i])
    ensures HighestFrom(fnames, version, best) == Ok(fnames[i])
    decreases i
  {
    if i > 0 {
      assert fnames[0] == fnames[..i][0];
      var v := Ver(fnames[0]);
      assert fnames[1..][..i - 1] == fnames[..i][1..];
      HighestReleaseFirst(fnames[1..], i - 1, v, fnames[0]);
      HighestReleaseFirst(fnames[1..], i - 1, version, best);
    }
  }

  /**
    The first name without a version character, with no name of type `r`
    before or at it, ends the search with IndexError.
   */
  lemma {:induction false} HighestMissingVersion(fnames: seq<string>, i: nat, version: char, best: string)
    requires i < |fnames| && CkType(fnames[i]) != Some('r') && CkVersion(fnames[i]).Err?
    requires AllOrdinary(fnames[..i])
    ensures HighestFrom(fnames, version, best) == Err(IndexError)
    decreases i
  {
    if i > 0 {
      assert fnames[0] == fnames[..i][0];
      var v := Ver(fnames[0]);
      assert fnames[1..][..i - 1] == fnames[..i][1..];
      HighestMissingVersion(fnames[1..], i - 1, v, fnames[0]);
      HighestMissingVersion(fnames[1..], i - 1, version, best);
    }
  }

  /**
    Among ordinary names the answer is the first name with the strictly
    greatest version above `version`, or `best` when no version exceeds it.
   */
  lemma {:induction false} HighestVersionChosen(fnames: seq<string>, version: char, best: string)
    requires AllOrdinary(fnames)
    ensures HighestFrom(fnames, version, best).Ok?
    ensures var r := HighestFrom(fnames, version, best).value;
            || (r == best && NoneAbove(fnames, version))
            || (exists i :: Winner(fnames, i, version) && r == fnames[i])
    decreases |fnames|
  {
    if fnames != [] {
      var v := Ver(fnames[0]);
      var rest := fnames[1..];
      assert AllOrdinary(rest) by {
        assert forall j :: 0 <= j < |rest| ==> rest[j] == fnames[j + 1];
      }
      var low := if v > version then v else version;
      var b := if v > version then fnames[0] else best;
      HighestVersionChosen(rest, low, b);
      assert HighestFrom(fnames, version, best) == HighestFrom(rest, low, b);
      var r := HighestFrom(rest, low, b).value;
      if r == b && NoneAbove(rest, low) {
        HighestKeptOrFirst(fnames, version);
      } else {
        var i :| Winner(rest, i, low) && r == rest[i];
        WinnerShift(fnames, i, version);
      }
    }
  }

  /** When no later version exceeds the running maximum, the answer is the first name or none. */
  lemma HighestKeptOrFirst(fnames: seq<string>, version: char)
    requires fnames != [] && AllOrdinary(fnames)
    requires var v := Ver(fnames[0]);
             NoneAbove(fnames[1..], if v > version then v else version)
    ensures Ver(fnames[0]) > version ==> Winner(fnames, 0, version)
    ensures Ver(fnames[0]) <= version ==> NoneAbove(fnames, version)
  {
    assert forall j :: 0 < j < |fnames| ==> fnames[j] == fnames[1..][j - 1];
  }

  /** A winner among the later names, above the running maximum, is the winner of the whole list. */
  lemma WinnerShift(fnames: seq<string>, i: int, version: char)
    requires fnames != [] && AllOrdinary(fnames)
    requires var v := Ver(fnames[0]);
             Winner(fnames[1..], i, if v > version then v else version)
    ensures Winner(fnames, i + 1, version)
  {
    assert forall j :: 0 < j < |fnames| ==> fnames[j] == fnames[1..][j - 1];
  }
}
