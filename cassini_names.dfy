/**
  The naming conventions shared by the Cassini SPICE kernel files: the date
  fields `casdate2dt` reads and the splitting of a file name into underscore
  tokens and dot extensions (`SPICE_FNAME`).
 */
module CassiniNames {
  import opened Common
  import opened PyStr

  /** A calendar date, kept abstract: only its order matters here. */
  type Date = int

  /** The two `strptime` formats: `%y%j` (year and day of year) and `%y%m%d`. */
  datatype DateFormat = YearDayOfYear | YearMonthDay

  /**
    `strptime` itself is outside the model: it is given as a function that
    returns the date a text denotes in a format, or None when the text does
    not match (where `strptime` raises ValueError).
   */
  type DateParser = (string, DateFormat) -> Option<Date>

  /** The format `casdate2dt` picks from the length of the text, if any. */
  function FormatForLength(n: nat): (f: Option<DateFormat>)
    ensures f.Some? <==> n == 5 || n == 6
  {
    if n == 5 then Some(YearDayOfYear)
    else if n == 6 then Some(YearMonthDay)
    else None
  }

  /**
    `casdate2dt`: a 5-character text is read as YYDOY and a 6-character one as
    YYMMDD; any other length, or a text the format rejects, raises ValueError.
   */
  function CasDate2Dt(casdate: string, strptime: DateParser): (r: Result<Date>)
    ensures r.Err? ==> r.error == ValueError
    ensures |casdate| != 5 && |casdate| != 6 ==> r.Err?
    ensures |casdate| == 5 ==> (r.Ok? <==> strptime(casdate, YearDayOfYear).Some?)
    ensures |casdate| == 5 && r.Ok? ==> r.value == strptime(casdate, YearDayOfYear).value
    ensures |casdate| == 6 ==> (r.Ok? <==> strptime(casdate, YearMonthDay).Some?)
    ensures |casdate| == 6 && r.Ok? ==> r.value == strptime(casdate, YearMonthDay).value
  {
    match FormatForLength(|casdate|)
    case None => Err(ValueError)
    case Some(f) =>
      match strptime(casdate, f)
      case None => Err(ValueError)
      case Some(d) => Ok(d)
  }

  /** A file name as `SPICE_FNAME` holds it. */
  datatype SpiceName = SpiceName(fname: string, tokens: seq<string>, ext: seq<string>)

  /**
    `SPICE_FNAME.__init__`: the text before the first dot, split at every
    underscore, gives the tokens; the remaining dot-separated pieces are the
    extensions.
   */
  function SplitName(fname: string): (n: SpiceName)
    ensures n.fname == fname
    ensures |n.tokens| >= 1
    ensures forall k :: 0 <= k < |n.tokens| ==> '_' !in n.tokens[k]
    ensures forall k :: 0 <= k < |n.ext| ==> '.' !in n.ext[k]
  {
    var pieces := Split(fname, '.');
    SpiceName(fname, Split(pieces[0], '_'), pieces[1..])
  }

  /** Writing the tokens back with underscores and the extensions with dots restores the name. */
  lemma SplitNameRoundTrip(fname: string)
    ensures var n := SplitName(fname);
            Join([Join(n.tokens, '_')] + n.ext, '.') == fname
  {
    var pieces := Split(fname, '.');
    JoinSplit(pieces[0], '_');
    JoinSplit(fname, '.');
    assert [pieces[0]] + pieces[1..] == pieces;
  }

  /**
    A name built from separator-free tokens joined by underscores, followed by
    dot-free extensions each after a dot, splits back into those tokens and
    extensions.
   */
  lemma SplitNameOfJoin(tokens: seq<string>, ext: seq<string>)
    requires |tokens| >= 1
    requires forall k :: 0 <= k < |tokens| ==> '_' !in tokens[k] && '.' !in tokens[k]
    requires forall k :: 0 <= k < |ext| ==> '.' !in ext[k]
    ensures SplitName(Join([Join(tokens, '_')] + ext, '.')) == SpiceName(Join([Join(tokens, '_')] + ext, '.'), tokens, ext)
  {
    var stem := Join(tokens, '_');
    JoinNoSep(tokens, '_', '.');
    var pieces := [stem] + ext;
    SplitJoin(pieces, '.');
    assert pieces[1..] == ext;
    SplitJoin(tokens, '_');
  }
}
