/**
  Reading a PDS index table with the layout from its label (`index_to_df`):
  every line is cut at the label's byte ranges, and the columns whose names
  mark them as absolute times are chosen for timestamp conversion.
 */
module PdsReader {
  import opened Common
  import opened PyStr
  import opened PdsColumn
  import opened PdsLabel

  /** One table line cut at the given ranges, in order. */
  function SliceLine(line: string, ranges: seq<Range>): (fields: seq<string>)
    ensures |fields| == |ranges|
  {
    seq(|ranges|, k requires 0 <= k < |ranges| => Slice(line, ranges[k].start, ranges[k].stop))
  }

  /** A decoded table: the column names and one row of raw texts per line. */
  datatype Frame = Frame(names: seq<string>, rows: seq<seq<string>>)

  /**
    The fixed-width read: one row per line (there is no header line), each row
    holding the slices of that line at the label's ranges, named in order.
   */
  function ReadFixedWidth(lines: seq<string>, names: seq<string>, ranges: seq<Range>): (t: Frame)
    requires |names| == |ranges|
    ensures t.names == names && |t.rows| == |lines|
    ensures forall r :: 0 <= r < |t.rows| ==> |t.rows[r]| == |names|
    ensures forall r, k :: 0 <= r < |lines| && 0 <= k < |ranges| ==>
              t.rows[r][k] == Slice(lines[r], ranges[k].start, ranges[k].stop)
  {
    Frame(names, seq(|lines|, r requires 0 <= r < |lines| => SliceLine(lines[r], ranges)))
  }

  /**
    Cell `TotalWidth(cols[..j]) + i` of a row read with the label's layout is
    the name and the text `PVLColumn.decode` gives for item `i` of
    declaration `j`: the frame and the per-column decoder agree.
   */
  lemma RowFieldIsDecoded(cols: seq<Column>, line: string, j: nat, i: nat)
    requires AllWellFormed(cols)
    requires j < |cols| && i < Width(cols[j])
    ensures TotalWidth(cols[..j]) + i < |FlatRanges(cols)| == |FlatNames(cols)|
    ensures FlatNames(cols)[TotalWidth(cols[..j]) + i] == NameAsList(cols[j])[i]
    ensures SliceLine(line, FlatRanges(cols))[TotalWidth(cols[..j]) + i]
            == Slice(line, Ranges(cols[j])[i].start, Ranges(cols[j])[i].stop)
  {
    FlatPairing(cols, j, i);
  }

  // ---------------------------------------------------------------------------
  // Round trip: fields written into a line at disjoint ranges cut back out

  /** `line` with `field` written over it from position `start`. */
  function Overwrite(line: string, start: nat, field: string): (r: string)
    requires start + |field| <= |line|
    ensures |r| == |line|
    ensures r[start..start + |field|] == field
    ensures forall p :: 0 <= p < |line| && !(start <= p < start + |field|) ==> r[p] == line[p]
  {
    line[..start] + field + line[start + |field|..]
  }

  /** Each field is as wide as its range, and each range lies inside the line. */
  predicate Fits(line: string, fields: seq<string>, ranges: seq<Range>) {
    && |fields| == |ranges|
    && forall k :: 0 <= k < |ranges| ==>
         0 <= ranges[k].start && ranges[k].start + |fields[k]| == ranges[k].stop <= |line|
  }

  /** No two ranges share a position. */
  predicate Disjoint(ranges: seq<Range>) {
    forall a, b :: 0 <= a < b < |ranges| ==>
      ranges[a].stop <= ranges[b].start || ranges[b].stop <= ranges[a].start
  }

  /** The fields written into `base` one after another, each at the start of its range. */
  function WriteFields(base: string, fields: seq<string>, ranges: seq<Range>): (line: string)
    requires Fits(base, fields, ranges)
    ensures |line| == |base|
    decreases |fields|
  {
    if fields == [] then base
    else
      var n := |fields| - 1;
      Overwrite(WriteFields(base, fields[..n], ranges[..n]), ranges[n].start, fields[n])
  }

  /** A later write at a disjoint range leaves an earlier field where it was. */
  lemma {:induction false} FieldKept(base: string, fields: seq<string>, ranges: seq<Range>, k: nat)
    requires Fits(base, fields, ranges) && Disjoint(ranges) && k < |fields|
    ensures WriteFields(base, fields, ranges)[ranges[k].start..ranges[k].stop] == fields[k]
    decreases |fields|
  {
    var n := |fields| - 1;
    var lo, hi := ranges[k].start, ranges[k].stop;
    if k < n {
      var fs, rs := fields[..n], ranges[..n];
      assert Fits(base, fs, rs) && Disjoint(rs);
      FieldKept(base, fs, rs, k);
      var before := WriteFields(base, fs, rs);
      var after := WriteFields(base, fields, ranges);
      assert after == Overwrite(before, ranges[n].start, fields[n]);
      assert ranges[k].stop <= ranges[n].start || ranges[n].stop <= ranges[k].start;
      forall p | lo <= p < hi
        ensures after[p] == before[p]
      {
      }
      assert after[lo..hi] == before[lo..hi];
    }
  }

  /**
    Fields written into a line at pairwise disjoint ranges of their own
    widths, whatever the line held before, are cut back out exactly by those
    ranges: the gaps between columns play no part.
   */
  lemma SliceLineRoundTrip(base: string, fields: seq<string>, ranges: seq<Range>)
    requires Fits(base, fields, ranges) && Disjoint(ranges)
    ensures SliceLine(WriteFields(base, fields, ranges), ranges) == fields
  {
    var line := WriteFields(base, fields, ranges);
    forall k | 0 <= k < |fields|
      ensures SliceLine(line, ranges)[k] == fields[k]
    {
      FieldKept(base, fields, ranges, k);
    }
  }

  /**
    The worked example of the table layout: `ID` in bytes 1-5 and a two-item
    column `VALS` of 4-byte items 5 bytes apart from byte 6 expand to `ID`,
    `VALS_1`, `VALS_2` at (0,5), (5,9), (10,14), and cut the line
    `00001AAAA BBBB` into `00001`, `AAAA`, `BBBB`.
   */
  lemma LayoutExample()
    ensures var cols := [Column("ID", 1, 5, None, None, None), Column("VALS", 6, 9, Some(2), Some(4), Some(5))];
            && FlatNames(cols) == ["ID", "VALS_1", "VALS_2"]
            && FlatRanges(cols) == [Range(0, 5), Range(5, 9), Range(10, 14)]
            && SliceLine("00001AAAA BBBB", FlatRanges(cols)) == ["00001", "AAAA", "BBBB"]
  {
    var cols := [Column("ID", 1, 5, None, None, None), Column("VALS", 6, 9, Some(2), Some(4), Some(5))];
    assert cols[..1] == [cols[0]];
    assert [cols[0]][..0] == [];
    assert NatToString(1) == "1" && NatToString(2) == "2";
    assert NameAsList(cols[1])[0] == "VALS_1" && NameAsList(cols[1])[1] == "VALS_2";
    assert Ranges(cols[1]) == [Range(5, 9), Range(10, 14)];
    var line := "00001AAAA BBBB";
    assert |line| == 14;
    assert FlatRanges(cols) == [Range(0, 5), Range(5, 9), Range(10, 14)];
    var fields := SliceLine(line, FlatRanges(cols));
    assert fields[0] == line[0..5] == "00001";
    assert fields[1] == line[5..9] == "AAAA";
    assert fields[2] == line[10..14] == "BBBB";
  }

  // ---------------------------------------------------------------------------
  // Choosing the time columns

  /** The columns of `names` that `keep` accepts, in their order. */
  function Select(names: seq<string>, keep: string -> bool): (sel: seq<string>)
    ensures |sel| <= |names|
    ensures forall x :: x in sel <==> x in names && keep(x)
    decreases |names|
  {
    if names == [] then []
    else if keep(names[0]) then [names[0]] + Select(names[1..], keep)
    else Select(names[1..], keep)
  }

  /** A column name that marks an absolute time: TIME in it, COUNT not, and not LOCAL_TIME. */
  predicate IsTimeColumn(name: string) {
    Contains(name, "TIME") && !Contains(name, "COUNT") && name != "LOCAL_TIME"
  }

  /**
    The columns `index_to_df` converts: first the names containing TIME but
    not COUNT, then, inside the conversion loop, LOCAL_TIME is skipped.
   */
  function TimeColumns(names: seq<string>): (sel: seq<string>)
    ensures forall x :: x in sel <==> x in names && IsTimeColumn(x)
  {
    var candidates := Select(names, n => Contains(n, "TIME") && !Contains(n, "COUNT"));
    Select(candidates, n => n != "LOCAL_TIME")
  }

  /** The older reader converts every column whose name contains TIME. */
  function TimeColumnsLegacy(names: seq<string>): (sel: seq<string>)
    ensures forall x :: x in sel <==> x in names && Contains(x, "TIME")
  {
    Select(names, n => Contains(n, "TIME"))
  }

  /**
    The newer readers convert a subset of what the older one converts; a
    LOCAL_TIME column, and any TIME column that also says COUNT, is converted
    only by the older one.
   */
  lemma TimeColumnsNarrowed(names: seq<string>, x: string)
    ensures x in TimeColumns(names) ==> x in TimeColumnsLegacy(names)
    ensures x in names && Contains(x, "TIME") && (Contains(x, "COUNT") || x == "LOCAL_TIME") ==>
              x in TimeColumnsLegacy(names) && x !in TimeColumns(names)
  {
  }

  /** EVENT_TIME is converted; EVENT_COUNT_TIME and LOCAL_TIME are not. */
  lemma TimeColumnExamples()
    ensures IsTimeColumn("EVENT_TIME")
    ensures !IsTimeColumn("EVENT_COUNT_TIME")
    ensures !IsTimeColumn("LOCAL_TIME")
    ensures Contains("LOCAL_TIME", "TIME")
  {
    assert OccursAt("EVENT_TIME", "TIME", 6);
    ContainsIff("EVENT_TIME", "TIME");
    assert OccursAt("EVENT_COUNT_TIME", "COUNT", 6);
    ContainsIff("EVENT_COUNT_TIME", "COUNT");
    assert OccursAt("LOCAL_TIME", "TIME", 6);
    ContainsIff("LOCAL_TIME", "TIME");
    NoCountInEventTime();
  }

  lemma NoCountInEventTime()
    ensures !Contains("EVENT_TIME", "COUNT")
  {
    AbsentFirstChar("EVENT_TIME", "COUNT");
  }
}
