/**
  The label of a PDS index table (`IndexLabel`). The label text is parsed by an
  ODL parser outside this model; what the model receives is the parsed label,
  an ordered sequence of top-level key/value entries. The entry whose key starts
  with `^` is the table pointer: its key names the TABLE object and its value is
  the file name of the table, which lies in the label's own directory.
 */
module PdsLabel {
  import opened Common
  import opened PyStr
  import opened PurePath
  import opened PdsColumn

  /** A parsed label value: text, a TABLE object with its COLUMN objects, or anything else. */
  datatype Value = Text(text: string) | Table(columns: seq<Column>) | Other

  datatype Entry = Entry(key: string, value: Value)

  /** What `IndexLabel.__init__` keeps: the label path, the table name and the pointer value. */
  datatype IndexLabel = IndexLabel(path: Path, entries: seq<Entry>, tablename: string, indexName: Value)

  predicate IsPointer(e: Entry) {
    StartsWith(e.key, "^")
  }

  /** The position of the first entry satisfying `IsPointer` at or after `from`. */
  function FindPointer(entries: seq<Entry>, from: nat): (r: Option<nat>)
    requires from <= |entries|
    ensures r.Some? ==> from <= r.value < |entries| && IsPointer(entries[r.value])
    ensures r.Some? ==> forall j :: from <= j < r.value ==> !IsPointer(entries[j])
    ensures r.None? ==> forall j :: from <= j < |entries| ==> !IsPointer(entries[j])
    decreases |entries| - from
  {
    if from == |entries| then None
    else if IsPointer(entries[from]) then Some(from)
    else FindPointer(entries, from + 1)
  }

  /**
    `IndexLabel.__init__`: the first top-level entry whose key starts with `^`
    is the table pointer; its key without the `^` is the table name and its
    value the index file name. A label without one raises IndexError.
   */
  function Load(labelpath: string, entries: seq<Entry>): (r: Result<IndexLabel>)
    ensures r.Err? <==> forall j :: 0 <= j < |entries| ==> !StartsWith(entries[j].key, "^")
    ensures r.Err? ==> r.error == IndexError
    ensures r.Ok? ==> exists p ::
              && 0 <= p < |entries|
              && StartsWith(entries[p].key, "^")
              && (forall j :: 0 <= j < p ==> !StartsWith(entries[j].key, "^"))
              && "^" + r.value.tablename == entries[p].key
              && r.value.indexName == entries[p].value
    ensures r.Ok? ==> r.value.path == ParsePath(labelpath) && r.value.entries == entries
  {
    match FindPointer(entries, 0)
    case None => Err(IndexError)
    case Some(p) =>
      var key := entries[p].key;
      assert "^" + key[1..] == key;
      Ok(IndexLabel(ParsePath(labelpath), entries, key[1..], entries[p].value))
  }

  /**
    `index_path`: the pointer's file name taken relative to the label's
    directory; a rooted file name stands alone. A pointer value that is not
    text cannot be joined to a path (TypeError).
   */
  function IndexPath(lbl: IndexLabel): (r: Result<Path>)
    ensures r.Err? <==> !lbl.indexName.Text?
    ensures r.Err? ==> r.error == TypeError
    ensures r.Ok? && StartsWith(lbl.indexName.text, "/") ==> r.value == ParsePath(lbl.indexName.text)
    ensures r.Ok? && !StartsWith(lbl.indexName.text, "/") ==>
              && r.value.absolute == lbl.path.absolute
              && r.value.parts == Parent(lbl.path).parts + ParsePath(lbl.indexName.text).parts
  {
    match lbl.indexName
    case Text(name) => Ok(JoinPath(Parent(lbl.path), name))
    case _ => Err(TypeError)
  }

  /**
    For a plain file name, the index path is that name next to the label: same
    directory, and the name as its last component.
   */
  lemma IndexPathIsSibling(lbl: IndexLabel, name: string)
    requires lbl.indexName == Text(name) && IsComponent(name)
    requires lbl.path.parts != []
    ensures IndexPath(lbl).Ok?
    ensures Parent(IndexPath(lbl).value) == Parent(lbl.path)
    ensures Name(IndexPath(lbl).value) == name
  {
    SplitNoSep(name, '/');
    assert ParsePath(name) == Path(false, [name]);
    var q := IndexPath(lbl).value;
    assert q.parts == Parent(lbl.path).parts + [name];
    assert q.parts[..|q.parts| - 1] == Parent(lbl.path).parts;
  }

  /** The first entry with the given key, as `label[key]` finds it. */
  function Lookup(entries: seq<Entry>, key: string): (r: Option<Value>)
    ensures r.Some? <==> exists j :: 0 <= j < |entries| && entries[j].key == key
    ensures r.Some? ==> exists j ::
              && 0 <= j < |entries| && entries[j].key == key && entries[j].value == r.value
              && forall i :: 0 <= i < j ==> entries[i].key != key
    decreases |entries|
  {
    if entries == [] then None
    else if entries[0].key == key then Some(entries[0].value)
    else
      var r := Lookup(entries[1..], key);
      assert forall j :: 1 <= j < |entries| ==> entries[j] == entries[1..][j - 1];
      if r.Some? then
        var j :| && 0 <= j < |entries[1..]| && entries[1..][j].key == key && entries[1..][j].value == r.value
                 && forall i :: 0 <= i < j ==> entries[1..][i].key != key;
        assert forall i :: 0 <= i < j + 1 ==> entries[i].key != key;
        r
      else r
  }

  /**
    `pvl_columns`: the COLUMN objects of the table named by the pointer. A
    missing table raises KeyError; a value that is not an object has no
    `getlist`.
   */
  function PvlColumns(lbl: IndexLabel): (r: Result<seq<Column>>)
    ensures r.Err? ==> r.error == KeyError || r.error == AttributeError
    ensures r.Err? && r.error == KeyError <==> forall j :: 0 <= j < |lbl.entries| ==> lbl.entries[j].key != lbl.tablename
    ensures r.Ok? ==> Lookup(lbl.entries, lbl.tablename) == Some(Table(r.value))
    ensures r.Err? && r.error == AttributeError <==>
              Lookup(lbl.entries, lbl.tablename).Some? && !Lookup(lbl.entries, lbl.tablename).value.Table?
  {
    match Lookup(lbl.entries, lbl.tablename)
    case None => Err(KeyError)
    case Some(Table(cols)) => Ok(cols)
    case Some(_) => Err(AttributeError)
  }

  // ---------------------------------------------------------------------------
  // Flattening the columns

  /** The expanded names of `cols`, each declaration's names in place. */
  function FlatNames(cols: seq<Column>): seq<string>
    decreases |cols|
  {
    if cols == [] then [] else FlatNames(cols[..|cols| - 1]) + NameAsList(cols[|cols| - 1])
  }

  /** The ranges of `cols`, each declaration's ranges in place. */
  function FlatRanges(cols: seq<Column>): seq<Range>
    requires forall k :: 0 <= k < |cols| ==> WellFormed(cols[k])
    decreases |cols|
  {
    if cols == [] then [] else FlatRanges(cols[..|cols| - 1]) + Ranges(cols[|cols| - 1])
  }

  /** How many expanded columns the declarations `cols` make. */
  function TotalWidth(cols: seq<Column>): nat
    decreases |cols|
  {
    if cols == [] then 0 else TotalWidth(cols[..|cols| - 1]) + Width(cols[|cols| - 1])
  }

  predicate AllWellFormed(cols: seq<Column>) {
    forall k :: 0 <= k < |cols| ==> WellFormed(cols[k])
  }

  /** `colnames` and `colspecs` have one entry per expanded column. */
  lemma {:induction false} FlatLengths(cols: seq<Column>)
    requires AllWellFormed(cols)
    ensures |FlatNames(cols)| == TotalWidth(cols)
    ensures |FlatRanges(cols)| == TotalWidth(cols)
    decreases |cols|
  {
    if cols != [] {
      FlatLengths(cols[..|cols| - 1]);
    }
  }

  lemma {:induction false} TotalWidthPrefix(cols: seq<Column>, j: nat)
    requires j < |cols|
    ensures TotalWidth(cols[..j]) + Width(cols[j]) <= TotalWidth(cols)
    decreases |cols|
  {
    if j < |cols| - 1 {
      TotalWidthPrefix(cols[..|cols| - 1], j);
      assert cols[..|cols| - 1][..j] == cols[..j];
    } else {
      assert cols[..|cols| - 1] == cols[..j];
    }
  }

  /**
    Declaration `j` occupies the expanded positions starting at the width of
    the declarations before it: there its i-th name is the i-th entry of
    `colnames` and its i-th range the i-th entry of `colspecs`, so names and
    ranges pair up position by position.
   */
  lemma FlatPairing(cols: seq<Column>, j: nat, i: nat)
    requires AllWellFormed(cols)
    requires j < |cols| && i < Width(cols[j])
    ensures TotalWidth(cols[..j]) + i < |FlatNames(cols)| == |FlatRanges(cols)|
    ensures FlatNames(cols)[TotalWidth(cols[..j]) + i] == NameAsList(cols[j])[i]
    ensures FlatRanges(cols)[TotalWidth(cols[..j]) + i] == Ranges(cols[j])[i]
  {
    FlatLengths(cols);
    TotalWidthPrefix(cols, j);
    FlatNamesAt(cols, j, i);
    FlatRangesAt(cols, j, i);
  }

  lemma {:induction false} FlatNamesAt(cols: seq<Column>, j: nat, i: nat)
    requires AllWellFormed(cols)
    requires j < |cols| && i < Width(cols[j])
    ensures TotalWidth(cols[..j]) + i < |FlatNames(cols)|
    ensures FlatNames(cols)[TotalWidth(cols[..j]) + i] == NameAsList(cols[j])[i]
    decreases |cols|
  {
    if j < |cols| - 1 {
      var init := cols[..|cols| - 1];
      assert AllWellFormed(init);
      FlatNamesAt(init, j, i);
      FlatNamesExtend(cols, j, i);
    } else {
      FlatNamesLast(cols, i);
    }
  }

  /** Appending a declaration keeps the names already placed. */
  lemma FlatNamesExtend(cols: seq<Column>, j: nat, i: nat)
    requires j < |cols| - 1 && i < Width(cols[j])
    ensures var init := cols[..|cols| - 1];
            TotalWidth(init[..j]) + i < |FlatNames(init)| ==>
              && TotalWidth(cols[..j]) + i < |FlatNames(cols)|
              && FlatNames(cols)[TotalWidth(cols[..j]) + i] == FlatNames(init)[TotalWidth(init[..j]) + i]
  {
    var init := cols[..|cols| - 1];
    assert init[..j] == cols[..j];
    assert FlatNames(cols) == FlatNames(init) + NameAsList(cols[|cols| - 1]);
  }

  /** The last declaration's names come right after those of the others. */
  lemma FlatNamesLast(cols: seq<Column>, i: nat)
    requires AllWellFormed(cols) && cols != [] && i < Width(cols[|cols| - 1])
    ensures var init := cols[..|cols| - 1];
            && TotalWidth(init) + i < |FlatNames(cols)|
            && FlatNames(cols)[TotalWidth(init) + i] == NameAsList(cols[|cols| - 1])[i]
  {
    var init := cols[..|cols| - 1];
    assert AllWellFormed(init);
    FlatLengths(init);
    assert FlatNames(cols) == FlatNames(init) + NameAsList(cols[|cols| - 1]);
  }

  lemma {:induction false} FlatRangesAt(cols: seq<Column>, j: nat, i: nat)
    requires AllWellFormed(cols)
    requires j < |cols| && i < Width(cols[j])
    ensures TotalWidth(cols[..j]) + i < |FlatRanges(cols)|
    ensures FlatRanges(cols)[TotalWidth(cols[..j]) + i] == Ranges(cols[j])[i]
    decreases |cols|
  {
    if j < |cols| - 1 {
      var init := cols[..|cols| - 1];
      assert AllWellFormed(init);
      FlatRangesAt(init, j, i);
      FlatRangesExtend(cols, j, i);
    } else {
      FlatRangesLast(cols, i);
    }
  }

  /** Appending a declaration keeps the ranges already placed. */
  lemma FlatRangesExtend(cols: seq<Column>, j: nat, i: nat)
    requires AllWellFormed(cols)
    requires j < |cols| - 1 && i < Width(cols[j])
    ensures var init := cols[..|cols| - 1];
            AllWellFormed(init) &&
            (TotalWidth(init[..j]) + i < |FlatRanges(init)| ==>
              && TotalWidth(cols[..j]) + i < |FlatRanges(cols)|
              && FlatRanges(cols)[TotalWidth(cols[..j]) + i] == FlatRanges(init)[TotalWidth(init[..j]) + i])
  {
    var init := cols[..|cols| - 1];
    assert AllWellFormed(init);
    assert init[..j] == cols[..j];
    assert FlatRanges(cols) == FlatRanges(init) + Ranges(cols[|cols| - 1]);
  }

  /** The last declaration's ranges come right after those of the others. */
  lemma FlatRangesLast(cols: seq<Column>, i: nat)
    requires AllWellFormed(cols) && cols != [] && i < Width(cols[|cols| - 1])
    ensures var init := cols[..|cols| - 1];
            && TotalWidth(init) + i < |FlatRanges(cols)|
            && FlatRanges(cols)[TotalWidth(init) + i] == Ranges(cols[|cols| - 1])[i]
  {
    var init := cols[..|cols| - 1];
    assert AllWellFormed(init);
    FlatLengths(init);
    assert FlatRanges(cols) == FlatRanges(init) + Ranges(cols[|cols| - 1]);
  }

  /**
    Every expanded position belongs to a declaration: position `k` is item
    `k - TotalWidth(cols[..j])` of declaration `j` (and to only one, by
    `LocateUnique`).
   */
  function Locate(cols: seq<Column>, k: nat): (ji: (nat, nat))
    requires k < TotalWidth(cols)
    ensures ji.0 < |cols| && ji.1 < Width(cols[ji.0])
    ensures k == TotalWidth(cols[..ji.0]) + ji.1
    decreases |cols|
  {
    var last := |cols| - 1;
    if k >= TotalWidth(cols[..last]) then
      (last, k - TotalWidth(cols[..last]))
    else
      var ji := Locate(cols[..last], k);
      assert cols[..last][..ji.0] == cols[..ji.0];
      ji
  }

  /** Two (declaration, item) pairs at the same expanded position are the same pair. */
  lemma LocateUnique(cols: seq<Column>, j: nat, i: nat, j': nat, i': nat)
    requires j < |cols| && i < Width(cols[j])
    requires j' < |cols| && i' < Width(cols[j'])
    requires TotalWidth(cols[..j]) + i == TotalWidth(cols[..j']) + i'
    ensures j == j' && i == i'
  {
    if j < j' {
      assert cols[..j'][..j] == cols[..j];
      TotalWidthPrefix(cols[..j'], j);
    } else if j' < j {
      assert cols[..j][..j'] == cols[..j'];
      TotalWidthPrefix(cols[..j], j');
    }
  }

  /**
    `IndexLabel.colnames`: a loop that extends the list by each column's
    `name_as_list`, in declaration order.
   */
  method ColNames(lbl: IndexLabel) returns (r: Result<seq<string>>)
    ensures PvlColumns(lbl).Err? ==> r == Err(PvlColumns(lbl).error)
    ensures PvlColumns(lbl).Ok? ==> r == Ok(FlatNames(PvlColumns(lbl).value))
  {
    var columns := PvlColumns(lbl);
    if columns.Err? {
      return Err(columns.error);
    }
    var cols := columns.value;
    var colnames: seq<string> := [];
    var k := 0;
    while k < |cols|
      invariant 0 <= k <= |cols|
      invariant colnames == FlatNames(cols[..k])
    {
      assert cols[..k + 1][..k] == cols[..k];
      colnames := colnames + NameAsList(cols[k]);
      k := k + 1;
    }
    assert cols[..|cols|] == cols;
    r := Ok(colnames);
  }

  /**
    `IndexLabel.colspecs`: a loop that appends the one range of a scalar column
    and extends by the ranges of a repeated one, in declaration order.
   */
  method ColSpecsOf(lbl: IndexLabel) returns (r: Result<seq<Range>>)
    requires PvlColumns(lbl).Ok? ==> AllWellFormed(PvlColumns(lbl).value)
    ensures PvlColumns(lbl).Err? ==> r == Err(PvlColumns(lbl).error)
    ensures PvlColumns(lbl).Ok? ==> r == Ok(FlatRanges(PvlColumns(lbl).value))
  {
    var columns := PvlColumns(lbl);
    if columns.Err? {
      return Err(columns.error);
    }
    var cols := columns.value;
    var colspecs: seq<Range> := [];
    var k := 0;
    while k < |cols|
      invariant 0 <= k <= |cols|
      invariant colspecs == FlatRanges(cols[..k])
    {
      assert cols[..k + 1][..k] == cols[..k];
      var spec := ColSpecs(cols[k]);
      if cols[k].items.None? {
        colspecs := colspecs + [spec.range];
      } else {
        colspecs := colspecs + spec.ranges;
      }
      k := k + 1;
    }
    assert cols[..|cols|] == cols;
    r := Ok(colspecs);
  }
}
