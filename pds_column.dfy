/**
  One COLUMN object of a PDS3 index label and the byte layout it describes
  (`PVLColumn`). The label gives 1-based `START_BYTE` and `BYTES`; a repeated
  column also gives `ITEMS`, `ITEM_BYTES` and `ITEM_OFFSET` and stands for
  `ITEMS` sub-fields placed `ITEM_OFFSET` bytes apart.
 */
module PdsColumn {
  import opened Common
  import opened PyStr

  /** The keywords of one COLUMN object; the three ITEM keywords are optional. */
  datatype Column = Column(
    name: string,
    startByte: int,
    bytes: int,
    items: Option<int>,
    itemBytes: Option<int>,
    itemOffset: Option<int>)

  /** A 0-indexed, half-open byte range `[start, stop)` of a table line. */
  datatype Range = Range(start: int, stop: int)

  /** What `colspecs` gives: one pair for a scalar column, a list of pairs for a repeated one. */
  datatype ColSpec = Single(range: Range) | Repeated(ranges: seq<Range>)

  /** What `decode` gives: one text for a scalar column, a list of texts for a repeated one. */
  datatype Decoded = Field(text: string) | Fields(texts: seq<string>)

  /**
    The item keywords are read only inside the loop over `range(ITEMS)`, so a
    column with a positive ITEMS count needs both of them (without them the
    source fails with a TypeError).
   */
  predicate WellFormed(c: Column) {
    c.items.Some? && c.items.value > 0 ==> c.itemBytes.Some? && c.itemOffset.Some?
  }

  /** `start`: START_BYTE made 0-indexed. */
  function Start(c: Column): int {
    c.startByte - 1
  }

  /** `stop`: one past the last byte of a scalar column. */
  function Stop(c: Column): int {
    Start(c) + c.bytes
  }

  /** How many times `range(ITEMS)` runs: a negative count runs it zero times. */
  function ItemCount(c: Column): nat
    requires c.items.Some?
  {
    if c.items.value < 0 then 0 else c.items.value
  }

  /** How many expanded columns this declaration becomes. */
  function Width(c: Column): nat {
    if c.items.None? then 1 else ItemCount(c)
  }

  /** The byte range of item `i` (0-based) of a repeated column. */
  function ItemRange(c: Column, i: nat): Range
    requires WellFormed(c) && c.items.Some? && i < ItemCount(c)
  {
    var off := Start(c) + c.itemOffset.value * i;
    Range(off, off + c.itemBytes.value)
  }

  /** The ranges the column contributes to the label's column specification, in order. */
  function Ranges(c: Column): (rs: seq<Range>)
    requires WellFormed(c)
    ensures |rs| == Width(c)
  {
    if c.items.None? then [Range(Start(c), Stop(c))]
    else seq(ItemCount(c), i requires 0 <= i < ItemCount(c) => ItemRange(c, i))
  }

  /** The ranges a `ColSpec` holds, as `append` (one pair) or `extend` (a list) adds them. */
  function SpecRanges(spec: ColSpec): seq<Range> {
    match spec
    case Single(r) => [r]
    case Repeated(rs) => rs
  }

  /**
    `PVLColumn.colspecs`: a scalar column is the one range
    `(START_BYTE - 1, START_BYTE - 1 + BYTES)`; a repeated column is built by a
    counting loop into `ITEMS` ranges, the i-th starting `i * ITEM_OFFSET` after
    the column start and `ITEM_BYTES` wide.
   */
  method ColSpecs(c: Column) returns (spec: ColSpec)
    requires WellFormed(c)
    ensures c.items.None? ==> spec == Single(Range(c.startByte - 1, c.startByte - 1 + c.bytes))
    ensures c.items.Some? ==> spec.Repeated? && |spec.ranges| == ItemCount(c)
    ensures c.items.Some? ==> forall i :: 0 <= i < |spec.ranges| ==>
              spec.ranges[i].start == c.startByte - 1 + i * c.itemOffset.value &&
              spec.ranges[i].stop - spec.ranges[i].start == c.itemBytes.value
    ensures SpecRanges(spec) == Ranges(c)
  {
    if c.items.None? {
      return Single(Range(Start(c), Stop(c)));
    }
    var i := 0;
    var bucket: seq<Range> := [];
    var n := ItemCount(c);
    while i < n
      invariant 0 <= i <= n
      invariant |bucket| == i
      invariant forall k :: 0 <= k < i ==> bucket[k] == ItemRange(c, k)
    {
      var off := Start(c) + c.itemOffset.value * i;
      bucket := bucket + [Range(off, off + c.itemBytes.value)];
      i := i + 1;
    }
    spec := Repeated(bucket);
  }

  /**
    `PVLColumn.name_as_list`: the column's own name when it is scalar, and
    `NAME_1` .. `NAME_n` when it is repeated.
   */
  function NameAsList(c: Column): (names: seq<string>)
    ensures |names| == Width(c)
    ensures c.items.None? ==> names == [c.name]
    ensures c.items.Some? ==> forall i :: 0 <= i < |names| ==> StartsWith(names[i], c.name + "_")
  {
    if c.items.None? then [c.name]
    else seq(ItemCount(c), i requires 0 <= i < ItemCount(c) => c.name + "_" + NatToString(i + 1))
  }

  /**
    Each expanded name is the column name, an underscore and a decimal number
    in canonical form (digits only, no leading zero) that reads back as the
    1-based position of the item.
   */
  lemma ExpandedNameIndex(c: Column, i: nat)
    requires c.items.Some? && i < ItemCount(c)
    ensures exists digits ::
              && NameAsList(c)[i] == c.name + "_" + digits
              && IsNumeric(digits) && digits[0] != '0'
              && ParseInt(digits) == Some(i + 1)
  {
    ParseIntToString(i + 1);
    if NatToString(i + 1)[0] == '0' {
      NatToStringCanonical(i + 1);
    }
    assert NameAsList(c)[i] == c.name + "_" + IntToString(i + 1);
  }

  /** The expanded names of one repeated column are pairwise different. */
  lemma ExpandedNamesDistinct(c: Column, i: nat, j: nat)
    requires c.items.Some? && i < ItemCount(c) && j < ItemCount(c) && i != j
    ensures NameAsList(c)[i] != NameAsList(c)[j]
  {
    var p := c.name + "_";
    if NameAsList(c)[i] == NameAsList(c)[j] {
      assert NameAsList(c)[i][|p|..] == NatToString(i + 1);
      assert NameAsList(c)[j][|p|..] == NatToString(j + 1);
      NatToStringInjective(i + 1, j + 1);
    }
  }

  /**
    `PVLColumn.decode`: the line sliced by the column's ranges. Slicing clamps,
    so a short line gives short or empty pieces and never an error; a repeated
    column gives a list built by a loop over its ranges.
   */
  method Decode(c: Column, line: string) returns (d: Decoded)
    requires WellFormed(c)
    ensures c.items.None? ==> d == Field(Slice(line, c.startByte - 1, c.startByte - 1 + c.bytes))
    ensures c.items.Some? ==> d.Fields? && |d.texts| == ItemCount(c)
    ensures c.items.Some? ==> forall i :: 0 <= i < |d.texts| ==>
              d.texts[i] == Slice(line, Ranges(c)[i].start, Ranges(c)[i].stop)
  {
    var spec := ColSpecs(c);
    if c.items.None? {
      return Field(Slice(line, spec.range.start, spec.range.stop));
    }
    var bucket: seq<string> := [];
    var k := 0;
    while k < |spec.ranges|
      invariant 0 <= k <= |spec.ranges|
      invariant |bucket| == k
      invariant forall i :: 0 <= i < k ==> bucket[i] == Slice(line, spec.ranges[i].start, spec.ranges[i].stop)
    {
      bucket := bucket + [Slice(line, spec.ranges[k].start, spec.ranges[k].stop)];
      k := k + 1;
    }
    d := Fields(bucket);
  }
}
