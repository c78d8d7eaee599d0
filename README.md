# planetarypy core, modelled in Dafny

This project models three pieces of the planetarypy / planetpy code base and
proves what they compute.

1. **The PDS index-table layout decoder** (`PVLColumn`, `IndexLabel`, the
   time-column choice of `index_to_df`, `replace_url_suffix`). A PDS3 label
   describes a fixed-width table by its COLUMN objects (`START_BYTE`, `BYTES`
   and, for repeated columns, `ITEMS`, `ITEM_BYTES`, `ITEM_OFFSET`), and its
   `^` pointer names the TABLE object and the table file. The decoder turns
   the columns into a flat list of names and a parallel list of 0-indexed,
   half-open byte ranges, and cuts every table line at those ranges.

   The code exists in three copies:
   - `planetarypy/pdstools/indices.py:97-257`;
   - `planetpy/pdstools/indices.py:85-245`;
   - `planetpy/pdstools.py:22-169`.

   In the parts modelled here (`PVLColumn`, `IndexLabel` and the choice of
   time columns) they differ only in that choice: the oldest copy converts
   every column whose name contains `TIME`. The model holds one definition
   of the shared code. The table below spreads its citations across the
   three copies, and the two time-column choices get a function each.
   Outside those parts the copies do differ:
   - only the oldest copy has `decode_line` (`planetpy/pdstools.py:143-156`);
   - its `read_index_data` has no `convert_times` parameter;
   - its `index_to_df` has no `to_datetime` fallback format.
   - Modules: `PdsColumn`, `PdsLabel`, `PdsReader`, `UrlSuffix`.
   - `PurePath` models the POSIX `pathlib` operations the decoder uses.
2. **Cassini SPICE kernel names** (`planetarypy/spicekernels/cassini.py`),
   in modules `CassiniNames`, `CassiniCk` and `CassiniSpk`:
   - the date-field dispatch of `casdate2dt`;
   - the split of a file name into tokens and extensions;
   - the CK type, version, special and old-style tests;
   - the SPK special test, delivery date, version and type;
   - the decoding of old-style SPK event tokens;
   - `CKSEARCH` (sorting the names into three buckets, searching a target date);
   - `find_highest_version`.
3. **Planetary fact sheet normalisation** (`planetarypy/factsheet_parse.py`
   and `planetpy/constants.py`), in module `Factsheet`:
   - `convert_element`, which turns a cell into Yes/No, missing or text;
   - `map_pretty_index_to_attribute`, which turns a row heading into an
     identifier;
   - the rewrite of the exponents `1024` and `106` in the headings.

   The two copies differ only in what `convert_element` strips:
   `strip(' *')` in one, `strip()` in the other.

`Common` holds the `Option`/`Result` wrappers and the Python exception kinds
an operation can raise. `PyStr` models the Python string operations the
code relies on:
- slicing with clamped and negative indices;
- `split`, `join`, `strip` and `startswith`;
- `in` on strings;
- ASCII `lower`, `upper` and `isupper`;
- `isnumeric`, `str` and `int` on decimal integers.

Imperative code keeps its form:
- the counting loop of `colspecs`;
- the extend/append loops of `colnames` and `colspecs`;
- the loop of `decode`;
- `sort_fnames` and `search_target`, as methods of class `CkSearch`;
- the `SPK_FNAME` constructor, which sets its special flag and delivery date in place;
- the loop of `decode_old_event`;
- the loop of `find_highest_version`.

Each such method is proved equal to a specification function, and the
properties are proved about that function.

## Model

| member | source | states |
|---|---|---|
| PdsColumn.ColSpecs | planetarypy/pdstools/indices.py:113-145 | A scalar column gives the one range (START_BYTE-1, START_BYTE-1+BYTES). A repeated column gives exactly ITEMS ranges (none for zero), the i-th starting i*ITEM_OFFSET after START_BYTE-1 and ITEM_BYTES wide. |
| PdsColumn.NameAsList | planetarypy/pdstools/indices.py:105-111 | A scalar column gives exactly `[NAME]`. A repeated column gives ITEMS names, each NAME followed by `_`. |
| PdsColumn.ExpandedNameIndex | planetpy/pdstools/indices.py:93-99 | The i-th expanded name is NAME, `_` and the canonical decimal text of i+1: digits only, no leading zero, reading back as i+1. |
| PdsColumn.ExpandedNamesDistinct | planetpy/pdstools.py:30-36 | The expanded names of one repeated column are pairwise different. |
| PdsColumn.Decode | planetpy/pdstools.py:72-80 | A scalar column decodes to the clamped slice at its range. A repeated column decodes to a list of ITEMS clamped slices, one per range. A short line never fails; each piece is at most stop-start long (Slice's contract). |
| PdsLabel.FindPointer | planetarypy/pdstools/indices.py:174 | The result is the first entry from the given position whose key starts with `^`, or None when no entry does. |
| PdsLabel.Load | planetarypy/pdstools/indices.py:171-176 | Loading fails with IndexError exactly when no key starts with `^`. Otherwise the first such entry gives the table name (its key without the `^`) and the index file name (its value). |
| PdsLabel.IndexPath | planetarypy/pdstools/indices.py:178-180 | TypeError exactly when the pointer value is not text. A rooted file name stands alone. Otherwise the path has the label's rootedness and the label's directory parts followed by the name's parts. |
| PdsLabel.IndexPathIsSibling | planetpy/pdstools/indices.py:159-168 | The index file lies in the label's directory and its name is the pointer's value. |
| PdsLabel.Lookup | planetpy/pdstools.py:103-105 | A key is found exactly when some entry has it. The value found is that of the first entry with the key. |
| PdsLabel.PvlColumns | planetarypy/pdstools/indices.py:186-192 | The result is the column list of the TABLE object that the lookup of the table name finds. KeyError exactly when no entry has the table name. AttributeError exactly when the value found is not an object. |
| PdsLabel.FlatLengths | planetpy/pdstools/indices.py:186-208 | `colnames` and `colspecs` both have one entry per expanded column. |
| PdsLabel.FlatPairing | planetarypy/pdstools/indices.py:198-220 | The i-th item of declaration j sits at position width(declarations before j)+i of both lists: the name there is its i-th expanded name and the range there its i-th range. |
| PdsLabel.Locate | planetpy/pdstools.py:115-137 | Every position of the flat lists belongs to a declaration and an item in it, at that declaration's offset. |
| PdsLabel.LocateUnique | planetpy/pdstools.py:115-137 | Two (declaration, item) pairs at the same flat position are equal, so the declaration that `Locate` finds is the only one. |
| PdsLabel.ColNames | planetarypy/pdstools/indices.py:198-208 | The extend loop yields the expanded names of all columns in declaration order, or the lookup's error. |
| PdsLabel.ColSpecsOf | planetpy/pdstools/indices.py:198-208 | The append/extend loop yields the ranges of all columns in declaration order, or the lookup's error. |
| PdsReader.ReadFixedWidth | planetarypy/pdstools/indices.py:243-245 | One row per table line, with one field per column name. Field k of row r is line r sliced at range k. |
| PdsReader.RowFieldIsDecoded | planetarypy/pdstools/indices.py:147-155 | At the flat position of item i of column j, a row read with the label's layout holds that column's i-th name and exactly the slice that `decode` gives for item i. |
| PdsReader.SliceLineRoundTrip | planetarypy/pdstools/indices.py:243-245 | Fields written into any line at pairwise-disjoint ranges of their own widths are cut back out exactly by those ranges. The gaps between them play no part. |
| PdsReader.FieldKept | planetarypy/pdstools/indices.py:243-245 | A field written into a line stays at its range through every later write at a disjoint range. |
| PdsReader.LayoutExample | planetarypy/pdstools/indices.py:134-155 | A scalar column `ID` and a two-item column `VALS` give the names ID, VALS_1, VALS_2 and the ranges (0,5), (5,9), (10,14), and they cut a line into its three fields. |
| PdsReader.Select | planetarypy/pdstools/indices.py:247 | The selection keeps exactly the names the test accepts, and nothing else. |
| PdsReader.TimeColumns | planetarypy/pdstools/indices.py:246-250 | A column is converted if and only if its name contains TIME, does not contain COUNT, and is not LOCAL_TIME. |
| PdsReader.TimeColumnsLegacy | planetpy/pdstools.py:164-167 | A column is converted if and only if its name contains TIME. |
| PdsReader.TimeColumnsNarrowed | planetpy/pdstools/indices.py:234-238 | The newer choice is a subset of the older one. A TIME column that also says COUNT, or is LOCAL_TIME, is converted only by the older copy. |
| PdsReader.TimeColumnExamples | planetpy/pdstools/indices.py:235-238 | EVENT_TIME is converted; EVENT_COUNT_TIME and LOCAL_TIME are not, although LOCAL_TIME contains TIME. |
| UrlSuffix.ReplaceUrlSuffix | planetarypy/pdstools/indices.py:41-58 | Only the path of the URL changes. It fails with ValueError exactly when the new suffix is invalid or the path has no file name. |
| UrlSuffix.UpperKeepsValidity | planetpy/pdstools/indices.py:54 | Upper-casing a suffix neither makes it valid nor invalid. |
| UrlSuffix.ReplaceUrlSuffixKeepsCase | planetpy/pdstools/indices.py:40-57 | For a one-dot suffix such as `.tab`, the new path has the same directory and stem. Its suffix is the new one, upper-cased exactly when the old suffix was upper case. |
| UrlSuffix.ReplaceUrlSuffixInDirectory | planetarypy/pdstools/indices.py:53-57 | For `/dir/stem.ext` the result is exactly `/dir/stem` followed by the new suffix in the case of the old one. |
| PurePath.ParsePathString | planetarypy/pdstools/indices.py:57 | Parsing the text of a normal path gives back the same path. |
| PurePath.WithSuffix | planetarypy/pdstools/indices.py:57 | `with_suffix` fails with ValueError exactly when the suffix is invalid or there is no name. Otherwise it keeps the directory parts and gives the name stem+suffix. |
| CassiniNames.FormatForLength | planetarypy/spicekernels/cassini.py:22-27 | A format is chosen exactly for lengths 5 and 6. |
| CassiniNames.CasDate2Dt | planetarypy/spicekernels/cassini.py:8-27 | Length 5 is read as YYDOY and length 6 as YYMMDD, succeeding exactly when that format parses. Any other length, or a failed parse, is ValueError. |
| CassiniNames.SplitName | planetarypy/spicekernels/cassini.py:35-39 | There is at least one token, no token holds `_`, and no extension holds `.`. |
| CassiniNames.SplitNameRoundTrip | planetarypy/spicekernels/cassini.py:36-39 | Joining the tokens with `_` and the extensions with `.` restores the file name. |
| CassiniNames.SplitNameOfJoin | planetarypy/spicekernels/cassini.py:36-39 | A name built from separator-free tokens and extensions splits back into exactly those tokens and extensions. |
| CassiniCk.CkType | planetarypy/spicekernels/cassini.py:91-102 | The type is the character of the second token at index 6 (six-character first token) or 5. It is None exactly when the second token or that character is missing. |
| CassiniCk.CkVersion | planetarypy/spicekernels/cassini.py:104-107 | The version is the character after the type. IndexError exactly when it is missing; a name with a version always has a type. |
| CassiniCk.CkIsSpecial | planetarypy/spicekernels/cassini.py:62-74 | A name is regular exactly when it has two or three tokens, a numeric first token, and `r`, `p` or `c` in the second token at the type index. |
| CassiniCk.CkIsOldStyle | planetarypy/spicekernels/cassini.py:56-60 | TypeError exactly for special names; otherwise old style if and only if the first token has six characters. |
| CassiniCk.CkStartDate | planetarypy/spicekernels/cassini.py:80-85 | The start date is the first token read by `casdate2dt`; any failure gives None. |
| CassiniCk.TypeIndex | planetarypy/spicekernels/cassini.py:91-93 | The type index is 5 or 6. For a start date of either width it equals that width, so the type follows an end field as wide as the start field. |
| CassiniCk.CkEndDate | planetarypy/spicekernels/cassini.py:87-89 | As written: the first five characters of the second token read by `casdate2dt`, and IndexError without a second token. |
| CassiniCk.CkEndDateIntended | planetarypy/spicekernels/cassini.py:87-93 | The end field has the width of the start field. It agrees with the as-written end date on new-style names. |
| CassiniCk.RegularCkName | planetarypy/spicekernels/cassini.py:42-107 | A name `<start>_<end><t><v>.<ext>` with numeric dates of width 5 or 6 and type r/p/c is not special. Its tokens, type, version, style, start date and intended end date are its fields. |
| CassiniCk.OldStyleEndDateAsWritten | planetarypy/spicekernels/cassini.py:87-89 | For an old-style name, only the first five of the six end digits are read, as a day of the year. |
| CassiniCk.EndDateIgnoresLastDigit | planetarypy/spicekernels/cassini.py:87-89 | `000201_000207ra.bc` and `000201_000208ra.bc` get the same end date, that of `00020`. |
| CassiniCk.OldStyleEndDateIntended | planetarypy/spicekernels/cassini.py:91-93 | Read as intended, the end date of an old-style name is its six end digits as YYMMDD. |
| CassiniCk.BucketOf | planetarypy/spicekernels/cassini.py:275-285 | Label files go nowhere; special names go to the special bucket, names that `is_oldstyle` calls old to the old-style bucket, and the rest to the new-style bucket, each exactly. |
| CassiniCk.Bucket | planetarypy/spicekernels/cassini.py:269-285 | A bucket holds exactly the names of its style. |
| CassiniCk.BucketConcat | planetarypy/spicekernels/cassini.py:269-285 | The bucket of two runs of names is the bucket of the first run followed by the bucket of the second, so a bucket keeps the input order. |
| CassiniCk.OldStyleBucket | planetarypy/spicekernels/cassini.py:275-285 | A regular name with a six-digit start field that is not a label file goes to the old-style bucket. |
| CassiniCk.NonLabels | planetarypy/spicekernels/cassini.py:276-277 | Exactly the names that are not `.lbl` files. |
| CassiniCk.BucketsPartition | planetarypy/spicekernels/cassini.py:269-285 | Taken as multisets, the three buckets together are exactly the non-label names. |
| CassiniCk.Hit | planetarypy/spicekernels/cassini.py:293 | A hit means the start date is at or before the target and the end date, read as written or as intended, at or after it. The test fails exactly when there is no start date (TypeError), or when the start date passes and the end date fails. |
| CassiniCk.HitsExact | planetarypy/spicekernels/cassini.py:287-295 | Under either end-date reading, the search fails exactly when the test fails on some name. Otherwise it keeps exactly the names that hit. |
| CassiniCk.HitsErrorStays | planetarypy/spicekernels/cassini.py:291-294 | An error on a prefix is the error of the whole search. |
| CassiniCk.OldStyleHit | planetarypy/spicekernels/cassini.py:87-93 | For a regular old-style name whose start date passes, the test as written compares the target with the first five end digits read as YYDOY. As intended, it compares with all six read as YYMMDD. |
| CassiniCk.SearchMissesOldStyleKernel | planetarypy/spicekernels/cassini.py:287-295 | Let the target lie between 1 and 7 February 2000 and after day 20 of 2000. The name goes to the old-style bucket, which the search uses before the change date. The search as written misses `000201_000207ra.bc`; the search with the intended end date finds it. |
| CassiniCk.CkSearch.constructor | planetarypy/spicekernels/cassini.py:264-267 | The search keeps the target and names, and its three lists are the buckets. |
| CassiniCk.CkSearch.SortFnames | planetarypy/spicekernels/cassini.py:269-285 | The loop fills the three lists with exactly the buckets of the names, in input order. |
| CassiniCk.CkSearch.SearchTarget | planetarypy/spicekernels/cassini.py:287-295 | The loop searches the old-style bucket of the names given at construction before the change date, and the new-style bucket from it on. It returns that bucket's hits or their first error, under the chosen end-date reading. |
| CassiniCk.FindHighestVersion | planetarypy/spicekernels/cassini.py:318-328 | The loop computes the highest-version choice, starting from version '0' and name ''. |
| CassiniCk.HighestReleaseFirst | planetarypy/spicekernels/cassini.py:321-324 | The first name of type `r` is returned, provided every name before it has a version. |
| CassiniCk.HighestMissingVersion | planetarypy/spicekernels/cassini.py:318-328 | The first name without a version character ends the search with IndexError, provided no name of type `r` comes at or before it. |
| CassiniCk.HighestVersionChosen | planetarypy/spicekernels/cassini.py:318-328 | Among names with versions and no `r` type, the result is the first name with the strictly greatest version above the start, or the start name when none exceeds it. |
| CassiniSpk.DeliveryDate | planetarypy/spicekernels/cassini.py:142-147 | A delivery date exists exactly when the first six characters of the first token parse. |
| CassiniSpk.SpkIsSpecial | planetarypy/spicekernels/cassini.py:122-147 | A name is regular exactly when its first token has at least six characters, starts with neither `de` nor `sat`, and its first six characters parse as YYMMDD. |
| CassiniSpk.RegularSpkName | planetarypy/spicekernels/cassini.py:122-147 | A name starting with a parseable six-character date, not `de`/`sat`, is not special, and its delivery date is that date. |
| CassiniSpk.ShortNameIsSpecial | planetarypy/spicekernels/cassini.py:132-147 | A first token shorter than six characters is special. At five characters parsing as YYDOY it still gets a delivery date. |
| CassiniSpk.SpkName.constructor | planetarypy/spicekernels/cassini.py:122-126 | The name is split into tokens and extensions, its special flag is the special test and its delivery date the parsed date. |
| CassiniSpk.SpkName.EvaluateSpecial | planetarypy/spicekernels/cassini.py:132-136 | The special flag is set by a short or `de`/`sat` first token and never cleared; the delivery date is unchanged. |
| CassiniSpk.SpkName.SetDeliveryDate | planetarypy/spicekernels/cassini.py:142-147 | The delivery date is set from the first six characters. A failed parse makes the name special and leaves no date. |
| CassiniSpk.SpkName.IsOldStyle | planetarypy/spicekernels/cassini.py:138-140 | Old style if and only if delivered before the separation date. TypeError exactly when there is no delivery date. |
| CassiniSpk.SpkVersion | planetarypy/spicekernels/cassini.py:153-161 | IndexError exactly for names of six characters or fewer. |
| CassiniSpk.SpkType | planetarypy/spicekernels/cassini.py:163-169 | IndexError exactly for names of six characters or fewer. |
| CassiniSpk.VersionTypeExclusive | planetarypy/spicekernels/cassini.py:153-169 | The character at position 6 gives a type exactly when it is P or R in either case, and then no version. It gives no version exactly for `_` or a type letter; otherwise the version is that character upper-cased. |
| CassiniSpk.ConsumeKeys | planetarypy/spicekernels/cassini.py:199-202 | The reference definition of the key loop: trying the first k keys finds at most k bodies. `ConsumeKeysShape` and `ConsumeEncoded` say what it finds. |
| CassiniSpk.ConsumeKeysShape | planetarypy/spicekernels/cassini.py:199-202 | Every body the key loop finds is one of the first k body names, and the text it leaves is the end of the token. |
| CassiniSpk.Swingby | planetarypy/spicekernels/cassini.py:198 | A swingby side exists exactly for P and M. |
| CassiniSpk.OldEvent | planetarypy/spicekernels/cassini.py:193-207 | After the body keys are consumed: IndexError exactly when nothing is left, KeyError exactly when the next character is not P or M, and ValueError exactly when the rest is not an integer; no other error occurs. Otherwise the event is the bodies found, then the side (after for P, before for M), then `<n> days`. |
| CassiniSpk.DecodeOldEvent | planetarypy/spicekernels/cassini.py:193-207 | The loop over L, V1, V2, E, J, S and the swingby and day steps give the decoded event or its error (IndexError, KeyError, ValueError). |
| CassiniSpk.OldEventRoundTrip | planetarypy/spicekernels/cassini.py:193-207 | An event written from chosen bodies, a side and a day count decodes to those bodies' names in order, the side and `<n> days`. |
| CassiniSpk.ConsumeEncoded | planetarypy/spicekernels/cassini.py:199-202 | On an encoded token, the first k keys find exactly the chosen bodies among them and leave the rest of the token. |
| CassiniSpk.NotKeyAfter | planetarypy/spicekernels/cassini.py:196-198 | A text starting with a later key, or with P or M, does not start with an earlier key, so the in-order scan cannot mistake one key for another. |
| CassiniSpk.KeysPrefixFree | planetarypy/spicekernels/cassini.py:196-197 | No body key is a prefix of another. |
| CassiniSpk.SwingbyTail | planetarypy/spicekernels/cassini.py:203-206 | The tail written after the keys reads back as the chosen side and day count. |
| Factsheet.Classify | planetarypy/factsheet_parse.py:34-41 | Yes if and only if the text is exactly "Yes", No if and only if exactly "No", missing if and only if it contains "Unknown", and otherwise the text itself. |
| Factsheet.ConvertStarred | planetarypy/factsheet_parse.py:32-41 | A text result has no space or star at either end and does not contain "Unknown". |
| Factsheet.ConvertPlain | planetpy/constants.py:23-32 | A text result has no whitespace at either end and does not contain "Unknown". |
| Factsheet.ConvertStarredPadded | planetarypy/factsheet_parse.py:33 | Spaces and stars around a text do not change how it converts. |
| Factsheet.ConvertPlainPadded | planetpy/constants.py:24 | Whitespace around a text does not change how it converts. |
| Factsheet.ConvertStable | planetpy/constants.py:23-32 | Converting the text of a text result again gives the same result, in both copies. |
| Factsheet.FootnoteStar | planetarypy/factsheet_parse.py:33 | A trailing `*` is stripped by the newer copy (so `Yes*` is Yes). The older copy keeps it and never reads such a cell as Yes or No. |
| Factsheet.JoinSplitReplaces | planetarypy/factsheet_parse.py:61 | `'_'.join(t.split(' '))` replaces every space by an underscore and changes nothing else. |
| Factsheet.Identifier | planetarypy/factsheet_parse.py:59-66 | The identifier is the stripped, lower-cased text before the first `(` with spaces as underscores, then renamed. It has no `(`, no space, no upper case and no surrounding whitespace. |
| Factsheet.Rename | planetarypy/factsheet_parse.py:62-65 | A name starting with `ring_system` becomes `is_ring_system`; otherwise one starting with `global_magnetic` becomes `has_global_magnetic_field`; every other name is kept. Only those two prefixes change a name, and a renamed identifier is still an identifier. |
| Factsheet.NormalisedFixed | planetpy/constants.py:57-64 | An identifier maps to itself, up to the two renames. |
| Factsheet.IdentifierIdempotent | planetpy/constants.py:57-64 | Normalising an identifier again leaves it unchanged. |
| Factsheet.IdentifierDropsUnits | planetarypy/factsheet_parse.py:60 | `name (units)` gives the same identifier as `name`. |
| Factsheet.RewriteExponents | planetarypy/factsheet_parse.py:27-28 | The heading is cut at every `1024`. Every `106` inside each piece becomes `10^6`, and the pieces are joined by `10^24`. |
| Factsheet.MillionBarrier | planetpy/constants.py:18-19 | The `106` rewrite works on each side of an inserted `10^24` separately: no `106` runs into or out of it. |
| Factsheet.MillionOverJoin | planetarypy/factsheet_parse.py:28 | Rewriting `106` in pieces joined by `10^24` rewrites each piece and keeps the joins. |
| PyStr.ReplaceAllSplit | planetarypy/factsheet_parse.py:27 | `s.replace(pat, rep)` equals `rep.join(s.split(pat))`. |
| PyStr.SplitTextJoin | planetpy/constants.py:18 | Joining the pieces of `s.split(pat)` with `pat` gives back `s`, and no piece contains `pat`. |
| PyStr.ReplaceAllConcat | planetpy/constants.py:19 | When no occurrence can start in `p` and run into `t`, replacing in `p + t` is replacing in `p` and in `t`. |
| Factsheet.RewriteMassExponent | planetarypy/factsheet_parse.py:27-28 | Example: in a heading whose only `1` starts `1024`, `1024` becomes `10^24`, and the second rewrite leaves the result alone. |
| Factsheet.RewriteMillionExponent | planetpy/constants.py:18-19 | Example: in a heading whose only `1` starts `106`, `106` becomes `10^6`, and the first rewrite leaves it alone. |
| Factsheet.RewriteWithoutOne | planetpy/constants.py:18-19 | A heading without a `1` is left unchanged by both rewrites. |

## Left out

- Label text parsing by `pvl.load` is not modelled: the model takes the parsed top-level entries and COLUMN records as input.
- A column with ITEMS but without ITEM_BYTES or ITEM_OFFSET is excluded by a precondition (`WellFormed`). The source crashes with a TypeError there.
- The pandas steps are not modelled:
  - `read_fwf` is modelled as per-line slicing, so its whitespace trimming and type inference are left out;
  - the column reassignment of `to_datetime` and its fallback format;
  - `applymap`, `convert_objects`, `dropna` and `Series.map`.
  The factsheet functions are modelled per cell and per heading.
- `replace_url_suffix`: `urlsplit`/`urlunsplit` are left to the URL library. The model works on the five split parts, and its caller passes `.tab` as the default suffix.
- Dates are abstract integers. `strptime` is a parameter, and astropy `Time` is not modelled. The CK change date and the SPK separation date are given as values, not the constants `2003-11-6` and `2003-05-01`.
- Case mapping and `isnumeric` are ASCII only. `int()` is modelled for optional signs and decimal digits, without surrounding whitespace or underscores.
- `str(el)` of a non-text cell is not modelled: the cell is given as its text.
- The pandas `str.replace` in the header rewrite is modelled as literal replacement of every non-overlapping occurrence, from left to right. The patterns `1024` and `106` have no regular-expression metacharacters.
- Not modelled, because they depend on astropy `Time` or on the broken description path:
  - `SPK_FNAME.description`, `long_description`, `decode_new_description`, `start_event`, `end_event`;
  - `decode_new_event`, `tstr2casdate`, `spksearch`.
- `CK_FNAME.is_len5` is not modelled: nothing in the core uses it.
- The network and FTP code, the META URL builders, `read_html`, and the float code are not modelled.
- PurePath.ParsePath: a path starting with exactly two slashes is read as rooted at one slash. POSIX `pathlib` keeps both, so a URL path such as `//x.lbl` gives `//x.tab` in the source and `/x.tab` here.

## Findings

| source | as written | input that shows it | evidently intended | confidence | as-written member | corrected member |
|---|---|---|---|---|---|---|
| planetarypy/spicekernels/cassini.py:87-89 | `end_date` reads `tokens[1][:5]` for every name, so an old-style (YYMMDD) end field loses its last digit and is read as YYDOY. `search_target` then misses old-style kernels (`SearchMissesOldStyleKernel`) | `000201_000207ra.bc` and `000201_000208ra.bc` both end on `00020` (day 20 of 2000) | the end field as wide as the start field (`type_index` characters), read as YYMMDD when it has six digits | medium, not executed | CassiniCk.EndDateIgnoresLastDigit | CassiniCk.OldStyleEndDateIntended |
