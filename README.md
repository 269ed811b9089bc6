# Splunk notable parser: IP post-processing

The Splunk "notable" parser of clx turns raw Splunk notable events into a
GPU dataframe (cudf) of named string columns. Regular expressions pull the
fields out of each event. Two post-processing steps follow, and this
project models and proves them:

1. `fillna("")` replaces every null cell with the empty string.
2. `_process_ip_fields` handles "src_ip" and then "dest_ip". For each IP
   column `ip`, it:
   - writes the length of every `ip` string into a helper column
     `ip + "_len"`;
   - splits the frame with the masks `len == 0` and `len != 0`;
   - in the empty rows, overwrites `ip` with the fallback column
     `ip + "2"`;
   - appends those rows after the non-empty ones;
   - drops `ip + "_len"` and `ip + "2"`.

The project has three modules.

- `Frames` (frames.dfy) models the slice of cudf the parser uses:
  - cells are null, a string, or an integer;
  - a table is an ordered column list plus rows that map exactly those
    columns to cells;
  - the table operations used are mask selection, column assignment,
    concat, drop, fillna and `.str.len()`;
  - `class Frame` is a dataframe object whose columns the parser assigns
    in place.
- `IpFields` (ip_fields.dfy) gives one formula per pass, `ProcessIp`:
  - the non-empty rows, then the empty rows refilled from the fallback
    column, without the two helper columns;
  - the two passes in order (`ProcessIpFields`), and fillna followed by
    both passes (`PostProcess`).

  It then proves what the formula guarantees:
  - where each output row comes from (`Origin`, the cudf index labels) and
    what it holds;
  - the stable partition and the ordering after both passes;
  - row counts and the dropped columns;
  - that no null survives `parse`.
- `SplunkNotableParser` (splunk_notable_parser.dfy) writes the source's
  loop and its branches as methods over `Frame` objects, following the
  code line by line. `ProcessIpField`, `ProcessIpFields` and `Parse` are
  proved to compute the `IpFields` formulas. `MergeRefilled`, the
  `if not tmp_dataframe.empty` block, is stated with the `Frames` table
  operations. Each method also states what it leaves behind on the frame
  it was given.

Errors are values (`Result`):
- a missing `ip` column is a KeyError at line 42;
- an `ip` column that does not hold strings fails at `.str` on line 42;
- a missing fallback column is a KeyError at line 51, or at the drop on
  line 63 when no row is empty. The error is the same either way.

A row whose `ip` cell is null has a null length and so passes neither mask
(lines 44 and 46). `_process_ip_fields` on its own therefore silently drops
such rows. `IpFields.RowCount` states exactly when that happens.
`IpFields.PostProcessKeepsEveryRow` shows that the `fillna("")` in `parse`
(line 28) rules it out.

## Model

| member | source | states |
|---|---|---|
| Frames.WithColumn | clx/parsers/splunk_notable_parser.py:42 | `df[name] = values` keeps the table well formed; the names gain `name`; an existing column keeps its place and a new one is appended last; the row count is unchanged |
| Frames.WithColumnRows | clx/parsers/splunk_notable_parser.py:51 | after a column assignment, each row is the old row with only the `name` cell replaced by its value |
| Frames.Indices | clx/parsers/splunk_notable_parser.py:44-46 | the rows a boolean mask selects: exactly the positions where the mask is true, strictly increasing, so relative order is kept |
| Frames.IndicesEmpty | clx/parsers/splunk_notable_parser.py:48 | a mask selects no row if and only if every entry is false |
| Frames.Where | clx/parsers/splunk_notable_parser.py:44-46 | mask selection keeps the columns; output row `k` is the input row at the `k`-th true position of the mask |
| Frames.Column | clx/parsers/splunk_notable_parser.py:42-51 | `t[name]` has one cell per row, the `name` cell of that row, top to bottom |
| Frames.Concat | clx/parsers/splunk_notable_parser.py:58 | `cudf.concat([a, b])` of frames with the same columns is `a`'s rows followed by `b`'s rows |
| Frames.WithoutNames | clx/parsers/splunk_notable_parser.py:63 | dropping names from a column list leaves exactly the other names, still distinct; `WithoutNamesOrder` adds that they keep their relative order |
| Frames.WithoutNamesOrder | clx/parsers/splunk_notable_parser.py:63 | any two names left after dropping appear in that order in the original column list |
| Frames.Without | clx/parsers/splunk_notable_parser.py:63 | removing columns keeps the row count; each row loses exactly those keys and keeps the value of every other cell |
| Frames.DropColumns | clx/parsers/splunk_notable_parser.py:63 | `drop` succeeds if and only if every label is a column; otherwise it fails with a missing label; on success the row count is kept, exactly those names go, the remaining columns keep their order, and every remaining cell keeps its value |
| Frames.FillNulls | clx/parsers/splunk_notable_parser.py:28 | `fillna(v)` keeps columns and row count, leaves no null, turns every null cell into the string `v`, and keeps every non-null cell |
| Frames.StrLen | clx/parsers/splunk_notable_parser.py:42 | `.str.len()` succeeds if and only if no cell is an integer; it gives the string's length for a string cell and null for a null cell; otherwise it fails with `NotText` |
| Frames.TextColumn | clx/parsers/splunk_notable_parser.py:42 | the string accessor applies to a column exactly when the column is text |
| Frames.IsZero | clx/parsers/splunk_notable_parser.py:44 | the mask `len == 0` has one entry per cell and is true exactly on the cells equal to integer 0; a null length is false |
| Frames.IsNonZero | clx/parsers/splunk_notable_parser.py:46 | the mask `len != 0` is true exactly on the non-zero integer cells; a null length is false |
| Frames.ZeroMasksSplit | clx/parsers/splunk_notable_parser.py:44-46 | the two masks never both select a row, and together they select exactly the rows whose length is an integer, so a null length is in neither |
| Frames.Frame.IsEmpty | clx/parsers/splunk_notable_parser.py:48-52 | `df.empty` is true exactly when the frame has no rows or no columns |
| Frames.Frame.Get | clx/parsers/splunk_notable_parser.py:42 | `df[name]` returns the column's cells, or fails with `MissingColumn(name)` if and only if `name` is not a column |
| Frames.Frame.Assign | clx/parsers/splunk_notable_parser.py:42 | in-place `df[name] = values`: the frame becomes `WithColumn` of its old value |
| Frames.Frame.Select | clx/parsers/splunk_notable_parser.py:44-46 | `df[mask]` is a new frame holding `Where` of the old one; the original is untouched |
| Frames.Frame.Drop | clx/parsers/splunk_notable_parser.py:63 | `df.drop(names)` is a new frame holding `DropColumns`, or its error |
| Frames.Frame.FillNa | clx/parsers/splunk_notable_parser.py:28 | `df.fillna(v)` is a new frame holding `FillNulls` |
| Frames.ConcatFrames | clx/parsers/splunk_notable_parser.py:58 | concatenation of two frames is a new frame holding `Concat` of their values |
| IpFields.Coalesce | clx/parsers/splunk_notable_parser.py:51 | an empty `ip` takes the row's fallback value when there is one; every other cell, and every key, is kept |
| IpFields.Out | clx/parsers/splunk_notable_parser.py:51-63 | a processed row has exactly its input row's keys minus `ip + "2"` and `ip + "_len"` (`OutCoalesced` gives its cells) |
| IpFields.Origin | clx/parsers/splunk_notable_parser.py:44-58 | the input position named by the index label of each output row lies within the input; `OriginIsStablePartition` and `OriginRows` say which rows appear and what they hold |
| IpFields.Kept | clx/parsers/splunk_notable_parser.py:46 | the non-empty side keeps the columns and has one row per non-empty `ip` |
| IpFields.Refilled | clx/parsers/splunk_notable_parser.py:44-51 | the empty side, with `ip` copied from the fallback column, keeps the columns and has one row per empty `ip` |
| IpFields.ProcessIp | clx/parsers/splunk_notable_parser.py:39-63 | a pass succeeds if and only if `ip` is present and text and the fallback column is present; its output has exactly the input's columns minus `ip + "2"` and `ip + "_len"`, in input order |
| IpFields.ProcessAll | clx/parsers/splunk_notable_parser.py:37 | the passes over a list of IP columns, each on the previous output, stopping at the first error, give a well-formed table; `ProcessIpFieldsInOrder` and `ProcessAllStep` unfold it |
| IpFields.ProcessIpFields | clx/parsers/splunk_notable_parser.py:33-64 | both passes, "src_ip" then "dest_ip", give a well-formed table; `HelperColumnsDropped`, `FieldsRows`, `FieldsOrdered` and `FieldsComplete` state what it holds |
| IpFields.PostProcess | clx/parsers/splunk_notable_parser.py:28-30 | fillna with `""`, then both passes, give a well-formed table; `PostProcessKeepsEveryRow` states that no null is left and no row is lost |
| IpFields.KeptAt | clx/parsers/splunk_notable_parser.py:46 | row `k` of the non-empty side is the `k`-th non-empty input row, unchanged |
| IpFields.RefilledAt | clx/parsers/splunk_notable_parser.py:44-51 | row `k` of the empty side is the `k`-th empty input row with `ip` taken from its fallback cell |
| IpFields.OriginRows | clx/parsers/splunk_notable_parser.py:44-63 | output row `j` of a pass is input row `Origin[j]` with an empty `ip` refilled and the helper columns removed |
| IpFields.OriginIsStablePartition | clx/parsers/splunk_notable_parser.py:44-58 | the output lists every row whose `ip` is set exactly once: the non-empty rows first, then the empty rows, each side in input order |
| IpFields.SidesCount | clx/parsers/splunk_notable_parser.py:44-46 | the non-empty, empty and null rows together are all rows |
| IpFields.PassLength | clx/parsers/splunk_notable_parser.py:44-61 | a pass outputs one row per non-empty `ip` plus one per empty `ip` |
| IpFields.UnsetIsNull | clx/parsers/splunk_notable_parser.py:42-46 | in a text `ip` column, a row passes neither mask exactly when its `ip` is null |
| IpFields.RowCount | clx/parsers/splunk_notable_parser.py:44-61 | output rows plus null-`ip` rows equal the input rows, so a pass keeps every row if and only if no `ip` cell is null |
| IpFields.OutCoalesced | clx/parsers/splunk_notable_parser.py:51-63 | for one row, `ip` becomes the fallback value when it is `""` and stays otherwise; every other remaining cell is unchanged; only the helper keys go |
| IpFields.IpCoalesced | clx/parsers/splunk_notable_parser.py:44-63 | after a pass, each row keeps a non-empty `ip`, or has the fallback of its input row when `ip` was `""`; all other cells are those of its input row; only the helper columns are gone |
| IpFields.ProcessAllOne | clx/parsers/splunk_notable_parser.py:37 | processing a one-column list is the single pass |
| IpFields.ProcessIpFieldsInOrder | clx/parsers/splunk_notable_parser.py:37 | the "src_ip" pass runs first; the "dest_ip" pass runs on its output; the first error stops everything |
| IpFields.ColumnNamesDiffer | clx/parsers/splunk_notable_parser.py:37-40 | the IP, fallback and length column names of the two passes are pairwise different |
| IpFields.SrcPassKeepsDest | clx/parsers/splunk_notable_parser.py:37-63 | the "src_ip" pass keeps every row's "dest_ip" cell and its "dest_ip2" column |
| IpFields.DestStateKept | clx/parsers/splunk_notable_parser.py:37 | each row reaches the "dest_ip" pass with the "dest_ip" state (non-empty, empty or null) of its input row |
| IpFields.FieldsRows | clx/parsers/splunk_notable_parser.py:37-63 | after both passes, row `j` is input row `FieldsOrigin[j]` passed through the "src_ip" pass and then the "dest_ip" pass |
| IpFields.ComposedRows | clx/parsers/splunk_notable_parser.py:37 | two gathers in a row are one gather along the composed positions |
| IpFields.ComposedOrder | clx/parsers/splunk_notable_parser.py:37-58 | composing the two stable partitions orders rows by "dest_ip" state, then "src_ip" state, then input position |
| IpFields.ComposedComplete | clx/parsers/splunk_notable_parser.py:37-46 | composing the two partitions keeps every row whose two IP cells are set |
| IpFields.FieldsOrdered | clx/parsers/splunk_notable_parser.py:37-58 | the output of both passes is ordered by "dest_ip" state, then "src_ip" state, then input position |
| IpFields.FieldsComplete | clx/parsers/splunk_notable_parser.py:37-46 | every input row whose "src_ip" and "dest_ip" are both non-null appears in the output of both passes |
| IpFields.OutCells | clx/parsers/splunk_notable_parser.py:51 | every cell of a processed row is the row's own cell, or its fallback cell |
| IpFields.OutRowsNoNulls | clx/parsers/splunk_notable_parser.py:51-58 | rows without nulls give processed rows without nulls |
| IpFields.PassKeepsNoNulls | clx/parsers/splunk_notable_parser.py:44-63 | a pass over a table without nulls keeps every row and leaves no null |
| IpFields.PassKeepsText | clx/parsers/splunk_notable_parser.py:51-63 | a text column that a pass neither writes nor drops is still text afterwards |
| IpFields.ProcessIpFieldsSucceeds | clx/parsers/splunk_notable_parser.py:37-63 | both passes succeed when the four IP columns exist and both IP columns are text; when they succeed, the four columns existed |
| IpFields.HelperColumnsDropped | clx/parsers/splunk_notable_parser.py:39-63 | the output has exactly the input's columns minus "src_ip2", "src_ip_len", "dest_ip2" and "dest_ip_len", including when no row needed filling |
| IpFields.SetEverywhere | clx/parsers/splunk_notable_parser.py:28-42 | in a text column without nulls, every IP cell is set, so every length is `== 0` or `!= 0` |
| IpFields.DestSetEverywhere | clx/parsers/splunk_notable_parser.py:37 | if every "src_ip" is set and every "dest_ip" reaching the second pass is set, then every input row's "dest_ip" is set |
| IpFields.BothSetEverywhere | clx/parsers/splunk_notable_parser.py:28-46 | a table without nulls where both passes succeed has both IP cells set in every row |
| IpFields.PostProcessKeepsEveryRow | clx/parsers/splunk_notable_parser.py:27-30 | after fillna and both passes, no cell is null, the row count equals the input's, and every input row appears in the output |
| SplunkNotableParser.AfterLenAssign | clx/parsers/splunk_notable_parser.py:42 | the frame a pass was given, after the pass, stays well formed |
| SplunkNotableParser.LenColumnLeftBehind | clx/parsers/splunk_notable_parser.py:42 | a pass that gets past the string accessor leaves `ip + "_len"` on its input frame, holding each `ip` length (null for null) with no other cell changed; a pass that fails there leaves the frame alone |
| SplunkNotableParser.LenMasks | clx/parsers/splunk_notable_parser.py:42-46 | the masks `len == 0` and `len != 0` are exactly "ip is the empty string" and "ip is a non-empty string" |
| SplunkNotableParser.OriginSameStates | clx/parsers/splunk_notable_parser.py:44-46 | rows in the same IP states are split in the same way |
| SplunkNotableParser.OutIgnoresLen | clx/parsers/splunk_notable_parser.py:63 | a row's length cell has no effect on the processed row, because it is dropped |
| SplunkNotableParser.WithoutAppended | clx/parsers/splunk_notable_parser.py:42-63 | an appended column that is then dropped leaves the column list as it was |
| SplunkNotableParser.OutRowsIgnoreLen | clx/parsers/splunk_notable_parser.py:42-63 | the length column does not change the processed rows |
| SplunkNotableParser.PassRowsIgnoreLen | clx/parsers/splunk_notable_parser.py:42-63 | a pass over the frame with the length column yields the same rows as the pass over the frame without it |
| SplunkNotableParser.PassSucceedsWithLen | clx/parsers/splunk_notable_parser.py:42 | adding the length column does not change whether the pass succeeds |
| SplunkNotableParser.PassColumnsIgnoreLen | clx/parsers/splunk_notable_parser.py:42-63 | with the length column added the pass still succeeds, and it leaves the same columns |
| SplunkNotableParser.PassIgnoresLen | clx/parsers/splunk_notable_parser.py:42-63 | the pass over the frame with the length column equals the pass over the frame without it |
| SplunkNotableParser.DroppedNames | clx/parsers/splunk_notable_parser.py:39-63 | `[ip_len, ip2]` names exactly the two helper columns |
| SplunkNotableParser.LenPass | clx/parsers/splunk_notable_parser.py:42-63 | once the length column is assigned, dropping `[ip_len, ip2]` from the kept rows plus the refilled rows is the pass formula; without a fallback column the pass fails on that one |
| SplunkNotableParser.MergeRefilled | clx/parsers/splunk_notable_parser.py:48-61 | with no empty rows, the non-empty frame is returned as it is and `tmp` is untouched; otherwise `tmp` becomes `tmp[ip] = tmp[ip2]` in place, and the result is a fresh frame of the non-empty rows followed by the refilled ones, or `tmp` itself when the non-empty side has no rows; it fails if and only if there are empty rows and no fallback column, and then `tmp` is untouched |
| SplunkNotableParser.ProcessIpField | clx/parsers/splunk_notable_parser.py:38-63 | one loop iteration returns exactly the `ProcessIp` formula, or its error; the frame it was given gains the length column in place |
| SplunkNotableParser.ProcessAllStep | clx/parsers/splunk_notable_parser.py:37 | the passes over the remaining columns are the next pass, then the rest |
| SplunkNotableParser.ProcessIpFields | clx/parsers/splunk_notable_parser.py:33-64 | the loop returns both passes in order, or the first error; the frame it was given ends with only "src_ip_len" added |
| SplunkNotableParser.Parse | clx/parsers/splunk_notable_parser.py:27-31 | the frame of extracted events is filled with `""` and post-processed into a new frame equal to `PostProcess`; the input frame is unchanged |

## Left out

- The constructor and `_load_regex_yaml` (lines 14-20) are not modelled.
  They read a YAML resource from disk, and neither the resource nor the
  loader is part of this model.
- `parse_raw_event` (line 26) is not modelled. Regex extraction happens in
  `EventParser`, which is not part of this model. `Parse` takes the
  extracted frame as its input.
- The backslash cleanup of the raw column (line 25) and its in-place
  update of the caller's frame are not modelled. They only affect the
  regex input, and whether cudf reads the pattern as a regex or a literal
  is library behaviour.
- Logging (lines 6, 38, 49, 53-56) is left out. It is output only.
- cudf index labels are not stored as data. `IpFields.Origin` gives, for
  every output row, the input position that its index label names.
- Dtypes are reduced to three cell kinds: null, string and integer.
  `NotText` stands for the error the `.str` accessor raises on a
  non-string column. Integer cells only arise in the length column, and
  their width does not matter for lengths.
- `cudf.concat` is modelled only for frames with the same columns, the
  only way line 58 uses it.
- `drop([ip_len, ip2])` on line 63 is modelled as dropping columns, with a
  missing label raising. This follows the code's own comment and the cudf
  API of the time. Dropping rows by label was not modelled.
- Dafny's integers are unbounded. No arithmetic in this step can overflow:
  string lengths are compared only against 0.
