/**
 * The Splunk notable parser's post-processing as the source writes it:
 * a loop over the two IP columns that adds a length column to the frame
 * it is given, splits the frame with two masks, refills the empty side
 * from the fallback column, concatenates, and drops the helper columns.
 * Each method is proved to compute the formula of `IpFields`.
 */
module SplunkNotableParser {
  import opened Frames
  import opened IpFields

  // ---------------------------------------------------------------------
  // What the helper column does to the frame it is added to

  /** The frame a pass was given, after the pass: the length column of `ip`
      has been assigned to it in place, unless the pass failed before that. */
  function AfterLenAssign(t: Table, ip: string): (r: Table)
    requires WellFormed(t)
    ensures WellFormed(r)
  {
    if ip in t.columns && StrLen(Column(t, ip), ip).Success? then
      WithColumn(t, LenColumn(ip), StrLen(Column(t, ip), ip).value)
    else t
  }

  /** A pass that gets past `ip` leaves on the frame it was given the
      column `ip + "_len"` holding the length of every `ip` string (null for
      a null `ip`), and changes no other cell; a pass that fails on `ip`
      leaves the frame alone. */
  lemma LenColumnLeftBehind(t: Table, ip: string)
    requires WellFormed(t)
    ensures var r := AfterLenAssign(t, ip);
            && |r.rows| == |t.rows|
            && (ip in t.columns && IsText(t, ip) ==>
                  && Names(r.columns) == Names(t.columns) + {LenColumn(ip)}
                  && forall i :: 0 <= i < |t.rows| ==>
                       && (t.rows[i][ip].Str? ==> r.rows[i][LenColumn(ip)] == Int(|t.rows[i][ip].s|))
                       && (t.rows[i][ip].Null? ==> r.rows[i][LenColumn(ip)] == Null)
                       && forall c :: c in t.rows[i] && c != LenColumn(ip) ==> r.rows[i][c] == t.rows[i][c])
            && (!(ip in t.columns && IsText(t, ip)) ==> r == t)
  {
    if ip in t.columns {
      TextColumn(t, ip);
    }
  }

  // ---------------------------------------------------------------------
  // Why the imperative steps compute the formula

  /** The two masks built from the length column are the two side masks of
      `ip`: length 0 is the empty string, a non-zero length a non-empty
      string, and a null length (null `ip`) is in neither. */
  lemma LenMasks(t0: Table, ip: string, lens: seq<Cell>)
    requires WellFormed(t0) && ip in t0.columns && StrLen(Column(t0, ip), ip) == Success(lens)
    ensures var t1 := WithColumn(t0, LenColumn(ip), lens);
            && LenColumn(ip) in t1.columns
            && IsZero(Column(t1, LenColumn(ip))) == SideMask(t1.rows, ip, Empty)
            && IsNonZero(Column(t1, LenColumn(ip))) == SideMask(t1.rows, ip, NonEmpty)
  {
    var t1 := WithColumn(t0, LenColumn(ip), lens);
    assert LenColumn(ip) in Names(t1.columns);
    assert ip in Names(t0.columns);
    assert |LenColumn(ip)| != |ip|;
    forall i | 0 <= i < |t1.rows|
      ensures IsZero(Column(t1, LenColumn(ip)))[i] == SideMask(t1.rows, ip, Empty)[i]
      ensures IsNonZero(Column(t1, LenColumn(ip)))[i] == SideMask(t1.rows, ip, NonEmpty)[i]
    {
      assert t1.rows[i][ip] == t0.rows[i][ip];
      assert t1.rows[i][LenColumn(ip)] == lens[i];
    }
  }

  /** Rows in the same states give the same origin. */
  lemma OriginSameStates(rows0: seq<Row>, rows1: seq<Row>, ip: string)
    requires |rows0| == |rows1|
    requires forall i :: 0 <= i < |rows0| ==> StateOf(rows0[i], ip) == StateOf(rows1[i], ip)
    ensures Origin(rows0, ip) == Origin(rows1, ip)
  {
    assert SideMask(rows0, ip, NonEmpty) == SideMask(rows1, ip, NonEmpty);
    assert SideMask(rows0, ip, Empty) == SideMask(rows1, ip, Empty);
  }

  /** The length cell of a row is gone once the pass has run. */
  lemma OutIgnoresLen(r: Row, ip: string, v: Cell)
    ensures Out(r[LenColumn(ip) := v], ip) == Out(r, ip)
  {
    assert |LenColumn(ip)| != |ip| && |LenColumn(ip)| != |Fallback(ip)|;
    var r1 := r[LenColumn(ip) := v];
    assert StateOf(r1, ip) == StateOf(r, ip);
    assert Coalesce(r1, ip) == Coalesce(r, ip)[LenColumn(ip) := v];
  }

  /** Dropping a name the list already ends with, when that name is dropped
      anyway, changes nothing. */
  lemma WithoutAppended(columns: seq<string>, n: string, names: set<string>)
    requires n in names
    ensures WithoutNames(columns + [n], names) == WithoutNames(columns, names)
  {
    assert (columns + [n])[..|columns|] == columns;
  }

  /** Rows that differ only in the length cell give the same pass output. */
  lemma OutRowsIgnoreLen(rows0: seq<Row>, rows1: seq<Row>, ip: string, lens: seq<Cell>, o: seq<nat>)
    requires |rows1| == |rows0| == |lens|
    requires forall i :: 0 <= i < |rows0| ==> rows1[i] == rows0[i][LenColumn(ip) := lens[i]]
    requires forall j :: 0 <= j < |o| ==> o[j] < |rows0|
    ensures OutRows(rows1, o, ip) == OutRows(rows0, o, ip)
  {
    forall j | 0 <= j < |o|
      ensures OutRows(rows1, o, ip)[j] == OutRows(rows0, o, ip)[j]
    {
      OutIgnoresLen(rows0[o[j]], ip, lens[o[j]]);
    }
  }

  /** The rows of two passes over tables that differ only in the length
      cell are the same. */
  lemma PassRowsIgnoreLen(t0: Table, t1: Table, ip: string, lens: seq<Cell>)
    requires WellFormed(t0) && WellFormed(t1)
    requires ProcessIp(t0, ip).Success? && ProcessIp(t1, ip).Success?
    requires |t1.rows| == |t0.rows| == |lens|
    requires forall i :: 0 <= i < |t0.rows| ==> t1.rows[i] == t0.rows[i][LenColumn(ip) := lens[i]]
    ensures ProcessIp(t1, ip).value.rows == ProcessIp(t0, ip).value.rows
  {
    var o := Origin(t0.rows, ip);
    assert Origin(t1.rows, ip) == o by {
      assert |LenColumn(ip)| != |ip|;
      assert forall i :: 0 <= i < |t0.rows| ==> StateOf(t0.rows[i], ip) == StateOf(t1.rows[i], ip);
      OriginSameStates(t0.rows, t1.rows, ip);
    }
    OriginRowsSeq(t0, ip);
    OriginRowsSeq(t1, ip);
    OutRowsIgnoreLen(t0.rows, t1.rows, ip, lens, o);
  }

  /** Adding the length column keeps the conditions under which a pass
      succeeds. */
  lemma PassSucceedsWithLen(t0: Table, ip: string, lens: seq<Cell>)
    requires WellFormed(t0) && |lens| == |t0.rows| && ProcessIp(t0, ip).Success?
    ensures ProcessIp(WithColumn(t0, LenColumn(ip), lens), ip).Success?
  {
    var t1 := WithColumn(t0, LenColumn(ip), lens);
    assert |LenColumn(ip)| != |ip|;
    assert ip in Names(t1.columns) && Fallback(ip) in Names(t1.columns);
    assert IsText(t1, ip);
  }

  /** ... and the columns a pass leaves. */
  lemma PassColumnsIgnoreLen(t0: Table, ip: string, lens: seq<Cell>)
    requires WellFormed(t0) && |lens| == |t0.rows| && ProcessIp(t0, ip).Success?
    ensures ProcessIp(WithColumn(t0, LenColumn(ip), lens), ip).Success?
    ensures ProcessIp(WithColumn(t0, LenColumn(ip), lens), ip).value.columns == ProcessIp(t0, ip).value.columns
  {
    PassSucceedsWithLen(t0, ip, lens);
    if LenColumn(ip) !in t0.columns {
      WithoutAppended(t0.columns, LenColumn(ip), Helpers(ip));
    }
  }

  /** A pass over a table to which the length column was added computes the
      same table as the pass over the table itself. */
  lemma PassIgnoresLen(t0: Table, ip: string, lens: seq<Cell>)
    requires WellFormed(t0) && |lens| == |t0.rows| && ProcessIp(t0, ip).Success?
    ensures var t1 := WithColumn(t0, LenColumn(ip), lens);
            && ProcessIp(t1, ip).Success?
            && ProcessIp(t1, ip).value == ProcessIp(t0, ip).value
  {
    var t1 := WithColumn(t0, LenColumn(ip), lens);
    PassSucceedsWithLen(t0, ip, lens);
    PassColumnsIgnoreLen(t0, ip, lens);
    WithColumnRows(t0, LenColumn(ip), lens);
    PassRowsIgnoreLen(t0, t1, ip, lens);
  }

  /** `[ip_len, ip2]` names the helper columns of `ip`. */
  lemma DroppedNames(ip: string)
    ensures Names([LenColumn(ip), Fallback(ip)]) == Helpers(ip)
  {
    assert LenColumn(ip) in Names([LenColumn(ip), Fallback(ip)]);
    assert Fallback(ip) in Names([LenColumn(ip), Fallback(ip)]);
  }

  // ---------------------------------------------------------------------
  // The methods

  /** Once the length column is in place, dropping the two helper columns
      from the kept rows followed by the refilled rows is the pass over the
      original table; without a fallback column the pass fails on it. */
  lemma LenPass(t0: Table, ip: string, lens: seq<Cell>)
    requires WellFormed(t0) && ip in t0.columns && StrLen(Column(t0, ip), ip) == Success(lens)
    ensures var t1 := WithColumn(t0, LenColumn(ip), lens);
            && ip in t1.columns && LenColumn(ip) in t1.columns
            && (Fallback(ip) in t1.columns <==> Fallback(ip) in t0.columns)
            && (Fallback(ip) !in t0.columns ==> ProcessIp(t0, ip) == Failure(MissingColumn(Fallback(ip))))
            && (Fallback(ip) in t0.columns ==>
                  DropColumns(Concat(Kept(t1, ip), Refilled(t1, ip)), [LenColumn(ip), Fallback(ip)])
                  == ProcessIp(t0, ip))
  {
    var t1 := WithColumn(t0, LenColumn(ip), lens);
    TextColumn(t0, ip);
    assert |LenColumn(ip)| != |ip| && |LenColumn(ip)| != |Fallback(ip)|;
    assert ip in Names(t0.columns) && ip in Names(t1.columns) && LenColumn(ip) in Names(t1.columns);
    assert Fallback(ip) in Names(t1.columns) <==> Fallback(ip) in Names(t0.columns);
    if Fallback(ip) in t0.columns {
      DroppedNames(ip);
      PassIgnoresLen(t0, ip, lens);
    }
  }

  /** The `if not tmp_dataframe.empty` block of a pass: when some row has an
      empty `ip`, those rows (`tmp`) take `ip` from the fallback column in
      place and are appended to the non-empty rows (`parsed`), or replace
      them when there are none; a missing fallback column raises. With no
      empty row, `parsed` is the result as it stands. */
  method MergeRefilled(parsed: Frame, tmp: Frame, ip: string) returns (r: Result<Frame>)
    requires parsed != tmp && parsed.Valid() && tmp.Valid() && parsed.columns == tmp.columns
    requires ip in tmp.columns && |parsed.columns| > 0
    modifies tmp
    ensures r.Failure? <==> |old(tmp.rows)| > 0 && Fallback(ip) !in old(tmp.columns)
    ensures r.Failure? ==> r.error == MissingColumn(Fallback(ip))
    ensures r.Success? ==> r.value.Valid()
    ensures r.Success? && |old(tmp.rows)| == 0 ==> r.value == parsed && unchanged(tmp)
    ensures r.Success? && |old(tmp.rows)| > 0 ==>
              r.value.Value() == Concat(parsed.Value(), WithColumn(old(tmp.Value()), ip,
                                                                   Column(old(tmp.Value()), Fallback(ip))))
    ensures r.Success? && |old(tmp.rows)| > 0 ==>
              tmp.Value() == WithColumn(old(tmp.Value()), ip, Column(old(tmp.Value()), Fallback(ip)))
    ensures r.Success? && |old(tmp.rows)| > 0 && |parsed.rows| == 0 ==> r.value == tmp
    ensures r.Success? && |old(tmp.rows)| > 0 && |parsed.rows| > 0 ==> fresh(r.value)
    ensures r.Failure? ==> unchanged(tmp)
  {
    if tmp.IsEmpty() {
      return Success(parsed);
    }
    var fallback := tmp.Get(Fallback(ip));
    if fallback.Failure? {
      return Failure(fallback.error);
    }
    tmp.Assign(ip, fallback.value);
    if !parsed.IsEmpty() {
      var both := ConcatFrames(parsed, tmp);
      r := Success(both);
    } else {
      r := Success(tmp);
    }
  }

  /** One iteration of the loop of `_process_ip_fields` for the column `ip`.
      It adds the length column to `df` in place, then builds a new frame
      from the two masked copies; it stops with the library's error when
      `ip` is missing or not text, or when the fallback column is missing. */
  method ProcessIpField(df: Frame, ip: string) returns (r: Result<Frame>)
    requires df.Valid()
    modifies df
    ensures df.Valid() && df.Value() == AfterLenAssign(old(df.Value()), ip)
    ensures Contents(r) == ProcessIp(old(df.Value()), ip)
    ensures r.Success? ==> fresh(r.value) && r.value.Valid()
  {
    ghost var t0 := df.Value();
    var ip2 := Fallback(ip);
    var ipLen := LenColumn(ip);
    var col := df.Get(ip);
    if col.Failure? {
      return Failure(col.error);
    }
    var lens := StrLen(col.value, ip);
    if lens.Failure? {
      TextColumn(t0, ip);
      return Failure(lens.error);
    }
    df.Assign(ipLen, lens.value);
    ghost var t1 := df.Value();
    LenMasks(t0, ip, lens.value);
    LenPass(t0, ip, lens.value);
    var lenCol := Column(df.Value(), ipLen);
    var tmp := df.Select(IsZero(lenCol));
    var parsed := df.Select(IsNonZero(lenCol));
    assert |parsed.columns| > 0;
    ghost var empty := tmp.Value();
    var merged := MergeRefilled(parsed, tmp, ip);
    if merged.Failure? {
      return Failure(merged.error);
    }
    if ip2 in t1.columns {
      assert merged.value.Value() == Concat(Kept(t1, ip), Refilled(t1, ip)) by {
        if |empty.rows| == 0 {
          assert Refilled(t1, ip).rows == [];
        }
      }
    }
    r := merged.value.Drop([ipLen, ip2]);
  }

  /** The passes over `ips[k..]` are the pass over `ips[k]`, then the rest. */
  lemma ProcessAllStep(u: Table, ips: seq<string>, k: nat)
    requires WellFormed(u) && k < |ips|
    ensures ProcessAll(u, ips[k..]) == match ProcessIp(u, ips[k])
                                       case Failure(e) => Failure(e)
                                       case Success(u') => ProcessAll(u', ips[k + 1..])
  {
    assert ips[k..][1..] == ips[k + 1..];
  }

  /** `_process_ip_fields`: the passes over "src_ip" and "dest_ip", each on
      the frame the previous one built. The frame it is given gains the
      "src_ip_len" column. */
  method ProcessIpFields(df: Frame) returns (r: Result<Frame>)
    requires df.Valid()
    modifies df
    ensures df.Valid() && df.Value() == AfterLenAssign(old(df.Value()), SrcIp)
    ensures Contents(r) == IpFields.ProcessIpFields(old(df.Value()))
    ensures r.Success? ==> fresh(r.value) && r.value.Valid()
  {
    ghost var t0 := df.Value();
    var parsed := df;
    var k := 0;
    while k < |IpColumns|
      invariant 0 <= k <= |IpColumns|
      invariant parsed.Valid() && df.Valid()
      invariant ProcessAll(parsed.Value(), IpColumns[k..]) == ProcessAll(t0, IpColumns)
      invariant k == 0 ==> parsed == df
      invariant k > 0 ==> fresh(parsed)
      invariant df.Value() == if k == 0 then t0 else AfterLenAssign(t0, SrcIp)
    {
      ProcessAllStep(parsed.Value(), IpColumns, k);
      var step := ProcessIpField(parsed, IpColumns[k]);
      if step.Failure? {
        return Failure(step.error);
      }
      parsed := step.value;
      k := k + 1;
    }
    r := Success(parsed);
  }

  /** The part of `parse` after the regular expressions have pulled the
      fields out of the raw events: nulls become "", then the IP columns
      are post-processed. The input frame itself is left untouched. */
  method Parse(extracted: Frame) returns (r: Result<Frame>)
    requires extracted.Valid()
    ensures Contents(r) == PostProcess(extracted.Value())
    ensures r.Success? ==> fresh(r.value) && r.value.Valid()
  {
    var filled := extracted.FillNa("");
    r := ProcessIpFields(filled);
  }
}
