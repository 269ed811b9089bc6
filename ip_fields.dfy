/**
 * The post-processing step of the Splunk notable parser, as one formula
 * per IP column, and what that formula guarantees.
 *
 * For an IP column `ip` (first "src_ip", then "dest_ip") the step keeps
 * the rows whose `ip` is a non-empty string, then appends the rows whose
 * `ip` is the empty string with `ip` replaced by the fallback column
 * `ip + "2"`, and finally drops the fallback column and the helper column
 * `ip + "_len"` that held the lengths.
 */
module IpFields {
  import opened Frames

  const SrcIp: string := "src_ip"
  const DestIp: string := "dest_ip"

  /** The IP columns, in the order in which they are processed. */
  const IpColumns: seq<string> := [SrcIp, DestIp]

  /** The column whose value replaces an empty `ip`. */
  function Fallback(ip: string): string
  {
    ip + "2"
  }

  /** The helper column that holds the length of `ip`. */
  function LenColumn(ip: string): string
  {
    ip + "_len"
  }

  /** The columns a pass over `ip` removes. */
  function Helpers(ip: string): set<string>
  {
    {Fallback(ip), LenColumn(ip)}
  }

  /** How a row's IP cell falls under the two length masks: a non-empty
      string (length != 0), the empty string (length == 0), or neither
      (a null cell, whose length is null and passes no mask). */
  datatype IpState = NonEmpty | Empty | Unset

  function StateOf(r: Row, ip: string): IpState
  {
    if ip in r && r[ip].Str? then
      (if |r[ip].s| == 0 then Empty else NonEmpty)
    else Unset
  }

  function SideMask(rows: seq<Row>, ip: string, side: IpState): seq<bool>
  {
    seq(|rows|, i requires 0 <= i < |rows| => StateOf(rows[i], ip) == side)
  }

  /** The rows whose `ip` is a non-empty string (`ip_len != 0`). */
  function Kept(t: Table, ip: string): (r: Table)
    requires WellFormed(t)
    ensures WellFormed(r) && r.columns == t.columns
    ensures |r.rows| == |Indices(SideMask(t.rows, ip, NonEmpty))|
  {
    Where(t, SideMask(t.rows, ip, NonEmpty))
  }

  /** The rows whose `ip` is the empty string (`ip_len == 0`), with `ip`
      overwritten by the fallback column. */
  function Refilled(t: Table, ip: string): (r: Table)
    requires WellFormed(t) && ip in t.columns && Fallback(ip) in t.columns
    ensures WellFormed(r) && r.columns == t.columns
    ensures |r.rows| == |Indices(SideMask(t.rows, ip, Empty))|
  {
    var empty := Where(t, SideMask(t.rows, ip, Empty));
    WithColumn(empty, ip, Column(empty, Fallback(ip)))
  }

  /** One pass over the column `ip`: the non-empty rows, then the empty rows
      with `ip` taken from the fallback column, without the helper columns.
      A missing `ip` or fallback column, or an `ip` column that does not hold
      strings, is an error. */
  function ProcessIp(t: Table, ip: string): (r: Result<Table>)
    requires WellFormed(t)
    ensures r.Success? <==> ip in t.columns && IsText(t, ip) && Fallback(ip) in t.columns
    ensures r.Success? ==> WellFormed(r.value)
    ensures r.Success? ==> r.value.columns == WithoutNames(t.columns, Helpers(ip))
    ensures r.Success? ==> Names(r.value.columns) == Names(t.columns) - Helpers(ip)
  {
    if ip !in t.columns then Failure(MissingColumn(ip))
    else if !IsText(t, ip) then Failure(NotText(ip))
    else if Fallback(ip) !in t.columns then Failure(MissingColumn(Fallback(ip)))
    else Success(Without(Concat(Kept(t, ip), Refilled(t, ip)), Helpers(ip)))
  }

  /** The passes over `ips`, one after the other; the first error stops them. */
  function ProcessAll(t: Table, ips: seq<string>): (r: Result<Table>)
    requires WellFormed(t)
    ensures r.Success? ==> WellFormed(r.value)
    decreases |ips|
  {
    if ips == [] then Success(t)
    else
      match ProcessIp(t, ips[0])
      case Failure(e) => Failure(e)
      case Success(t') => ProcessAll(t', ips[1..])
  }

  /** The whole post-processing: the "src_ip" pass, then the "dest_ip" pass. */
  function ProcessIpFields(t: Table): (r: Result<Table>)
    requires WellFormed(t)
    ensures r.Success? ==> WellFormed(r.value)
  {
    ProcessAll(t, IpColumns)
  }

  /** What the parser does with the extracted events: nulls become "", then
      the IP columns are processed. */
  function PostProcess(t: Table): (r: Result<Table>)
    requires WellFormed(t)
    ensures r.Success? ==> WellFormed(r.value)
  {
    ProcessIpFields(FillNulls(t, ""))
  }

  // ---------------------------------------------------------------------
  // Where every output row comes from

  /** An empty `ip` takes the fallback value; any other row is left alone. */
  function Coalesce(r: Row, ip: string): (c: Row)
    ensures c.Keys == r.Keys
    ensures forall k :: k in r && k != ip ==> c[k] == r[k]
    ensures ip in r ==> c[ip] == if r[ip] == Str("") && Fallback(ip) in r then r[Fallback(ip)] else r[ip]
  {
    if StateOf(r, ip) == Empty && Fallback(ip) in r then r[ip := r[Fallback(ip)]] else r
  }

  /** What a pass makes of one input row. */
  function Out(r: Row, ip: string): (o: Row)
    ensures o.Keys == r.Keys - Helpers(ip)
  {
    Coalesce(r, ip) - Helpers(ip)
  }

  /** The input position of every output row of a pass over `ip` (the index
      labels the output carries): the non-empty positions, then the empty ones. */
  function Origin(rows: seq<Row>, ip: string): (o: seq<nat>)
    ensures forall j :: 0 <= j < |o| ==> o[j] < |rows|
  {
    Indices(SideMask(rows, ip, NonEmpty)) + Indices(SideMask(rows, ip, Empty))
  }

  lemma KeptAt(t: Table, ip: string)
    requires WellFormed(t)
    ensures var ne := Indices(SideMask(t.rows, ip, NonEmpty));
            && |Kept(t, ip).rows| == |ne|
            && forall k :: 0 <= k < |ne| ==>
                 StateOf(t.rows[ne[k]], ip) == NonEmpty && Kept(t, ip).rows[k] == t.rows[ne[k]]
  {
  }

  lemma RefilledAt(t: Table, ip: string)
    requires WellFormed(t) && ip in t.columns && Fallback(ip) in t.columns
    ensures var em := Indices(SideMask(t.rows, ip, Empty));
            && |Refilled(t, ip).rows| == |em|
            && forall k :: 0 <= k < |em| ==>
                 StateOf(t.rows[em[k]], ip) == Empty &&
                 Refilled(t, ip).rows[k] == Coalesce(t.rows[em[k]], ip)
  {
    var em := Indices(SideMask(t.rows, ip, Empty));
    var empty := Where(t, SideMask(t.rows, ip, Empty));
    forall k | 0 <= k < |em|
      ensures Refilled(t, ip).rows[k] == Coalesce(t.rows[em[k]], ip)
    {
      assert empty.rows[k] == t.rows[em[k]];
    }
  }

  /** The position-by-position argument behind `OriginRows`, over any two
      tables that hold the kept rows and the refilled rows. */
  lemma OutRowsAt(rows: seq<Row>, ip: string, ne: seq<nat>, em: seq<nat>, kept: Table, filled: Table)
    requires WellFormed(kept) && WellFormed(filled) && kept.columns == filled.columns
    requires |kept.rows| == |ne| && |filled.rows| == |em|
    requires forall k :: 0 <= k < |ne| ==>
               ne[k] < |rows| && StateOf(rows[ne[k]], ip) == NonEmpty && kept.rows[k] == rows[ne[k]]
    requires forall k :: 0 <= k < |em| ==>
               em[k] < |rows| && filled.rows[k] == Coalesce(rows[em[k]], ip)
    ensures var out := Without(Concat(kept, filled), Helpers(ip));
            && |out.rows| == |ne + em|
            && forall j :: 0 <= j < |out.rows| ==>
                 (ne + em)[j] < |rows| && out.rows[j] == Out(rows[(ne + em)[j]], ip)
  {
    var out := Without(Concat(kept, filled), Helpers(ip));
    forall j | 0 <= j < |out.rows|
      ensures (ne + em)[j] < |rows| && out.rows[j] == Out(rows[(ne + em)[j]], ip)
    {
      if j < |ne| {
        assert out.rows[j] == kept.rows[j] - Helpers(ip);
      } else {
        assert out.rows[j] == filled.rows[j - |ne|] - Helpers(ip);
      }
    }
  }

  /** Row `j` of a pass's output is row `Origin[j]` of its input, coalesced
      and without the helper columns. */
  lemma OriginRows(t: Table, ip: string)
    requires WellFormed(t) && ProcessIp(t, ip).Success?
    ensures var r := ProcessIp(t, ip).value;
            var o := Origin(t.rows, ip);
            && |r.rows| == |o|
            && forall j :: 0 <= j < |o| ==> r.rows[j] == Out(t.rows[o[j]], ip)
  {
    var ne := Indices(SideMask(t.rows, ip, NonEmpty));
    var em := Indices(SideMask(t.rows, ip, Empty));
    var kept, filled := Kept(t, ip), Refilled(t, ip);
    assert |kept.rows| == |ne| &&
           forall k :: 0 <= k < |ne| ==>
             ne[k] < |t.rows| && StateOf(t.rows[ne[k]], ip) == NonEmpty && kept.rows[k] == t.rows[ne[k]] by {
      KeptAt(t, ip);
    }
    assert |filled.rows| == |em| &&
           forall k :: 0 <= k < |em| ==> em[k] < |t.rows| && filled.rows[k] == Coalesce(t.rows[em[k]], ip) by {
      RefilledAt(t, ip);
    }
    OutRowsAt(t.rows, ip, ne, em, kept, filled);
  }

  /** The rows at positions `o`, each passed through `Out`. */
  function OutRows(rows: seq<Row>, o: seq<nat>, ip: string): seq<Row>
    requires forall j :: 0 <= j < |o| ==> o[j] < |rows|
  {
    seq(|o|, j requires 0 <= j < |o| => Out(rows[o[j]], ip))
  }

  /** `OriginRows` as one equation. */
  lemma OriginRowsSeq(t: Table, ip: string)
    requires WellFormed(t) && ProcessIp(t, ip).Success?
    ensures ProcessIp(t, ip).value.rows == OutRows(t.rows, Origin(t.rows, ip), ip)
  {
    OriginRows(t, ip);
  }

  /** `o` lists the rows whose `ip` is set, each exactly once: the
      non-empty ones first, then the empty ones, each side in input order. */
  predicate StablePartition(rows: seq<Row>, ip: string, o: seq<nat>)
  {
    && (forall j :: 0 <= j < |o| ==> o[j] < |rows| && StateOf(rows[o[j]], ip) != Unset)
    && (forall j1, j2 :: 0 <= j1 < j2 < |o| && StateOf(rows[o[j1]], ip) == Empty ==>
          StateOf(rows[o[j2]], ip) == Empty)
    && (forall j1, j2 :: 0 <= j1 < j2 < |o| && StateOf(rows[o[j1]], ip) == StateOf(rows[o[j2]], ip) ==>
          o[j1] < o[j2])
    && (forall j1, j2 :: 0 <= j1 < j2 < |o| ==> o[j1] != o[j2])
    && (forall i :: 0 <= i < |rows| ==> (i in o <==> StateOf(rows[i], ip) != Unset))
  }

  /** `ps` lists, in increasing order, exactly the rows in state `side`. */
  predicate SideList(rows: seq<Row>, ip: string, side: IpState, ps: seq<nat>)
  {
    && (forall k :: 0 <= k < |ps| ==> ps[k] < |rows| && StateOf(rows[ps[k]], ip) == side)
    && (forall k1, k2 :: 0 <= k1 < k2 < |ps| ==> ps[k1] < ps[k2])
    && (forall i :: 0 <= i < |rows| && StateOf(rows[i], ip) == side ==> i in ps)
  }

  lemma SideIndices(rows: seq<Row>, ip: string, side: IpState)
    ensures SideList(rows, ip, side, Indices(SideMask(rows, ip, side)))
  {
    var ps := Indices(SideMask(rows, ip, side));
    forall i | 0 <= i < |rows| && StateOf(rows[i], ip) == side
      ensures i in ps
    {
      assert SideMask(rows, ip, side)[i];
    }
  }

  /** The non-empty rows in order followed by the empty rows in order form
      a stable partition. */
  lemma SidesPartition(rows: seq<Row>, ip: string, ne: seq<nat>, em: seq<nat>)
    requires SideList(rows, ip, NonEmpty, ne) && SideList(rows, ip, Empty, em)
    ensures StablePartition(rows, ip, ne + em)
  {
    var o := ne + em;
    assert forall j :: 0 <= j < |ne| ==> o[j] == ne[j];
    assert forall j :: |ne| <= j < |o| ==> o[j] == em[j - |ne|];
    forall i | 0 <= i < |rows| && StateOf(rows[i], ip) != Unset
      ensures i in o
    {
      if StateOf(rows[i], ip) == NonEmpty {
        assert i in ne;
      } else {
        assert i in em;
      }
    }
  }

  /** The origin of a pass is a stable partition of the rows whose `ip` is
      set: non-empty rows first, empty rows after, each side in its input
      order, every such row exactly once and no other row. */
  lemma OriginIsStablePartition(rows: seq<Row>, ip: string)
    ensures StablePartition(rows, ip, Origin(rows, ip))
  {
    SideIndices(rows, ip, NonEmpty);
    SideIndices(rows, ip, Empty);
    SidesPartition(rows, ip, Indices(SideMask(rows, ip, NonEmpty)), Indices(SideMask(rows, ip, Empty)));
  }

  /** Three masks that are true at disjoint positions covering everything
      select all positions between them. */
  lemma {:induction false} MasksCount(a: seq<bool>, b: seq<bool>, c: seq<bool>)
    requires |a| == |b| == |c|
    requires forall i :: 0 <= i < |a| ==> (if a[i] then 1 else 0) + (if b[i] then 1 else 0) + (if c[i] then 1 else 0) == 1
    ensures |Indices(a)| + |Indices(b)| + |Indices(c)| == |a|
  {
    if a != [] {
      var n := |a| - 1;
      MasksCount(a[..n], b[..n], c[..n]);
      IndicesLast(a);
      IndicesLast(b);
      IndicesLast(c);
    }
  }

  /** Every row has exactly one state, so the three masks split the rows. */
  lemma SidesCount(rows: seq<Row>, ip: string)
    ensures |Indices(SideMask(rows, ip, NonEmpty))| + |Indices(SideMask(rows, ip, Empty))|
            + |Indices(SideMask(rows, ip, Unset))| == |rows|
  {
    MasksCount(SideMask(rows, ip, NonEmpty), SideMask(rows, ip, Empty), SideMask(rows, ip, Unset));
  }

  /** A pass outputs the non-empty rows and the empty rows, one each. */
  lemma PassLength(t: Table, ip: string)
    requires WellFormed(t) && ProcessIp(t, ip).Success?
    ensures |ProcessIp(t, ip).value.rows| ==
            |Indices(SideMask(t.rows, ip, NonEmpty))| + |Indices(SideMask(t.rows, ip, Empty))|
  {
  }

  /** Under a text `ip` column present in every row, `Unset` means null. */
  lemma UnsetIsNull(t: Table, ip: string)
    requires WellFormed(t) && ip in t.columns && IsText(t, ip)
    ensures forall i :: 0 <= i < |t.rows| ==> (SideMask(t.rows, ip, Unset)[i] <==> t.rows[i][ip] == Null)
  {
  }

  /** A pass loses exactly the rows whose `ip` is null, so it keeps every
      row if and only if no `ip` cell is null. */
  lemma RowCount(t: Table, ip: string)
    requires WellFormed(t) && ProcessIp(t, ip).Success?
    ensures |ProcessIp(t, ip).value.rows| + |Indices(SideMask(t.rows, ip, Unset))| == |t.rows|
    ensures |ProcessIp(t, ip).value.rows| == |t.rows| <==>
            forall i :: 0 <= i < |t.rows| ==> t.rows[i][ip] != Null
  {
    SidesCount(t.rows, ip);
    PassLength(t, ip);
    UnsetIsNull(t, ip);
    IndicesEmpty(SideMask(t.rows, ip, Unset));
  }

  /** What a pass makes of one row that has the `ip` and fallback cells. */
  lemma OutCoalesced(row: Row, ip: string)
    requires ip in row && Fallback(ip) in row
    ensures Out(row, ip).Keys == row.Keys - Helpers(ip)
    ensures Out(row, ip)[ip] == if row[ip] == Str("") then row[Fallback(ip)] else row[ip]
    ensures forall c :: c in Out(row, ip) && c != ip ==> Out(row, ip)[c] == row[c]
  {
    assert ip !in Helpers(ip) by {
      assert |Fallback(ip)| != |ip| && |LenColumn(ip)| != |ip|;
    }
    assert row[ip] == Str("") <==> StateOf(row, ip) == Empty;
  }

  /** A non-empty `ip` is kept and an empty `ip` takes its row's fallback
      value; every other remaining column keeps its value, and only the
      helper columns are gone. */
  lemma IpCoalesced(t: Table, ip: string)
    requires WellFormed(t) && ProcessIp(t, ip).Success?
    ensures var r := ProcessIp(t, ip).value;
            var o := Origin(t.rows, ip);
            forall j :: 0 <= j < |r.rows| ==>
              && r.rows[j].Keys == t.rows[o[j]].Keys - Helpers(ip)
              && r.rows[j][ip] == (if t.rows[o[j]][ip] == Str("")
                                   then t.rows[o[j]][Fallback(ip)] else t.rows[o[j]][ip])
              && forall c :: c in r.rows[j] && c != ip ==> r.rows[j][c] == t.rows[o[j]][c]
  {
    var o := Origin(t.rows, ip);
    OriginRowsSeq(t, ip);
    assert ip in Names(t.columns) && Fallback(ip) in Names(t.columns);
    forall j | 0 <= j < |o|
      ensures var row := t.rows[o[j]];
              && Out(row, ip).Keys == row.Keys - Helpers(ip)
              && Out(row, ip)[ip] == (if row[ip] == Str("") then row[Fallback(ip)] else row[ip])
              && forall c :: c in Out(row, ip) && c != ip ==> Out(row, ip)[c] == row[c]
    {
      OutCoalesced(t.rows[o[j]], ip);
    }
  }

  // ---------------------------------------------------------------------
  // The two passes together

  /** A single pass, as a list of one column. */
  lemma ProcessAllOne(t: Table, ip: string)
    requires WellFormed(t)
    ensures ProcessAll(t, [ip]) == ProcessIp(t, ip)
  {
    assert [ip][1..] == [];
  }

  /** The passes run in order: "src_ip" first, then "dest_ip" on its output. */
  lemma ProcessIpFieldsInOrder(t: Table)
    requires WellFormed(t)
    ensures ProcessIpFields(t) == match ProcessIp(t, SrcIp)
                                  case Failure(e) => Failure(e)
                                  case Success(t1) => ProcessIp(t1, DestIp)
  {
    assert IpColumns[0] == SrcIp && IpColumns[1..] == [DestIp];
    if ProcessIp(t, SrcIp).Success? {
      ProcessAllOne(ProcessIp(t, SrcIp).value, DestIp);
    }
  }

  /** The names involved in the two passes are all different. */
  lemma ColumnNamesDiffer()
    ensures DestIp != SrcIp && DestIp !in Helpers(SrcIp) && Fallback(DestIp) !in Helpers(SrcIp)
    ensures SrcIp !in Helpers(DestIp) && Helpers(SrcIp) !! Helpers(DestIp)
  {
    assert DestIp[0] != SrcIp[0];
    assert Fallback(DestIp)[0] != Fallback(SrcIp)[0] && Fallback(DestIp)[0] != LenColumn(SrcIp)[0];
    assert LenColumn(DestIp)[0] != Fallback(SrcIp)[0] && LenColumn(DestIp)[0] != LenColumn(SrcIp)[0];
    assert |Fallback(SrcIp)| == 7 && |LenColumn(SrcIp)| == 10 && |Fallback(DestIp)| == 8;
  }

  /** The "src_ip" pass leaves the "dest_ip" cell of every row alone. */
  lemma SrcPassKeepsDest(r: Row)
    ensures DestIp in r ==> DestIp in Out(r, SrcIp) && Out(r, SrcIp)[DestIp] == r[DestIp]
    ensures Fallback(DestIp) in r ==> Fallback(DestIp) in Out(r, SrcIp)
  {
    ColumnNamesDiffer();
  }

  function Rank(s: IpState): nat
  {
    match s
    case NonEmpty => 0
    case Empty => 1
    case Unset => 2
  }

  /** The order of two input rows in the output of both passes: by the state
      of "dest_ip", then by the state of "src_ip", then by input position. */
  predicate Before(rows: seq<Row>, i1: nat, i2: nat)
    requires i1 < |rows| && i2 < |rows|
  {
    var d1, d2 := Rank(StateOf(rows[i1], DestIp)), Rank(StateOf(rows[i2], DestIp));
    var s1, s2 := Rank(StateOf(rows[i1], SrcIp)), Rank(StateOf(rows[i2], SrcIp));
    d1 < d2 || (d1 == d2 && (s1 < s2 || (s1 == s2 && i1 < i2)))
  }

  /** Follows positions through two passes: output row `j` of the second
      pass is its input row `o2[j]`, which is input row `o1[o2[j]]` of the
      first. */
  function Compose(o1: seq<nat>, o2: seq<nat>): seq<nat>
    requires forall j :: 0 <= j < |o2| ==> o2[j] < |o1|
  {
    seq(|o2|, j requires 0 <= j < |o2| => o1[o2[j]])
  }

  /** The input position of every output row of the two passes. */
  function FieldsOrigin(t: Table): (o: seq<nat>)
    requires WellFormed(t) && ProcessIp(t, SrcIp).Success?
    ensures forall j :: 0 <= j < |o| ==> o[j] < |t.rows|
  {
    OriginRows(t, SrcIp);
    Compose(Origin(t.rows, SrcIp), Origin(ProcessIp(t, SrcIp).value.rows, DestIp))
  }

  /** The state of "dest_ip" of a row is the same before and after the
      "src_ip" pass. */
  lemma DestStateKept(t: Table)
    requires WellFormed(t) && ProcessIp(t, SrcIp).Success?
    ensures var t1 := ProcessIp(t, SrcIp).value;
            var o1 := Origin(t.rows, SrcIp);
            && |t1.rows| == |o1|
            && forall p :: 0 <= p < |o1| ==>
                 StateOf(t1.rows[p], DestIp) == StateOf(t.rows[o1[p]], DestIp)
  {
    OriginRows(t, SrcIp);
    var o1 := Origin(t.rows, SrcIp);
    forall p | 0 <= p < |o1|
      ensures StateOf(ProcessIp(t, SrcIp).value.rows[p], DestIp) == StateOf(t.rows[o1[p]], DestIp)
    {
      SrcPassKeepsDest(t.rows[o1[p]]);
    }
  }

  /** After both passes, row `j` is input row `FieldsOrigin[j]` passed
      through both. */
  lemma FieldsRows(t: Table)
    requires WellFormed(t) && ProcessIpFields(t).Success?
    ensures ProcessIp(t, SrcIp).Success?
    ensures var r := ProcessIpFields(t).value;
            var o := FieldsOrigin(t);
            && |r.rows| == |o|
            && forall j :: 0 <= j < |o| ==> r.rows[j] == Out(Out(t.rows[o[j]], SrcIp), DestIp)
  {
    ProcessIpFieldsInOrder(t);
    var t1 := ProcessIp(t, SrcIp).value;
    OriginRows(t, SrcIp);
    OriginRowsSeq(t, SrcIp);
    OriginRowsSeq(t1, DestIp);
    ComposedRows(t.rows, Origin(t.rows, SrcIp), Origin(t1.rows, DestIp));
  }

  /** Two gathers one after the other are one gather along the composed
      positions. */
  lemma ComposedRows(rows: seq<Row>, o1: seq<nat>, o2: seq<nat>)
    requires forall j :: 0 <= j < |o1| ==> o1[j] < |rows|
    requires forall j :: 0 <= j < |o2| ==> o2[j] < |o1|
    ensures var o := Compose(o1, o2);
            var rows2 := OutRows(OutRows(rows, o1, SrcIp), o2, DestIp);
            && |rows2| == |o|
            && forall j :: 0 <= j < |o| ==> rows2[j] == Out(Out(rows[o[j]], SrcIp), DestIp)
  {
  }

  /** Composing two stable partitions, the second over rows whose "dest_ip"
      state is that of their origin in the first, orders by "dest_ip" state,
      then "src_ip" state, then position. */
  lemma ComposedOrder(rows: seq<Row>, o1: seq<nat>, rows1: seq<Row>, o2: seq<nat>)
    requires StablePartition(rows, SrcIp, o1) && StablePartition(rows1, DestIp, o2)
    requires |rows1| == |o1|
    requires forall p :: 0 <= p < |rows1| ==> StateOf(rows1[p], DestIp) == StateOf(rows[o1[p]], DestIp)
    ensures var o := Compose(o1, o2);
            forall j1, j2 :: 0 <= j1 < j2 < |o| ==> Before(rows, o[j1], o[j2])
  {
    var o := Compose(o1, o2);
    forall j1, j2 | 0 <= j1 < j2 < |o|
      ensures Before(rows, o[j1], o[j2])
    {
      var p1, p2 := o2[j1], o2[j2];
      if StateOf(rows1[p1], DestIp) == StateOf(rows1[p2], DestIp) {
        assert p1 < p2;
      }
    }
  }

  /** ... and keeps every row whose two IP cells are set. */
  lemma ComposedComplete(rows: seq<Row>, o1: seq<nat>, rows1: seq<Row>, o2: seq<nat>)
    requires StablePartition(rows, SrcIp, o1) && StablePartition(rows1, DestIp, o2)
    requires |rows1| == |o1|
    requires forall p :: 0 <= p < |rows1| ==> StateOf(rows1[p], DestIp) == StateOf(rows[o1[p]], DestIp)
    ensures forall i :: (0 <= i < |rows| && StateOf(rows[i], SrcIp) != Unset &&
                         StateOf(rows[i], DestIp) != Unset) ==> i in Compose(o1, o2)
  {
    var o := Compose(o1, o2);
    forall i | 0 <= i < |rows| && StateOf(rows[i], SrcIp) != Unset &&
               StateOf(rows[i], DestIp) != Unset
      ensures i in o
    {
      assert i in o1;
      var p :| 0 <= p < |o1| && o1[p] == i;
      assert p in o2;
      var q :| 0 <= q < |o2| && o2[q] == p;
      assert o[q] == i;
    }
  }

  /** After both passes the rows are ordered by the state of "dest_ip",
      then by the state of "src_ip", then by input position. */
  lemma FieldsOrdered(t: Table)
    requires WellFormed(t) && ProcessIpFields(t).Success?
    ensures ProcessIp(t, SrcIp).Success?
    ensures var o := FieldsOrigin(t);
            forall j1, j2 :: 0 <= j1 < j2 < |o| ==> Before(t.rows, o[j1], o[j2])
  {
    ProcessIpFieldsInOrder(t);
    var t1 := ProcessIp(t, SrcIp).value;
    var o1, o2 := Origin(t.rows, SrcIp), Origin(t1.rows, DestIp);
    OriginIsStablePartition(t.rows, SrcIp);
    OriginIsStablePartition(t1.rows, DestIp);
    DestStateKept(t);
    ComposedOrder(t.rows, o1, t1.rows, o2);
  }

  /** After both passes every row whose two IP cells are set is there. */
  lemma FieldsComplete(t: Table)
    requires WellFormed(t) && ProcessIpFields(t).Success?
    ensures ProcessIp(t, SrcIp).Success?
    ensures forall i :: (0 <= i < |t.rows| && StateOf(t.rows[i], SrcIp) != Unset &&
                         StateOf(t.rows[i], DestIp) != Unset) ==> i in FieldsOrigin(t)
  {
    ProcessIpFieldsInOrder(t);
    var t1 := ProcessIp(t, SrcIp).value;
    var o1, o2 := Origin(t.rows, SrcIp), Origin(t1.rows, DestIp);
    OriginIsStablePartition(t.rows, SrcIp);
    OriginIsStablePartition(t1.rows, DestIp);
    DestStateKept(t);
    ComposedComplete(t.rows, o1, t1.rows, o2);
  }

  /** Every cell of a coalesced row is a cell of the input row. */
  lemma OutCells(row: Row, ip: string)
    ensures forall c :: c in Out(row, ip) ==>
              c in row && (Out(row, ip)[c] == row[c] ||
                           (Fallback(ip) in row && Out(row, ip)[c] == row[Fallback(ip)]))
  {
  }

  /** Output cells are input cells, so rows without nulls give output rows
      without nulls. */
  lemma OutRowsNoNulls(rows: seq<Row>, o: seq<nat>, ip: string)
    requires forall j :: 0 <= j < |o| ==> o[j] < |rows|
    requires forall i, c :: 0 <= i < |rows| && c in rows[i] ==> rows[i][c] != Null
    ensures forall j, c :: 0 <= j < |o| && c in OutRows(rows, o, ip)[j] ==> OutRows(rows, o, ip)[j][c] != Null
  {
    forall j | 0 <= j < |o|
      ensures forall c :: c in OutRows(rows, o, ip)[j] ==> OutRows(rows, o, ip)[j][c] != Null
    {
      OutCells(rows[o[j]], ip);
    }
  }

  /** A pass over a table without nulls keeps every row and leaves no null
      behind. */
  lemma PassKeepsNoNulls(t: Table, ip: string)
    requires WellFormed(t) && ProcessIp(t, ip).Success? && NoNulls(t)
    ensures NoNulls(ProcessIp(t, ip).value)
    ensures |ProcessIp(t, ip).value.rows| == |t.rows|
  {
    assert |ProcessIp(t, ip).value.rows| == |t.rows| by {
      RowCount(t, ip);
    }
    OriginRowsSeq(t, ip);
    OutRowsNoNulls(t.rows, Origin(t.rows, ip), ip);
  }

  /** A pass leaves the values of a column it neither writes nor drops as
      they were, so a text column stays a text column. */
  lemma PassKeepsText(t: Table, ip: string, c: string)
    requires WellFormed(t) && ProcessIp(t, ip).Success?
    requires c != ip && c !in Helpers(ip) && IsText(t, c)
    ensures IsText(ProcessIp(t, ip).value, c)
  {
    OriginRows(t, ip);
  }

  /** The two passes succeed when the four IP columns exist and both IP
      columns hold strings; when they succeed, the four columns existed. */
  lemma ProcessIpFieldsSucceeds(t: Table)
    requires WellFormed(t)
    ensures (&& SrcIp in t.columns && Fallback(SrcIp) in t.columns && IsText(t, SrcIp)
             && DestIp in t.columns && Fallback(DestIp) in t.columns && IsText(t, DestIp))
            ==> ProcessIpFields(t).Success?
    ensures ProcessIpFields(t).Success? ==>
              && SrcIp in t.columns && Fallback(SrcIp) in t.columns
              && DestIp in t.columns && Fallback(DestIp) in t.columns
  {
    ProcessIpFieldsInOrder(t);
    ColumnNamesDiffer();
    if ProcessIp(t, SrcIp).Success? {
      var t1 := ProcessIp(t, SrcIp).value;
      assert DestIp in Names(t1.columns) <==> DestIp in Names(t.columns);
      assert Fallback(DestIp) in Names(t1.columns) <==> Fallback(DestIp) in Names(t.columns);
      if IsText(t, DestIp) {
        PassKeepsText(t, SrcIp, DestIp);
      }
    }
  }

  /** Neither fallback column nor either length column is left in the output,
      and every other column is. */
  lemma HelperColumnsDropped(t: Table)
    requires WellFormed(t) && ProcessIpFields(t).Success?
    ensures Names(ProcessIpFields(t).value.columns) ==
            Names(t.columns) - Helpers(SrcIp) - Helpers(DestIp)
  {
    ProcessIpFieldsInOrder(t);
  }

  /** In a text column without nulls every IP cell is set. */
  lemma SetEverywhere(t: Table, ip: string)
    requires WellFormed(t) && NoNulls(t) && ip in t.columns && IsText(t, ip)
    ensures forall i :: 0 <= i < |t.rows| ==> StateOf(t.rows[i], ip) != Unset
  {
    forall i | 0 <= i < |t.rows|
      ensures StateOf(t.rows[i], ip) != Unset
    {
      assert ip in Names(t.columns);
    }
  }

  /** A row whose "src_ip" is set reaches the "dest_ip" pass with its
      "dest_ip" state unchanged; so when every row's "src_ip" is set and
      every "dest_ip" reaching that pass is set, every row's "dest_ip" is. */
  lemma DestSetEverywhere(rows: seq<Row>, o1: seq<nat>, rows1: seq<Row>)
    requires StablePartition(rows, SrcIp, o1) && |rows1| == |o1|
    requires forall p :: 0 <= p < |rows1| ==> StateOf(rows1[p], DestIp) == StateOf(rows[o1[p]], DestIp)
    requires forall p :: 0 <= p < |rows1| ==> StateOf(rows1[p], DestIp) != Unset
    requires forall i :: 0 <= i < |rows| ==> StateOf(rows[i], SrcIp) != Unset
    ensures forall i :: 0 <= i < |rows| ==> StateOf(rows[i], DestIp) != Unset
  {
    forall i | 0 <= i < |rows|
      ensures StateOf(rows[i], DestIp) != Unset
    {
      assert i in o1;
      var p :| 0 <= p < |o1| && o1[p] == i;
      assert StateOf(rows1[p], DestIp) != Unset;
    }
  }

  /** When the table has no nulls and both passes succeed, every row has
      both IP cells set. */
  lemma BothSetEverywhere(t: Table)
    requires WellFormed(t) && NoNulls(t) && ProcessIpFields(t).Success?
    ensures forall i :: 0 <= i < |t.rows| ==>
              StateOf(t.rows[i], SrcIp) != Unset && StateOf(t.rows[i], DestIp) != Unset
  {
    ProcessIpFieldsInOrder(t);
    var t1 := ProcessIp(t, SrcIp).value;
    SetEverywhere(t, SrcIp);
    assert forall p :: 0 <= p < |t1.rows| ==> StateOf(t1.rows[p], DestIp) != Unset by {
      PassKeepsNoNulls(t, SrcIp);
      SetEverywhere(t1, DestIp);
    }
    OriginIsStablePartition(t.rows, SrcIp);
    DestStateKept(t);
    DestSetEverywhere(t.rows, Origin(t.rows, SrcIp), t1.rows);
  }

  /** After the parser's post-processing no cell is null, no row is lost,
      and every input row appears in the output. */
  lemma PostProcessKeepsEveryRow(t: Table)
    requires WellFormed(t) && PostProcess(t).Success?
    ensures var f := FillNulls(t, "");
            var r := PostProcess(t).value;
            && NoNulls(r)
            && |r.rows| == |t.rows|
            && ProcessIp(f, SrcIp).Success?
            && (forall i :: 0 <= i < |t.rows| ==> i in FieldsOrigin(f))
  {
    var f := FillNulls(t, "");
    ProcessIpFieldsInOrder(f);
    var t1 := ProcessIp(f, SrcIp).value;
    PassKeepsNoNulls(f, SrcIp);
    PassKeepsNoNulls(t1, DestIp);
    BothSetEverywhere(f);
    FieldsComplete(f);
  }
}
