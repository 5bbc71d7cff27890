/** The three-way correlation join of `combine_exec_policy_tables`
    (execcheck/combine.py:24-87). Measurement, scan and provenance records
    are each indexed under their normalised `cdhash` and `file_identifier`;
    one merged record is emitted for every key of the union of the three
    indexes, built from the first record of each list under that key. */
module Combine {

  import opened Values
  import opened Text

  /** An identifier the key rule can read: a falsy value (read as "") or a
      string. A truthy non-string identifier makes `.strip()` raise. */
  predicate IdReadable(v: Value)
  {
    !Truthy(v) || v.Str?
  }

  predicate Keyable(r: Row)
  {
    IdReadable(Get(r, "cdhash")) && IdReadable(Get(r, "file_identifier"))
  }

  predicate AllKeyable(rows: seq<Row>)
  {
    forall i :: 0 <= i < |rows| ==> Keyable(rows[i])
  }

  /** `(row.get(field) or "").strip().lower()`, for the identifiers the
      rule can read (`IdReadable`); any other falsy value reads as "". */
  function FieldKey(r: Row, field: string): string
  {
    var v := Get(r, field);
    if v.Str? then Normalise(v.s) else ""
  }

  function CdKey(r: Row): string
  {
    FieldKey(r, "cdhash")
  }

  function FidKey(r: Row): string
  {
    FieldKey(r, "file_identifier")
  }

  /** The keys a record is indexed under: its non-empty normalised identifiers. */
  function RowKeys(r: Row): set<string>
  {
    {CdKey(r), FidKey(r)} - {""}
  }

  /** What indexing one record appends under `k`: the record once for each of
      its two identifiers that is non-empty and equal to `k`. */
  function Occ(r: Row, k: string): seq<Row>
  {
    (if CdKey(r) != "" && CdKey(r) == k then [r] else [])
    + (if FidKey(r) != "" && FidKey(r) == k then [r] else [])
  }

  /** The list an index holds under `k` once every record of `rows` has
      been appended in turn. */
  function Hits(rows: seq<Row>, k: string): seq<Row>
  {
    if rows == [] then [] else Hits(rows[..|rows| - 1], k) + Occ(rows[|rows| - 1], k)
  }

  /** The keys an index built from `rows` has. */
  function KeySet(rows: seq<Row>): set<string>
  {
    if rows == [] then {} else KeySet(rows[..|rows| - 1]) + RowKeys(rows[|rows| - 1])
  }

  /** A `defaultdict(list)` index. */
  type Index = map<string, seq<Row>>

  /** `index.get(key, [])`, and equally what `index[key]` reads on a
      `defaultdict(list)`. */
  function Lookup(index: Index, k: string): seq<Row>
  {
    if k in index then index[k] else []
  }

  /** One of the three index-building loops (lines 28-50): every record is
      appended under its normalised `cdhash`, then under its normalised
      `file_identifier`, skipping empty ones. */
  method BuildIndex(rows: seq<Row>) returns (index: Index)
    requires AllKeyable(rows)
    ensures index.Keys == KeySet(rows)
    ensures forall k :: Lookup(index, k) == Hits(rows, k)
  {
    index := map[];
    for i := 0 to |rows|
      invariant index.Keys == KeySet(rows[..i])
      invariant forall k :: Lookup(index, k) == Hits(rows[..i], k)
    {
      var row := rows[i];
      var cdhash := FieldKey(row, "cdhash");
      var fid := FieldKey(row, "file_identifier");
      ghost var before := index;
      if cdhash != "" {
        index := index[cdhash := Lookup(index, cdhash) + [row]];
      }
      ghost var mid := index;
      if fid != "" {
        index := index[fid := Lookup(index, fid) + [row]];
      }
      IndexStep(before, mid, index, row, cdhash, fid);
      PrefixStep(rows, i);
      assert RowKeys(row) == {cdhash, fid} - {""};
      forall k ensures Lookup(index, k) == Hits(rows[..i + 1], k) {
        assert Occ(row, k) == (if cdhash != "" && cdhash == k then [row] else [])
                              + (if fid != "" && fid == k then [row] else []);
      }
    }
    assert rows[..|rows|] == rows;
  }

  /** The two appends the loop makes for one record whose normalised
      identifiers are `cdhash` and `fid`. */
  lemma IndexStep(before: Index, mid: Index, after: Index, row: Row, cdhash: string, fid: string)
    requires mid == if cdhash != "" then before[cdhash := Lookup(before, cdhash) + [row]] else before
    requires after == if fid != "" then mid[fid := Lookup(mid, fid) + [row]] else mid
    ensures after.Keys == before.Keys + ({cdhash, fid} - {""})
    ensures forall k :: Lookup(after, k) == Lookup(before, k)
              + ((if cdhash != "" && cdhash == k then [row] else [])
                 + (if fid != "" && fid == k then [row] else []))
  {
  }

  /** Extending a prefix of the input by one record. */
  lemma PrefixStep(rows: seq<Row>, i: nat)
    requires i < |rows|
    ensures KeySet(rows[..i + 1]) == KeySet(rows[..i]) + RowKeys(rows[i])
    ensures forall k :: Hits(rows[..i + 1], k) == Hits(rows[..i], k) + Occ(rows[i], k)
  {
    assert rows[..i + 1][..i] == rows[..i];
  }

  /** The fields the join writes over the measurement record's own. */
  const MergedFields: set<string> := {
    "scan_flags", "malware_result", "policy_match", "scan_timestamp",
    "revocation_check_time", "volume_uuid", "origin_url", "provenance_flags",
    "provenance_timestamp", "correlation_type", "correlated_from"
  }

  /** `lst[0] if lst else {}`. */
  function First(rs: seq<Row>): Row
  {
    if rs == [] then map[] else rs[0]
  }

  /** The `correlation_type` tag: exactly one of the three holds. */
  function CorrelationType(hasExec: bool, hasScan: bool, hasProv: bool): (t: string)
    ensures t == "strong" <==> hasExec && hasScan
    ensures t == "weak" <==> !(hasExec && hasScan) && (hasScan || hasProv)
    ensures t == "orphan" <==> !hasScan && !hasProv
  {
    if hasExec && hasScan then "strong"
    else if hasScan || hasProv then "weak"
    else "orphan"
  }

  /** The record emitted for `key`, from the lists the three indexes hold
      under it: the first measurement's fields, overwritten by the eleven
      merged fields and by nothing else. */
  function MergedRow(key: string, execs: seq<Row>, scans: seq<Row>, provs: seq<Row>): Row
  {
    var scan := First(scans);
    var prov := First(provs);
    First(execs)
      ["scan_flags" := Get(scan, "flags")]
      ["malware_result" := Get(scan, "malware_result")]
      ["policy_match" := Get(scan, "policy_match")]
      ["scan_timestamp" := Get(scan, "timestamp")]
      ["revocation_check_time" := Get(scan, "revocation_check_time")]
      ["volume_uuid" := Get(scan, "volume_uuid")]
      ["origin_url" := Get(prov, "url")]
      ["provenance_flags" := Get(prov, "flags")]
      ["provenance_timestamp" := Get(prov, "timestamp")]
      ["correlation_type" := Str(CorrelationType(execs != [], scans != [], provs != []))]
      ["correlated_from" := Str(key)]
  }

  /** The key a merged record was built from. */
  function KeyOf(r: Row): string
  {
    if "correlated_from" in r && r["correlated_from"].Str? then r["correlated_from"].s else ""
  }

  /** The union of the three indexes' keys. */
  function AllKeys(execRows: seq<Row>, scanRows: seq<Row>, provRows: seq<Row>): set<string>
  {
    KeySet(execRows) + KeySet(scanRows) + KeySet(provRows)
  }

  /** The loop body of the join for one key (lines 56-83): the record is
      started empty, filled from the first measurement, then given the eleven
      merged fields one assignment at a time. */
  method MergeRecord(key: string, execs: seq<Row>, scans: seq<Row>, provs: seq<Row>) returns (row: Row)
    ensures row == MergedRow(key, execs, scans, provs)
  {
    var base := if execs != [] then execs[0] else map[];
    var scan := if scans != [] then scans[0] else map[];
    var prov := if provs != [] then provs[0] else map[];
    row := map[];
    row := row + base;
    assert row == base;
    row := row["scan_flags" := Get(scan, "flags")];
    row := row["malware_result" := Get(scan, "malware_result")];
    row := row["policy_match" := Get(scan, "policy_match")];
    row := row["scan_timestamp" := Get(scan, "timestamp")];
    row := row["revocation_check_time" := Get(scan, "revocation_check_time")];
    row := row["volume_uuid" := Get(scan, "volume_uuid")];
    row := row["origin_url" := Get(prov, "url")];
    row := row["provenance_flags" := Get(prov, "flags")];
    row := row["provenance_timestamp" := Get(prov, "timestamp")];
    row := row["correlation_type" := Str(
      if execs != [] && scans != [] then "strong"
      else if scans != [] || provs != [] then "weak"
      else "orphan")];
    row := row["correlated_from" := Str(key)];
  }

  /** The join (lines 24-87). Keys are taken from a set, in no fixed order;
      the contract fixes none: one record per key of the union, each built
      from that key's three lists. */
  method CombineTables(execRows: seq<Row>, scanRows: seq<Row>, provRows: seq<Row>)
    returns (combined: seq<Row>)
    requires AllKeyable(execRows) && AllKeyable(scanRows) && AllKeyable(provRows)
    ensures |combined| == |AllKeys(execRows, scanRows, provRows)|
    ensures forall i :: 0 <= i < |combined| ==>
              combined[i] == MergedRow(KeyOf(combined[i]), Hits(execRows, KeyOf(combined[i])),
                                       Hits(scanRows, KeyOf(combined[i])), Hits(provRows, KeyOf(combined[i])))
    ensures forall i, j :: 0 <= i < j < |combined| ==> KeyOf(combined[i]) != KeyOf(combined[j])
    ensures forall k :: k in AllKeys(execRows, scanRows, provRows) <==>
              exists i :: 0 <= i < |combined| && KeyOf(combined[i]) == k
  {
    var execIndex := BuildIndex(execRows);
    var scanIndex := BuildIndex(scanRows);
    var provIndex := BuildIndex(provRows);
    var allKeys := execIndex.Keys + scanIndex.Keys + provIndex.Keys;
    combined := [];
    ghost var keys: seq<string> := [];
    var remaining := allKeys;
    while remaining != {}
      invariant remaining <= allKeys
      invariant |combined| + |remaining| == |allKeys|
      invariant JoinedSoFar(combined, keys, execIndex, scanIndex, provIndex)
      invariant forall k :: k in keys <==> k in allKeys && k !in remaining
      decreases |remaining|
    {
      var key :| key in remaining;
      var row := MergeRecord(key, Lookup(execIndex, key), Lookup(scanIndex, key), Lookup(provIndex, key));
      JoinStep(combined, keys, execIndex, scanIndex, provIndex, key, row);
      combined := combined + [row];
      keys := keys + [key];
      remaining := remaining - {key};
    }
    JoinResult(combined, keys, execRows, scanRows, provRows, execIndex, scanIndex, provIndex);
  }

  /** The loop invariant of the join: the records emitted so far, one per
      key taken, each built from that key's three index lists. */
  ghost predicate JoinedSoFar(combined: seq<Row>, keys: seq<string>, execIndex: Index, scanIndex: Index, provIndex: Index)
  {
    && |keys| == |combined|
    && (forall i :: 0 <= i < |combined| ==> KeyOf(combined[i]) == keys[i])
    && (forall i :: 0 <= i < |combined| ==>
          combined[i] == MergedRow(keys[i], Lookup(execIndex, keys[i]), Lookup(scanIndex, keys[i]), Lookup(provIndex, keys[i])))
    && (forall i, j :: 0 <= i < j < |keys| ==> keys[i] != keys[j])
  }

  lemma JoinStep(combined: seq<Row>, keys: seq<string>, execIndex: Index, scanIndex: Index, provIndex: Index,
                 key: string, row: Row)
    requires JoinedSoFar(combined, keys, execIndex, scanIndex, provIndex) && key !in keys
    requires row == MergedRow(key, Lookup(execIndex, key), Lookup(scanIndex, key), Lookup(provIndex, key))
    ensures JoinedSoFar(combined + [row], keys + [key], execIndex, scanIndex, provIndex)
  {
  }

  lemma JoinResult(combined: seq<Row>, keys: seq<string>, execRows: seq<Row>, scanRows: seq<Row>, provRows: seq<Row>,
                   execIndex: Index, scanIndex: Index, provIndex: Index)
    requires JoinedSoFar(combined, keys, execIndex, scanIndex, provIndex)
    requires forall k :: Lookup(execIndex, k) == Hits(execRows, k)
    requires forall k :: Lookup(scanIndex, k) == Hits(scanRows, k)
    requires forall k :: Lookup(provIndex, k) == Hits(provRows, k)
    requires forall k :: k in keys <==> k in AllKeys(execRows, scanRows, provRows)
    ensures forall i :: 0 <= i < |combined| ==>
              combined[i] == MergedRow(KeyOf(combined[i]), Hits(execRows, KeyOf(combined[i])),
                                       Hits(scanRows, KeyOf(combined[i])), Hits(provRows, KeyOf(combined[i])))
    ensures forall i, j :: 0 <= i < j < |combined| ==> KeyOf(combined[i]) != KeyOf(combined[j])
    ensures forall k :: k in AllKeys(execRows, scanRows, provRows) <==>
              exists i :: 0 <= i < |combined| && KeyOf(combined[i]) == k
  {
    JoinRowsMerged(combined, keys, execRows, scanRows, provRows, execIndex, scanIndex, provIndex);
    JoinKeys(combined, keys, execIndex, scanIndex, provIndex);
  }

  /** Each merged record is built from the three full lists under its key. */
  lemma JoinRowsMerged(combined: seq<Row>, keys: seq<string>, execRows: seq<Row>, scanRows: seq<Row>, provRows: seq<Row>,
                       execIndex: Index, scanIndex: Index, provIndex: Index)
    requires JoinedSoFar(combined, keys, execIndex, scanIndex, provIndex)
    requires forall k :: Lookup(execIndex, k) == Hits(execRows, k)
    requires forall k :: Lookup(scanIndex, k) == Hits(scanRows, k)
    requires forall k :: Lookup(provIndex, k) == Hits(provRows, k)
    ensures forall i :: 0 <= i < |combined| ==>
              combined[i] == MergedRow(KeyOf(combined[i]), Hits(execRows, KeyOf(combined[i])),
                                       Hits(scanRows, KeyOf(combined[i])), Hits(provRows, KeyOf(combined[i])))
  {
    forall i | 0 <= i < |combined|
      ensures combined[i] == MergedRow(KeyOf(combined[i]), Hits(execRows, KeyOf(combined[i])),
                                       Hits(scanRows, KeyOf(combined[i])), Hits(provRows, KeyOf(combined[i])))
    {
      var k := keys[i];
      assert KeyOf(combined[i]) == k;
      assert Lookup(execIndex, k) == Hits(execRows, k);
      assert Lookup(scanIndex, k) == Hits(scanRows, k);
      assert Lookup(provIndex, k) == Hits(provRows, k);
    }
  }

  /** The merged records carry distinct keys, and exactly the keys joined. */
  lemma JoinKeys(combined: seq<Row>, keys: seq<string>, execIndex: Index, scanIndex: Index, provIndex: Index)
    requires JoinedSoFar(combined, keys, execIndex, scanIndex, provIndex)
    ensures forall i, j :: 0 <= i < j < |combined| ==> KeyOf(combined[i]) != KeyOf(combined[j])
    ensures forall k :: k in keys <==> exists i :: 0 <= i < |combined| && KeyOf(combined[i]) == k
  {
    forall k | k in keys
      ensures exists i :: 0 <= i < |combined| && KeyOf(combined[i]) == k
    {
      var i :| 0 <= i < |keys| && keys[i] == k;
      assert KeyOf(combined[i]) == k;
    }
  }

  /** Index order: records appear under a key in input order, since the
      index is only ever appended to. */
  lemma {:induction false} HitsConcat(a: seq<Row>, b: seq<Row>, k: string)
    ensures Hits(a + b, k) == Hits(a, k) + Hits(b, k)
    decreases |b|
  {
    if b == [] {
      assert a + b == a;
    } else {
      var init := b[..|b| - 1];
      var last := b[|b| - 1];
      assert (a + b)[..|a + b| - 1] == a + init;
      assert (a + b)[|a + b| - 1] == last;
      HitsConcat(a, init, k);
      ConcatAssociates(Hits(a, k), Hits(init, k), Occ(last, k));
    }
  }

  lemma ConcatAssociates<T>(x: seq<T>, y: seq<T>, z: seq<T>)
    ensures (x + y) + z == x + (y + z)
  {
  }

  /** Double indexing: a record whose two identifiers normalise to the same
      non-empty key sits twice under it; with two different non-empty keys
      it sits once under each. */
  lemma DoubleIndexing(r: Row)
    ensures CdKey(r) != "" && CdKey(r) == FidKey(r) ==> Hits([r], CdKey(r)) == [r, r]
    ensures CdKey(r) != "" && FidKey(r) != "" && CdKey(r) != FidKey(r) ==>
              Hits([r], CdKey(r)) == [r] && Hits([r], FidKey(r)) == [r]
  {
    assert [r][..0] == [];
  }

  /** A record sits under `k` exactly when `k` is one of its keys. */
  lemma HitsMembers(rows: seq<Row>, k: string)
    ensures forall i :: 0 <= i < |rows| && k in RowKeys(rows[i]) ==> rows[i] in Hits(rows, k)
    ensures forall r :: r in Hits(rows, k) ==> r in rows && k in RowKeys(r)
  {
    HitsComplete(rows, k);
    HitsSound(rows, k);
  }

  /** Every record with the key is in the list under it. */
  lemma {:induction false} HitsComplete(rows: seq<Row>, k: string)
    ensures forall i :: 0 <= i < |rows| && k in RowKeys(rows[i]) ==> rows[i] in Hits(rows, k)
  {
    if rows != [] {
      var init, last := rows[..|rows| - 1], rows[|rows| - 1];
      HitsComplete(init, k);
      OccFacts(last, k);
      var before := Hits(init, k);
      assert Hits(rows, k) == before + Occ(last, k);
      forall i | 0 <= i < |rows| && k in RowKeys(rows[i])
        ensures rows[i] in Hits(rows, k)
      {
        if i < |init| {
          assert rows[i] == init[i];
          InLeft(init[i], before, Occ(last, k));
        } else {
          InRight(last, before, Occ(last, k));
        }
      }
    }
  }

  /** An element of the front part is in the concatenation. */
  lemma InLeft(x: Row, a: seq<Row>, b: seq<Row>)
    requires x in a
    ensures x in a + b
  {
  }

  /** The first element of the back part is in the concatenation. */
  lemma InRight(x: Row, a: seq<Row>, b: seq<Row>)
    requires b != [] && b[0] == x
    ensures x in a + b
  {
    assert (a + b)[|a|] == x;
  }

  /** Only records with the key are in the list under it. */
  lemma {:induction false} HitsSound(rows: seq<Row>, k: string)
    ensures forall r :: r in Hits(rows, k) ==> r in rows && k in RowKeys(r)
  {
    if rows != [] {
      var init, last := rows[..|rows| - 1], rows[|rows| - 1];
      HitsSound(init, k);
      OccFacts(last, k);
      var before := Hits(init, k);
      assert Hits(rows, k) == before + Occ(last, k);
      forall r | r in Hits(rows, k)
        ensures r in rows && k in RowKeys(r)
      {
        if r in before {
          var n :| 0 <= n < |init| && init[n] == r;
          assert rows[n] == r;
        } else {
          assert r in Occ(last, k);
        }
      }
    }
  }

  /** Indexing one record appends only that record, and appends it exactly
      when it has the key. */
  lemma OccFacts(r: Row, k: string)
    ensures forall x :: x in Occ(r, k) ==> x == r
    ensures k in RowKeys(r) <==> Occ(r, k) != []
  {
  }

  /** The keys of an index are exactly the keys of its records, all non-empty
      and already normalised; each has a non-empty list. */
  lemma {:induction false} KeySetMembers(rows: seq<Row>, k: string)
    ensures k in KeySet(rows) <==> exists i :: 0 <= i < |rows| && k in RowKeys(rows[i])
    ensures k in KeySet(rows) <==> Hits(rows, k) != []
    ensures k in KeySet(rows) ==> k != "" && Normalise(k) == k
  {
    if rows != [] {
      var init := rows[..|rows| - 1];
      var last := rows[|rows| - 1];
      KeySetMembers(init, k);
      if k in KeySet(init) {
        var i :| 0 <= i < |init| && k in RowKeys(init[i]);
        assert init[i] == rows[i];
      }
      if exists i :: 0 <= i < |rows| && k in RowKeys(rows[i]) {
        var i :| 0 <= i < |rows| && k in RowKeys(rows[i]);
        if i < |rows| - 1 {
          assert init[i] == rows[i];
        }
      }
      if k in RowKeys(last) {
        var v := Get(last, if CdKey(last) == k then "cdhash" else "file_identifier");
        NormaliseIdempotent(v.s);
      }
    }
  }

  /** First record only: the list under `k` starts with the first record
      that has `k` among its keys. */
  lemma {:induction false} HitsStartWithFirstMatch(rows: seq<Row>, k: string)
    requires Hits(rows, k) != []
    ensures exists i :: 0 <= i < |rows| && Hits(rows, k)[0] == rows[i] && k in RowKeys(rows[i])
              && forall j :: 0 <= j < i ==> k !in RowKeys(rows[j])
  {
    var init := rows[..|rows| - 1];
    if Hits(init, k) != [] {
      HitsStartWithFirstMatch(init, k);
      var i :| 0 <= i < |init| && Hits(init, k)[0] == init[i] && k in RowKeys(init[i])
                && forall j :: 0 <= j < i ==> k !in RowKeys(init[j]);
      FirstHitInFront(rows, k, i);
    } else {
      FirstHitIsLast(rows, k);
    }
  }

  /** When the first match lies before the last record, it stays the first
      match once the last record is indexed. */
  lemma FirstHitInFront(rows: seq<Row>, k: string, i: nat)
    requires rows != []
    requires var init := rows[..|rows| - 1];
      && i < |init| && Hits(init, k) != [] && Hits(init, k)[0] == init[i] && k in RowKeys(init[i])
      && forall j :: 0 <= j < i ==> k !in RowKeys(init[j])
    ensures i < |rows| && Hits(rows, k)[0] == rows[i] && k in RowKeys(rows[i])
    ensures forall j :: 0 <= j < i ==> k !in RowKeys(rows[j])
  {
    var init, last := rows[..|rows| - 1], rows[|rows| - 1];
    var before := Hits(init, k);
    assert Hits(rows, k) == before + Occ(last, k);
    assert (before + Occ(last, k))[0] == before[0];
    assert forall j :: 0 <= j < |init| ==> rows[j] == init[j];
  }

  /** When no earlier record matches, the last record is the first match. */
  lemma FirstHitIsLast(rows: seq<Row>, k: string)
    requires rows != [] && Hits(rows[..|rows| - 1], k) == [] && Hits(rows, k) != []
    ensures Hits(rows, k)[0] == rows[|rows| - 1] && k in RowKeys(rows[|rows| - 1])
    ensures forall j :: 0 <= j < |rows| - 1 ==> k !in RowKeys(rows[j])
  {
    var init, last := rows[..|rows| - 1], rows[|rows| - 1];
    var before := Hits(init, k);
    assert Hits(rows, k) == before + Occ(last, k);
    assert before == [];
    var occ := Occ(last, k);
    assert Hits(rows, k) == occ;
    OccFacts(last, k);
    assert occ[0] in occ;
    HitsComplete(init, k);
    forall j | 0 <= j < |rows| - 1
      ensures k !in RowKeys(rows[j])
    {
      assert rows[j] == init[j];
      assert init[j] !in before;
    }
  }

  /** The merged record has the measurement's keys plus the eleven set
      fields, keeps every other measurement field, and names its key. */
  lemma MergedRowKeys(key: string, execs: seq<Row>, scans: seq<Row>, provs: seq<Row>)
    ensures var r := MergedRow(key, execs, scans, provs);
      && r.Keys == First(execs).Keys + MergedFields
      && (forall f :: f in First(execs) && f !in MergedFields ==> r[f] == First(execs)[f])
      && r["correlated_from"] == Str(key)
  {
  }

  /** The scan and provenance fields of a merged record come from the first
      record of each list, and read None when the list is empty. */
  lemma MergedFieldsFromFirst(key: string, execs: seq<Row>, scans: seq<Row>, provs: seq<Row>)
    ensures var r := MergedRow(key, execs, scans, provs);
      && r["scan_flags"] == (if scans == [] then Null else Get(scans[0], "flags"))
      && r["malware_result"] == (if scans == [] then Null else Get(scans[0], "malware_result"))
      && r["policy_match"] == (if scans == [] then Null else Get(scans[0], "policy_match"))
      && r["scan_timestamp"] == (if scans == [] then Null else Get(scans[0], "timestamp"))
      && r["revocation_check_time"] == (if scans == [] then Null else Get(scans[0], "revocation_check_time"))
      && r["volume_uuid"] == (if scans == [] then Null else Get(scans[0], "volume_uuid"))
      && r["origin_url"] == (if provs == [] then Null else Get(provs[0], "url"))
      && r["provenance_flags"] == (if provs == [] then Null else Get(provs[0], "flags"))
      && r["provenance_timestamp"] == (if provs == [] then Null else Get(provs[0], "timestamp"))
      && r["correlation_type"] == Str(CorrelationType(execs != [], scans != [], provs != []))
  {
    MergedScanFields(key, execs, scans, provs);
    MergedScanTimes(key, execs, scans, provs);
    MergedProvenanceFields(key, execs, scans, provs);
  }

  /** The scan verdict fields of a merged record come from the first scan
      record. */
  lemma MergedScanFields(key: string, execs: seq<Row>, scans: seq<Row>, provs: seq<Row>)
    ensures var r := MergedRow(key, execs, scans, provs);
      && r["scan_flags"] == (if scans == [] then Null else Get(scans[0], "flags"))
      && r["malware_result"] == (if scans == [] then Null else Get(scans[0], "malware_result"))
      && r["policy_match"] == (if scans == [] then Null else Get(scans[0], "policy_match"))
  {
  }

  /** The scan time and volume fields of a merged record come from the first
      scan record. */
  lemma MergedScanTimes(key: string, execs: seq<Row>, scans: seq<Row>, provs: seq<Row>)
    ensures var r := MergedRow(key, execs, scans, provs);
      && r["scan_timestamp"] == (if scans == [] then Null else Get(scans[0], "timestamp"))
      && r["revocation_check_time"] == (if scans == [] then Null else Get(scans[0], "revocation_check_time"))
      && r["volume_uuid"] == (if scans == [] then Null else Get(scans[0], "volume_uuid"))
  {
  }

  /** The three provenance fields and the correlation type of a merged record. */
  lemma MergedProvenanceFields(key: string, execs: seq<Row>, scans: seq<Row>, provs: seq<Row>)
    ensures var r := MergedRow(key, execs, scans, provs);
      && r["origin_url"] == (if provs == [] then Null else Get(provs[0], "url"))
      && r["provenance_flags"] == (if provs == [] then Null else Get(provs[0], "flags"))
      && r["provenance_timestamp"] == (if provs == [] then Null else Get(provs[0], "timestamp"))
      && r["correlation_type"] == Str(CorrelationType(execs != [], scans != [], provs != []))
  {
  }

  const ExecSample: Row := map["cdhash" := Str("ABC ")]
  const ScanSample: Row := map["cdhash" := Str("abc"), "flags" := Int(4)]

  /** Two spellings of one hash, `"ABC "` in the measurements and `"abc"` in
      the scans, meet under the single key "abc" and yield one strong
      record carrying the scan's flags. */
  lemma MixedCaseKeysMeet()
    ensures AllKeys([ExecSample], [ScanSample], []) == {"abc"}
    ensures Hits([ExecSample], "abc") == [ExecSample] && Hits([ScanSample], "abc") == [ScanSample]
    ensures MergedRow("abc", [ExecSample], [ScanSample], [])["correlation_type"] == Str("strong")
    ensures MergedRow("abc", [ExecSample], [ScanSample], [])["scan_flags"] == Int(4)
  {
    MixedCaseHits();
    MergedScanFields("abc", [ExecSample], [ScanSample], []);
    MergedProvenanceFields("abc", [ExecSample], [ScanSample], []);
  }

  /** Both sample records are indexed under "abc" and nothing else. */
  lemma MixedCaseHits()
    ensures AllKeys([ExecSample], [ScanSample], []) == {"abc"}
    ensures Hits([ExecSample], "abc") == [ExecSample] && Hits([ScanSample], "abc") == [ScanSample]
  {
    SampleKeys();
    assert [ExecSample][..0] == [] && [ScanSample][..0] == [];
  }

  /** Both sample hashes normalise to "abc"; neither sample has a file
      identifier. */
  lemma SampleKeys()
    ensures CdKey(ExecSample) == "abc" && FidKey(ExecSample) == ""
    ensures CdKey(ScanSample) == "abc" && FidKey(ScanSample) == ""
  {
    SampleHashesNormalise();
    assert Get(ExecSample, "cdhash") == Str("ABC ") && Get(ExecSample, "file_identifier") == Null;
    assert Get(ScanSample, "cdhash") == Str("abc") && Get(ScanSample, "file_identifier") == Null;
  }

  /** Both spellings of the sample hash normalise to "abc". */
  lemma SampleHashesNormalise()
    ensures Normalise("ABC ") == "abc" && Normalise("abc") == "abc"
  {
    assert TrimStart("ABC ") == "ABC ";
    assert TrimEnd("ABC ") == "ABC";
    assert Lower("ABC") == "abc";
    assert TrimStart("abc") == "abc";
    assert TrimEnd("abc") == "abc";
  }
}
