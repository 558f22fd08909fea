/** The export endpoint (app/api/admin/export/route.ts): every section, drafts
    included, in display order, without ids or timestamps. */
module ExportRoute {
  import opened Database
  import Seqs

  const FormatVersion := "1.0"

  /** The downloaded JSON document. */
  datatype ExportDoc = ExportDoc(version: string, exportedAt: Time, sections: seq<Record>)

  /** `rec` is the record of one of the rows. */
  predicate IsRecordOf(rows: seq<Section>, rec: Record) {
    exists x :: x in rows && ToRecord(x) == rec
  }

  /** `GET`: the sections of `getAllSections`, each reduced to its record. */
  function Export(s: Store, env: Env): (r: Reply<ExportDoc>)
    ensures r.store == Connect(s, env)
    ensures r.value.version == FormatVersion && r.value.exportedAt == env.now
    ensures r.store.mode.Live? ==>
              var recs := r.value.sections;
              && |recs| == |r.store.table.rows|
              && (forall i, j :: 0 <= i < j < |recs| ==> recs[i].orderIndex <= recs[j].orderIndex)
              && (forall x :: x in r.store.table.rows ==> ToRecord(x) in recs)
              && (forall k :: 0 <= k < |recs| ==> IsRecordOf(r.store.table.rows, recs[k]))
    ensures r.store.mode.ReadOnly? ==> r.value.sections == r.store.mode.snapshot.GetOr([])
  {
    var all := GetAllSections(s, env);
    var recs := Seqs.Map(all.value, ToRecord);
    if all.store.mode.Live? then
      RecordsOfRows(all.value, all.store.table.rows);
      Reply(all.store, ExportDoc(FormatVersion, env.now, recs))
    else
      SnapshotRecords(s, env);
      Reply(all.store, ExportDoc(FormatVersion, env.now, recs))
  }

  /** Without the database the export gives back the snapshot's records. */
  lemma SnapshotRecords(s: Store, env: Env)
    requires GetAllSections(s, env).store.mode.ReadOnly?
    ensures var all := GetAllSections(s, env);
            Seqs.Map(all.value, ToRecord) == all.store.mode.snapshot.GetOr([])
  {
  }

  /** The records of a sorted permutation of the rows are the records of the
      rows, each once, in order of position. */
  lemma RecordsOfRows(sorted: seq<Section>, rows: seq<Section>)
    requires Seqs.Sorted(sorted, ByOrder) && multiset(sorted) == multiset(rows)
    ensures var recs := Seqs.Map(sorted, ToRecord);
            && |recs| == |rows|
            && (forall i, j :: 0 <= i < j < |recs| ==> recs[i].orderIndex <= recs[j].orderIndex)
            && (forall x :: x in rows ==> ToRecord(x) in recs)
            && (forall k :: 0 <= k < |recs| ==> IsRecordOf(rows, recs[k]))
  {
    var recs := Seqs.Map(sorted, ToRecord);
    assert |sorted| == |multiset(sorted)| == |rows|;
    forall x | x in rows
      ensures ToRecord(x) in recs
    {
      assert x in multiset(sorted);
      var k :| 0 <= k < |sorted| && sorted[k] == x;
      assert recs[k] == ToRecord(x);
    }
    forall k | 0 <= k < |recs|
      ensures IsRecordOf(rows, recs[k])
    {
      assert sorted[k] in multiset(rows);
    }
    forall i, j | 0 <= i < j < |recs|
      ensures recs[i].orderIndex <= recs[j].orderIndex
    {
      assert ByOrder(sorted[i], sorted[j]);
    }
  }
}
