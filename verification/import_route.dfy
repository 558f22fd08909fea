/** The import endpoint (app/api/admin/import/route.ts): optionally delete every
    section, then create one section per record, counting the ones that went in.
    A record the table refuses is skipped; a failed delete aborts the request. */
module ImportRoute {
  import opened Wrappers
  import opened Text
  import opened Database
  import Seqs
  import opened SectionsRoute
  import ExportRoute

  /** The parsed request body. `sections` is `None` when the field is missing or
      is not an array; an element is `None` when it is `null`. */
  datatype ImportRequest = ImportRequest(sections: Option<seq<Option<SectionBody>>>, replaceAll: bool)

  /** 200 with the number imported, 400 for a malformed body, 500 when the body is
      unreadable or a delete throws. */
  datatype ImportResponse = Imported(count: nat) | InvalidFormat | ImportFailed

  function Status(r: ImportResponse): (code: nat)
    ensures code == 200 <==> r.Imported?
    ensures code == 400 <==> r.InvalidFormat?
  {
    match r
    case Imported(_) => 200
    case InvalidFormat => 400
    case ImportFailed => 500
  }

  /** The fields handed to `createSection` for one record: an empty or missing
      group becomes "General", and only an explicit `false` makes a draft. */
  function Normalise(b: SectionBody): (n: NewSection)
    ensures n.title == b.title && n.slug == b.slug
    ensures n.content == b.content && n.description == b.description
    ensures Falsy(b.groupName) ==> n.groupName == Some("General")
    ensures !Falsy(b.groupName) ==> n.groupName == b.groupName
    ensures n.isSubItem == b.isSubItem
    ensures n.isPublished == Some(b.isPublished != Some(false))
  {
    NewSection(b.title, b.slug, b.content, b.description, Some(OrDefault(b.groupName, "General")),
               b.isSubItem, Some(b.isPublished != Some(false)))
  }

  /** Delete the given ids one after the other; `false` when a delete threw, which
      stops the loop. */
  function DeleteAll(c: Store, ids: seq<int>): (r: Reply<bool>)
    requires c.mode != Unopened
    ensures r.store.mode == c.mode
    ensures !c.mode.Live? ==> r == Reply(c, |ids| == 0)
    ensures c.mode.Live? ==>
              && r.value
              && r.store.table.nextId == c.table.nextId
              && forall x :: x in r.store.table.rows <==> x in c.table.rows && x.id !in ids
    decreases |ids|
  {
    if |ids| == 0 then Reply(c, true)
    else
      var d := DeleteIn(c, ids[0]);
      if d.value.Err? then Reply(d.store, false)
      else
        var rest := DeleteAll(d.store, ids[1..]);
        assert forall x :: x in ids <==> x == ids[0] || x in ids[1..];
        rest
  }

  /** The create loop on a live table: one `INSERT` per record, skipping the
      records the table refuses. The second component counts the rows added. */
  function InsertAll(t: Table, now: Time, bodies: seq<SectionBody>): (r: (Table, nat))
    ensures r.1 <= |bodies|
    decreases |bodies|
  {
    if |bodies| == 0 then (t, 0)
    else
      match InsertRow(t, Normalise(bodies[0]), now)
      case Ok(t1) =>
        var rest := InsertAll(t1, now, bodies[1..]);
        (rest.0, rest.1 + 1)
      case Err(_) => InsertAll(t, now, bodies[1..])
  }

  /** The create loop only appends: the old rows stay as they were, one row is
      added per success, and every added row has the slug of one of the records. */
  lemma {:induction false} InsertAllAppends(t: Table, now: Time, bodies: seq<SectionBody>)
    ensures var r := InsertAll(t, now, bodies);
            && |r.0.rows| == |t.rows| + r.1
            && r.0.rows[..|t.rows|] == t.rows
            && forall k :: |t.rows| <= k < |r.0.rows| ==> SlugOfSome(bodies, r.0.rows[k].slug)
    decreases |bodies|
  {
    if |bodies| > 0 {
      match InsertRow(t, Normalise(bodies[0]), now)
      case Ok(t1) =>
        InsertAllAppends(t1, now, bodies[1..]);
        InsertRowAppends(t, Normalise(bodies[0]), now);
        var r := InsertAll(t1, now, bodies[1..]);
        assert r.0.rows[..|t.rows|] == r.0.rows[..|t1.rows|][..|t.rows|];
        forall k | |t.rows| <= k < |r.0.rows|
          ensures SlugOfSome(bodies, r.0.rows[k].slug)
        {
          if k == |t.rows| {
            assert r.0.rows[k] == r.0.rows[..|t1.rows|][k];
            assert bodies[0].slug == Some(r.0.rows[k].slug);
          } else {
            SlugOfTail(bodies, r.0.rows[k].slug);
          }
        }
      case Err(_) =>
        InsertAllAppends(t, now, bodies[1..]);
        forall slug | SlugOfSome(bodies[1..], slug)
          ensures SlugOfSome(bodies, slug)
        {
          SlugOfTail(bodies, slug);
        }
    }
  }

  /** Some record carries `slug`. */
  predicate SlugOfSome(bodies: seq<SectionBody>, slug: string) {
    exists j :: 0 <= j < |bodies| && bodies[j].slug == Some(slug)
  }

  lemma SlugOfTail(bodies: seq<SectionBody>, slug: string)
    requires |bodies| > 0 && SlugOfSome(bodies[1..], slug)
    ensures SlugOfSome(bodies, slug)
  {
    var j :| 0 <= j < |bodies[1..]| && bodies[1..][j].slug == Some(slug);
    assert bodies[j + 1].slug == Some(slug);
  }

  /** A successful insert appends exactly one row. */
  lemma InsertRowAppends(t: Table, input: NewSection, now: Time)
    requires InsertRow(t, input, now).Ok?
    ensures var t1 := InsertRow(t, input, now).value;
            && |t1.rows| == |t.rows| + 1
            && t1.rows[..|t.rows|] == t.rows
            && Some(t1.rows[|t.rows|].slug) == input.slug
  {
  }

  /** Create one section per record; a record the table refuses is skipped, and
      in the fallback every record is refused. The count is the number of rows
      added. */
  function CreateAll(c: Store, now: Time, bodies: seq<SectionBody>): (r: Reply<nat>)
    requires c.mode != Unopened
    ensures r.value <= |bodies|
    ensures r.store.mode == c.mode
    ensures !c.mode.Live? ==> r == Reply(c, 0)
    ensures c.mode.Live? ==>
              var rows := c.table.rows;
              var rows' := r.store.table.rows;
              && |rows'| == |rows| + r.value
              && rows'[..|rows|] == rows
              && forall k :: |rows| <= k < |rows'| ==> SlugOfSome(bodies, rows'[k].slug)
  {
    if !c.mode.Live? then Reply(c, 0)
    else
      var t := InsertAll(c.table, now, bodies);
      InsertAllAppends(c.table, now, bodies);
      Reply(Store(Live, t.0), t.1)
  }

  /** `CreateAll` is the route's loop: `createSection` on the first record, then
      the rest on whatever store that left, adding one to the count on success. */
  lemma CreateAllLoop(c: Store, now: Time, bodies: seq<SectionBody>)
    requires c.mode != Unopened && |bodies| > 0
    ensures var one := CreateIn(c, now, Normalise(bodies[0]));
            var rest := CreateAll(one.store, now, bodies[1..]);
            CreateAll(c, now, bodies) == Reply(rest.store, rest.value + if one.value.Ok? then 1 else 0)
  {
  }

  /** The records the create loop gets through: those before the first `null`.
      Reading `section.title` of `null` throws, in the loop and again in its
      `catch`, so the first `null` ends the request. */
  function UpToNull(items: seq<Option<SectionBody>>): (bodies: seq<SectionBody>)
    ensures |bodies| <= |items|
    ensures forall k :: 0 <= k < |bodies| ==> items[k] == Some(bodies[k])
    ensures |bodies| < |items| ==> items[|bodies|].None?
    decreases |items|
  {
    if |items| == 0 || items[0].None? then []
    else [items[0].value] + UpToNull(items[1..])
  }

  /** A payload without `null`s. */
  function AllPresent(bodies: seq<SectionBody>): (items: seq<Option<SectionBody>>)
    ensures |items| == |bodies|
    ensures forall k :: 0 <= k < |bodies| ==> items[k] == Some(bodies[k])
  {
    Seqs.Map(bodies, (b: SectionBody) => Some(b))
  }

  /** The create loop gets through a payload exactly when it holds no `null`. */
  lemma UpToNullComplete(items: seq<Option<SectionBody>>)
    ensures |UpToNull(items)| == |items| <==> forall k :: 0 <= k < |items| ==> items[k].Some?
  {
  }

  lemma UpToNullAllPresent(bodies: seq<SectionBody>)
    ensures UpToNull(AllPresent(bodies)) == bodies
  {
    var b := UpToNull(AllPresent(bodies));
    assert |b| == |bodies|;
    assert forall k :: 0 <= k < |b| ==> b[k] == bodies[k];
  }

  /** `POST`; `request` is `None` when the body is not JSON. Every database call
      goes through `getDatabase`; with nothing to delete or create, none is made. */
  function Import(s: Store, env: Env, request: Option<ImportRequest>): (r: Reply<ImportResponse>)
    ensures request.None? ==> r == Reply(s, ImportFailed)
    ensures request.Some? && request.value.sections.None? ==> r == Reply(s, InvalidFormat)
    ensures request.Some? && request.value.sections.Some? ==>
              var c := Connect(s, env);
              var items := request.value.sections.value;
              && (r.value == ImportFailed <==>
                    || (request.value.replaceAll && c.mode.ReadOnly? && |c.mode.snapshot.GetOr([])| > 0)
                    || |UpToNull(items)| < |items|)
              && (r.value.Imported? ==> r.value.count <= |items|)
              && (c.mode.ReadOnly? ==> r.store.table == s.table && (r.value.Imported? ==> r.value.count == 0))
    ensures request.Some? && request.value.sections.Some? && request.value.replaceAll &&
            Connect(s, env).mode.Live? ==>
              var items := request.value.sections.value;
              var bodies := UpToNull(items);
              && (|bodies| == |items| ==> r.value == Imported(|r.store.table.rows|))
              && forall x :: x in r.store.table.rows ==> SlugOfSome(bodies, x.slug)
    ensures request.Some? && request.value.sections.Some? && !request.value.replaceAll &&
            |UpToNull(request.value.sections.value)| > 0 && Connect(s, env).mode.Live? ==>
              var bodies := UpToNull(request.value.sections.value);
              var rows0 := Connect(s, env).table.rows;
              var rows := r.store.table.rows;
              && |rows| >= |rows0|
              && rows[..|rows0|] == rows0
              && (r.value.Imported? ==> r.value.count == |rows| - |rows0|)
              && forall k :: |rows0| <= k < |rows| ==> SlugOfSome(bodies, rows[k].slug)
  {
    match request
    case None => Reply(s, ImportFailed)
    case Some(ImportRequest(sections, replaceAll)) =>
      match sections
      case None => Reply(s, InvalidFormat)
      case Some(items) =>
        if replaceAll then ReplaceAll(s, env, items) else Append(s, env, items)
  }

  /** The `replaceAll` path: delete every listed section, then run the create
      loop. In the fallback a non-empty snapshot makes the first delete throw; a
      `null` record fails the request after the deletes and the earlier inserts. */
  function ReplaceAll(s: Store, env: Env, items: seq<Option<SectionBody>>): (r: Reply<ImportResponse>)
    ensures var c := Connect(s, env);
            var bodies := UpToNull(items);
            && !r.value.InvalidFormat?
            && (r.value == ImportFailed <==>
                  (c.mode.ReadOnly? && |c.mode.snapshot.GetOr([])| > 0) || |bodies| < |items|)
            && (r.value.Imported? ==> r.value.count <= |items|)
            && (c.mode.ReadOnly? ==> r.store.table == s.table && (r.value.Imported? ==> r.value.count == 0))
            && (c.mode.Live? ==>
                  && (|bodies| == |items| ==> r.value == Imported(|r.store.table.rows|))
                  && forall x :: x in r.store.table.rows ==> SlugOfSome(bodies, x.slug))
  {
    var all := GetAllSections(s, env);
    var del := DeleteAll(all.store, Ids(all.value));
    if !del.value then Reply(del.store, ImportFailed)
    else
      assert all.store.mode.Live? ==> del.store.table.rows == [] by {
        if all.store.mode.Live? {
          DeletedEverything(all.value, all.store);
        }
      }
      var bodies := UpToNull(items);
      var created := CreateAll(del.store, env.now, bodies);
      if |bodies| < |items| then Reply(created.store, ImportFailed)
      else Reply(created.store, Imported(created.value))
  }

  /** Without `replaceAll` the records are appended; with no record before the
      first `null` (an empty list included) no database call is made at all. */
  function Append(s: Store, env: Env, items: seq<Option<SectionBody>>): (r: Reply<ImportResponse>)
    ensures r.value.Imported? <==> |UpToNull(items)| == |items|
    ensures !r.value.Imported? ==> r.value == ImportFailed
    ensures r.value.Imported? ==> r.value.count <= |items|
    ensures |items| == 0 ==> r == Reply(s, Imported(0))
    ensures Connect(s, env).mode.ReadOnly? ==>
              r.store.table == s.table && (r.value.Imported? ==> r.value.count == 0)
    ensures |UpToNull(items)| > 0 && Connect(s, env).mode.Live? ==>
              var rows0 := Connect(s, env).table.rows;
              var rows := r.store.table.rows;
              && |rows| >= |rows0|
              && rows[..|rows0|] == rows0
              && (r.value.Imported? ==> r.value.count == |rows| - |rows0|)
              && forall k :: |rows0| <= k < |rows| ==> SlugOfSome(UpToNull(items), rows[k].slug)
  {
    var bodies := UpToNull(items);
    var created := if |bodies| == 0 then Reply(s, 0) else CreateAll(Connect(s, env), env.now, bodies);
    if |bodies| < |items| then Reply(created.store, ImportFailed)
    else Reply(created.store, Imported(created.value))
  }

  /** A `null` record fails the request, but what the records before it did to
      the table stays: the store is the one importing just those records leaves. */
  lemma NullKeepsEarlierInserts(s: Store, env: Env, items: seq<Option<SectionBody>>, replaceAll: bool)
    requires |UpToNull(items)| < |items|
    ensures var r := Import(s, env, Some(ImportRequest(Some(items), replaceAll)));
            var before := Import(s, env, Some(ImportRequest(Some(AllPresent(UpToNull(items))), replaceAll)));
            r == Reply(before.store, ImportFailed)
  {
    UpToNullAllPresent(UpToNull(items));
  }

  function Ids(rows: seq<Section>): (ids: seq<int>)
    ensures forall x :: x in rows ==> x.id in ids
  {
    Seqs.Map(rows, (x: Section) => x.id)
  }

  /** Deleting the id of every listed row of a live table leaves it empty. */
  lemma DeletedEverything(listed: seq<Section>, before: Store)
    requires before.mode.Live? && multiset(listed) == multiset(before.table.rows)
    ensures DeleteAll(before, Ids(listed)).store == Store(Live, Table([], before.table.nextId))
  {
    var ids := Ids(listed);
    var after := DeleteAll(before, ids).store;
    forall x | x in before.table.rows
      ensures x.id in ids
    {
      assert x in multiset(listed);
    }
    if |after.table.rows| > 0 {
      Seqs.HeadIsMember(after.table.rows);
    }
  }

  // ---------------------------------------------------------------------------
  // Export, then import

  /** The export document's record read back as an import record. */
  function AsBody(rec: Record): (b: SectionBody)
    ensures b.title == Some(rec.title) && b.slug == Some(rec.slug)
  {
    SectionBody(Some(rec.title), Some(rec.slug), rec.content, rec.description,
                Some(rec.groupName), Some(rec.orderIndex), Some(rec.isSubItem), Some(rec.isPublished))
  }

  /** A row whose text fields import gives back unchanged: content and description
      are null rather than empty, and the group is not empty. */
  predicate Normalised(x: Section) {
    x.content != Some("") && x.description != Some("") && x.groupName != ""
  }

  /** What a record becomes after a trip through import: empty content and
      description become null and an empty group becomes "General". */
  function Canonical(rec: Record): (c: Record)
    ensures c.title == rec.title && c.slug == rec.slug && c.orderIndex == rec.orderIndex
    ensures c.isSubItem == rec.isSubItem && c.isPublished == rec.isPublished
    ensures c.content.Some? <==> rec.content.Some? && rec.content.value != ""
    ensures c.content.Some? ==> c.content == rec.content
    ensures c.description.Some? <==> rec.description.Some? && rec.description.value != ""
    ensures c.description.Some? ==> c.description == rec.description
    ensures rec.groupName != "" ==> c.groupName == rec.groupName
    ensures rec.groupName == "" ==> c.groupName == "General"
  {
    rec.(content := NullIfEmpty(rec.content), description := NullIfEmpty(rec.description),
         groupName := OrDefault(Some(rec.groupName), "General"))
  }

  /** Exactly the normalised rows have records that import leaves alone. */
  lemma CanonicalFixes(x: Section)
    ensures Canonical(ToRecord(x)) == ToRecord(x) <==> Normalised(x)
  {
    if Canonical(ToRecord(x)) == ToRecord(x) {
      assert Canonical(ToRecord(x)).content == x.content;
      assert Canonical(ToRecord(x)).description == x.description;
      assert Canonical(ToRecord(x)).groupName == x.groupName;
    }
  }

  predicate Complete(bodies: seq<SectionBody>) {
    forall k :: 0 <= k < |bodies| ==> bodies[k].title.Some? && bodies[k].slug.Some?
  }

  /** The rows importing `bodies` adds, from id `id` and position `order` on. */
  function ImportedRows(bodies: seq<SectionBody>, id: nat, order: int, now: Time): (rows: seq<Section>)
    requires Complete(bodies)
    ensures |rows| == |bodies|
    decreases |bodies|
  {
    if |bodies| == 0 then []
    else [NewRow(id, order, Normalise(bodies[0]), now)] + ImportedRows(bodies[1..], id + 1, order + 1, now)
  }

  lemma {:induction false} ImportedRowsAt(bodies: seq<SectionBody>, id: nat, order: int, now: Time)
    requires Complete(bodies)
    ensures forall k :: 0 <= k < |bodies| ==>
              ImportedRows(bodies, id, order, now)[k] == NewRow(id + k, order + k, Normalise(bodies[k]), now)
    decreases |bodies|
  {
    if |bodies| > 0 {
      ImportedRowsAt(bodies[1..], id + 1, order + 1, now);
      assert forall k :: 1 <= k < |bodies| ==> bodies[k] == bodies[1..][k - 1];
    }
  }

  lemma ImportedRowsCons(bodies: seq<SectionBody>, id: nat, order: int, now: Time)
    requires Complete(bodies) && |bodies| > 0
    ensures ImportedRows(bodies, id, order, now)
         == [NewRow(id, order, Normalise(bodies[0]), now)] + ImportedRows(bodies[1..], id + 1, order + 1, now)
  {
  }

  /** `order` is the position `createSection` gives the next row: above every
      row, and one above the highest when there are rows. */
  predicate IsNextOrder(rows: seq<Section>, order: int) {
    && (forall i :: 0 <= i < |rows| ==> rows[i].orderIndex < order)
    && (|rows| == 0 ==> order == 1)
    && (|rows| > 0 ==> exists i :: 0 <= i < |rows| && rows[i].orderIndex == order - 1)
  }

  lemma NextOrderIs(rows: seq<Section>, order: int)
    requires IsNextOrder(rows, order)
    ensures NextOrder(rows) == order
  {
  }

  /** Appending a row at the next position moves the next position on by one. */
  lemma NextOrderStep(rows: seq<Section>, row: Section, order: int)
    requires IsNextOrder(rows, order) && row.orderIndex == order
    ensures IsNextOrder(rows + [row], order + 1)
  {
    assert (rows + [row])[|rows|] == row;
  }

  /** The records' slugs are distinct and none is taken by a row. */
  predicate FreshSlugs(rows: seq<Section>, bodies: seq<SectionBody>)
    requires Complete(bodies)
  {
    && (forall i, j :: 0 <= i < j < |bodies| ==> bodies[i].slug != bodies[j].slug)
    && (forall k :: 0 <= k < |bodies| ==> !SlugTaken(rows, bodies[k].slug.value))
  }

  /** `t` with `bodies` appended at consecutive ids, and positions from `order` on. */
  function Appended(t: Table, bodies: seq<SectionBody>, order: int, now: Time): Table
    requires Complete(bodies)
  {
    Table(t.rows + ImportedRows(bodies, t.nextId, order, now), t.nextId + |bodies|)
  }

  /** `t` with the first record appended at position `order`. */
  function AppendedFirst(t: Table, bodies: seq<SectionBody>, order: int, now: Time): Table
    requires Complete(bodies) && |bodies| > 0
  {
    Table(t.rows + [NewRow(t.nextId, order, Normalise(bodies[0]), now)], t.nextId + 1)
  }

  /** Every record can go in: each has a title and a slug, no two share a slug,
      no row has one of them, and `order` is the next position. */
  predicate Fresh(t: Table, bodies: seq<SectionBody>, order: int) {
    Complete(bodies) && FreshSlugs(t.rows, bodies) && IsNextOrder(t.rows, order)
  }

  /** Records with fresh, distinct slugs are all created, in order, at consecutive
      ids and positions. */
  lemma {:induction false} InsertAllFresh(t: Table, now: Time, bodies: seq<SectionBody>, order: int)
    requires Fresh(t, bodies, order)
    ensures InsertAll(t, now, bodies) == (Appended(t, bodies, order, now), |bodies|)
    decreases |bodies|
  {
    if |bodies| == 0 {
      assert t.rows + [] == t.rows;
    } else {
      var t1, tail := AppendedFirst(t, bodies, order, now), bodies[1..];
      FreshTail(t, bodies, order, now);
      InsertAllFresh(t1, now, tail, order + 1);
      CloseStep(t, now, bodies, order);
    }
  }

  /** The records after the first are still fresh once the first is in. */
  lemma FreshTail(t: Table, bodies: seq<SectionBody>, order: int, now: Time)
    requires Fresh(t, bodies, order) && |bodies| > 0
    ensures Fresh(AppendedFirst(t, bodies, order, now), bodies[1..], order + 1)
  {
    FreshAfterFirst(t, now, bodies, order);
  }

  /** One turn of the create loop on fresh records: once the rest are appended
      after the first, all are appended and counted. */
  lemma CloseStep(t: Table, now: Time, bodies: seq<SectionBody>, order: int)
    requires Fresh(t, bodies, order) && |bodies| > 0
    requires var t1 := AppendedFirst(t, bodies, order, now);
             InsertAll(t1, now, bodies[1..]) == (Appended(t1, bodies[1..], order + 1, now), |bodies| - 1)
    ensures InsertAll(t, now, bodies) == (Appended(t, bodies, order, now), |bodies|)
  {
    var t1 := AppendedFirst(t, bodies, order, now);
    FreshAfterFirst(t, now, bodies, order);
    InsertAllCons(t, t1, now, bodies);
    AppendedStep(t, now, bodies, order);
  }

  /** A record the table takes is counted, and the loop goes on from there. */
  lemma InsertAllCons(t: Table, t1: Table, now: Time, bodies: seq<SectionBody>)
    requires |bodies| > 0 && InsertRow(t, Normalise(bodies[0]), now) == Ok(t1)
    ensures var rest := InsertAll(t1, now, bodies[1..]);
            InsertAll(t, now, bodies) == (rest.0, rest.1 + 1)
  {
  }

  /** The first record goes in; the others are still fresh afterwards. */
  lemma FreshAfterFirst(t: Table, now: Time, bodies: seq<SectionBody>, order: int)
    requires Fresh(t, bodies, order) && |bodies| > 0
    ensures InsertRow(t, Normalise(bodies[0]), now) == Ok(AppendedFirst(t, bodies, order, now))
    ensures Fresh(AppendedFirst(t, bodies, order, now), bodies[1..], order + 1)
  {
    NextOrderIs(t.rows, order);
    var row := NewRow(t.nextId, order, Normalise(bodies[0]), now);
    NextOrderStep(t.rows, row, order);
    var tail := bodies[1..];
    assert forall k :: 0 <= k < |tail| ==> tail[k] == bodies[k + 1];
  }

  /** Appending the first record, then the rest, appends them all. */
  lemma AppendedStep(t: Table, now: Time, bodies: seq<SectionBody>, order: int)
    requires Complete(bodies) && |bodies| > 0 && Complete(bodies[1..])
    ensures Appended(AppendedFirst(t, bodies, order, now), bodies[1..], order + 1, now) == Appended(t, bodies, order, now)
  {
    var row := NewRow(t.nextId, order, Normalise(bodies[0]), now);
    var more := ImportedRows(bodies[1..], t.nextId + 1, order + 1, now);
    ImportedRowsCons(bodies, t.nextId, order, now);
    Seqs.AppendCons(t.rows, row, more, ImportedRows(bodies, t.nextId, order, now));
  }

  /** On a live store, `replaceAll` empties the table and runs the create loop on
      the empty table. */
  lemma ReplaceAllLive(s: Store, env: Env, bodies: seq<SectionBody>)
    requires s.mode.Live?
    ensures var t := InsertAll(Table([], s.table.nextId), env.now, bodies);
            Import(s, env, Some(ImportRequest(Some(AllPresent(bodies)), true))) == Reply(Store(Live, t.0), Imported(t.1))
  {
    DeletedEverything(GetAllSections(s, env).value, s);
    UpToNullAllPresent(bodies);
  }

  /** What `replaceAll` does to a live store whose export is re-imported. */
  lemma ReimportReplaces(s: Store, env: Env, bodies: seq<SectionBody>)
    requires s.mode.Live? && Fresh(Table([], s.table.nextId), bodies, 1)
    ensures Import(s, env, Some(ImportRequest(Some(AllPresent(bodies)), true))) ==
              Reply(Store(Live, Table(ImportedRows(bodies, s.table.nextId, 1, env.now), s.table.nextId + |bodies|)),
                    Imported(|bodies|))
  {
    ReplaceAllLive(s, env, bodies);
    InsertAllFresh(Table([], s.table.nextId), env.now, bodies, 1);
    assert [] + ImportedRows(bodies, s.table.nextId, 1, env.now) == ImportedRows(bodies, s.table.nextId, 1, env.now);
  }

  /** Exporting rows that were created at positions 1, 2, 3, ... keeps their order. */
  lemma ExportCreated(rows: seq<Section>, nextId: nat, env: Env)
    requires forall k :: 0 <= k < |rows| ==> rows[k].orderIndex == k + 1
    ensures ExportRoute.Export(Store(Live, Table(rows, nextId)), env).value.sections == Seqs.Map(rows, ToRecord)
  {
    assert Seqs.Sorted(rows, ByOrder);
    Seqs.SortOfSorted(rows, ByOrder);
  }

  /** A live store exports its rows in display order. */
  lemma ExportLive(s: Store, env: Env)
    requires s.mode.Live?
    ensures ExportRoute.Export(s, env).value.sections == Seqs.Map(SortByOrder(s.table.rows), ToRecord)
  {
  }

  /** The import records of an export of `listed`. */
  function ExportBodies(listed: seq<Section>): (bodies: seq<SectionBody>)
    ensures Complete(bodies) && |bodies| == |listed|
    ensures forall k :: 0 <= k < |listed| ==> bodies[k] == AsBody(ToRecord(listed[k]))
  {
    Seqs.Map(Seqs.Map(listed, ToRecord), AsBody)
  }

  /** The import records read from the export of rows with distinct slugs can all
      go into an empty table. */
  lemma ExportedBodiesFresh(listed: seq<Section>, nextId: nat)
    requires forall i, j :: 0 <= i < j < |listed| ==> listed[i].slug != listed[j].slug
    ensures Fresh(Table([], nextId), ExportBodies(listed), 1)
  {
  }

  /** Importing the export of `listed` creates rows with the canonical records,
      at positions 1, 2, 3, ... */
  lemma ReimportedRecords(listed: seq<Section>, id: nat, now: Time)
    ensures var bodies := ExportBodies(listed);
            Complete(bodies) &&
            var rows := ImportedRows(bodies, id, 1, now);
            forall k :: 0 <= k < |rows| ==>
              rows[k].orderIndex == k + 1 && ToRecord(rows[k]) == Canonical(ToRecord(listed[k])).(orderIndex := k + 1)
  {
    var bodies := ExportBodies(listed);
    ImportedRowsAt(bodies, id, 1, now);
  }

  /** Exporting a live store, then importing the document with `replaceAll`,
      imports every section; exporting again gives the canonical records, with
      the positions renumbered 1, 2, 3, ... in the same order. */
  lemma ExportImportRoundTrip(s: Store, env: Env, env2: Env)
    requires s.mode.Live? && Valid(s.table)
    ensures var doc := ExportRoute.Export(s, env).value;
            var imp := Import(s, env2, Some(ImportRequest(Some(AllPresent(Seqs.Map(doc.sections, AsBody))), true)));
            var again := ExportRoute.Export(imp.store, env).value.sections;
            && imp.value == Imported(|doc.sections|)
            && |again| == |doc.sections|
            && forall k :: 0 <= k < |again| ==> again[k] == Canonical(doc.sections[k]).(orderIndex := k + 1)
  {
    ExportLive(s, env);
    ReimportListed(s, env2);
    ReexportSorted(s, env2.now, env);
  }

  /** When every row is normalised the second export gives back the first one's
      records unchanged, up to the renumbered positions. */
  lemma ExportImportRoundTripExact(s: Store, env: Env, env2: Env)
    requires s.mode.Live? && Valid(s.table)
    requires forall x :: x in s.table.rows ==> Normalised(x)
    ensures var doc := ExportRoute.Export(s, env).value;
            var imp := Import(s, env2, Some(ImportRequest(Some(AllPresent(Seqs.Map(doc.sections, AsBody))), true)));
            var again := ExportRoute.Export(imp.store, env).value.sections;
            && imp.value == Imported(|doc.sections|)
            && |again| == |doc.sections|
            && forall k :: 0 <= k < |again| ==> again[k] == doc.sections[k].(orderIndex := k + 1)
  {
    ExportImportRoundTrip(s, env, env2);
    ExportLive(s, env);
    SortedNormalised(s.table.rows);
    var listed := SortByOrder(s.table.rows);
    forall k | 0 <= k < |listed|
      ensures Canonical(ToRecord(listed[k])) == ToRecord(listed[k])
    {
      CanonicalFixes(listed[k]);
    }
  }

  /** The sorted rows of a store, recreated and exported. */
  lemma ReexportSorted(s: Store, now: Time, env: Env)
    ensures var listed := SortByOrder(s.table.rows);
            var rows := ImportedRows(ExportBodies(listed), s.table.nextId, 1, now);
            var again := ExportRoute.Export(Store(Live, Table(rows, s.table.nextId + |listed|)), env).value.sections;
            && |again| == |listed|
            && forall k :: 0 <= k < |again| ==> again[k] == Canonical(ToRecord(listed[k])).(orderIndex := k + 1)
  {
    ReexportListed(SortByOrder(s.table.rows), s.table.nextId, now, s.table.nextId + |s.table.rows|, env);
  }

  lemma SortedNormalised(rows: seq<Section>)
    requires forall x :: x in rows ==> Normalised(x)
    ensures |SortByOrder(rows)| == |rows|
    ensures forall k :: 0 <= k < |rows| ==> Normalised(SortByOrder(rows)[k])
  {
    var listed := SortByOrder(rows);
    assert |listed| == |multiset(listed)| == |rows|;
    forall k | 0 <= k < |listed|
      ensures Normalised(listed[k])
    {
      assert listed[k] in multiset(rows);
    }
  }

  /** Importing the export of a valid live store with `replaceAll` recreates
      every listed section. */
  lemma ReimportListed(s: Store, env2: Env)
    requires s.mode.Live? && Valid(s.table)
    ensures var bodies := ExportBodies(SortByOrder(s.table.rows));
            Import(s, env2, Some(ImportRequest(Some(AllPresent(bodies)), true))) ==
              Reply(Store(Live, Table(ImportedRows(bodies, s.table.nextId, 1, env2.now), s.table.nextId + |bodies|)),
                    Imported(|bodies|))
  {
    var listed := SortByOrder(s.table.rows);
    SortedSlugsDistinct(s.table.rows);
    ExportedBodiesFresh(listed, s.table.nextId);
    ReimportReplaces(s, env2, ExportBodies(listed));
  }

  /** Exporting the rows recreated from `listed` gives their canonical records,
      renumbered 1, 2, 3, ... */
  lemma ReexportListed(listed: seq<Section>, id: nat, now: Time, nextId: nat, env: Env)
    ensures var rows := ImportedRows(ExportBodies(listed), id, 1, now);
            var again := ExportRoute.Export(Store(Live, Table(rows, nextId)), env).value.sections;
            && |again| == |listed|
            && forall k :: 0 <= k < |again| ==> again[k] == Canonical(ToRecord(listed[k])).(orderIndex := k + 1)
  {
    var bodies := ExportBodies(listed);
    ReimportedRecords(listed, id, now);
    ExportCreated(ImportedRows(bodies, id, 1, now), nextId, env);
  }

  /** Sorting keeps slugs distinct. */
  lemma SortedSlugsDistinct(rows: seq<Section>)
    requires forall i, j :: 0 <= i < j < |rows| ==> rows[i].slug != rows[j].slug
    ensures var l := SortByOrder(rows);
            forall i, j :: 0 <= i < j < |l| ==> l[i].slug != l[j].slug
  {
    Seqs.SortKeepsDistinct(rows, ByOrder, (x: Section) => x.slug);
  }
}
