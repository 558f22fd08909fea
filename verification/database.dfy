/** The storage layer of lib/database.ts: the `sections` table, the one-way switch
    between the SQLite database and the read-only fallback snapshot, and the
    section CRUD functions built on it.

    The process-wide variables `db`, `useFallback` and `fallbackData` become the
    `Mode` of an immutable `Store` that every operation takes and returns. What
    the outside world decides (whether the database file opens, what the snapshot
    file holds, the clock) is an `Env` argument. */
module Database {
  import opened Wrappers
  import opened Text
  import Seqs

  /** Timestamps (`CURRENT_TIMESTAMP`, `new Date().toISOString()`) are abstract. */
  type Time = int

  /** A row of the `sections` table. */
  datatype Section = Section(
    id: nat,
    title: string,
    slug: string,
    content: Option<string>,
    description: Option<string>,
    orderIndex: int,
    groupName: string,
    isSubItem: bool,
    isPublished: bool,
    createdAt: Time,
    updatedAt: Time)

  predicate IsPublished(s: Section) {
    s.isPublished
  }

  /** A section without its server-generated id and timestamps: the shape of a
      record in the fallback snapshot file and in an export document. */
  datatype Record = Record(
    title: string,
    slug: string,
    content: Option<string>,
    description: Option<string>,
    groupName: string,
    orderIndex: int,
    isSubItem: bool,
    isPublished: bool)

  predicate RecordPublished(r: Record) {
    r.isPublished
  }

  /** Drop the id and the timestamps. */
  function ToRecord(s: Section): Record {
    Record(s.title, s.slug, s.content, s.description, s.groupName, s.orderIndex,
           s.isSubItem, s.isPublished)
  }

  /** Give a record an id and timestamps; `ToRecord` undoes it. */
  function FromRecord(r: Record, id: nat, now: Time): (s: Section)
    ensures ToRecord(s) == r
    ensures s.id == id && s.createdAt == now && s.updatedAt == now
  {
    Section(id, r.title, r.slug, r.content, r.description, r.orderIndex, r.groupName,
            r.isSubItem, r.isPublished, now, now)
  }

  /** The `sections` table: rows in insertion (rowid) order and the next
      AUTOINCREMENT id. */
  datatype Table = Table(rows: seq<Section>, nextId: nat)

  /** Ids are positive, increase along the rows and stay below `nextId`; slugs are
      unique (the column is `UNIQUE`). */
  predicate Valid(t: Table) {
    && (forall i, j :: 0 <= i < j < |t.rows| ==> t.rows[i].id < t.rows[j].id)
    && (forall i :: 0 <= i < |t.rows| ==> 1 <= t.rows[i].id < t.nextId)
    && (forall i, j :: 0 <= i < j < |t.rows| ==> t.rows[i].slug != t.rows[j].slug)
  }

  predicate SlugTaken(rows: seq<Section>, slug: string) {
    exists i :: 0 <= i < |rows| && rows[i].slug == slug
  }

  predicate HasId(rows: seq<Section>, id: int) {
    exists i :: 0 <= i < |rows| && rows[i].id == id
  }

  /** Not opened yet; opened (read-write); or fallen back to the snapshot, which is
      `None` when the snapshot file was missing or unreadable. */
  datatype Mode = Unopened | Live | ReadOnly(snapshot: Option<seq<Record>>)

  datatype Store = Store(mode: Mode, table: Table)

  /** What the world answers at the time of a call. */
  datatype Env = Env(dbOpens: bool, snapshotFile: Option<seq<Record>>, now: Time)

  /** The errors a write can throw: the read-only fallback, and the table's
      `NOT NULL` and `UNIQUE` constraints. */
  datatype StoreError = ReadOnlyMode | NotNullViolation | UniqueViolation

  const ReadOnlyMessage := "Database not available. Running in read-only fallback mode."

  function Message(e: StoreError): string {
    match e
    case ReadOnlyMode => ReadOnlyMessage
    case NotNullViolation => "NOT NULL constraint failed"
    case UniqueViolation => "UNIQUE constraint failed: sections.slug"
  }

  /** An operation's answer together with the store it leaves behind. */
  datatype Reply<T> = Reply(store: Store, value: T)

  // ---------------------------------------------------------------------------
  // Opening the database

  /** The eight sections seeded into an empty table (lib/database.ts:177-186). */
  const DefaultSections: seq<Record> := [
    Record("Introduction", "introduction", None, Some("Welcome to the API"), "General", 1, false, true),
    Record("Error Codes", "errors", None, Some("HTTP status codes"), "General", 2, false, true),
    Record("List Models", "chat-models", None, Some("Available models"), "General", 3, false, true),
    Record("Ecosystem", "ecosystem", None, Some("Platform components"), "General", 4, false, true),
    Record("Quick Start", "quickstart", None, Some("Get started quickly"), "Guides", 5, false, true),
    Record("Chat Completions", "chat-completions", None, Some("Chat API usage"), "Guides", 6, false, true),
    Record("Streaming", "chat-streaming", None, Some("Streaming responses"), "Guides", 7, true, true),
    Record("Vision", "chat-vision", None, Some("Image generation"), "Guides", 8, true, true)
  ]

  /** Insert records one after the other with fresh ids. */
  function InsertRecords(t: Table, recs: seq<Record>, now: Time): (r: Table)
    ensures r.nextId == t.nextId + |recs|
    ensures |r.rows| == |t.rows| + |recs| && r.rows[..|t.rows|] == t.rows
    ensures forall k :: 0 <= k < |recs| ==>
              r.rows[|t.rows| + k] == FromRecord(recs[k], t.nextId + k, now)
    decreases |recs|
  {
    if |recs| == 0 then t
    else
      var t' := Table(t.rows + [FromRecord(recs[0], t.nextId, now)], t.nextId + 1);
      InsertRecords(t', recs[1..], now)
  }

  /** `getDatabase`: the first access decides the mode for good. When the database
      opens, an empty table is seeded; when it does not, the snapshot is loaded,
      once. */
  function Connect(s: Store, env: Env): (r: Store)
    ensures r.mode != Unopened
    ensures s.mode != Unopened ==> r == s
  {
    match s.mode
    case Unopened =>
      if env.dbOpens then
        var t := if |s.table.rows| == 0 then InsertRecords(s.table, DefaultSections, env.now)
                 else s.table;
        Store(Live, t)
      else Store(ReadOnly(env.snapshotFile), s.table)
    case _ => s
  }

  lemma DefaultSlugsDistinct()
    ensures forall i, j :: 0 <= i < j < |DefaultSections| ==>
              DefaultSections[i].slug != DefaultSections[j].slug
  {
  }

  /** Opening keeps the table valid, and seeding an empty table stores exactly the
      default sections. */
  lemma ConnectValid(s: Store, env: Env)
    requires Valid(s.table) && s.table.nextId >= 1
    ensures Valid(Connect(s, env).table)
    ensures s.mode.Unopened? && env.dbOpens && |s.table.rows| == 0 ==>
              Seqs.Map(Connect(s, env).table.rows, ToRecord) == DefaultSections
  {
    if s.mode.Unopened? && env.dbOpens && |s.table.rows| == 0 {
      SeedValid(s.table, env.now);
    }
  }

  /** Seeding an empty table gives a valid table holding the default sections. */
  lemma SeedValid(t: Table, now: Time)
    requires |t.rows| == 0 && t.nextId >= 1
    ensures var seeded := InsertRecords(t, DefaultSections, now);
            Valid(seeded) && Seqs.Map(seeded.rows, ToRecord) == DefaultSections
  {
    DefaultSlugsDistinct();
    InsertRecordsValid(t, DefaultSections, now);
  }

  /** Records with distinct slugs inserted into an empty table make a valid table
      that gives the records back. */
  lemma InsertRecordsValid(t: Table, recs: seq<Record>, now: Time)
    requires |t.rows| == 0 && t.nextId >= 1
    requires forall i, j :: 0 <= i < j < |recs| ==> recs[i].slug != recs[j].slug
    ensures var r := InsertRecords(t, recs, now);
            Valid(r) && Seqs.Map(r.rows, ToRecord) == recs
  {
    var r := InsertRecords(t, recs, now);
    var rows := r.rows;
    forall i | 0 <= i < |rows|
      ensures rows[i].id == t.nextId + i < r.nextId
    {
      assert rows[|t.rows| + i] == FromRecord(recs[i], t.nextId + i, now);
    }
    forall i, j | 0 <= i < j < |rows|
      ensures rows[i].slug != rows[j].slug
    {
      assert rows[i].slug == recs[i].slug;
      assert rows[j].slug == recs[j].slug;
    }
  }

  // ---------------------------------------------------------------------------
  // Reads

  /** `ORDER BY order_index ASC`. */
  predicate ByOrder(a: Section, b: Section) {
    a.orderIndex <= b.orderIndex
  }

  lemma ByOrderIsPreorder()
    ensures Seqs.Total(ByOrder) && Seqs.Transitive(ByOrder)
  {
  }

  function SortByOrder(rows: seq<Section>): (r: seq<Section>)
    ensures Seqs.Sorted(r, ByOrder)
    ensures multiset(r) == multiset(rows)
  {
    ByOrderIsPreorder();
    Seqs.SortSorted(rows, ByOrder);
    Seqs.Sort(rows, ByOrder)
  }

  /** The snapshot as sections: ids are positions counted from 1, timestamps are
      the current time. */
  function FromSnapshot(recs: seq<Record>, now: Time): (r: seq<Section>)
    ensures |r| == |recs|
    ensures forall i :: 0 <= i < |r| ==> r[i].id == i + 1 && ToRecord(r[i]) == recs[i]
  {
    seq(|recs|, i requires 0 <= i < |recs| => FromRecord(recs[i], i + 1, now))
  }

  /** `getAllSections`. */
  function GetAllSections(s: Store, env: Env): (r: Reply<seq<Section>>)
    ensures r.store == Connect(s, env)
    ensures r.store.mode.Live? ==>
              Seqs.Sorted(r.value, ByOrder) && multiset(r.value) == multiset(r.store.table.rows)
    ensures r.store.mode == ReadOnly(None) ==> r.value == []
    ensures r.store.mode.ReadOnly? && r.store.mode.snapshot.Some? ==>
              var recs := r.store.mode.snapshot.value;
              |r.value| == |recs| &&
              forall i :: 0 <= i < |recs| ==> r.value[i].id == i + 1 && ToRecord(r.value[i]) == recs[i]
  {
    var c := Connect(s, env);
    if c.mode.Live? then Reply(c, SortByOrder(c.table.rows))
    else if c.mode.ReadOnly? && c.mode.snapshot.Some? then
      Reply(c, FromSnapshot(c.mode.snapshot.value, env.now))
    else Reply(c, [])
  }

  /** `getPublishedSections`: the query filters, then orders; the snapshot is
      filtered, then numbered. */
  function GetPublishedSections(s: Store, env: Env): (r: Reply<seq<Section>>)
    ensures r.store == Connect(s, env)
    ensures r.store.mode.Live? ==>
              r.value == Seqs.Filter(GetAllSections(s, env).value, IsPublished)
    ensures r.store.mode == ReadOnly(None) ==> r.value == []
    ensures r.store.mode.ReadOnly? && r.store.mode.snapshot.Some? ==>
              var pub := Seqs.Filter(r.store.mode.snapshot.value, RecordPublished);
              |r.value| == |pub| &&
              forall i :: 0 <= i < |pub| ==> r.value[i].id == i + 1 && ToRecord(r.value[i]) == pub[i]
  {
    var c := Connect(s, env);
    if c.mode.Live? then
      ByOrderIsPreorder();
      Seqs.FilterSort(c.table.rows, ByOrder, IsPublished);
      Reply(c, SortByOrder(Seqs.Filter(c.table.rows, IsPublished)))
    else if c.mode.ReadOnly? && c.mode.snapshot.Some? then
      Reply(c, FromSnapshot(Seqs.Filter(c.mode.snapshot.value, RecordPublished), env.now))
    else Reply(c, [])
  }

  /** `getSectionBySlug`: in the snapshot, the first record with that slug, with
      the id of its position in the whole snapshot. */
  function GetSectionBySlug(s: Store, env: Env, slug: string): (r: Reply<Option<Section>>)
    ensures r.store == Connect(s, env)
    ensures r.store.mode.Live? ==>
              (r.value.Some? <==> SlugTaken(r.store.table.rows, slug)) &&
              (r.value.Some? ==> r.value.value in r.store.table.rows && r.value.value.slug == slug)
    ensures r.store.mode == ReadOnly(None) ==> r.value == None
    ensures r.store.mode.ReadOnly? && r.store.mode.snapshot.Some? ==>
              var recs := r.store.mode.snapshot.value;
              (r.value.Some? <==> exists k :: 0 <= k < |recs| && recs[k].slug == slug) &&
              (r.value.Some? ==>
                 var k := r.value.value.id - 1;
                 0 <= k < |recs| && ToRecord(r.value.value) == recs[k] && recs[k].slug == slug &&
                 forall j :: 0 <= j < k ==> recs[j].slug != slug)
  {
    var c := Connect(s, env);
    if c.mode.Live? then
      Reply(c, Seqs.Find(c.table.rows, (x: Section) => x.slug == slug))
    else if c.mode.ReadOnly? && c.mode.snapshot.Some? then
      var recs := c.mode.snapshot.value;
      match Seqs.FirstIndex(recs, (x: Record) => x.slug == slug)
      case Some(k) => Reply(c, Some(FromRecord(recs[k], k + 1, env.now)))
      case None => Reply(c, None)
    else Reply(c, None)
  }

  // ---------------------------------------------------------------------------
  // Create

  /** The argument of `createSection`; `None` is an absent (or null) field. */
  datatype NewSection = NewSection(
    title: Option<string>,
    slug: Option<string>,
    content: Option<string>,
    description: Option<string>,
    groupName: Option<string>,
    isSubItem: Option<bool>,
    isPublished: Option<bool>)

  function MaxOrder(rows: seq<Section>): (m: int)
    requires |rows| > 0
    ensures forall i :: 0 <= i < |rows| ==> rows[i].orderIndex <= m
    ensures exists i :: 0 <= i < |rows| && rows[i].orderIndex == m
    decreases |rows|
  {
    if |rows| == 1 then rows[0].orderIndex
    else
      var m := MaxOrder(rows[1..]);
      assert forall i :: 1 <= i < |rows| ==> rows[i] == rows[1..][i - 1];
      if rows[0].orderIndex >= m then rows[0].orderIndex else m
  }

  /** `(MAX(order_index) || 0) + 1`. */
  function NextOrder(rows: seq<Section>): (r: int)
    ensures forall i :: 0 <= i < |rows| ==> rows[i].orderIndex < r
    ensures |rows| == 0 ==> r == 1
    ensures |rows| > 0 ==> exists i :: 0 <= i < |rows| && rows[i].orderIndex == r - 1
  {
    if |rows| == 0 then 1 else MaxOrder(rows) + 1
  }

  /** `value || null`: an absent or empty string is stored as NULL. */
  function NullIfEmpty(value: Option<string>): (r: Option<string>)
    ensures r.Some? <==> value.Some? && value.value != ""
    ensures r.Some? ==> r == value
  {
    if value.Some? && value.value != "" then value else None
  }

  /** The row `createSection` inserts under `id` at position `order`, with its
      defaults applied. */
  function NewRow(id: nat, order: int, input: NewSection, now: Time): Section
    requires input.title.Some? && input.slug.Some?
  {
    Section(id, input.title.value, input.slug.value,
            NullIfEmpty(input.content), NullIfEmpty(input.description),
            order, OrDefault(input.groupName, "General"),
            input.isSubItem == Some(true), input.isPublished != Some(false),
            now, now)
  }

  /** The `INSERT`, which the table's constraints may refuse. */
  function InsertRow(t: Table, input: NewSection, now: Time): (r: Result<Table, StoreError>)
    ensures r == Err(NotNullViolation) <==> input.title.None? || input.slug.None?
    ensures r == Err(UniqueViolation) <==>
              input.title.Some? && input.slug.Some? && SlugTaken(t.rows, input.slug.value)
  {
    if input.title.None? || input.slug.None? then Err(NotNullViolation)
    else if SlugTaken(t.rows, input.slug.value) then Err(UniqueViolation)
    else Ok(Table(t.rows + [NewRow(t.nextId, NextOrder(t.rows), input, now)], t.nextId + 1))
  }

  /** `createSection` once `getDatabase` has answered: the fallback refuses every
      write, otherwise the `INSERT` runs. */
  function CreateIn(c: Store, now: Time, input: NewSection): (r: Reply<Result<nat, StoreError>>)
    requires c.mode != Unopened
    ensures r.store.mode == c.mode
    ensures !c.mode.Live? ==> r == Reply(c, Err(ReadOnlyMode))
    ensures c.mode.Live? ==>
              var t := c.table;
              && (r.value.Err? <==> input.title.None? || input.slug.None? || SlugTaken(t.rows, input.slug.value))
              && (r.value.Err? ==> r.store == c)
              && (r.value.Ok? ==>
                    && input.title.Some? && input.slug.Some?
                    && r.value.value == t.nextId
                    && r.store.table == Table(t.rows + [NewRow(t.nextId, NextOrder(t.rows), input, now)], t.nextId + 1))
  {
    if !c.mode.Live? then Reply(c, Err(ReadOnlyMode))
    else match InsertRow(c.table, input, now)
      case Ok(t) => Reply(Store(c.mode, t), Ok(c.table.nextId))
      case Err(e) => Reply(c, Err(e))
  }

  /** `createSection`: returns the new id. */
  function CreateSection(s: Store, env: Env, input: NewSection): (r: Reply<Result<nat, StoreError>>)
    ensures r.store.mode == Connect(s, env).mode
    ensures !r.store.mode.Live? ==> r.value == Err(ReadOnlyMode) && r.store.table == s.table
    ensures r.store.mode.Live? ==>
              var t := Connect(s, env).table;
              && (r.value.Err? <==> input.title.None? || input.slug.None? || SlugTaken(t.rows, input.slug.value))
              && (r.value.Err? ==> r.store.table == t)
              && (r.value.Ok? ==> |r.store.table.rows| == |t.rows| + 1)
              && (r.value.Ok? && |r.store.table.rows| == |t.rows| + 1 ==>
                    var row := r.store.table.rows[|t.rows|];
                    && r.value.value == t.nextId == row.id
                    && r.store.table.rows == t.rows + [row]
                    && r.store.table.nextId == t.nextId + 1
                    && row.title == input.title.value && row.slug == input.slug.value
                    && (forall i :: 0 <= i < |t.rows| ==> t.rows[i].orderIndex < row.orderIndex)
                    && (|t.rows| == 0 ==> row.orderIndex == 1)
                    && (row.content.Some? <==> input.content.Some? && input.content.value != "")
                    && (row.content.Some? ==> row.content == input.content)
                    && (row.description.Some? <==> input.description.Some? && input.description.value != "")
                    && (row.description.Some? ==> row.description == input.description)
                    && (input.groupName.None? || input.groupName == Some("") ==> row.groupName == "General")
                    && (input.groupName.Some? && input.groupName.value != "" ==> row.groupName == input.groupName.value)
                    && (row.isSubItem <==> input.isSubItem == Some(true))
                    && (!row.isPublished <==> input.isPublished == Some(false)))
  {
    CreateIn(Connect(s, env), env.now, input)
  }

  lemma InsertRowValid(t: Table, input: NewSection, now: Time)
    requires Valid(t) && t.nextId >= 1
    ensures InsertRow(t, input, now).Ok? ==> Valid(InsertRow(t, input, now).value)
  {
    if input.title.Some? && input.slug.Some? && !SlugTaken(t.rows, input.slug.value) {
      AppendValid(t, NewRow(t.nextId, NextOrder(t.rows), input, now));
    }
  }

  /** A row with the next id and a fresh slug can be appended. */
  lemma AppendValid(t: Table, row: Section)
    requires Valid(t) && t.nextId >= 1
    requires row.id == t.nextId && !SlugTaken(t.rows, row.slug)
    ensures Valid(Table(t.rows + [row], t.nextId + 1))
  {
    var rows := t.rows + [row];
    assert forall i :: 0 <= i < |t.rows| ==> rows[i] == t.rows[i];
    assert forall i :: 0 <= i < |t.rows| ==> t.rows[i].slug != row.slug;
  }

  // ---------------------------------------------------------------------------
  // Update

  /** The argument of `updateSection`: `None` leaves the column alone. `content`
      and `description` may be set to NULL. */
  datatype Patch = Patch(
    title: Option<string>,
    slug: Option<string>,
    content: Option<Option<string>>,
    description: Option<Option<string>>,
    groupName: Option<string>,
    orderIndex: Option<int>,
    isSubItem: Option<bool>,
    isPublished: Option<bool>)

  const EmptyPatch := Patch(None, None, None, None, None, None, None, None)

  /** The `SET` list of the `UPDATE`: only the given columns, plus `updated_at`. */
  function ApplyPatch(row: Section, p: Patch, now: Time): (r: Section)
    ensures r.id == row.id && r.createdAt == row.createdAt && r.updatedAt == now
    ensures r.title == p.title.GetOr(row.title) && r.slug == p.slug.GetOr(row.slug)
    ensures r.content == p.content.GetOr(row.content)
    ensures r.description == p.description.GetOr(row.description)
    ensures r.groupName == p.groupName.GetOr(row.groupName)
    ensures r.orderIndex == p.orderIndex.GetOr(row.orderIndex)
    ensures r.isSubItem == p.isSubItem.GetOr(row.isSubItem)
    ensures r.isPublished == p.isPublished.GetOr(row.isPublished)
  {
    row.(title := p.title.GetOr(row.title),
         slug := p.slug.GetOr(row.slug),
         content := p.content.GetOr(row.content),
         description := p.description.GetOr(row.description),
         groupName := p.groupName.GetOr(row.groupName),
         orderIndex := p.orderIndex.GetOr(row.orderIndex),
         isSubItem := p.isSubItem.GetOr(row.isSubItem),
         isPublished := p.isPublished.GetOr(row.isPublished),
         updatedAt := now)
  }

  /** Would the new slug collide with another row? */
  predicate SlugClash(rows: seq<Section>, id: int, p: Patch) {
    p.slug.Some? && HasId(rows, id) &&
    exists i :: 0 <= i < |rows| && rows[i].id != id && rows[i].slug == p.slug.value
  }

  function PatchRows(rows: seq<Section>, id: int, p: Patch, now: Time): (r: seq<Section>)
    ensures |r| == |rows|
    ensures forall i :: 0 <= i < |rows| ==>
              r[i] == if rows[i].id == id then ApplyPatch(rows[i], p, now) else rows[i]
  {
    seq(|rows|, i requires 0 <= i < |rows| =>
      if rows[i].id == id then ApplyPatch(rows[i], p, now) else rows[i])
  }

  /** `updateSection` once `getDatabase` has answered. An id that matches no row
      updates nothing. */
  function UpdateIn(c: Store, now: Time, id: int, p: Patch): (r: Reply<Result<(), StoreError>>)
    requires c.mode != Unopened
    ensures r.store.mode == c.mode
    ensures !c.mode.Live? ==> r == Reply(c, Err(ReadOnlyMode))
    ensures c.mode.Live? ==>
              && (r.value.Err? <==> SlugClash(c.table.rows, id, p))
              && (r.value.Err? ==> r.value.error == UniqueViolation && r.store == c)
              && (r.value.Ok? ==> r.store.table == Table(PatchRows(c.table.rows, id, p, now), c.table.nextId))
  {
    if !c.mode.Live? then Reply(c, Err(ReadOnlyMode))
    else if SlugClash(c.table.rows, id, p) then Reply(c, Err(UniqueViolation))
    else Reply(Store(c.mode, Table(PatchRows(c.table.rows, id, p, now), c.table.nextId)), Ok(()))
  }

  /** `updateSection`. */
  function UpdateSection(s: Store, env: Env, id: int, p: Patch): (r: Reply<Result<(), StoreError>>)
    ensures r.store.mode == Connect(s, env).mode
    ensures !r.store.mode.Live? ==> r.value == Err(ReadOnlyMode) && r.store.table == s.table
    ensures r.store.mode.Live? ==>
              var t := Connect(s, env).table;
              && (r.value.Err? <==> SlugClash(t.rows, id, p))
              && (r.value.Err? ==> r.value.error == UniqueViolation && r.store.table == t)
              && (r.value.Ok? ==> r.store.table == Table(PatchRows(t.rows, id, p, env.now), t.nextId))
  {
    UpdateIn(Connect(s, env), env.now, id, p)
  }

  lemma PatchRowsValid(t: Table, id: int, p: Patch, now: Time)
    requires Valid(t) && !SlugClash(t.rows, id, p)
    ensures Valid(Table(PatchRows(t.rows, id, p, now), t.nextId))
  {
    var r := PatchRows(t.rows, id, p, now);
    forall i, j | 0 <= i < j < |r|
      ensures r[i].slug != r[j].slug
    {
      if t.rows[i].id == id || t.rows[j].id == id {
        assert HasId(t.rows, id);
      }
    }
  }

  // ---------------------------------------------------------------------------
  // Delete

  function DeleteRows(rows: seq<Section>, id: int): (r: seq<Section>)
    ensures forall x :: x in r <==> x in rows && x.id != id
  {
    Seqs.Filter(rows, (x: Section) => x.id != id)
  }

  /** `deleteSection` once `getDatabase` has answered. */
  function DeleteIn(c: Store, id: int): (r: Reply<Result<(), StoreError>>)
    requires c.mode != Unopened
    ensures r.store.mode == c.mode
    ensures !c.mode.Live? ==> r == Reply(c, Err(ReadOnlyMode))
    ensures c.mode.Live? ==>
              r.value.Ok? && r.store.table.nextId == c.table.nextId &&
              forall x :: x in r.store.table.rows <==> x in c.table.rows && x.id != id
  {
    if !c.mode.Live? then Reply(c, Err(ReadOnlyMode))
    else Reply(Store(c.mode, Table(DeleteRows(c.table.rows, id), c.table.nextId)), Ok(()))
  }

  /** `deleteSection`. */
  function DeleteSection(s: Store, env: Env, id: int): (r: Reply<Result<(), StoreError>>)
    ensures r.store.mode == Connect(s, env).mode
    ensures !r.store.mode.Live? ==> r.value == Err(ReadOnlyMode) && r.store.table == s.table
    ensures r.store.mode.Live? ==>
              var t := Connect(s, env).table;
              r.value.Ok? && r.store.table.nextId == t.nextId &&
              forall x :: x in r.store.table.rows <==> x in t.rows && x.id != id
  {
    DeleteIn(Connect(s, env), id)
  }

  lemma {:induction false} FilterKeepsOrder(rows: seq<Section>, id: int)
    requires forall i, j :: 0 <= i < j < |rows| ==> rows[i].id < rows[j].id
    ensures var r := DeleteRows(rows, id);
            forall i, j :: 0 <= i < j < |r| ==> r[i].id < r[j].id
    decreases |rows|
  {
    if |rows| > 0 {
      FilterKeepsOrder(rows[1..], id);
      var rest := DeleteRows(rows[1..], id);
      forall k | 0 <= k < |rest|
        ensures rows[0].id < rest[k].id
      {
        assert rest[k] in rows[1..];
      }
    }
  }

  lemma {:induction false} FilterKeepsSlugsDistinct(rows: seq<Section>, id: int)
    requires forall i, j :: 0 <= i < j < |rows| ==> rows[i].slug != rows[j].slug
    ensures var r := DeleteRows(rows, id);
            forall i, j :: 0 <= i < j < |r| ==> r[i].slug != r[j].slug
    decreases |rows|
  {
    if |rows| > 0 {
      FilterKeepsSlugsDistinct(rows[1..], id);
      var rest := DeleteRows(rows[1..], id);
      forall k | 0 <= k < |rest|
        ensures rows[0].slug != rest[k].slug
      {
        assert rest[k] in rows[1..];
      }
    }
  }

  /** Deleting keeps the table valid. */
  lemma DeleteValid(t: Table, id: int)
    requires Valid(t)
    ensures Valid(Table(DeleteRows(t.rows, id), t.nextId))
  {
    FilterKeepsOrder(t.rows, id);
    FilterKeepsSlugsDistinct(t.rows, id);
    var r := DeleteRows(t.rows, id);
    forall i | 0 <= i < |r|
      ensures 1 <= r[i].id < t.nextId
    {
      assert r[i] in t.rows;
    }
  }

  // ---------------------------------------------------------------------------
  // The mode over a whole run

  datatype Op =
    | ReadAll
    | ReadPublished
    | ReadBySlug(slug: string)
    | Create(input: NewSection)
    | Update(id: int, patch: Patch)
    | Delete(id: int)

  function Perform(s: Store, env: Env, op: Op): Store {
    match op
    case ReadAll => GetAllSections(s, env).store
    case ReadPublished => GetPublishedSections(s, env).store
    case ReadBySlug(slug) => GetSectionBySlug(s, env, slug).store
    case Create(input) => CreateSection(s, env, input).store
    case Update(id, p) => UpdateSection(s, env, id, p).store
    case Delete(id) => DeleteSection(s, env, id).store
  }

  function Run(s: Store, trace: seq<(Env, Op)>): Store
    decreases |trace|
  {
    if |trace| == 0 then s else Run(Perform(s, trace[0].0, trace[0].1), trace[1..])
  }

  /** Once in fallback mode, no sequence of operations changes anything: the mode
      stays, the snapshot loaded at the switch stays, and the table is never
      touched. */
  lemma {:induction false} FallbackIsPermanent(s: Store, trace: seq<(Env, Op)>)
    requires s.mode.ReadOnly?
    ensures Run(s, trace) == s
    decreases |trace|
  {
    if |trace| > 0 {
      assert Perform(s, trace[0].0, trace[0].1) == s;
      FallbackIsPermanent(s, trace[1..]);
    }
  }

  /** Once the database is open it stays open. */
  lemma {:induction false} LiveIsPermanent(s: Store, trace: seq<(Env, Op)>)
    requires s.mode.Live?
    ensures Run(s, trace).mode.Live?
    decreases |trace|
  {
    if |trace| > 0 {
      LiveIsPermanent(Perform(s, trace[0].0, trace[0].1), trace[1..]);
    }
  }

  /** The first operation decides the mode for the rest of the run; a failed open
      loads the snapshot of that moment and never looks at the file again. */
  lemma FirstAccessDecides(s: Store, env: Env, op: Op, trace: seq<(Env, Op)>)
    requires s.mode.Unopened?
    ensures env.dbOpens ==> Run(s, [(env, op)] + trace).mode.Live?
    ensures !env.dbOpens ==> Run(s, [(env, op)] + trace) == Store(ReadOnly(env.snapshotFile), s.table)
  {
    var s1 := Perform(s, env, op);
    assert ([(env, op)] + trace)[1..] == trace;
    assert Run(s, [(env, op)] + trace) == Run(s1, trace);
    if env.dbOpens {
      LiveIsPermanent(s1, trace);
    } else {
      assert s1 == Store(ReadOnly(env.snapshotFile), s.table);
      FallbackIsPermanent(s1, trace);
    }
  }

  /** Every operation keeps the table valid. */
  lemma PerformValid(s: Store, env: Env, op: Op)
    requires Valid(s.table) && s.table.nextId >= 1
    ensures Valid(Perform(s, env, op).table) && Perform(s, env, op).table.nextId >= 1
  {
    match op
    case Create(input) => CreateValid(s, env, input);
    case Update(id, p) => UpdateValid(s, env, id, p);
    case Delete(id) => DeleteSectionValid(s, env, id);
    case _ => ConnectValid(s, env);
  }

  lemma CreateValid(s: Store, env: Env, input: NewSection)
    requires Valid(s.table) && s.table.nextId >= 1
    ensures var t := CreateSection(s, env, input).store.table; Valid(t) && t.nextId >= 1
  {
    ConnectValid(s, env);
    InsertRowValid(Connect(s, env).table, input, env.now);
  }

  lemma UpdateValid(s: Store, env: Env, id: int, p: Patch)
    requires Valid(s.table) && s.table.nextId >= 1
    ensures var t := UpdateSection(s, env, id, p).store.table; Valid(t) && t.nextId >= 1
  {
    ConnectValid(s, env);
    var c := Connect(s, env);
    if c.mode.Live? && !SlugClash(c.table.rows, id, p) {
      PatchRowsValid(c.table, id, p, env.now);
    }
  }

  lemma DeleteSectionValid(s: Store, env: Env, id: int)
    requires Valid(s.table) && s.table.nextId >= 1
    ensures var t := DeleteSection(s, env, id).store.table; Valid(t) && t.nextId >= 1
  {
    ConnectValid(s, env);
    DeleteValid(Connect(s, env).table, id);
  }

}
