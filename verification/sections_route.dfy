/** The collection endpoint of the admin API (app/api/admin/sections/route.ts):
    `GET` lists every section, drafts included; `POST` creates one. */
module SectionsRoute {
  import opened Wrappers
  import opened Database

  /** The section fields of a JSON request body as the admin routes read them;
      `None` is a missing (or null) field. `orderIndex` is accepted in the body
      but never forwarded: the server always appends. */
  datatype SectionBody = SectionBody(
    title: Option<string>,
    slug: Option<string>,
    content: Option<string>,
    description: Option<string>,
    groupName: Option<string>,
    orderIndex: Option<int>,
    isSubItem: Option<bool>,
    isPublished: Option<bool>)

  /** `!value` on an optional string: missing or empty. */
  predicate Falsy(value: Option<string>) {
    value.None? || value.value == ""
  }

  /** The fields the route hands to `createSection`, unchanged. */
  function Forward(b: SectionBody): (n: NewSection)
    ensures n.title == b.title && n.slug == b.slug && n.content == b.content
    ensures n.description == b.description && n.groupName == b.groupName
    ensures n.isSubItem == b.isSubItem && n.isPublished == b.isPublished
  {
    NewSection(b.title, b.slug, b.content, b.description, b.groupName, b.isSubItem, b.isPublished)
  }

  /** `GET`: every section, published or not. A live database orders them by
      position; the read-only snapshot is answered in file order, numbered from 1. */
  function List(s: Store, env: Env): (r: Reply<seq<Section>>)
    ensures r.store == Connect(s, env)
    ensures r.store.mode.Live? ==>
              Seqs.Sorted(r.value, ByOrder) && multiset(r.value) == multiset(r.store.table.rows)
    ensures r.store.mode == ReadOnly(None) ==> r.value == []
    ensures r.store.mode.ReadOnly? && r.store.mode.snapshot.Some? ==>
              var recs := r.store.mode.snapshot.value;
              |r.value| == |recs| &&
              forall i :: 0 <= i < |recs| ==> r.value[i].id == i + 1 && ToRecord(r.value[i]) == recs[i]
  {
    GetAllSections(s, env)
  }

  /** The answers of `POST`: 201 with the new id, 400 when title or slug is
      missing, 500 when the body is unreadable or the insert throws. */
  datatype PostResponse = Created(id: nat) | MissingFields | CreateFailed

  function Status(r: PostResponse): (code: nat)
    ensures code == 201 || code == 400 || code == 500
    ensures code == 201 <==> r.Created?
  {
    match r
    case Created(_) => 201
    case MissingFields => 400
    case CreateFailed => 500
  }

  function ErrorText(r: PostResponse): string
    requires !r.Created?
  {
    if r.MissingFields? then "Title and slug are required" else "Failed to create section"
  }

  /** `POST`; `body` is `None` when the request is not JSON. */
  function Create(s: Store, env: Env, body: Option<SectionBody>): (r: Reply<PostResponse>)
    ensures body.None? ==> r == Reply(s, CreateFailed)
    ensures body.Some? && (Falsy(body.value.title) || Falsy(body.value.slug)) ==>
              r == Reply(s, MissingFields)
    ensures body.Some? && !Falsy(body.value.title) && !Falsy(body.value.slug) ==>
              var c := Connect(s, env);
              && r.store.mode == c.mode
              && (r.value.Created? <==> c.mode.Live? && !SlugTaken(c.table.rows, body.value.slug.value))
              && (r.value.Created? ==>
                    r.value.id == c.table.nextId &&
                    r.store.table.rows ==
                      c.table.rows + [NewRow(c.table.nextId, NextOrder(c.table.rows), Forward(body.value), env.now)])
              && (!r.value.Created? ==> r.value == CreateFailed && r.store.table == c.table)
  {
    match body
    case None => Reply(s, CreateFailed)
    case Some(b) =>
      if Falsy(b.title) || Falsy(b.slug) then Reply(s, MissingFields)
      else
        var c := CreateSection(s, env, Forward(b));
        match c.value
        case Ok(id) => Reply(c.store, Created(id))
        case Err(_) => Reply(c.store, CreateFailed)
  }

  /** A client cannot choose where a new section goes: the answer does not depend
      on the body's `order_index`. */
  lemma CreateIgnoresOrder(s: Store, env: Env, b: SectionBody, order: Option<int>)
    ensures Create(s, env, Some(b)) == Create(s, env, Some(b.(orderIndex := order)))
  {
  }
}
