/** The pure decisions of the admin dashboard (app/admin/dashboard/page.tsx):
    slug generation, the colour check, reordering, snippet insertion, save and
    publish requests, and the overview counts. Requests are modelled as the
    patches they carry to the sections store. */
module Dashboard {
  import opened Wrappers
  import Text
  import Seqs
  import Database
  import SectionsRoute
  import DocContent

  // ---------------------------------------------------------------------------
  // Slugs: lower-case, every run of other characters becomes one "-", then one
  // leading and one trailing "-" are removed.

  predicate IsSlugChar(c: char) {
    'a' <= c <= 'z' || '0' <= c <= '9'
  }

  /** Only slug characters and hyphens, never two hyphens in a row. */
  predicate Hyphenated(s: string) {
    && (forall i :: 0 <= i < |s| ==> IsSlugChar(s[i]) || s[i] == '-')
    && (forall i :: 0 <= i < |s| - 1 ==> s[i] == '-' ==> s[i + 1] != '-')
  }

  /** A slug as the editor produces it: hyphenated, no hyphen at either end. */
  predicate WellFormedSlug(s: string) {
    Hyphenated(s) && (|s| > 0 ==> s[0] != '-' && s[|s| - 1] != '-')
  }

  /** The slug characters of `s`, in order. */
  function Alnum(s: string): (r: string)
    ensures forall i :: 0 <= i < |r| ==> IsSlugChar(r[i])
    decreases |s|
  {
    if |s| == 0 then ""
    else if IsSlugChar(s[0]) then [s[0]] + Alnum(s[1..])
    else Alnum(s[1..])
  }

  /** `s` without its leading run of characters matched by `[^a-z0-9]`. */
  function DropRun(s: string): (r: string)
    ensures |r| <= |s| && r == s[|s| - |r|..]
    ensures |r| > 0 ==> IsSlugChar(r[0])
    ensures |s| > 0 && !IsSlugChar(s[0]) ==> |r| < |s|
    ensures Alnum(r) == Alnum(s)
    decreases |s|
  {
    if |s| > 0 && !IsSlugChar(s[0]) then DropRun(s[1..]) else s
  }

  /** `replace(/[^a-z0-9]+/g, "-")`: each maximal run of other characters
      becomes a single hyphen. */
  function Collapse(s: string): (r: string)
    ensures Hyphenated(r)
    ensures |s| > 0 <==> |r| > 0
    ensures |s| > 0 && IsSlugChar(s[0]) ==> r[0] == s[0]
    ensures |s| > 0 && !IsSlugChar(s[0]) ==> r[0] == '-'
    decreases |s|
  {
    if |s| == 0 then ""
    else if IsSlugChar(s[0]) then [s[0]] + Collapse(s[1..])
    else "-" + Collapse(DropRun(s))
  }

  /** `replace(/^-|-$/g, "")`: one hyphen off the front and one off the back;
      a lone "-" is matched once and disappears. */
  function TrimHyphens(s: string): string {
    var a := if |s| > 0 && s[0] == '-' then s[1..] else s;
    if |a| > 0 && a[|a| - 1] == '-' then a[..|a| - 1] else a
  }

  /** `generateSlug`. */
  function GenerateSlug(title: string): (slug: string)
    ensures WellFormedSlug(slug)
    ensures Alnum(slug) == Alnum(Text.ToLower(title))
  {
    var c := Collapse(Text.ToLower(title));
    CollapseKeepsAlnum(Text.ToLower(title));
    TrimKeepsAlnum(c);
    TrimHyphens(c)
  }

  lemma {:induction false} CollapseKeepsAlnum(s: string)
    ensures Alnum(Collapse(s)) == Alnum(s)
    decreases |s|
  {
    if |s| == 0 {
    } else if IsSlugChar(s[0]) {
      assert (([s[0]] + Collapse(s[1..])))[1..] == Collapse(s[1..]);
      CollapseKeepsAlnum(s[1..]);
    } else {
      assert ("-" + Collapse(DropRun(s)))[1..] == Collapse(DropRun(s));
      CollapseKeepsAlnum(DropRun(s));
    }
  }

  lemma {:induction false} AlnumSnoc(s: string, c: char)
    ensures Alnum(s + [c]) == Alnum(s) + (if IsSlugChar(c) then [c] else [])
    decreases |s|
  {
    if |s| == 0 {
      assert (s + [c])[1..] == [];
    } else {
      assert (s + [c])[1..] == s[1..] + [c];
      AlnumSnoc(s[1..], c);
    }
  }

  /** Trimming a hyphenated string leaves a well-formed slug with the same
      letters and digits. */
  lemma TrimKeepsAlnum(s: string)
    requires Hyphenated(s)
    ensures WellFormedSlug(TrimHyphens(s))
    ensures Alnum(TrimHyphens(s)) == Alnum(s)
  {
    TrimWellFormed(s);
    TrimAlnum(s);
  }

  /** Trimming drops hyphens only. */
  lemma TrimAlnum(s: string)
    ensures Alnum(TrimHyphens(s)) == Alnum(s)
  {
    var a := if |s| > 0 && s[0] == '-' then s[1..] else s;
    assert Alnum(a) == Alnum(s);
    if |a| > 0 && a[|a| - 1] == '-' {
      var b := a[..|a| - 1];
      assert a == b + ['-'];
      AlnumSnoc(b, '-');
    }
  }

  /** Trimming a hyphenated string leaves no hyphen at either end. */
  lemma TrimWellFormed(s: string)
    requires Hyphenated(s)
    ensures WellFormedSlug(TrimHyphens(s))
  {
    var a := if |s| > 0 && s[0] == '-' then s[1..] else s;
    HyphenatedSlice(s, |s| - |a|, |s|);
    assert a == s[|s| - |a|..];
    assert |a| > 0 ==> a[0] != '-';
    if |a| > 0 && a[|a| - 1] == '-' {
      var b := a[..|a| - 1];
      HyphenatedSlice(a, 0, |a| - 1);
      assert |b| > 0 ==> b[0] == a[0] && b[|b| - 1] == a[|a| - 2];
    }
  }

  /** A slice of a hyphenated string is hyphenated. */
  lemma HyphenatedSlice(s: string, lo: nat, hi: nat)
    requires Hyphenated(s) && lo <= hi <= |s|
    ensures Hyphenated(s[lo..hi])
  {
    var t := s[lo..hi];
    assert forall i :: 0 <= i < |t| ==> t[i] == s[lo + i];
  }

  lemma {:induction false} CollapseHyphenated(s: string)
    requires Hyphenated(s)
    ensures Collapse(s) == s
    decreases |s|
  {
    if |s| > 0 {
      HyphenatedSlice(s, 1, |s|);
      CollapseHyphenated(s[1..]);
      if !IsSlugChar(s[0]) {
        assert DropRun(s) == s[1..] by {
          assert |s| > 1 ==> IsSlugChar(s[1]);
        }
      }
      assert s == [s[0]] + s[1..];
    }
  }

  /** Slugs are fixed points: regenerating a generated slug changes nothing. */
  lemma GenerateSlugIdempotent(title: string)
    ensures GenerateSlug(GenerateSlug(title)) == GenerateSlug(title)
  {
    var s := GenerateSlug(title);
    assert Text.ToLower(s) == s;
    CollapseHyphenated(s);
  }

  // ---------------------------------------------------------------------------
  // The section being edited

  /** `editingSection`: a partial section; `id` is missing for a new one. */
  datatype Draft = Draft(id: Option<int>, fields: SectionsRoute.SectionBody)

  /** `openCreateModal`. */
  const NewDraft := Draft(None, SectionsRoute.SectionBody(
    Some(""), Some(""), Some(""), Some(""), Some("General"), None, Some(false), Some(true)))

  /** The title field's `onChange`: the slug is filled from the title only while
      it is empty. */
  function OnTitleEdit(d: Draft, title: string): (e: Draft)
    ensures e.id == d.id && e.fields.title == Some(title)
    ensures SectionsRoute.Falsy(d.fields.slug) ==> e.fields.slug == Some(GenerateSlug(title))
    ensures !SectionsRoute.Falsy(d.fields.slug) ==> e.fields.slug == d.fields.slug
    ensures e.fields == d.fields.(title := e.fields.title, slug := e.fields.slug)
  {
    d.(fields := d.fields.(title := Some(title),
                           slug := Some(Text.OrDefault(d.fields.slug, GenerateSlug(title)))))
  }

  /** Typing a title one character at a time: each keystroke is a title edit. */
  function TypeTitle(d: Draft, keystrokes: seq<string>): Draft
    decreases |keystrokes|
  {
    if |keystrokes| == 0 then d else TypeTitle(OnTitleEdit(d, keystrokes[0]), keystrokes[1..])
  }

  /** The first keystroke fills the slug and later ones no longer touch it:
      typing "Hi" into a new section leaves the slug "h". */
  lemma TypingFreezesSlug()
    ensures GenerateSlug("Hi") == "hi"
    ensures TypeTitle(NewDraft, ["H", "Hi"]).fields.slug == Some("h")
  {
    assert Text.ToLower("H") == "h";
    assert Text.ToLower("Hi") == "hi";
    assert Collapse("h") == "h";
    assert Collapse("hi") == "hi" by { assert Collapse("i") == "i"; }
    var d1 := OnTitleEdit(NewDraft, "H");
    assert d1.fields.slug == Some("h");
    assert TypeTitle(d1, ["Hi"]) == TypeTitle(OnTitleEdit(d1, "Hi"), []);
  }

  /** The slug is still derived from the title: empty, or what the current
      title generates. */
  predicate SlugDerived(d: Draft) {
    SectionsRoute.Falsy(d.fields.slug) ||
    d.fields.slug.value == GenerateSlug(d.fields.title.GetOr(""))
  }

  /** Title edit that keeps a derived slug in step with the title and leaves a
      hand-written one alone. */
  function OnTitleEditDerived(d: Draft, title: string): (e: Draft)
    ensures e.id == d.id && e.fields.title == Some(title)
    ensures SlugDerived(d) ==> e.fields.slug == Some(GenerateSlug(title))
    ensures !SlugDerived(d) ==> e.fields.slug == d.fields.slug
    ensures SlugDerived(d) ==> SlugDerived(e)
  {
    var slug := if SlugDerived(d) then GenerateSlug(title) else d.fields.slug.value;
    d.(fields := d.fields.(title := Some(title), slug := Some(slug)))
  }

  function TypeTitleDerived(d: Draft, keystrokes: seq<string>): Draft
    decreases |keystrokes|
  {
    if |keystrokes| == 0 then d
    else TypeTitleDerived(OnTitleEditDerived(d, keystrokes[0]), keystrokes[1..])
  }

  /** However the title is typed, a derived slug ends up generated from the
      final title. */
  lemma {:induction false} TypingKeepsSlugDerived(d: Draft, keystrokes: seq<string>)
    requires SlugDerived(d)
    requires |keystrokes| > 0
    ensures TypeTitleDerived(d, keystrokes).fields.slug == Some(GenerateSlug(keystrokes[|keystrokes| - 1]))
    decreases |keystrokes|
  {
    var e := OnTitleEditDerived(d, keystrokes[0]);
    if |keystrokes| > 1 {
      TypingKeepsSlugDerived(e, keystrokes[1..]);
    }
  }

  /** `insertSnippet`: the snippet goes after the current content, separated
      from it by a blank line when there is any. */
  function InsertSnippet(content: Option<string>, code: string): (r: string)
    ensures SectionsRoute.Falsy(content) ==> r == code
    ensures !SectionsRoute.Falsy(content) ==> r == content.value + "\n\n" + code
  {
    var current := Text.OrDefault(content, "");
    current + (if current != "" then "\n\n" else "") + code
  }

  /** When the current content leaves no component open, the page shows the
      old blocks followed by the snippet's blocks. */
  lemma InsertSnippetRenders(content: Option<string>, code: string, parse: DocContent.Parser)
    requires var c := Text.OrDefault(content, "");
             forall k :: 0 <= k < |Text.SplitLines(c)| ==> !DocContent.OpensBlock(Text.SplitLines(c)[k])
    ensures DocContent.Render(InsertSnippet(content, code), parse) ==
              DocContent.Render(Text.OrDefault(content, ""), parse) + DocContent.Render(code, parse)
  {
    var c := Text.OrDefault(content, "");
    if c == "" {
      DocContent.EmptyRendersNothing(parse);
    } else {
      SnippetAfterText(c, code, parse);
    }
  }

  lemma SnippetAfterText(c: string, code: string, parse: DocContent.Parser)
    requires forall k :: 0 <= k < |Text.SplitLines(c)| ==> !DocContent.OpensBlock(Text.SplitLines(c)[k])
    ensures DocContent.Render(c + "\n\n" + code, parse) == DocContent.Render(c, parse) + DocContent.Render(code, parse)
  {
    Text.BlankLineBetween(c, code);
    DocContent.RenderAppend(c, "\n" + code, parse);
    DocContent.BlankThenBody(code, parse);
  }

  // ---------------------------------------------------------------------------
  // Requests

  /** What `handleSaveSection` does: nothing but an error message, a `POST`
      of the draft, or a `PUT` to the draft's id. */
  datatype SaveRequest = Rejected | Post(body: SectionsRoute.SectionBody) | Put(id: int, body: SectionsRoute.SectionBody)

  function SaveAction(d: Draft): (r: SaveRequest)
    ensures r.Rejected? <==> SectionsRoute.Falsy(d.fields.title) || SectionsRoute.Falsy(d.fields.slug)
    ensures r.Post? ==> r.body == d.fields && (d.id.None? || d.id.value == 0)
    ensures r.Put? ==> r.body == d.fields && d.id == Some(r.id) && r.id != 0
  {
    if SectionsRoute.Falsy(d.fields.title) || SectionsRoute.Falsy(d.fields.slug) then Rejected
    else if d.id.None? || d.id.value == 0 then Post(d.fields)
    else Put(d.id.value, d.fields)
  }

  /** The editor rejects exactly what the create endpoint would answer 400 to,
      so a request that is sent never fails for missing fields. */
  lemma SaveMatchesServer(d: Draft, s: Database.Store, env: Database.Env)
    ensures SaveAction(d).Rejected? <==>
              SectionsRoute.Create(s, env, Some(d.fields)).value == SectionsRoute.MissingFields
  {
  }

  /** The Edit button: `setEditingSection(section)` makes the fetched row the
      draft, every column of it included. */
  function EditDraft(x: Database.Section): (d: Draft)
    ensures d.id == Some(x.id) && d.fields.orderIndex == Some(x.orderIndex)
    ensures x.title != "" && x.slug != "" && x.id != 0 ==> SaveAction(d) == Put(x.id, d.fields)
  {
    Draft(Some(x.id), SectionsRoute.SectionBody(
      Some(x.title), Some(x.slug), x.content, x.description,
      Some(x.groupName), Some(x.orderIndex), Some(x.isSubItem), Some(x.isPublished)))
  }

  /** What `updateSection` writes for the `PUT` body of an Edit draft. The body is
      the row's JSON, so every column is present: a `null` content or description
      is written as null, and `order_index` is written too. */
  function EditPatch(fields: SectionsRoute.SectionBody): Database.Patch {
    Database.Patch(fields.title, fields.slug, Some(fields.content), Some(fields.description),
                   fields.groupName, fields.orderIndex, fields.isSubItem, fields.isPublished)
  }

  /** Saving an Edit draft unchanged writes back the row as it was fetched, its
      position included: a move made since the fetch is undone. Only the id,
      the creation time of the stored row and the update time are not taken
      from the draft. */
  lemma SaveEditRestoresFetchedRow(x: Database.Section, s: Database.Store, env: Database.Env)
    ensures var r := Database.UpdateSection(s, env, x.id, EditPatch(EditDraft(x).fields));
            var rows0 := Database.Connect(s, env).table.rows;
            r.store.mode.Live? && r.value.Ok? ==>
              && |r.store.table.rows| == |rows0|
              && forall i :: 0 <= i < |rows0| && rows0[i].id == x.id ==>
                   r.store.table.rows[i] == x.(createdAt := rows0[i].createdAt, updatedAt := env.now)
  {
  }

  /** The `PUT` body of `togglePublish`: only the negated flag. */
  function TogglePatch(section: Database.Section): (p: Database.Patch)
    ensures p.isPublished == Some(!section.isPublished)
    ensures p.(isPublished := None) == Database.EmptyPatch
  {
    Database.EmptyPatch.(isPublished := Some(!section.isPublished))
  }

  /** Toggling flips exactly the flag of that row and stamps it; every other
      field and every other row is unchanged. */
  lemma ToggleFlips(rows: seq<Database.Section>, i: nat, now: Database.Time)
    requires i < |rows|
    requires forall k :: 0 <= k < |rows| && k != i ==> rows[k].id != rows[i].id
    ensures var r := Database.PatchRows(rows, rows[i].id, TogglePatch(rows[i]), now);
            && r[i] == rows[i].(isPublished := !rows[i].isPublished, updatedAt := now)
            && (forall k :: 0 <= k < |rows| && k != i ==> r[k] == rows[k])
  {
  }

  /** Toggling twice (each time from the row as last fetched) restores the
      flag. */
  lemma ToggleTwice(rows: seq<Database.Section>, i: nat, now1: Database.Time, now2: Database.Time)
    requires i < |rows|
    requires forall k :: 0 <= k < |rows| && k != i ==> rows[k].id != rows[i].id
    ensures var r1 := Database.PatchRows(rows, rows[i].id, TogglePatch(rows[i]), now1);
            var r2 := Database.PatchRows(r1, rows[i].id, TogglePatch(r1[i]), now2);
            && r2[i] == rows[i].(updatedAt := now2)
            && (forall k :: 0 <= k < |rows| && k != i ==> r2[k] == rows[k])
  {
    ToggleFlips(rows, i, now1);
    var r1 := Database.PatchRows(rows, rows[i].id, TogglePatch(rows[i]), now1);
    ToggleFlips(r1, i, now2);
  }

  // ---------------------------------------------------------------------------
  // Reordering

  datatype Direction = Up | Down

  /** `findIndex` on ids: the first position with that id, or -1. */
  function FindIndex(sections: seq<Database.Section>, id: nat): (i: int)
    ensures -1 <= i < |sections|
    ensures i >= 0 ==> sections[i].id == id && forall k :: 0 <= k < i ==> sections[k].id != id
    ensures i == -1 ==> forall k :: 0 <= k < |sections| ==> sections[k].id != id
    decreases |sections|
  {
    if |sections| == 0 then -1
    else if sections[0].id == id then 0
    else
      var j := FindIndex(sections[1..], id);
      if j == -1 then -1 else j + 1
  }

  function OrderPatch(order: int): Database.Patch {
    Database.EmptyPatch.(orderIndex := Some(order))
  }

  /** `moveSection`: the two `PUT`s (issued together) that exchange the
      positions of the section and its neighbour, or none when there is no
      neighbour in that direction. A section missing from the list moved
      down targets the first one. */
  function MoveRequests(sections: seq<Database.Section>, section: Database.Section, dir: Direction)
    : (reqs: seq<(nat, Database.Patch)>)
    ensures var i := FindIndex(sections, section.id);
            var j := if dir == Up then i - 1 else i + 1;
            && (reqs == [] <==> j < 0 || j >= |sections|)
            && (reqs != [] ==>
                  reqs == [(section.id, OrderPatch(sections[j].orderIndex)),
                           (sections[j].id, OrderPatch(section.orderIndex))])
  {
    var i := FindIndex(sections, section.id);
    var j := if dir == Up then i - 1 else i + 1;
    if j < 0 || j >= |sections| then []
    else [(section.id, OrderPatch(sections[j].orderIndex)), (sections[j].id, OrderPatch(section.orderIndex))]
  }

  /** The requests applied, in order, to the server's rows. */
  function ApplyAll(rows: seq<Database.Section>, reqs: seq<(nat, Database.Patch)>, now: Database.Time)
    : (r: seq<Database.Section>)
    ensures |r| == |rows|
    ensures forall k :: 0 <= k < |rows| ==> r[k].id == rows[k].id && r[k].createdAt == rows[k].createdAt
    ensures forall k :: 0 <= k < |rows| && (forall q :: 0 <= q < |reqs| ==> reqs[q].0 != rows[k].id) ==> r[k] == rows[k]
    decreases |reqs|
  {
    if |reqs| == 0 then rows
    else ApplyAll(Database.PatchRows(rows, reqs[0].0, reqs[0].1, now), reqs[1..], now)
  }

  predicate DistinctIds(rows: seq<Database.Section>) {
    forall a, b :: 0 <= a < b < |rows| ==> rows[a].id != rows[b].id
  }

  /** Moving the first section up or the last one down sends nothing. */
  lemma EdgeMovesAreNoops(sections: seq<Database.Section>)
    requires |sections| > 0
    ensures MoveRequests(sections, sections[0], Up) == []
    ensures DistinctIds(sections) ==> MoveRequests(sections, sections[|sections| - 1], Down) == []
  {
  }

  /** Any other move exchanges the two neighbours' `order_index`; every other
      field (but the timestamp) and every other row stays as it was. */
  lemma MoveSwapsNeighbours(rows: seq<Database.Section>, i: nat, dir: Direction, now: Database.Time)
    requires DistinctIds(rows)
    requires i < |rows|
    requires var j := if dir == Up then i - 1 else i + 1; 0 <= j < |rows|
    ensures var j := if dir == Up then i - 1 else i + 1;
            var r := ApplyAll(rows, MoveRequests(rows, rows[i], dir), now);
            && r[i] == rows[i].(orderIndex := rows[j].orderIndex, updatedAt := now)
            && r[j] == rows[j].(orderIndex := rows[i].orderIndex, updatedAt := now)
            && (forall k :: 0 <= k < |rows| && k != i && k != j ==> r[k] == rows[k])
  {
    var j := if dir == Up then i - 1 else i + 1;
    assert FindIndex(rows, rows[i].id) == i;
    ApplyTwo(rows, MoveRequests(rows, rows[i], dir), now);
    OrderPatchSets(rows[i], rows[j].orderIndex, now);
    OrderPatchSets(rows[j], rows[i].orderIndex, now);
    var r1 := Database.PatchRows(rows, rows[i].id, OrderPatch(rows[j].orderIndex), now);
    assert r1[j] == rows[j];
  }

  /** Two requests are applied one after the other. */
  lemma ApplyTwo(rows: seq<Database.Section>, reqs: seq<(nat, Database.Patch)>, now: Database.Time)
    requires |reqs| == 2
    ensures var r1 := Database.PatchRows(rows, reqs[0].0, reqs[0].1, now);
            ApplyAll(rows, reqs, now) == Database.PatchRows(r1, reqs[1].0, reqs[1].1, now)
  {
    var r1 := Database.PatchRows(rows, reqs[0].0, reqs[0].1, now);
    var r2 := Database.PatchRows(r1, reqs[1].0, reqs[1].1, now);
    assert ApplyAll(rows, reqs, now) == ApplyAll(r1, reqs[1..], now);
    assert reqs[1..][0] == reqs[1] && reqs[1..][1..] == [];
    assert ApplyAll(r1, reqs[1..], now) == ApplyAll(r2, [], now);
  }

  /** An order patch sets the position and the timestamp, nothing else. */
  lemma OrderPatchSets(row: Database.Section, order: int, now: Database.Time)
    ensures Database.ApplyPatch(row, OrderPatch(order), now) == row.(orderIndex := order, updatedAt := now)
  {
  }

  // ---------------------------------------------------------------------------
  // Overview

  /** The four stat cards. */
  datatype Stats = Stats(total: nat, published: nat, drafts: nat, groups: nat)

  /** Some section is in group `g`. */
  predicate HasGroup(sections: seq<Database.Section>, g: string) {
    exists k :: 0 <= k < |sections| && sections[k].groupName == g
  }

  /** The distinct group names, one per group the sections fall into. */
  function GroupNames(sections: seq<Database.Section>): (names: set<string>)
    ensures forall g :: g in names <==> HasGroup(sections, g)
    ensures |names| <= |sections|
    ensures |sections| > 0 ==> |names| > 0
    decreases |sections|
  {
    if |sections| == 0 then {}
    else
      var rest := GroupNames(sections[1..]);
      HasGroupCons(sections);
      {sections[0].groupName} + rest
  }

  lemma HasGroupCons(sections: seq<Database.Section>)
    requires |sections| > 0
    ensures forall g :: HasGroup(sections, g) <==> g == sections[0].groupName || HasGroup(sections[1..], g)
  {
    forall g | HasGroup(sections[1..], g)
      ensures HasGroup(sections, g)
    {
      var k :| 0 <= k < |sections| - 1 && sections[1..][k].groupName == g;
      assert sections[k + 1].groupName == g;
    }
    forall g | HasGroup(sections, g) && g != sections[0].groupName
      ensures HasGroup(sections[1..], g)
    {
      var k :| 0 <= k < |sections| && sections[k].groupName == g;
      assert sections[1..][k - 1].groupName == g;
    }
  }

  function Overview(sections: seq<Database.Section>): (st: Stats)
    ensures st.total == |sections|
    ensures st.published + st.drafts == st.total
    ensures st.groups <= st.total && (st.groups == 0 <==> st.total == 0)
    ensures st.published == |Seqs.Filter(sections, Database.IsPublished)|
    ensures st.groups == |set k | 0 <= k < |sections| :: sections[k].groupName|
  {
    assert GroupNames(sections) == set k | 0 <= k < |sections| :: sections[k].groupName;
    var published := Seqs.Filter(sections, Database.IsPublished);
    var drafts := Seqs.Filter(sections, (s: Database.Section) => !s.isPublished);
    PublishedPlusDrafts(sections);
    Stats(|sections|, |published|, |drafts|, |GroupNames(sections)|)
  }

  lemma {:induction false} PublishedPlusDrafts(sections: seq<Database.Section>)
    ensures |Seqs.Filter(sections, Database.IsPublished)| +
            |Seqs.Filter(sections, (s: Database.Section) => !s.isPublished)| == |sections|
    decreases |sections|
  {
    if |sections| > 0 {
      PublishedPlusDrafts(sections[1..]);
    }
  }

  // ---------------------------------------------------------------------------
  // Theme colours

  predicate IsHexDigit(c: char) {
    '0' <= c <= '9' || 'a' <= c <= 'f' || 'A' <= c <= 'F'
  }

  /** `/^#[0-9A-Fa-f]{6}$/`. */
  predicate IsHexColor(s: string) {
    |s| == 7 && s[0] == '#' && forall i :: 1 <= i < 7 ==> IsHexDigit(s[i])
  }

  /** A colour field's `onChange`: the theme takes the typed text only when it
      is a hex colour, so a valid theme colour stays valid. */
  function ApplyColor(current: string, typed: string): (r: string)
    ensures IsHexColor(typed) ==> r == typed
    ensures !IsHexColor(typed) ==> r == current
    ensures IsHexColor(current) ==> IsHexColor(r)
  {
    if IsHexColor(typed) then typed else current
  }

  /** The check does not care about letter case. */
  lemma HexColorIgnoresCase(s: string)
    ensures IsHexColor(s) <==> IsHexColor(Text.ToLower(s))
  {
    if IsHexColor(Text.ToLower(s)) {
      forall i | 1 <= i < 7
        ensures IsHexDigit(s[i])
      {
        assert IsHexDigit(Text.ToLower(s)[i]);
      }
    }
  }

  lemma DefaultColorsValid()
    ensures IsHexColor("#7F00FF") && IsHexColor("#000000") && IsHexColor("#0a0a0a")
    ensures IsHexColor("#212121") && IsHexColor("#ef4444") && IsHexColor("#171717")
    ensures !IsHexColor("#7F00F") && !IsHexColor("7F00FF0") && !IsHexColor("#7G00FF")
  {
    assert "#7G00FF"[2] == 'G';
  }
}
