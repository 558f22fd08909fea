/** The sidebar navigation, built the same way by `fetchDocs` (app/page.tsx) and
    `getNavigation` (lib/content.ts): items grouped by group name in order of
    appearance, then the groups ordered General, Guides, API, Examples, and the
    remaining groups alphabetically after them. */
module Navigation {
  import opened Wrappers
  import Text
  import Seqs
  import JsObject

  datatype NavItem = NavItem(id: string, labelText: string, isSubItem: bool)

  datatype NavGroup = NavGroup(title: string, items: seq<NavItem>)

  /** One document's contribution: its group name and its item. */
  datatype Entry = Entry(group: string, item: NavItem)

  // ---------------------------------------------------------------------------
  // Reference: what each group should hold

  /** The items of the entries of group `g`, in entry order. */
  function ItemsOf(es: seq<Entry>, g: string): (items: seq<NavItem>)
    ensures |items| <= |es|
    decreases |es|
  {
    if |es| == 0 then []
    else
      var last := es[|es| - 1];
      ItemsOf(es[..|es| - 1], g) + (if last.group == g then [last.item] else [])
  }

  predicate Mentions(es: seq<Entry>, g: string) {
    exists i :: 0 <= i < |es| && es[i].group == g
  }

  predicate HasGroup(gs: seq<NavGroup>, g: string) {
    exists k :: 0 <= k < |gs| && gs[k].title == g
  }

  predicate DistinctTitles(gs: seq<NavGroup>) {
    forall i, j :: 0 <= i < j < |gs| ==> gs[i].title != gs[j].title
  }

  /** `gs` is the grouping of `es`: one group per group name mentioned, each
      holding exactly the items of its entries, in order. */
  ghost predicate Represents(gs: seq<NavGroup>, es: seq<Entry>) {
    && DistinctTitles(gs)
    && (forall g :: HasGroup(gs, g) <==> Mentions(es, g))
    && (forall k :: 0 <= k < |gs| ==> gs[k].items == ItemsOf(es, gs[k].title))
  }

  // ---------------------------------------------------------------------------
  // Grouping

  /** The position of the group titled `g`. */
  function TitleIndex(gs: seq<NavGroup>, g: string): (r: Option<nat>)
    ensures r.Some? ==> r.value < |gs| && gs[r.value].title == g
    ensures r.None? <==> !HasGroup(gs, g)
    decreases |gs|
  {
    if |gs| == 0 then None
    else if gs[|gs| - 1].title == g then Some(|gs| - 1)
    else
      var r := TitleIndex(gs[..|gs| - 1], g);
      assert forall k :: 0 <= k < |gs| - 1 ==> gs[..|gs| - 1][k] == gs[k];
      r
  }

  /** One turn of the loop: push onto the entry's group, creating it first when
      it does not exist. */
  function AddEntry(gs: seq<NavGroup>, e: Entry): seq<NavGroup> {
    match TitleIndex(gs, e.group)
    case Some(k) => gs[k := NavGroup(gs[k].title, gs[k].items + [e.item])]
    case None => gs + [NavGroup(e.group, [e.item])]
  }

  /** The grouping, with own keys only (what the loop intends): one group per
      group name mentioned, in order of first appearance, each holding exactly
      its entries' items in order, so every document appears once, under its
      own group. */
  function Group(es: seq<Entry>): (gs: seq<NavGroup>)
    ensures Represents(gs, es)
    decreases |es|
  {
    if |es| == 0 then []
    else
      var init := es[..|es| - 1];
      AddEntryRepresents(Group(init), init, es[|es| - 1]);
      assert init + [es[|es| - 1]] == es;
      AddEntry(Group(init), es[|es| - 1])
  }

  lemma ItemsOfSnoc(es: seq<Entry>, e: Entry, g: string)
    ensures ItemsOf(es + [e], g) == ItemsOf(es, g) + (if e.group == g then [e.item] else [])
  {
    assert (es + [e])[..|es|] == es;
  }

  lemma {:induction false} ItemsOfUnmentioned(es: seq<Entry>, g: string)
    requires !Mentions(es, g)
    ensures ItemsOf(es, g) == []
    decreases |es|
  {
    if |es| > 0 {
      var init := es[..|es| - 1];
      assert !Mentions(init, g) by {
        forall i | 0 <= i < |init|
          ensures init[i].group != g
        {
          assert init[i] == es[i];
        }
      }
      ItemsOfUnmentioned(init, g);
    }
  }

  lemma MentionsSnoc(es: seq<Entry>, e: Entry)
    ensures forall g :: Mentions(es + [e], g) <==> Mentions(es, g) || e.group == g
  {
    var es' := es + [e];
    forall g
      ensures Mentions(es', g) <==> Mentions(es, g) || e.group == g
    {
      if Mentions(es, g) {
        var i :| 0 <= i < |es| && es[i].group == g;
        assert es'[i] == es[i];
      }
      if Mentions(es', g) {
        var i :| 0 <= i < |es'| && es'[i].group == g;
        if i < |es| {
          assert es'[i] == es[i];
        }
      }
      if e.group == g {
        assert es'[|es|] == e;
      }
    }
  }

  lemma AddEntryRepresents(gs: seq<NavGroup>, es: seq<Entry>, e: Entry)
    requires Represents(gs, es)
    ensures Represents(AddEntry(gs, e), es + [e])
  {
    forall g
      ensures ItemsOf(es + [e], g) == ItemsOf(es, g) + (if e.group == g then [e.item] else [])
    {
      ItemsOfSnoc(es, e, g);
    }
    MentionsSnoc(es, e);
    match TitleIndex(gs, e.group)
    case Some(k) => AddToExisting(gs, es, e, k);
    case None => AddNew(gs, es, e);
  }

  lemma AddToExisting(gs: seq<NavGroup>, es: seq<Entry>, e: Entry, k: nat)
    requires Represents(gs, es)
    requires k < |gs| && gs[k].title == e.group
    requires forall g :: ItemsOf(es + [e], g) == ItemsOf(es, g) + (if e.group == g then [e.item] else [])
    requires forall g :: Mentions(es + [e], g) <==> Mentions(es, g) || e.group == g
    ensures Represents(gs[k := NavGroup(gs[k].title, gs[k].items + [e.item])], es + [e])
  {
    var gs' := gs[k := NavGroup(gs[k].title, gs[k].items + [e.item])];
    assert forall j :: 0 <= j < |gs| ==> gs'[j].title == gs[j].title;
    forall g
      ensures HasGroup(gs', g) <==> HasGroup(gs, g)
    {
      if HasGroup(gs, g) {
        var j :| 0 <= j < |gs| && gs[j].title == g;
        assert gs'[j].title == g;
      }
    }
  }

  lemma AddNew(gs: seq<NavGroup>, es: seq<Entry>, e: Entry)
    requires Represents(gs, es)
    requires !HasGroup(gs, e.group)
    requires forall g :: ItemsOf(es + [e], g) == ItemsOf(es, g) + (if e.group == g then [e.item] else [])
    requires forall g :: Mentions(es + [e], g) <==> Mentions(es, g) || e.group == g
    ensures Represents(gs + [NavGroup(e.group, [e.item])], es + [e])
  {
    var gs' := gs + [NavGroup(e.group, [e.item])];
    ItemsOfUnmentioned(es, e.group);
    forall g
      ensures HasGroup(gs', g) <==> HasGroup(gs, g) || e.group == g
    {
      if HasGroup(gs, g) {
        var j :| 0 <= j < |gs| && gs[j].title == g;
        assert gs'[j].title == g;
      }
      if HasGroup(gs', g) {
        var j :| 0 <= j < |gs'| && gs'[j].title == g;
        if j < |gs| {
          assert gs[j].title == g;
        }
      }
      assert gs'[|gs|].title == e.group;
    }
  }

  // ---------------------------------------------------------------------------
  // Grouping as written: a plain object, which inherits Object.prototype

  /** The error `groups[g].push(...)` raises when `g` names an inherited member
      (a function, or the prototype object itself), which is truthy and so never
      replaced by a fresh array. */
  const PushTypeError := "TypeError: groups[group].push is not a function"

  function Titles(gs: seq<NavGroup>): set<string> {
    set k | 0 <= k < |gs| :: gs[k].title
  }

  function AddEntryAsWritten(gs: seq<NavGroup>, e: Entry): (r: Result<seq<NavGroup>, string>)
    ensures r.Err? <==> e.group !in Titles(gs) && e.group in JsObject.PrototypeKeys
  {
    if e.group !in Titles(gs) && e.group in JsObject.PrototypeKeys then Err(PushTypeError)
    else Ok(AddEntry(gs, e))
  }

  function GroupAsWritten(es: seq<Entry>): Result<seq<NavGroup>, string>
    decreases |es|
  {
    if |es| == 0 then Ok([])
    else
      match GroupAsWritten(es[..|es| - 1])
      case Err(msg) => Err(msg)
      case Ok(gs) => AddEntryAsWritten(gs, es[|es| - 1])
  }

  predicate UsesPrototypeKey(es: seq<Entry>) {
    exists i :: 0 <= i < |es| && es[i].group in JsObject.PrototypeKeys
  }

  /** The loop as written throws exactly when some group name is an inherited
      member's name, and otherwise builds the intended grouping. */
  lemma {:induction false} GroupAsWrittenIff(es: seq<Entry>)
    ensures GroupAsWritten(es).Err? <==> UsesPrototypeKey(es)
    ensures GroupAsWritten(es).Ok? ==> GroupAsWritten(es).value == Group(es)
    decreases |es|
  {
    if |es| > 0 {
      var init := es[..|es| - 1];
      GroupAsWrittenIff(init);
      UsesPrototypeKeySnoc(es);
      if !UsesPrototypeKey(init) {
        TitlesMentioned(init);
      }
    }
  }

  lemma UsesPrototypeKeySnoc(es: seq<Entry>)
    requires |es| > 0
    ensures UsesPrototypeKey(es) <==>
              UsesPrototypeKey(es[..|es| - 1]) || es[|es| - 1].group in JsObject.PrototypeKeys
  {
    var init := es[..|es| - 1];
    assert forall i :: 0 <= i < |init| ==> init[i] == es[i];
    if UsesPrototypeKey(init) {
      var i :| 0 <= i < |init| && init[i].group in JsObject.PrototypeKeys;
      assert es[i] == init[i];
    }
  }

  /** Every group of the grouping is named by some entry. */
  lemma TitlesMentioned(es: seq<Entry>)
    ensures forall g :: g in Titles(Group(es)) ==> Mentions(es, g)
  {
    var gs := Group(es);
    forall g | g in Titles(gs)
      ensures Mentions(es, g)
    {
      var k :| 0 <= k < |gs| && gs[k].title == g;
      assert HasGroup(gs, g);
    }
  }

  /** A single section in group `constructor` leaves the page without any
      navigation. */
  lemma ConstructorGroupThrows(item: NavItem)
    ensures GroupAsWritten([Entry("constructor", item)]).Err?
  {
    assert [Entry("constructor", item)][..0] == [];
  }

  // ---------------------------------------------------------------------------
  // Ordering the groups

  const KnownGroups: seq<string> := ["General", "Guides", "API", "Examples"]

  /** `groupOrder.indexOf(title)`, with `None` for -1. */
  function Rank(title: string): (r: Option<nat>)
    ensures r.Some? ==> r.value < |KnownGroups| && KnownGroups[r.value] == title
    ensures r.None? <==> title !in KnownGroups
  {
    if title == "General" then Some(0)
    else if title == "Guides" then Some(1)
    else if title == "API" then Some(2)
    else if title == "Examples" then Some(3)
    else None
  }

  /** The comparator answers at most zero: known groups by their fixed rank,
      before every other group, which follow in string order. */
  predicate GroupLe(a: NavGroup, b: NavGroup) {
    match (Rank(a.title), Rank(b.title))
    case (None, None) => Text.StrLe(a.title, b.title)
    case (None, Some(_)) => false
    case (Some(_), None) => true
    case (Some(i), Some(j)) => i <= j
  }

  lemma GroupLeTotal()
    ensures Seqs.Total(GroupLe)
  {
    forall a: NavGroup, b: NavGroup
      ensures GroupLe(a, b) || GroupLe(b, a)
    {
      Text.StrLeTotal(a.title, b.title);
    }
  }

  lemma GroupLeTransitive()
    ensures Seqs.Transitive(GroupLe)
  {
    forall a: NavGroup, b: NavGroup, c: NavGroup | GroupLe(a, b) && GroupLe(b, c)
      ensures GroupLe(a, c)
    {
      if Rank(a.title).None? {
        Text.StrLeTransitive(a.title, b.title, c.title);
      }
    }
  }

  /** Two groups the comparator ties are groups of the same title. */
  lemma GroupLeAntisymmetric(a: NavGroup, b: NavGroup)
    requires GroupLe(a, b) && GroupLe(b, a)
    ensures a.title == b.title
  {
    if Rank(a.title).None? {
      Text.StrLeAntisymmetric(a.title, b.title);
    }
  }

  /** The navigation: the grouping, its groups sorted. Sorting keeps it exact:
      one group per group name mentioned, each with exactly its entries' items
      in entry order. */
  function Navigation(es: seq<Entry>): (nav: seq<NavGroup>)
    ensures Represents(nav, es)
    ensures multiset(nav) == multiset(Group(es))
    ensures Seqs.Sorted(nav, GroupLe)
  {
    var gs := Group(es);
    var nav := Seqs.Sort(gs, GroupLe);
    GroupLeTotal();
    GroupLeTransitive();
    Seqs.SortSorted(gs, GroupLe);
    DistinctTitlesByKey(gs);
    Seqs.SortKeepsDistinct(gs, GroupLe, (g: NavGroup) => g.title);
    DistinctTitlesByKey(nav);
    PermutedRepresents(gs, nav, es);
    nav
  }

  /** The sorted navigation is a rearrangement of the grouping; the known groups
      come first, by rank, and the rest follow in string order. */
  lemma NavigationOrdered(es: seq<Entry>)
    ensures multiset(Navigation(es)) == multiset(Group(es))
    ensures Seqs.Sorted(Navigation(es), GroupLe)
    ensures var nav := Navigation(es);
            forall i, j :: 0 <= i < j < |nav| && Rank(nav[j].title).Some? ==>
              Rank(nav[i].title).Some? && Rank(nav[i].title).value <= Rank(nav[j].title).value
    ensures var nav := Navigation(es);
            forall i, j :: 0 <= i < j < |nav| && Rank(nav[i].title).None? && Rank(nav[j].title).None? ==>
              Text.StrLe(nav[i].title, nav[j].title)
  {
    GroupLeTotal();
    GroupLeTransitive();
    Seqs.SortSorted(Group(es), GroupLe);
    var nav := Navigation(es);
    assert forall i, j :: 0 <= i < j < |nav| ==> GroupLe(nav[i], nav[j]);
  }

  /** Any rearrangement of a grouping with distinct titles is still a grouping. */
  lemma PermutedRepresents(gs: seq<NavGroup>, nav: seq<NavGroup>, es: seq<Entry>)
    requires Represents(gs, es)
    requires multiset(nav) == multiset(gs)
    requires DistinctTitles(nav)
    ensures Represents(nav, es)
  {
    forall g
      ensures HasGroup(nav, g) <==> HasGroup(gs, g)
    {
      if HasGroup(nav, g) {
        var k :| 0 <= k < |nav| && nav[k].title == g;
        assert nav[k] in multiset(gs);
      }
      if HasGroup(gs, g) {
        var k :| 0 <= k < |gs| && gs[k].title == g;
        assert gs[k] in multiset(nav);
      }
    }
    forall k | 0 <= k < |nav|
      ensures nav[k].items == ItemsOf(es, nav[k].title)
    {
      assert nav[k] in multiset(gs);
    }
  }

  lemma DistinctTitlesByKey(gs: seq<NavGroup>)
    ensures DistinctTitles(gs) <==> Seqs.DistinctBy(gs, (g: NavGroup) => g.title)
  {
  }

  /** The order in which the groups were first met (and so the order in which
      `Object.entries` lists them, integer-like names included) does not matter:
      any arrangement of the same distinctly titled groups sorts the same. */
  lemma {:induction false} SortIgnoresEntryOrder(a: seq<NavGroup>, b: seq<NavGroup>)
    requires multiset(a) == multiset(b)
    requires DistinctTitles(a)
    ensures Seqs.Sort(a, GroupLe) == Seqs.Sort(b, GroupLe)
  {
    GroupLeTotal();
    GroupLeTransitive();
    var sa := Seqs.Sort(a, GroupLe);
    var sb := Seqs.Sort(b, GroupLe);
    Seqs.SortSorted(a, GroupLe);
    Seqs.SortSorted(b, GroupLe);
    forall x, y | x in sa && y in sa && GroupLe(x, y) && GroupLe(y, x)
      ensures x == y
    {
      GroupLeAntisymmetric(x, y);
      assert x in multiset(a) && y in multiset(a);
      var i :| 0 <= i < |a| && a[i] == x;
      var j :| 0 <= j < |a| && a[j] == y;
      assert i == j;
    }
    Seqs.SortedUnique(sa, sb, GroupLe);
  }

  /** The navigation as written: `None` when the grouping throws. */
  function NavigationAsWritten(es: seq<Entry>): Result<seq<NavGroup>, string> {
    match GroupAsWritten(es)
    case Ok(gs) => Ok(Seqs.Sort(gs, GroupLe))
    case Err(msg) => Err(msg)
  }
}
