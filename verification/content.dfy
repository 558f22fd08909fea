/** The file-based docs source (lib/content.ts): `.mdx` files with front matter,
    read into sections with defaults, sorted by `order`. Reading the directory and
    parsing front matter are not modelled: each file arrives as its name, its
    front-matter fields and its body. */
module Content {
  import opened Wrappers
  import Text
  import Seqs
  import Navigation

  /** The front-matter fields the loader reads; `None` is an absent field. */
  datatype FrontMatter = FrontMatter(
    slug: Option<string>,
    title: Option<string>,
    order: Option<int>,
    group: Option<string>,
    isSubItem: Option<bool>)

  datatype SourceFile = SourceFile(name: string, data: FrontMatter, body: string)

  datatype DocSection = DocSection(
    slug: string, title: string, order: int, group: string, isSubItem: bool, content: string)

  const Extension := ".mdx"

  /** `file.endsWith(".mdx")`. */
  predicate IsMdx(name: string) {
    |name| >= |Extension| && name[|name| - |Extension|..] == Extension
  }

  /** One file as a section, with `||` defaults: a missing or empty slug is the
      file name without its first `.mdx`, a missing or zero order is 99. */
  function ToDoc(f: SourceFile): (d: DocSection)
    ensures d.title != "" && d.group != "" && d.order != 0
    ensures f.data.slug.Some? && f.data.slug.value != "" ==> d.slug == f.data.slug.value
    ensures f.data.title.Some? && f.data.title.value != "" ==> d.title == f.data.title.value
    ensures f.data.group.Some? && f.data.group.value != "" ==> d.group == f.data.group.value
    ensures f.data.order.Some? && f.data.order.value != 0 ==> d.order == f.data.order.value
    ensures (f.data.slug.None? || f.data.slug.value == "") ==> d.slug == Text.ReplaceFirst(f.name, Extension, "")
    ensures (f.data.title.None? || f.data.title.value == "") ==> d.title == "Untitled"
    ensures (f.data.group.None? || f.data.group.value == "") ==> d.group == "General"
    ensures (f.data.order.None? || f.data.order.value == 0) ==> d.order == 99
    ensures d.isSubItem <==> f.data.isSubItem == Some(true)
    ensures d.content == f.body
  {
    DocSection(
      Text.OrDefault(f.data.slug, Text.ReplaceFirst(f.name, Extension, "")),
      Text.OrDefault(f.data.title, "Untitled"),
      match f.data.order case Some(o) => (if o != 0 then o else 99) case None => 99,
      Text.OrDefault(f.data.group, "General"),
      f.data.isSubItem == Some(true),
      f.body)
  }

  /** A file with no slug in its front matter is addressed by its name without
      the extension. */
  lemma {:induction false} DefaultSlugIsStem(stem: string)
    requires '.' !in stem
    ensures Text.ReplaceFirst(stem + Extension, Extension, "") == stem
    decreases |stem|
  {
    if |stem| > 0 {
      var s := stem + Extension;
      assert s[0] == stem[0] && s[1..] == stem[1..] + Extension;
      assert !Text.StartsWith(s, Extension) by {
        assert s[..4][0] == stem[0] != '.';
      }
      DefaultSlugIsStem(stem[1..]);
    } else {
      assert "" + Extension == Extension;
      assert Extension[|Extension|..] == "";
    }
  }

  predicate ByOrder(a: DocSection, b: DocSection) {
    a.order <= b.order
  }

  lemma ByOrderIsPreorder()
    ensures Seqs.Total(ByOrder) && Seqs.Transitive(ByOrder)
  {
  }

  /** `getAllDocs`; `files` is `None` when the content directory does not exist. */
  function AllDocs(files: Option<seq<SourceFile>>): (docs: seq<DocSection>)
    ensures files.None? ==> docs == []
    ensures files.Some? ==>
              multiset(docs) == multiset(Seqs.Map(Seqs.Filter(files.value, (f: SourceFile) => IsMdx(f.name)), ToDoc))
    ensures Seqs.Sorted(docs, ByOrder)
  {
    match files
    case None => []
    case Some(fs) =>
      var loaded := Seqs.Map(Seqs.Filter(fs, (f: SourceFile) => IsMdx(f.name)), ToDoc);
      ByOrderIsPreorder();
      Seqs.SortSorted(loaded, ByOrder);
      Seqs.Sort(loaded, ByOrder)
  }

  /** The docs are the `.mdx` files' sections, ascending by order, and files of
      equal order keep their directory order. */
  lemma AllDocsSorted(fs: seq<SourceFile>, o: int)
    ensures var docs := AllDocs(Some(fs));
            var loaded := Seqs.Map(Seqs.Filter(fs, (f: SourceFile) => IsMdx(f.name)), ToDoc);
            && Seqs.Sorted(docs, ByOrder)
            && multiset(docs) == multiset(loaded)
            && Seqs.Filter(docs, (d: DocSection) => d.order == o) == Seqs.Filter(loaded, (d: DocSection) => d.order == o)
  {
    var loaded := Seqs.Map(Seqs.Filter(fs, (f: SourceFile) => IsMdx(f.name)), ToDoc);
    ByOrderIsPreorder();
    Seqs.SortSorted(loaded, ByOrder);
    Seqs.SortStable(loaded, ByOrder, (d: DocSection) => d.order == o);
  }

  /** Every loaded section comes from an `.mdx` file. */
  lemma AllDocsFromMdx(fs: seq<SourceFile>)
    ensures forall d :: d in AllDocs(Some(fs)) <==> exists f :: f in fs && IsMdx(f.name) && d == ToDoc(f)
  {
    var mdx := Seqs.Filter(fs, (f: SourceFile) => IsMdx(f.name));
    var loaded := Seqs.Map(mdx, ToDoc);
    var docs := AllDocs(Some(fs));
    assert multiset(docs) == multiset(loaded);
    assert forall d :: d in docs <==> d in multiset(loaded);
    Seqs.MapMembers(mdx, ToDoc);
  }

  /** `getDocBySlug`: the first doc (in sorted order) with that slug. */
  function DocBySlug(files: Option<seq<SourceFile>>, slug: string): (r: Option<DocSection>)
    ensures r.Some? <==> exists k :: 0 <= k < |AllDocs(files)| && AllDocs(files)[k].slug == slug
    ensures r.Some? ==> r.value.slug == slug && r.value in AllDocs(files)
    ensures r.Some? ==>
              exists k :: (0 <= k < |AllDocs(files)| && AllDocs(files)[k] == r.value &&
                           forall m :: 0 <= m < k ==> AllDocs(files)[m].slug != slug)
  {
    var docs := AllDocs(files);
    var bySlug := (d: DocSection) => d.slug == slug;
    var r := Seqs.Find(docs, bySlug);
    assert r.Some? ==> docs[Seqs.FirstIndex(docs, bySlug).value] == r.value;
    r
  }

  /** The navigation entry of a doc. */
  function EntryOf(d: DocSection): Navigation.Entry {
    Navigation.Entry(d.group, Navigation.NavItem(d.slug, d.title, d.isSubItem))
  }

  function Entries(docs: seq<DocSection>): (es: seq<Navigation.Entry>)
    ensures |es| == |docs|
    ensures forall k :: 0 <= k < |docs| ==> es[k] == EntryOf(docs[k])
  {
    seq(|docs|, k requires 0 <= k < |docs| => EntryOf(docs[k]))
  }

  /** `getNavigation` as written: it throws for a group named after an inherited
      object member. */
  function NavigationAsWritten(files: Option<seq<SourceFile>>): Result<seq<Navigation.NavGroup>, string> {
    Navigation.NavigationAsWritten(Entries(AllDocs(files)))
  }

  /** `getNavigation` as intended. */
  function GetNavigation(files: Option<seq<SourceFile>>): (nav: seq<Navigation.NavGroup>)
    ensures files.None? ==> nav == []
    ensures Navigation.Represents(nav, Entries(AllDocs(files)))
    ensures Seqs.Sorted(nav, Navigation.GroupLe)
  {
    Navigation.Navigation(Entries(AllDocs(files)))
  }

  /** Without inherited-member group names the loader's navigation is the
      intended one. */
  lemma NavigationAgrees(files: Option<seq<SourceFile>>)
    requires !Navigation.UsesPrototypeKey(Entries(AllDocs(files)))
    ensures NavigationAsWritten(files) == Ok(GetNavigation(files))
  {
    Navigation.GroupAsWrittenIff(Entries(AllDocs(files)));
  }

  /** `getSectionIds`: the slugs of the sorted docs. */
  function SectionIds(files: Option<seq<SourceFile>>): (ids: seq<string>)
    ensures |ids| == |AllDocs(files)|
    ensures forall k :: 0 <= k < |ids| ==> ids[k] == AllDocs(files)[k].slug
  {
    var docs := AllDocs(files);
    seq(|docs|, k requires 0 <= k < |docs| => docs[k].slug)
  }
}
