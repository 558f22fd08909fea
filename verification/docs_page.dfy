/** The public docs page (app/page.tsx): what `fetchDocs` puts in the page state
    and what each section shows. Fetching, scrolling and the sidebar's own
    rendering are not modelled. */
module DocsPage {
  import opened Wrappers
  import Text
  import Database
  import Navigation
  import DocContent
  import ComponentParse

  /** The answer of `/api/docs` as the page sees it: the request failed, or a
      JSON body whose `sections` may be missing. */
  datatype Fetched = FetchFailed | Body(sections: Option<seq<Database.Section>>)

  datatype PageState = PageState(
    sections: seq<Database.Section>,
    sectionIds: seq<string>,
    navigation: seq<Navigation.NavGroup>,
    activeSection: string,
    loading: bool)

  const Initial := PageState([], [], [], "", true)

  /** A section's sidebar entry; `Boolean(doc.is_sub_item)`. */
  function EntryOf(s: Database.Section): Navigation.Entry {
    Navigation.Entry(s.groupName, Navigation.NavItem(s.slug, s.title, s.isSubItem))
  }

  function Entries(docs: seq<Database.Section>): (es: seq<Navigation.Entry>)
    ensures |es| == |docs|
    ensures forall k :: 0 <= k < |docs| ==> es[k] == EntryOf(docs[k])
  {
    seq(|docs|, k requires 0 <= k < |docs| => EntryOf(docs[k]))
  }

  /** The state after `fetchDocs`. Sections and their ids are set before the
      navigation is built, so when grouping throws they stay while the sidebar
      stays empty and no section becomes active. */
  function FetchDocs(f: Fetched): (st: PageState)
    ensures !st.loading
    ensures f.FetchFailed? ==> st == Initial.(loading := false)
    ensures f.Body? ==>
              var docs := f.sections.GetOr([]);
              && st.sections == docs
              && |st.sectionIds| == |docs|
              && (forall k :: 0 <= k < |docs| ==> st.sectionIds[k] == docs[k].slug)
              && (Navigation.UsesPrototypeKey(Entries(docs)) ==>
                    st.navigation == [] && st.activeSection == "")
              && (!Navigation.UsesPrototypeKey(Entries(docs)) ==>
                    && st.navigation == Navigation.Navigation(Entries(docs))
                    && st.activeSection == (if |docs| > 0 then docs[0].slug else ""))
  {
    match f
    case FetchFailed => Initial.(loading := false)
    case Body(sections) =>
      var docs := sections.GetOr([]);
      var ids := seq(|docs|, k requires 0 <= k < |docs| => docs[k].slug);
      Navigation.GroupAsWrittenIff(Entries(docs));
      match Navigation.NavigationAsWritten(Entries(docs))
      case Err(_) => PageState(docs, ids, [], "", false)
      case Ok(nav) => PageState(docs, ids, nav, if |docs| > 0 then docs[0].slug else "", false)
  }

  /** Every published section is in the sidebar exactly once, under its group,
      in the order the sections arrived. */
  lemma SidebarListsEverySection(docs: seq<Database.Section>)
    requires !Navigation.UsesPrototypeKey(Entries(docs))
    ensures Navigation.Represents(FetchDocs(Body(Some(docs))).navigation, Entries(docs))
  {
    Navigation.GroupAsWrittenIff(Entries(docs));
  }

  // ---------------------------------------------------------------------------
  // Section bodies

  /** `section.content || "# " + title + "\n\n" + (description || "")`. */
  function DisplayContent(s: Database.Section): (text: string)
    ensures s.content.Some? && s.content.value != "" ==> text == s.content.value
  {
    Text.OrDefault(s.content, "# " + s.title + "\n\n" + Text.OrDefault(s.description, ""))
  }

  /** The component reader the page uses. */
  function PageParser(lits: ComponentParse.Literals): DocContent.Parser {
    (str: string) => ComponentParse.Parse(str, lits)
  }

  datatype SectionView = SectionView(id: string, blocks: seq<DocContent.Block>)

  /** One `<section id={slug}>` per section, in order, each rendering its
      display content. */
  function RenderSections(sections: seq<Database.Section>, lits: ComponentParse.Literals): (views: seq<SectionView>)
    ensures |views| == |sections|
    ensures forall k :: 0 <= k < |sections| ==>
              views[k].id == sections[k].slug &&
              views[k].blocks == DocContent.Render(DisplayContent(sections[k]), PageParser(lits))
  {
    seq(|sections|, k requires 0 <= k < |sections| =>
      SectionView(sections[k].slug, DocContent.Render(DisplayContent(sections[k]), PageParser(lits))))
  }

  /** A section without content opens with its title as a level-1 heading,
      followed by its description's blocks. */
  lemma EmptyContentShowsTitle(s: Database.Section, lits: ComponentParse.Literals)
    requires s.content.None? || s.content.value == ""
    requires '\n' !in s.title
    ensures DocContent.Render(DisplayContent(s), PageParser(lits)) ==
              [DocContent.Heading(1, s.title)] + DocContent.Render(Text.OrDefault(s.description, ""), PageParser(lits))
  {
    DocContent.HeadingThenBody(s.title, Text.OrDefault(s.description, ""), PageParser(lits));
  }
}
