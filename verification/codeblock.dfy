/** The view decisions of the `CodeBlock` component
    (components/docs/CodeBlock.tsx): which tabs exist, which one is shown, whether
    the titled single-panel layout is used, what the copy button copies and which
    language icon a tab gets. */
module CodeBlock {
  import opened Wrappers
  import opened Text
  import Seqs
  import JsObject

  /** A tab; `tabLabel` is the `label` field. */
  datatype CodeTab = CodeTab(id: string, tabLabel: string, language: string, code: string)

  /** The props; `title` and `dropdownTabs` may be omitted. */
  datatype Props = Props(tabs: seq<CodeTab>, title: Option<string>, dropdownTabs: Option<seq<CodeTab>>)

  /** `[...tabs, ...dropdownTabs]`, with `dropdownTabs` defaulting to `[]`. */
  function AllTabs(p: Props): (all: seq<CodeTab>)
    ensures |all| == |p.tabs| + |p.dropdownTabs.GetOr([])|
    ensures forall k :: 0 <= k < |p.tabs| ==> all[k] == p.tabs[k]
    ensures forall k :: 0 <= k < |p.dropdownTabs.GetOr([])| ==> all[|p.tabs| + k] == p.dropdownTabs.GetOr([])[k]
  {
    p.tabs + p.dropdownTabs.GetOr([])
  }

  /** Leaving `dropdownTabs` out is the same as passing no dropdown tabs. */
  lemma MissingDropdownIsEmpty(p: Props)
    ensures AllTabs(p.(dropdownTabs := None)) == AllTabs(p.(dropdownTabs := Some([]))) == p.tabs
  {
  }

  /** `allTabs[0]?.id`: the initial active id; `None` is `undefined`. */
  function InitialActive(all: seq<CodeTab>): (active: Option<string>)
    ensures active.Some? <==> |all| > 0
    ensures active.Some? ==> active.value == all[0].id
  {
    if |all| == 0 then None else Some(all[0].id)
  }

  /** `allTabs.find((t) => t.id === activeTab)`. */
  function ActiveContent(all: seq<CodeTab>, active: Option<string>): (r: Option<CodeTab>)
    ensures r.Some? <==> active.Some? && exists k :: 0 <= k < |all| && all[k].id == active.value
    ensures r.Some? ==> exists k :: 0 <= k < |all| && r.value == all[k] && all[k].id == active.value &&
                          forall j :: 0 <= j < k ==> all[j].id != active.value
  {
    match active
    case None => None
    case Some(id) =>
      var found := Seqs.FirstIndex(all, (t: CodeTab) => t.id == id);
      match found
      case None => None
      case Some(k) => Some(all[k])
  }

  /** Before any click the first tab is shown; with no tabs nothing is. */
  lemma InitiallyFirst(all: seq<CodeTab>)
    ensures ActiveContent(all, InitialActive(all)) == if |all| == 0 then None else Some(all[0])
  {
    if |all| > 0 {
      var r := ActiveContent(all, InitialActive(all));
      var k :| 0 <= k < |all| && r.value == all[k] && all[k].id == all[0].id &&
               forall j :: 0 <= j < k ==> all[j].id != all[0].id;
      assert k == 0;
    }
  }

  /** Clicking a tab (`setActiveTab(tab.id)`) shows the first tab carrying that
      id: the tab itself unless an earlier tab has the same id. */
  lemma SelectShows(all: seq<CodeTab>, k: nat)
    requires k < |all|
    ensures var r := ActiveContent(all, Some(all[k].id));
            && r.Some? && r.value.id == all[k].id
            && ((forall j :: 0 <= j < k ==> all[j].id != all[k].id) ==> r.value == all[k])
  {
    var r := ActiveContent(all, Some(all[k].id));
    var m :| 0 <= m < |all| && r.value == all[m] && all[m].id == all[k].id &&
             forall j :: 0 <= j < m ==> all[j].id != all[k].id;
    assert m <= k;
  }

  /** The two layouts. */
  datatype Layout = TitledSingle | MultiTab

  /** `title && allTabs.length === 1`. */
  function LayoutOf(p: Props): (l: Layout)
    ensures l == TitledSingle <==> p.title.Some? && p.title.value != "" && |AllTabs(p)| == 1
  {
    if p.title.Some? && p.title.value != "" && |AllTabs(p)| == 1 then TitledSingle else MultiTab
  }

  /** The copy button: the active tab's code, or nothing when no tab is active. */
  function CopyText(active: Option<CodeTab>): (r: Option<string>)
    ensures r.Some? <==> active.Some?
    ensures r.Some? ==> r.value == active.value.code
  {
    match active
    case Some(t) => Some(t.code)
    case None => None
  }

  // ---------------------------------------------------------------------------
  // Language icons

  const LanguageIcons: map<string, string> := map[
    "python" := "https://cdn.simpleicons.org/python",
    "javascript" := "https://cdn.simpleicons.org/javascript",
    "typescript" := "https://cdn.simpleicons.org/typescript",
    "bash" := "https://cdn.simpleicons.org/gnubash",
    "shell" := "https://cdn.simpleicons.org/gnubash",
    "curl" := "https://cdn.simpleicons.org/curl",
    "json" := "https://cdn.simpleicons.org/json",
    "go" := "https://cdn.simpleicons.org/go",
    "rust" := "https://cdn.simpleicons.org/rust",
    "java" := "https://cdn.simpleicons.org/openjdk",
    "csharp" := "https://cdn.simpleicons.org/csharp",
    "php" := "https://cdn.simpleicons.org/php",
    "ruby" := "https://cdn.simpleicons.org/ruby",
    "swift" := "https://cdn.simpleicons.org/swift",
    "kotlin" := "https://cdn.simpleicons.org/kotlin"
  ]

  /** `LANGUAGE_ICONS[language.toLowerCase()]` as written: the table is a plain
      object, so a language that lower-cases to an inherited key finds a
      prototype member. */
  function IconLookupAsWritten(language: string): (r: JsObject.Lookup<string>)
    ensures r.Own? <==> ToLower(language) in LanguageIcons
    ensures r.Own? ==> r.value == LanguageIcons[ToLower(language)]
    ensures r.Inherited? <==> ToLower(language) !in LanguageIcons && ToLower(language) in JsObject.PrototypeKeys
  {
    JsObject.Get(LanguageIcons, ToLower(language))
  }

  /** Whether the as-written lookup renders an `<img>`: any truthy value does. */
  predicate IconShownAsWritten(language: string) {
    JsObject.Truthy(IconLookupAsWritten(language), (url: string) => url != "")
  }

  /** A language called `constructor` gets an image whose source is a function. */
  lemma ConstructorGetsIcon()
    ensures IconLookupAsWritten("constructor").Inherited?
    ensures IconShownAsWritten("constructor")
  {
    assert ToLower("constructor") == "constructor";
  }

  /** The intended lookup: an icon exactly for the languages in the table,
      ignoring case. */
  function LanguageIcon(language: string): (icon: Option<string>)
    ensures icon.Some? <==> ToLower(language) in LanguageIcons
    ensures icon.Some? ==> icon.value == LanguageIcons[ToLower(language)] && icon.value != ""
  {
    var key := ToLower(language);
    if key in LanguageIcons then Some(LanguageIcons[key]) else None
  }

  /** Both lookups agree on every language that does not lower-case to an
      inherited key. */
  lemma IconAgreesOffPrototype(language: string)
    requires ToLower(language) !in JsObject.PrototypeKeys
    ensures IconShownAsWritten(language) <==> LanguageIcon(language).Some?
    ensures LanguageIcon(language).Some? ==> IconLookupAsWritten(language) == JsObject.Own(LanguageIcon(language).value)
  {
  }

  /** The lookup ignores case. */
  lemma IconIgnoresCase(a: string, b: string)
    requires ToLower(a) == ToLower(b)
    ensures LanguageIcon(a) == LanguageIcon(b)
  {
  }

  /** `bash` and `shell`, in any case, share the GNU Bash icon. */
  lemma BashIsShell(a: string, b: string)
    requires ToLower(a) == "bash" && ToLower(b) == "shell"
    ensures LanguageIcon(a) == LanguageIcon(b) == Some("https://cdn.simpleicons.org/gnubash")
  {
  }
}
