# docs-page core, modelled in Dafny

This project models the logic of a small documentation site that comes with an admin CMS. The site is written in TypeScript on Next.js. Every part is a pure function over sequences, strings and records, and the store is an immutable value threaded through the operations.

- **Sections store** (`Database`, lib/database.ts). The `sections` table, the one-way switch from the SQLite database to a read-only snapshot, the default seeding and the CRUD functions.
- **Admin routes.**
  - `ImportRoute`: import with replace-all and per-record skip counting.
  - `ExportRoute`: export of every section without ids or timestamps.
  - `SectionsRoute`: list all sections, and create with title/slug validation.
- **Gate** (`Middleware`). The redirect predicate for `/admin/dashboard` and its route matcher.
- **Markdown loader** (`Content`, lib/content.ts). Frontmatter defaults, the sort by `order`, lookup by slug and the section ids.
- **Navigation** (`Navigation`). The grouping and group ordering that app/page.tsx and lib/content.ts both repeat.
- **Docs page** (`DocsPage`, `DocContent`, `ComponentParse`).
  - The state `fetchDocs` builds.
  - The line scanner of `DocContent`: headings, paragraphs, and component blocks gathered with a depth counter.
  - The tag/attribute extraction of `parseComponent`.
- **Rich components** (`CodeBlock`, `DataTable`, `ModelCard`). The view decisions each one makes.
- **Admin dashboard helpers** (`Dashboard`).
  - `generateSlug` and the title-to-slug auto-fill.
  - `insertSnippet` and save validation.
  - The publish toggle and the neighbour swap of `moveSection`.
  - The overview counts and the hex colour check.

Shared modules:
- `Wrappers` holds `Option` and `Result`.
- `Text` holds the JavaScript string operations used: `startsWith`, `includes`, `trim`, `split("\n")`, ASCII `toLowerCase`, `replace` of the first match, and a total order standing in for `localeCompare`.
- `Seqs` holds filter, map, find and a stable insertion sort with its sortedness, permutation and stability lemmas.
- `JsObject` models a property lookup on a plain JavaScript object. It can find members inherited from `Object.prototype`.

The process-wide variables of lib/database.ts (`db`, `useFallback`, `fallbackData`) become the `Mode` of a `Store`: `Unopened`, `Live`, or `ReadOnly(snapshot)`. What the outside world decides is an `Env` argument:
- whether the database file opens;
- what the snapshot file holds;
- the clock.

A thrown exception becomes an `Err` value, or a response of the route that catches it. The `eval` of attribute literals is a record of decoders (`ComponentParse.Literals`). Each decoder may fail, which stands for `eval` throwing.

## Model

| member | source | states |
|---|---|---|
| Database.FromRecord | lib/database.ts:224-236 | a snapshot record given an id and a timestamp keeps every stored field, so `ToRecord` takes it back |
| Database.InsertRecords | lib/database.ts:188-190 | seeding appends one row per record, in order, with consecutive fresh ids, and leaves the existing rows alone |
| Database.Connect | lib/database.ts:58-69 | the first access settles the mode (never `Unopened` afterwards); once settled, later accesses change nothing |
| Database.DefaultSlugsDistinct | lib/database.ts:177-186 | the eight seeded sections have pairwise distinct slugs, so seeding never breaks the `UNIQUE` slug column |
| Database.ConnectValid | lib/database.ts:58-69 | opening keeps the table invariant, and seeding an empty table stores exactly the eight default sections |
| Database.SeedValid | lib/database.ts:177-190 | seeding an empty table gives a valid table whose records are the defaults, in order |
| Database.InsertRecordsValid | lib/database.ts:188-190 | records with distinct slugs inserted into an empty table give a valid table that returns the records unchanged |
| Database.SortByOrder | lib/database.ts:241-243 | `ORDER BY order_index`: the result is sorted by order index and is a permutation of the rows |
| Database.FromSnapshot | lib/database.ts:223-237 | snapshot sections keep the record order, and each gets its position plus one as id |
| Database.GetAllSections | lib/database.ts:219-244 | live: a sorted permutation of the table; fallback: the snapshot in file order with ids 1..n; no snapshot: empty |
| Database.GetPublishedSections | lib/database.ts:246-273 | live: exactly the published subsequence of `getAllSections`; fallback: the published records renumbered 1..n after filtering; no snapshot: empty |
| Database.GetSectionBySlug | lib/database.ts:275-304 | live: found iff some row has the slug, and then it is such a row; fallback: the first record with the slug, with the id of its position in the whole snapshot |
| Database.MaxOrder | lib/database.ts:322-323 | the maximum order index: no row exceeds it and some row attains it |
| Database.NextOrder | lib/database.ts:322-323 | `(MAX(order_index) \|\| 0) + 1`: exceeds every order index, is 1 for an empty table, and otherwise is one more than an existing one |
| Database.NullIfEmpty | lib/database.ts:333-334 | `value \|\| null`: a value is stored iff it is present and non-empty |
| Database.CreateIn | lib/database.ts:317-339 | fallback refuses and changes nothing; live fails iff the title or slug is missing or the slug is taken, and otherwise appends one row under the next id |
| Database.CreateSection | lib/database.ts:306-342 | the new row has the next id, an order index above all others (1 in an empty table), null for empty content or description, "General" for a missing group, and is a sub-item only if asked and published unless explicitly false |
| Database.InsertRow | lib/database.ts:80-83 | the insert fails with a NOT NULL violation iff the title or slug is missing, and with a UNIQUE violation iff both are present and the slug is taken |
| Database.InsertRowValid | lib/database.ts:83 | a successful insert keeps ids increasing and slugs unique |
| Database.ApplyPatch | lib/database.ts:361-380 | a partial update changes exactly the given columns plus `updated_at`; every other field, the id and `created_at` are kept |
| Database.PatchRows | lib/database.ts:361-380 | only the row with that id is patched, and every other row is unchanged |
| Database.UpdateIn | lib/database.ts:356-380 | fallback refuses and changes nothing; live fails (`UNIQUE`) iff the new slug belongs to another row, and otherwise patches that id's row |
| Database.UpdateSection | lib/database.ts:344-381 | `updateSection` after `getDatabase`: read-only refusal, unique-slug failure, or exactly the patched table |
| Database.PatchRowsValid | lib/database.ts:83 | an update that does not clash on slug keeps the table invariant |
| Database.DeleteRows | lib/database.ts:391 | the remaining rows are exactly those whose id differs |
| Database.DeleteIn | lib/database.ts:386-391 | fallback refuses and changes nothing; live removes exactly the rows with that id and keeps the id counter |
| Database.DeleteSection | lib/database.ts:383-392 | `deleteSection` after `getDatabase`, with the same outcomes |
| Database.DeleteValid | lib/database.ts:391 | deleting keeps ids increasing and slugs unique |
| Database.FallbackIsPermanent | lib/database.ts:58-61 | once in fallback mode, no sequence of operations changes the store: the mode, the snapshot loaded at the switch, and the table all stay |
| Database.LiveIsPermanent | lib/database.ts:58-69 | once the database is open, it stays open under any sequence of operations |
| Database.FirstAccessDecides | lib/database.ts:58-69 | the first call decides the mode for the rest of the run; a failed open loads the snapshot of that moment and never reads the file again |
| Database.PerformValid | lib/database.ts:83 | every read and write keeps the table invariant |
| ImportRoute.Status | app/api/admin/import/route.ts:9-11 | 200 iff the import reports a count; 400 iff the format is invalid |
| ImportRoute.Normalise | app/api/admin/import/route.ts:25-33 | each record is passed on with "General" for a falsy group and published unless exactly false; no order index is forwarded |
| ImportRoute.DeleteAll | app/api/admin/import/route.ts:14-19 | live: removes exactly the listed ids; fallback: the first delete throws, so it succeeds only for an empty list |
| ImportRoute.InsertAllAppends | app/api/admin/import/route.ts:22-38 | the per-record loop only appends, keeps the existing rows, and every appended row carries a payload slug |
| ImportRoute.CreateAll | app/api/admin/import/route.ts:22-38 | the success count never exceeds the payload length; fallback creates nothing |
| ImportRoute.CreateAllLoop | app/api/admin/import/route.ts:22-38 | records are created in payload order, and a failed create is skipped without counting |
| ImportRoute.Import | app/api/admin/import/route.ts:4-49 | no body gives 500, and no `sections` array gives 400, both with the store unchanged; the import fails (500) iff replace-all meets a non-empty fallback snapshot or the payload holds a `null` record; a live replace-all leaves only rows of records before the first `null`, and without a `null` reports their number; a live append keeps every existing row in place, reports exactly the number of rows added, and adds only rows carrying a payload slug |
| ImportRoute.ReplaceAll | app/api/admin/import/route.ts:14-38 | replace-all fails iff fallback mode has something to delete or a record is `null`; otherwise the count is at most the payload length; live, the table holds only rows of records before the first `null` |
| ImportRoute.Append | app/api/admin/import/route.ts:22-44 | without replace-all the response is a count iff no record is `null`, otherwise 500; the count is at most the payload length, and 0 in fallback mode; live, the existing rows stay as they were, ahead of the new ones, the count is exactly the number of rows added, and each added row has the slug of a record before the first `null` |
| ImportRoute.UpToNull | app/api/admin/import/route.ts:23-37 | the records the loop gets through: a prefix of the payload, all non-null, stopped only by a `null` |
| ImportRoute.UpToNullComplete | app/api/admin/import/route.ts:23-37 | the loop gets through the whole payload iff it holds no `null` |
| ImportRoute.NullKeepsEarlierInserts | app/api/admin/import/route.ts:23-37 | a `null` record fails the request with the store that importing only the records before it leaves: earlier inserts (and, in replace-all, the deletes) are kept |
| ImportRoute.DeletedEverything | app/api/admin/import/route.ts:14-19 | deleting the ids of everything `getAllSections` listed empties the table |
| ImportRoute.InsertAllFresh | app/api/admin/import/route.ts:22-38 | complete records with fresh, distinct slugs are all created, in order, with consecutive ids and order indexes |
| ImportRoute.ReimportReplaces | app/api/admin/import/route.ts:14-44 | a live replace-all of such records yields exactly those rows, numbered 1..n, and reports n |
| ImportRoute.ExportImportRoundTrip | app/api/admin/export/route.ts:11-20 | for any valid live store, exporting, then importing with replace-all, then exporting again imports every record and gives back the same records in the same order, renumbered 1..n, except that empty content and description come back null and an empty group comes back "General" |
| ImportRoute.ExportImportRoundTripExact | app/api/admin/export/route.ts:11-20 | when no row has empty content, empty description or an empty group, the second export equals the first up to the renumbered order indexes |
| ImportRoute.Canonical | lib/database.ts:333-335 | import turns empty content and description into null and an empty group into "General", and changes nothing else |
| ImportRoute.CanonicalFixes | lib/database.ts:333-335 | a row's record survives import unchanged iff its content and description are not empty strings and its group is not empty |
| ImportRoute.ExportLive | app/api/admin/export/route.ts:6-20 | a live export is the records of the rows sorted by order index |
| ExportRoute.Export | app/api/admin/export/route.ts:4-33 | version "1.0"; live: one record per row, each the record of some row, sorted by order index; fallback: the snapshot's records |
| ExportRoute.RecordsOfRows | app/api/admin/export/route.ts:11-20 | the records of a sorted permutation are exactly the rows' records, ordered by order index |
| SectionsRoute.Forward | app/api/admin/sections/route.ts:29-37 | the create call receives the seven forwarded fields unchanged and no order index |
| SectionsRoute.List | app/api/admin/sections/route.ts:4-15 | GET lists every row, drafts included: live, a permutation of the table sorted by order index; read-only with a snapshot, the snapshot in file order with ids 1..n; no snapshot, [] |
| SectionsRoute.Status | app/api/admin/sections/route.ts:22-45 | 201 iff created; otherwise 400 or 500 |
| SectionsRoute.Create | app/api/admin/sections/route.ts:17-47 | a falsy title or slug gives 400 with nothing created; otherwise creation succeeds iff live with a free slug, answers the new id and appends the forwarded row; any failure is 500 with the table unchanged |
| SectionsRoute.CreateIgnoresOrder | app/api/admin/sections/route.ts:29-37 | the client cannot set `order_index`: the result does not depend on it |
| Middleware.Session | middleware.ts:8-10 | the session value is present iff the cookie is set, and it is the cookie's value |
| Middleware.Gate | middleware.ts:3-17 | redirects to `/admin` iff the path starts with `/admin/dashboard` and the session cookie is missing or empty; otherwise passes |
| Middleware.Handle | middleware.ts:19-21 | paths outside the matcher always pass; matched paths go through the gate |
| Middleware.MatchedIsGated | middleware.ts:7-21 | every matched path is gated, and it redirects iff the cookie is missing or empty |
| Middleware.AnySessionPasses | middleware.ts:10-16 | any non-empty cookie value passes; the value is never checked |
| Middleware.PrefixGate | middleware.ts:7 | the predicate is a prefix test (`/admin` passes and `/admin/dashboardX` is caught), but the matcher never sends `/admin/dashboardX` to it |
| Content.ToDoc | lib/content.ts:39-46 | frontmatter values win when truthy; otherwise the slug is the file name without its first `.mdx`, the title "Untitled", the group "General" and the order 99 (also for 0); isSubItem only when true; the body is kept |
| Content.AllDocs | lib/content.ts:27-50 | no content directory gives no docs; otherwise the docs are a permutation of the `.mdx` files' sections, sorted by order |
| Content.DefaultSlugIsStem | lib/content.ts:40 | for a file stem without dots, removing the first `.mdx` from the file name gives back the stem |
| Content.AllDocsSorted | lib/content.ts:27-50 | the docs are sorted by order, are a permutation of the loaded `.mdx` files, and keep file order among equal orders |
| Content.AllDocsFromMdx | lib/content.ts:28-46 | a doc appears iff it comes from a file whose name ends in `.mdx` |
| Content.DocBySlug | lib/content.ts:52-55 | found iff some doc has the slug, and then it is the first such doc |
| Content.NavigationAgrees | lib/content.ts:57-84 | without inherited-member group names, the loader's navigation is the sorted grouping |
| Content.GetNavigation | lib/content.ts:57-84 | no content directory gives no navigation; otherwise every doc appears exactly once, under its group, and the groups are in navigation order |
| Content.SectionIds | lib/content.ts:86-88 | the ids are the slugs of `getAllDocs`, in order |
| Navigation.TitleIndex | app/page.tsx:57 | finds the position of a group with that title, and finds none iff no group has it |
| Navigation.Group | app/page.tsx:55-65 | the grouping has one group per distinct group name, each holding exactly that name's items in input order |
| Navigation.AddEntryAsWritten | app/page.tsx:57-64 | the loop step as written throws iff the group is new and its name is an `Object.prototype` member |
| Navigation.GroupAsWrittenIff | lib/content.ts:61-70 | the loop as written throws iff some group name is an inherited member, and otherwise equals the intended grouping |
| Navigation.ConstructorGroupThrows | app/page.tsx:55-65 | a section in group "constructor" makes the loop throw |
| Navigation.Rank | app/page.tsx:67-75 | `groupOrder.indexOf`: the rank is that name's position among General, Guides, API, Examples, and there is none iff the name is not one of them |
| Navigation.GroupLeTotal | app/page.tsx:68-75 | the group comparator is total |
| Navigation.GroupLeTransitive | lib/content.ts:73-81 | the group comparator is transitive |
| Navigation.NavigationOrdered | app/page.tsx:67-77 | the navigation rearranges the groups: known groups first by rank, then the rest in string order |
| Navigation.Navigation | app/page.tsx:55-77 | the navigation is sorted by the group comparator, is a rearrangement of the grouping, and still has every entry exactly once, in its group, with items in input order |
| Navigation.SortIgnoresEntryOrder | app/page.tsx:68 | the sorted navigation does not depend on the order in which `Object.entries` lists the groups |
| DocsPage.FetchDocs | app/page.tsx:44-90 | the section list, ids and first active section come from the response; a throwing grouping leaves the navigation and active section at their initial values; loading ends in every case |
| DocsPage.SidebarListsEverySection | app/page.tsx:55-77 | the sidebar lists every published section once, under its group |
| DocsPage.DisplayContent | app/page.tsx:166 | non-empty content is shown verbatim; otherwise a title heading and the description are shown |
| DocsPage.RenderSections | app/page.tsx:160-168 | one view per section, in order, with the section's slug as id, rendering its display content |
| DocsPage.EmptyContentShowsTitle | app/page.tsx:166 | a section without content renders as a level-1 title heading followed by its description |
| DocContent.Delta | app/page.tsx:240-249 | the depth changes by at most one per line, and goes down iff the line closes without opening |
| DocContent.Gather | app/page.tsx:240-249 | the gathered extent fits the remaining lines, and an open component takes at least one more line |
| DocContent.GatherFirstZero | app/page.tsx:240-249 | gathering stops at the first line where the depth reaches 0 |
| DocContent.UnclosedSwallowsRest | app/page.tsx:240-249 | a component that is never closed swallows the rest of the document |
| DocContent.BlockExtent | app/page.tsx:235-249 | a component that closes on its first line consumes exactly that line; otherwise it consumes lines up to the one where the depth reaches 0, or everything when nothing closes |
| DocContent.LineBlocks | app/page.tsx:200-274 | a line that opens no component emits at most one block |
| DocContent.Step | app/page.tsx:191-264 | each scanner iteration consumes at least one line and emits at most one block |
| DocContent.Scan | app/page.tsx:185-278 | the scan emits no more blocks than there are lines |
| DocContent.RenderLoop | app/page.tsx:185-278 | the index loop as written produces exactly the block sequence of the recursive scan |
| DocContent.Render | app/page.tsx:185-197 | no more blocks than lines, and a one-line text that opens no component renders as that line |
| DocContent.LoopStep | app/page.tsx:191-264 | one iteration strictly advances the index, and its output followed by the scan of the rest is the scan from there |
| DocContent.ComponentStep | app/page.tsx:231-262 | a component block consumes its gathered lines and emits the parsed block, or nothing when parsing fails |
| DocContent.LineStep | app/page.tsx:194-274 | any other line consumes exactly one line |
| DocContent.GatherBlock | app/page.tsx:235-252 | the gathering loop stops where the depth reaches 0 (or at the end) and joins exactly those lines |
| DocContent.ScanPlainCons | app/page.tsx:194-274 | a line that opens no component contributes its own block and scanning continues on the next line |
| DocContent.ScanBlockCons | app/page.tsx:231-262 | a component contributes its block, and scanning resumes after its last line |
| DocContent.PlainLine | app/page.tsx:194-274 | blank lines and unrecognised `<` lines emit nothing; `# `, `## ` and `### ` give a heading of level 1, 2 or 3 holding the rest of the line; any other line is a verbatim paragraph |
| DocContent.RenderAppend | app/page.tsx:185-197 | rendering two texts joined by a newline is rendering each, when the first holds no component |
| DocContent.HeadingThenBody | app/page.tsx:166 | the empty-content fallback renders its title heading and then the description's blocks |
| DocContent.BlankThenBody | app/page.tsx:194-197 | a leading blank line emits nothing |
| ComponentParse.WordEnd | app/page.tsx:282 | `\w*` ends at the first non-word character |
| ComponentParse.TagName | app/page.tsx:282-284 | `<(\w+)` finds a name iff some `<` is followed by a word character; the name is non-empty and all word characters |
| ComponentParse.TagNameAtStart | app/page.tsx:282-284 | a string starting with `<name` followed by a non-word character names `name` |
| ComponentParse.Title | app/page.tsx:287-288 | `title=["']([^"']+)["']` matches iff some non-empty quoted value follows `title=`; the value is the quote-free text that starts after the leftmost match's opening quote and ends at the next quote |
| ComponentParse.TitleRoundTrip | app/page.tsx:287-288 | a quoted title without quotes inside, after any prefix that holds no earlier match, is extracted unchanged |
| ComponentParse.CloseFrom | app/page.tsx:289-306 | finds the first `]}` from a position, or none |
| ComponentParse.Attr | app/page.tsx:289-306 | a literal is found iff `attr={[` appears with a `]}` somewhere after it; the literal starts at the `[` of the leftmost such opening, is followed by `}`, and holds no `]}` before its final `]` |
| ComponentParse.AttrRoundTrip | app/page.tsx:289-306 | a bracketed literal with no inner `]}`, written as `attr={lit}` after any prefix that holds no earlier match, is extracted unchanged |
| ComponentParse.Evaluate | app/page.tsx:290-306 | a missing attribute is an empty list; a present one is decoded, and a failing decoder means no block |
| ComponentParse.Parse | app/page.tsx:280-315 | a parsed block's kind is the tag name, and its fields are the title and decoded attributes |
| ComponentParse.ParseSucceedsIff | app/page.tsx:280-315 | a block is produced iff the tag is exactly one of the three names and every attribute present decodes |
| ComponentParse.LongerNameRejected | app/page.tsx:282-285 | `<CodeBlockX` and other longer names give no block |
| CodeBlock.AllTabs | components/docs/CodeBlock.tsx:42-43 | all tabs are the tabs followed by the dropdown tabs, in order |
| CodeBlock.MissingDropdownIsEmpty | components/docs/CodeBlock.tsx:43 | missing dropdown tabs behave as an empty list |
| CodeBlock.InitialActive | components/docs/CodeBlock.tsx:44 | the initial active id is the first tab's id, or none without tabs |
| CodeBlock.ActiveContent | components/docs/CodeBlock.tsx:55 | the active content is the first tab carrying the active id, and exists iff one does |
| CodeBlock.InitiallyFirst | components/docs/CodeBlock.tsx:44-55 | initially the first tab is shown |
| CodeBlock.SelectShows | components/docs/CodeBlock.tsx:172 | selecting a tab shows a tab with its id, and exactly it when no earlier tab has that id |
| CodeBlock.LayoutOf | components/docs/CodeBlock.tsx:107 | the titled single-panel layout is used iff the title is non-empty and there is exactly one tab in all |
| CodeBlock.CopyText | components/docs/CodeBlock.tsx:58-61 | copy acts iff there is active content, and copies exactly its code |
| CodeBlock.IconLookupAsWritten | components/docs/CodeBlock.tsx:92 | the lookup as written finds the table entry for the lower-cased language, and an inherited member iff the name is an `Object.prototype` key absent from the table |
| CodeBlock.ConstructorGetsIcon | components/docs/CodeBlock.tsx:91-104 | language "constructor" passes the guard and renders an image |
| CodeBlock.LanguageIcon | components/docs/CodeBlock.tsx:11-27 | the intended lookup gives an icon iff the lower-cased language is in the table, and then gives its non-empty URL |
| CodeBlock.IconAgreesOffPrototype | components/docs/CodeBlock.tsx:91-104 | away from prototype keys the written lookup shows an icon iff the intended one does, and the same one |
| CodeBlock.IconIgnoresCase | components/docs/CodeBlock.tsx:92 | the lookup does not depend on case |
| CodeBlock.BashIsShell | components/docs/CodeBlock.tsx:15-16 | "bash" and "shell", in any case, map to the same icon |
| DataTable.CellContent | components/docs/DataTable.tsx:37-47 | a non-empty `code` is shown as code, else a non-empty `label` as code, else `value` as plain text |
| DataTable.RenderRow | components/docs/DataTable.tsx:30-47 | one cell per input cell, in order, and only the first is fixed-width |
| DataTable.Render | components/docs/DataTable.tsx:19-35 | one header cell per header; one body row per row, each exactly as long as its input and not padded |
| DataTable.CodeStyleIff | components/docs/DataTable.tsx:37-47 | a cell is code-styled iff its code or label is non-empty, and then it shows that text |
| DataTable.RenderedRowShape | components/docs/DataTable.tsx:30-47 | in every rendered row only the first cell is fixed-width, the code-styled cells are exactly those with a non-empty code or label, and each cell shows text from its own input cell |
| ModelCard.GradientAsWritten | components/docs/ModelCard.tsx:18 | the lookup as written yields a non-class prototype member iff the id is an inherited key absent from the table |
| ModelCard.ToStringHasNoGradient | components/docs/ModelCard.tsx:18 | gradient "toString" yields a function, not a class |
| ModelCard.GradientClass | components/docs/ModelCard.tsx:11-18 | a known id maps to its class, and anything else maps to the default; the class is always one of the three entries |
| ModelCard.GradientAgreesOffPrototype | components/docs/ModelCard.tsx:18 | away from prototype keys, the lookup as written gives the intended class |
| ModelCard.RenderCard | components/docs/ModelCard.tsx:17-36 | title and description pass through unchanged; the gradient class is empty exactly when the lookup finds an inherited member, is otherwise a table entry, and is the intended class for every name that is not a prototype key |
| ModelCard.Grid | components/docs/ModelCard.tsx:43-51 | one card per model, in input order, each with that model's title, description and gradient class as `ModelCard` renders them |
| JsObject.Get | components/docs/ModelCard.tsx:18 | a property lookup finds own keys, and inherited members exactly for prototype keys that are not own |
| Dashboard.GenerateSlug | app/admin/dashboard/page.tsx:285-290 | the slug uses only `a-z`, `0-9` and `-`, has no double hyphen and no hyphen at either end, and keeps the lower-cased title's letters and digits in order |
| Dashboard.CollapseKeepsAlnum | app/admin/dashboard/page.tsx:287-288 | replacing runs of other characters by one hyphen keeps the letters and digits |
| Dashboard.Collapse | app/admin/dashboard/page.tsx:287-288 | the result has no double hyphen and is empty iff the input is |
| Dashboard.GenerateSlugIdempotent | app/admin/dashboard/page.tsx:285-290 | applying `generateSlug` to its own output changes nothing |
| Dashboard.OnTitleEdit | app/admin/dashboard/page.tsx:750-756 | editing the title sets it, and fills the slug only when the slug is empty; nothing else changes |
| Dashboard.TypingFreezesSlug | app/admin/dashboard/page.tsx:750-756 | typing "H" then "Hi" leaves the slug "h", although the slug of "Hi" is "hi" |
| Dashboard.OnTitleEditDerived | app/admin/dashboard/page.tsx:750-756 | a slug still derived from the title follows each edit, and a hand-edited slug is kept |
| Dashboard.TypingKeepsSlugDerived | app/admin/dashboard/page.tsx:750-756 | after any typing sequence, a derived slug is the slug of the final title |
| Dashboard.InsertSnippet | app/admin/dashboard/page.tsx:276-283 | the code alone for empty content; otherwise the content, a blank line, then the code |
| Dashboard.InsertSnippetRenders | app/admin/dashboard/page.tsx:276-283 | the inserted snippet renders after the existing content's blocks, which it leaves unchanged |
| Dashboard.SaveAction | app/admin/dashboard/page.tsx:173-204 | rejected with no request iff the title or slug is empty; otherwise POST for a new section and PUT for one with an id |
| Dashboard.EditDraft | app/admin/dashboard/page.tsx:448 | Edit makes the fetched row the draft, its order index included, and saving it unchanged sends a PUT to the row's id |
| Dashboard.SaveEditRestoresFetchedRow | app/admin/dashboard/page.tsx:180-189 | saving an Edit draft unchanged writes the fetched row back whole, order index included, so a move made after the fetch is undone; only the stored creation time and the new update time differ |
| Dashboard.SaveMatchesServer | app/admin/dashboard/page.tsx:174-177 | the client rejects exactly the drafts the create endpoint answers with 400 |
| Dashboard.ToggleFlips | app/admin/dashboard/page.tsx:222-234 | toggling flips only that section's flag and stamps it; every other field and every other row is unchanged |
| Dashboard.TogglePatch | app/admin/dashboard/page.tsx:224-228 | the `PUT` body sets only the published flag, to the negation of the section's current flag |
| Dashboard.ToggleTwice | app/admin/dashboard/page.tsx:227 | toggling twice restores the flag |
| Dashboard.FindIndex | app/admin/dashboard/page.tsx:237 | `findIndex` gives the first position with that id, or -1 iff there is none |
| Dashboard.MoveRequests | app/admin/dashboard/page.tsx:236-261 | no request iff there is no neighbour in that direction; otherwise two requests that exchange the two order indexes |
| Dashboard.EdgeMovesAreNoops | app/admin/dashboard/page.tsx:237-240 | moving the first section up, or the last down, issues nothing |
| Dashboard.MoveSwapsNeighbours | app/admin/dashboard/page.tsx:236-256 | a move exchanges exactly the two adjacent order indexes; all other sections are unchanged |
| Dashboard.ApplyAll | app/admin/dashboard/page.tsx:244-256 | applying requests in order keeps the number of rows, every id and creation time, and leaves untouched every row that no request targets |
| Dashboard.GroupNames | app/admin/dashboard/page.tsx:378 | the names are exactly the group names that occur |
| Dashboard.Overview | app/admin/dashboard/page.tsx:375-378 | total is the length; published plus drafts is the total; groups is the number of distinct group names |
| Dashboard.PublishedPlusDrafts | app/admin/dashboard/page.tsx:376-377 | published and draft sections partition the list |
| Dashboard.ApplyColor | app/admin/dashboard/page.tsx:486-492 | a typed value is applied iff it is a hex colour, so a valid colour stays valid |
| Dashboard.HexColorIgnoresCase | app/admin/dashboard/page.tsx:488 | hex colours are accepted in either case |
| Dashboard.DefaultColorsValid | app/admin/dashboard/page.tsx:477 | the default colours pass the check, and short, unprefixed or non-hex texts fail |
| Text.OrDefault | lib/content.ts:41-43 | `value \|\| fallback`: a non-empty value is kept, and otherwise the fallback is used |
| Text.ReplaceFirst | lib/content.ts:40 | `replace` with a string pattern changes nothing when the pattern is absent, and otherwise replaces exactly its leftmost occurrence |
| Text.ToLower | components/docs/CodeBlock.tsx:92 | lower-casing keeps the length and maps each character |
| Text.JoinSplit | app/page.tsx:186 | joining the split lines with newlines gives back the text |
| Text.SplitJoin | app/page.tsx:186 | splitting joined newline-free lines gives back the lines |
| Text.StrLeTotal | app/page.tsx:71 | the string order standing in for `localeCompare` is total |

## Left out

- The SQLite engine, DDL and the WAL pragma. The table is a sequence of rows plus an id counter, and `Database.Valid` states the `UNIQUE` slug and increasing-id invariants.
- The filesystem (`fs`, `path`) and gray-matter. The markdown files and the snapshot file are inputs; an unreadable or unparsable snapshot is `None`.
- The `eval` of array literals in `parseComponent`. It runs arbitrary code, so each decoder is a parameter (`ComponentParse.Literals`) that may fail.
- The API key, model and usage-statistics functions of lib/database.ts, and the `users`/`models` tables. They depend on crypto randomness and SQL date aggregation.
- The login, logout and session routes. They depend on crypto hashing, random tokens and cookie storage.
- app/api/docs/route.ts is not part of this model. `DocsPage.FetchDocs` takes its answer as a parameter.
- The `GET` of app/api/admin/sections/[id]/route.ts, its `parseInt` of the id and its 400/500 answers: the `GET` is `Database.GetSectionBySlug` behind a 404, and the rest is HTTP plumbing. Its `PUT` hands the body to `Database.UpdateSection` (for an Edit draft, as `Dashboard.EditPatch`), and its `DELETE` calls `Database.DeleteSection`; both are modelled.
- Presentational UI: layout, Header, Footer, Sidebar, the login page, mdx-components, CSS classes and `cn`.
- React hooks and state, `fetch`, scrolling and IntersectionObserver, the clipboard, theme, timers, toasts, the delete confirmation dialog, setting DOM colours, and refetching after a save.
- The `Promise.all` of `moveSection`. Its two PUTs are applied one after the other, as one atomic swap.
- Timestamps (`Date`, `CURRENT_TIMESTAMP`) are abstract integers.
- Text.StrLe: `localeCompare` is modelled as plain code-point order, not a locale collation.
- Text.ToLower: `toLowerCase` covers ASCII letters only.
- Navigation.Navigation: `Object.entries` lists integer-like keys first. This is covered by Navigation.SortIgnoresEntryOrder rather than modelled, since the sorted result does not depend on entry order.
- Content.ToDoc: frontmatter `order` is taken as an integer, and a non-number value is not modelled. Frontmatter and JSON fields of other types (numbers for booleans, and so on) are modelled as absent or present values of the expected type.
- ImportRoute.ExportImportRoundTrip: the second export equals the first only up to `ImportRoute.Canonical`. `createSection` stores an empty content or description as null and an empty group as "General", so a row holding those does not come back as it was; `ImportRoute.ExportImportRoundTripExact` states the exact round trip for rows without them.
- DocsPage.FetchDocs: a failed fetch is one `FetchFailed` outcome; the error text logged is not modelled.
- Database.ApplyPatch: a JSON `null` for `title`, `slug`, `group_name` or `order_index` in an update is read as an absent field. `updateSection` would write the null, which fails `NOT NULL` for title and slug and stores a NULL group or order. The dashboard never sends such a body.

## Findings

| source | as written | input that shows it | evidently intended | confidence | as-written member | corrected member |
|---|---|---|---|---|---|---|
| app/page.tsx:55-65 | `groups[doc.group_name]` on a `{}` object also finds members inherited from `Object.prototype`, so the new group is not created and `.push` is called on a function | a published section whose group name is "constructor": the loop throws, and the sidebar stays empty | every group name gets its own group | not executed; high | Navigation.GroupAsWrittenIff, Navigation.ConstructorGroupThrows | Navigation.Group, Navigation.Navigation |
| lib/content.ts:61-69 | the same lookup on `{}` in `getNavigation` | a markdown file with frontmatter `group: constructor`: `getNavigation` throws | every group name gets its own group | not executed; high | Navigation.AddEntryAsWritten, Navigation.ConstructorGroupThrows | Content.NavigationAgrees, Content.GetNavigation |
| components/docs/ModelCard.tsx:18 | `gradients[gradient] \|\| gradients.lunaby` finds inherited members, which are truthy functions | gradient "toString": the class is a function, not a class name | unknown ids fall back to the default class | not executed; high | ModelCard.GradientAsWritten, ModelCard.ToStringHasNoGradient, ModelCard.RenderCard | ModelCard.GradientClass, ModelCard.GradientAgreesOffPrototype |
| components/docs/CodeBlock.tsx:92 | `LANGUAGE_ICONS[language.toLowerCase()]` finds inherited members | language "constructor": the guard passes and an image whose `src` is a function is rendered | unknown languages give no icon | not executed; high | CodeBlock.IconLookupAsWritten, CodeBlock.ConstructorGetsIcon | CodeBlock.LanguageIcon, CodeBlock.IconAgreesOffPrototype |
| app/admin/dashboard/page.tsx:750-756 | the slug is filled only while it is empty, so it is fixed by the first keystroke | typing the title "H" then "Hi" leaves the slug "h", while the slug of "Hi" is "hi" | the slug follows the title until it is edited by hand | not executed; medium (it may be deliberate) | Dashboard.OnTitleEdit, Dashboard.TypingFreezesSlug | Dashboard.OnTitleEditDerived, Dashboard.TypingKeepsSlugDerived |
