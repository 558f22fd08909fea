/** `parseComponent` of the public docs page (app/page.tsx): the regular
    expressions that pull a component's name, its `title` and its bracketed
    attribute literals out of the component's source text. Evaluating a literal
    (`eval`) is not modelled: each attribute's decoder is a parameter that
    answers `None` when evaluation throws. */
module ComponentParse {
  import opened Wrappers
  import Text
  import CodeBlock
  import DataTable
  import ModelCard

  // ---------------------------------------------------------------------------
  // /<(\w+)/

  /** `\w`: an ASCII letter, digit or underscore. */
  predicate IsWordChar(c: char) {
    ('a' <= c <= 'z') || ('A' <= c <= 'Z') || ('0' <= c <= '9') || c == '_'
  }

  predicate TagAt(s: string, p: nat) {
    p + 1 < |s| && s[p] == '<' && IsWordChar(s[p + 1])
  }

  /** The end of the run of word characters that starts at `k`. */
  function WordEnd(s: string, k: nat): (e: nat)
    requires k <= |s|
    ensures k <= e <= |s|
    ensures forall m :: k <= m < e ==> IsWordChar(s[m])
    ensures e < |s| ==> !IsWordChar(s[e])
    decreases |s| - k
  {
    if k == |s| || !IsWordChar(s[k]) then k else WordEnd(s, k + 1)
  }

  /** The leftmost start at or after `p` where `<\w` matches. */
  function TagFrom(s: string, p: nat): (r: Option<nat>)
    ensures r.Some? ==> p <= r.value < |s| && TagAt(s, r.value)
    ensures r.Some? ==> forall m :: p <= m < r.value ==> !TagAt(s, m)
    ensures r.None? ==> forall m :: p <= m < |s| ==> !TagAt(s, m)
    decreases |s| - p
  {
    if p >= |s| then None else if TagAt(s, p) then Some(p) else TagFrom(s, p + 1)
  }

  /** The name captured by `/<(\w+)/`: the longest word after the first `<`
      that is followed by a word character. */
  function TagName(s: string): (name: Option<string>)
    ensures name.Some? <==> exists p :: 0 <= p < |s| && TagAt(s, p)
    ensures name.Some? ==> |name.value| > 0 && forall m :: 0 <= m < |name.value| ==> IsWordChar(name.value[m])
  {
    match TagFrom(s, 0)
    case Some(p) => Some(s[p + 1..WordEnd(s, p + 1)])
    case None => None
  }

  /** A text that opens with `<name` followed by a non-word character (or
      nothing) is named `name`. */
  lemma TagNameAtStart(name: string, rest: string)
    requires |name| > 0 && forall m :: 0 <= m < |name| ==> IsWordChar(name[m])
    requires |rest| > 0 ==> !IsWordChar(rest[0])
    ensures TagName("<" + name + rest) == Some(name)
  {
    var s := "<" + name + rest;
    assert TagAt(s, 0);
    assert s[1..1 + |name|] == name;
    if |rest| > 0 {
      assert !IsWordChar(s[1 + |name|]);
    }
  }

  // ---------------------------------------------------------------------------
  // /title=["']([^"']+)["']/

  predicate IsQuote(c: char) {
    c == '"' || c == '\''
  }

  /** The first quote at or after `k`. */
  function QuoteFrom(s: string, k: nat): (r: Option<nat>)
    ensures r.Some? ==> k <= r.value < |s| && IsQuote(s[r.value])
    ensures r.Some? ==> forall m :: k <= m < r.value ==> !IsQuote(s[m])
    ensures r.None? ==> forall m :: k <= m < |s| ==> !IsQuote(s[m])
    decreases |s| - k
  {
    if k >= |s| then None else if IsQuote(s[k]) then Some(k) else QuoteFrom(s, k + 1)
  }

  /** The title pattern matches at `p`: `title=`, a quote, at least one
      non-quote character, then a quote. */
  predicate TitleAt(s: string, p: nat) {
    && p + 7 <= |s|
    && s[p..p + 6] == "title="
    && IsQuote(s[p + 6])
    && var q := QuoteFrom(s, p + 7);
       q.Some? && q.value > p + 7
  }

  function TitleFrom(s: string, p: nat): (r: Option<nat>)
    ensures r.Some? ==> p <= r.value < |s| && TitleAt(s, r.value)
    ensures r.Some? ==> forall m :: p <= m < r.value ==> !TitleAt(s, m)
    ensures r.None? ==> forall m :: p <= m < |s| ==> !TitleAt(s, m)
    decreases |s| - p
  {
    if p >= |s| then None else if TitleAt(s, p) then Some(p) else TitleFrom(s, p + 1)
  }

  /** The captured title: the non-quote run of the leftmost match, up to the
      quote that closes it. */
  function Title(s: string): (t: Option<string>)
    ensures t.Some? <==> exists p :: 0 <= p < |s| && TitleAt(s, p)
    ensures t.Some? ==> |t.value| > 0 && forall m :: 0 <= m < |t.value| ==> !IsQuote(t.value[m])
    ensures t.Some? ==>
              && TitleFrom(s, 0).Some?
              && var p := TitleFrom(s, 0).value;
                 && p + 7 + |t.value| < |s|
                 && s[p + 7..p + 7 + |t.value|] == t.value
                 && IsQuote(s[p + 7 + |t.value|])
  {
    match TitleFrom(s, 0)
    case Some(p) =>
      var e := QuoteFrom(s, p + 7).value;
      assert s[p + 7..e] == s[p + 7..p + 7 + |s[p + 7..e]|];
      Some(s[p + 7..e])
    case None => None
  }

  /** A quoted title after a prefix holding no earlier match is the title read
      back. */
  lemma TitleRoundTrip(pre: string, quote: char, t: string, rest: string)
    requires IsQuote(quote)
    requires |t| > 0 && forall m :: 0 <= m < |t| ==> !IsQuote(t[m])
    requires forall m :: 0 <= m < |pre| ==> !TitleAt(pre + "title=" + [quote] + t + [quote] + rest, m)
    ensures Title(pre + "title=" + [quote] + t + [quote] + rest) == Some(t)
  {
    var s := pre + "title=" + [quote] + t + [quote] + rest;
    QuotedTitleText(pre, quote, t, rest);
    QuotedTitleAt(s, |pre|, t);
    FirstTitle(s, |pre|, t);
  }

  /** Where the pieces of a written title sit in the text. */
  lemma QuotedTitleText(pre: string, quote: char, t: string, rest: string)
    ensures var s := pre + "title=" + [quote] + t + [quote] + rest;
            && |pre| + 8 + |t| <= |s|
            && s[|pre|..|pre| + 6] == "title=" && s[|pre| + 6] == quote
            && s[|pre| + 7..|pre| + 7 + |t|] == t && s[|pre| + 7 + |t|] == quote
  {
    var s := pre + "title=" + [quote] + t + [quote] + rest;
    assert s == pre + ("title=" + [quote] + t + [quote] + rest);
  }

  /** `title=`, a quote, `t` and a quote at `p` match, capturing `t`. */
  lemma QuotedTitleAt(s: string, p: nat, t: string)
    requires |t| > 0 && forall m :: 0 <= m < |t| ==> !IsQuote(t[m])
    requires p + 8 + |t| <= |s| && s[p..p + 6] == "title=" && IsQuote(s[p + 6])
    requires s[p + 7..p + 7 + |t|] == t && IsQuote(s[p + 7 + |t|])
    ensures TitleAt(s, p) && QuoteFrom(s, p + 7) == Some(p + 7 + |t|)
  {
    assert forall m :: p + 7 <= m < p + 7 + |t| ==> s[m] == t[m - p - 7];
  }

  /** The leftmost match is the one read. */
  lemma FirstTitle(s: string, p: nat, t: string)
    requires TitleAt(s, p) && forall m :: 0 <= m < p ==> !TitleAt(s, m)
    requires QuoteFrom(s, p + 7) == Some(p + 7 + |t|) && s[p + 7..p + 7 + |t|] == t
    ensures Title(s) == Some(t)
  {
    assert TitleFrom(s, 0) == Some(p);
  }

  // ---------------------------------------------------------------------------
  // /<attr>=\{(\[[\s\S]*?\])\}/

  predicate CloseAt(s: string, m: nat) {
    m + 1 < |s| && s[m] == ']' && s[m + 1] == '}'
  }

  /** The first `]}` starting at or after `k` (the lazy `*?`). */
  function CloseFrom(s: string, k: nat): (r: Option<nat>)
    ensures r.Some? ==> k <= r.value && CloseAt(s, r.value)
    ensures r.Some? ==> forall m :: k <= m < r.value ==> !CloseAt(s, m)
    ensures r.None? ==> forall m :: k <= m < |s| ==> !CloseAt(s, m)
    decreases |s| - k
  {
    if k >= |s| then None else if CloseAt(s, k) then Some(k) else CloseFrom(s, k + 1)
  }

  /** The attribute pattern matches at `p`: `attr={[` followed, somewhere later,
      by `]}`. */
  predicate AttrAt(s: string, attr: string, p: nat) {
    && p + |attr| + 3 <= |s|
    && s[p..p + |attr| + 3] == attr + "={["
    && CloseFrom(s, p + |attr| + 3).Some?
  }

  /** A bracketed literal as the lazy pattern captures it: opens with `[`, closes
      with `]`, and contains no `]}`. */
  predicate Bracketed(lit: string) {
    && |lit| >= 2 && lit[0] == '[' && lit[|lit| - 1] == ']'
    && forall k :: 0 <= k < |lit| - 1 ==> !(lit[k] == ']' && lit[k + 1] == '}')
  }

  function AttrFrom(s: string, attr: string, p: nat): (r: Option<nat>)
    ensures r.Some? ==> p <= r.value < |s| && AttrAt(s, attr, r.value)
    ensures r.Some? ==> forall m :: p <= m < r.value ==> !AttrAt(s, attr, m)
    ensures r.None? ==> forall m :: p <= m < |s| ==> !AttrAt(s, attr, m)
    decreases |s| - p
  {
    if p >= |s| then None else if AttrAt(s, attr, p) then Some(p) else AttrFrom(s, attr, p + 1)
  }

  /** The match at `p` is the leftmost one. */
  predicate FirstAttrAt(s: string, attr: string, p: nat) {
    AttrAt(s, attr, p) && forall m :: 0 <= m < p ==> !AttrAt(s, attr, m)
  }

  /** `lit` sits right after `attr={` at `p` and is followed by `}`. */
  predicate Captures(s: string, attr: string, p: nat, lit: string) {
    && p + |attr| + 2 + |lit| < |s|
    && s[p + |attr| + 2..p + |attr| + 2 + |lit|] == lit
    && s[p + |attr| + 2 + |lit|] == '}'
  }

  /** The captured literal of `attr`, brackets included: from the `[` of the
      leftmost `attr={[` to the first `]}` after it. */
  function Attr(s: string, attr: string): (lit: Option<string>)
    ensures lit.Some? <==> exists p :: 0 <= p < |s| && AttrAt(s, attr, p)
    ensures lit.Some? ==> Bracketed(lit.value)
    ensures lit.Some? ==> exists p :: 0 <= p < |s| && FirstAttrAt(s, attr, p) && Captures(s, attr, p, lit.value)
  {
    match AttrFrom(s, attr, 0)
    case Some(p) =>
      var m := CloseFrom(s, p + |attr| + 3).value;
      CaptureBracketed(s, attr, p, m);
      Some(s[p + |attr| + 2..m + 1])
    case None => None
  }

  /** What the match at `p` captures, up to the first `]}` at `m`, is bracketed
      and followed by `}`. */
  lemma CaptureBracketed(s: string, attr: string, p: nat, m: nat)
    requires AttrAt(s, attr, p) && CloseFrom(s, p + |attr| + 3) == Some(m)
    ensures Bracketed(s[p + |attr| + 2..m + 1])
    ensures Captures(s, attr, p, s[p + |attr| + 2..m + 1])
  {
    var a := p + |attr| + 2;
    assert s[a] == s[p..p + |attr| + 3][|attr| + 2] == (attr + "={[")[|attr| + 2];
    var lit := s[a..m + 1];
    forall k | 0 <= k < |lit| - 1
      ensures !(lit[k] == ']' && lit[k + 1] == '}')
    {
      assert lit[k] == s[a + k] && lit[k + 1] == s[a + k + 1];
      if k > 0 {
        assert !CloseAt(s, a + k);
      }
    }
    assert a + |lit| == m + 1;
  }

  /** An attribute written as `attr={lit}` after a prefix holding no earlier
      match is read back as `lit`. */
  lemma AttrRoundTrip(pre: string, attr: string, lit: string, rest: string)
    requires Bracketed(lit)
    requires forall m :: 0 <= m < |pre| ==> !AttrAt(pre + attr + "={" + lit + "}" + rest, attr, m)
    ensures Attr(pre + attr + "={" + lit + "}" + rest, attr) == Some(lit)
  {
    var s := pre + attr + "={" + lit + "}" + rest;
    var p := |pre|;
    var a := p + |attr| + 2;
    var m := a + |lit| - 1;
    assert forall k :: 0 <= k < |lit| ==> s[a + k] == lit[k];
    assert s[p..p + |attr| + 3] == attr + "={[";
    assert CloseAt(s, m);
    forall k | a + 1 <= k < m
      ensures !CloseAt(s, k)
    {
      assert s[k] == lit[k - a] && s[k + 1] == lit[k - a + 1];
    }
    assert CloseFrom(s, a + 1) == Some(m);
    assert s[a..m + 1] == lit;
    AttrAtFirst(s, attr, p, m);
  }

  /** The first place the attribute opens is the one read. */
  lemma AttrAtFirst(s: string, attr: string, p: nat, m: nat)
    requires p + |attr| + 3 <= |s| && s[p..p + |attr| + 3] == attr + "={["
    requires forall k :: 0 <= k < p ==> !AttrAt(s, attr, k)
    requires CloseFrom(s, p + |attr| + 3) == Some(m)
    ensures Attr(s, attr) == Some(s[p + |attr| + 2..m + 1])
  {
    assert AttrAt(s, attr, p);
    var r := AttrFrom(s, attr, 0);
    assert r.Some? && r.value <= p;
    assert r == Some(p);
  }

  // ---------------------------------------------------------------------------
  // The component

  /** The `eval` of each attribute literal; `None` when evaluation throws. */
  datatype Literals = Literals(
    tabs: string -> Option<seq<CodeBlock.CodeTab>>,
    headers: string -> Option<seq<string>>,
    rows: string -> Option<seq<seq<DataTable.TableCell>>>,
    models: string -> Option<seq<ModelCard.ModelProps>>)

  datatype Widget =
    | CodeBlockWidget(props: CodeBlock.Props)
    | DataTableWidget(headers: seq<string>, rows: seq<seq<DataTable.TableCell>>)
    | ModelGridWidget(models: seq<ModelCard.ModelProps>)

  function WidgetName(w: Widget): string {
    match w
    case CodeBlockWidget(_) => "CodeBlock"
    case DataTableWidget(_, _) => "DataTable"
    case ModelGridWidget(_) => "ModelGrid"
  }

  /** `match ? eval(match[1]) : []`. */
  function Evaluate<T>(lit: Option<string>, decode: string -> Option<seq<T>>): (r: Option<seq<T>>)
    ensures lit.None? ==> r == Some([])
    ensures lit.Some? ==> r == decode(lit.value)
  {
    match lit
    case None => Some([])
    case Some(l) => decode(l)
  }

  /** `parseComponent`: `None` for an unknown name, a missing name, or a literal
      whose evaluation throws. */
  function Parse(s: string, lits: Literals): (w: Option<Widget>)
    ensures w.Some? ==> TagName(s) == Some(WidgetName(w.value))
    ensures w.Some? && w.value.CodeBlockWidget? ==>
              && w.value.props.title == Title(s)
              && Some(w.value.props.tabs) == Evaluate(Attr(s, "tabs"), lits.tabs)
              && w.value.props.dropdownTabs == Evaluate(Attr(s, "dropdownTabs"), lits.tabs)
    ensures w.Some? && w.value.DataTableWidget? ==>
              && Some(w.value.headers) == Evaluate(Attr(s, "headers"), lits.headers)
              && Some(w.value.rows) == Evaluate(Attr(s, "rows"), lits.rows)
    ensures w.Some? && w.value.ModelGridWidget? ==>
              Some(w.value.models) == Evaluate(Attr(s, "models"), lits.models)
  {
    match TagName(s)
    case None => None
    case Some(name) =>
      if name == "CodeBlock" then
        var tabs := Evaluate(Attr(s, "tabs"), lits.tabs);
        var dropdown := Evaluate(Attr(s, "dropdownTabs"), lits.tabs);
        if tabs.Some? && dropdown.Some? then
          Some(CodeBlockWidget(CodeBlock.Props(tabs.value, Title(s), dropdown)))
        else None
      else if name == "DataTable" then
        var headers := Evaluate(Attr(s, "headers"), lits.headers);
        var rows := Evaluate(Attr(s, "rows"), lits.rows);
        if headers.Some? && rows.Some? then Some(DataTableWidget(headers.value, rows.value))
        else None
      else if name == "ModelGrid" then
        var models := Evaluate(Attr(s, "models"), lits.models);
        if models.Some? then Some(ModelGridWidget(models.value)) else None
      else None
  }

  /** A component is shown exactly when its name is known and every literal it
      reads evaluates. */
  lemma ParseSucceedsIff(s: string, lits: Literals)
    ensures Parse(s, lits).Some? <==>
              || (TagName(s) == Some("CodeBlock") &&
                  Evaluate(Attr(s, "tabs"), lits.tabs).Some? &&
                  Evaluate(Attr(s, "dropdownTabs"), lits.tabs).Some?)
              || (TagName(s) == Some("DataTable") &&
                  Evaluate(Attr(s, "headers"), lits.headers).Some? &&
                  Evaluate(Attr(s, "rows"), lits.rows).Some?)
              || (TagName(s) == Some("ModelGrid") &&
                  Evaluate(Attr(s, "models"), lits.models).Some?)
  {
  }

  /** `<CodeBlockExtra …>` names another component and renders nothing, although
      the line scanner takes it for a code block. */
  lemma LongerNameRejected(suffix: string, rest: string, lits: Literals)
    requires |suffix| > 0 && forall m :: 0 <= m < |suffix| ==> IsWordChar(suffix[m])
    requires |rest| > 0 ==> !IsWordChar(rest[0])
    ensures Parse("<CodeBlock" + suffix + rest, lits) == None
  {
    var name := "CodeBlock" + suffix;
    assert forall m :: 0 <= m < |name| ==> IsWordChar(name[m]);
    TagNameAtStart(name, rest);
    assert "<CodeBlock" + suffix + rest == "<" + name + rest;
    UnknownNameRejected("<" + name + rest, lits);
  }

  /** A tag that names none of the three components renders nothing. */
  lemma UnknownNameRejected(s: string, lits: Literals)
    requires TagName(s).Some? && |TagName(s).value| > 9
    ensures Parse(s, lits) == None
  {
  }
}
