/** `DocContent` of the public docs page (app/page.tsx): the line scanner that
    turns a section's markdown-like content into headings, paragraphs and
    embedded components. */
module DocContent {
  import opened Wrappers
  import opened Text
  import ComponentParse
  import Seqs

  /** The reading of a component's text (`parseComponent`); `None` renders
      nothing. */
  type Parser = string -> Option<ComponentParse.Widget>

  datatype Block =
    | Heading(level: nat, text: string)
    | Paragraph(text: string)
    | Component(widget: ComponentParse.Widget)

  // ---------------------------------------------------------------------------
  // Line predicates

  /** A line that starts a component once leading whitespace is trimmed. */
  predicate IsComponentLine(line: string) {
    var t := Trim(line);
    StartsWith(t, "<CodeBlock") || StartsWith(t, "<DataTable") || StartsWith(t, "<ModelGrid")
  }

  /** A line that opens a nested component anywhere. */
  predicate Opens(line: string) {
    Contains(line, "<CodeBlock") || Contains(line, "<DataTable") || Contains(line, "<ModelGrid")
  }

  /** A line that closes a component: it holds `/>` or `</`. */
  predicate Closes(line: string) {
    Contains(line, "/>") || Contains(line, "</")
  }

  /** The change of nesting depth a line causes. */
  function Delta(line: string): (d: int)
    ensures -1 <= d <= 1
    ensures d < 0 <==> Closes(line) && !Opens(line)
  {
    (if Opens(line) then 1 else 0) - (if Closes(line) then 1 else 0)
  }

  // ---------------------------------------------------------------------------
  // Gathering a multi-line component

  /** The number of lines the inner loop consumes from `rest` at nesting `depth`. */
  function Gather(rest: seq<string>, depth: int): (n: nat)
    ensures n <= |rest|
    ensures depth > 0 && |rest| > 0 ==> n >= 1
    decreases |rest|
  {
    if |rest| == 0 || depth <= 0 then 0
    else 1 + Gather(rest[1..], depth + Delta(rest[0]))
  }

  /** The nesting depth once the first `m` lines of `rest` are consumed, starting
      from the component's own opening line. */
  function Level(rest: seq<string>, m: nat): int
    requires m <= |rest|
  {
    if m == 0 then 1 else Level(rest, m - 1) + Delta(rest[m - 1])
  }

  /** The gathered component ends at the first line where the depth reaches zero,
      or runs to the end of the content when it never does. */
  lemma GatherFirstZero(rest: seq<string>)
    ensures var n := Gather(rest, 1);
            && (forall m :: 0 <= m < n ==> Level(rest, m) > 0)
            && (n < |rest| ==> Level(rest, n) == 0)
  {
    GatherFrom(rest, 0);
  }

  lemma {:induction false} GatherFrom(rest: seq<string>, k: nat)
    requires k <= |rest|
    requires forall m :: 0 <= m < k ==> Level(rest, m) > 0
    ensures var n := k + Gather(rest[k..], Level(rest, k));
            && (forall m :: 0 <= m < n ==> Level(rest, m) > 0)
            && (n < |rest| ==> Level(rest, n) == 0)
    decreases |rest| - k
  {
    var d := Level(rest, k);
    if k == |rest| {
    } else if d <= 0 {
      if k > 0 {
        assert Level(rest, k - 1) > 0;
      }
    } else {
      assert rest[k..][1..] == rest[k + 1..];
      assert rest[k..][0] == rest[k];
      GatherFrom(rest, k + 1);
    }
  }

  /** A component that is never closed swallows the rest of the content. */
  lemma UnclosedSwallowsRest(rest: seq<string>)
    requires forall k :: 0 <= k < |rest| ==> !Closes(rest[k])
    ensures Gather(rest, 1) == |rest|
  {
    GatherFirstZero(rest);
    LevelPositive(rest, |rest|);
  }

  lemma {:induction false} LevelPositive(rest: seq<string>, m: nat)
    requires m <= |rest|
    requires forall k :: 0 <= k < |rest| ==> !Closes(rest[k])
    ensures Level(rest, m) >= 1
  {
    if m > 0 {
      LevelPositive(rest, m - 1);
    }
  }

  // ---------------------------------------------------------------------------
  // The scanner

  predicate IsHeadingLine(line: string) {
    StartsWith(line, "# ") || StartsWith(line, "## ") || StartsWith(line, "### ")
  }

  /** The line starts a component block: it is not blank, is not a heading (both
      are tested first), and starts with a component tag once trimmed. */
  predicate OpensBlock(line: string) {
    !IsBlank(line) && !IsHeadingLine(line) && IsComponentLine(line)
  }

  /** The blocks of a line that does not open a component block. */
  function LineBlocks(line: string): (bs: seq<Block>)
    ensures |bs| <= 1
  {
    if IsBlank(line) then []
    else if StartsWith(line, "# ") then [Heading(1, line[2..])]
    else if StartsWith(line, "## ") then [Heading(2, line[3..])]
    else if StartsWith(line, "### ") then [Heading(3, line[4..])]
    else if !StartsWith(line, "<") then [Paragraph(line)]
    else []
  }

  /** The number of lines of the component block that opens `lines`. */
  function BlockLength(lines: seq<string>): (n: nat)
    requires |lines| > 0
    ensures 1 <= n <= |lines|
  {
    if Closes(lines[0]) then 1 else 1 + Gather(lines[1..], 1)
  }

  /** How far a component block reaches: a first line that closes itself is
      the whole block; otherwise the block runs to the first line where the
      depth comes back to zero, and to the end of the content when no line
      closes it. */
  lemma BlockExtent(lines: seq<string>)
    requires |lines| > 0
    ensures Closes(lines[0]) ==> BlockLength(lines) == 1
    ensures !Closes(lines[0]) ==>
              var rest, n := lines[1..], BlockLength(lines) - 1;
              && (forall m :: 0 <= m < n ==> Level(rest, m) > 0)
              && (n < |rest| ==> Level(rest, n) == 0)
    ensures (forall k :: 0 <= k < |lines| ==> !Closes(lines[k])) ==> BlockLength(lines) == |lines|
  {
    if !Closes(lines[0]) {
      var rest := lines[1..];
      GatherFirstZero(rest);
      if forall k :: 0 <= k < |lines| ==> !Closes(lines[k]) {
        assert forall k :: 0 <= k < |rest| ==> rest[k] == lines[k + 1];
        UnclosedSwallowsRest(rest);
      }
    }
  }

  /** The component block that opens `lines`, if its text parses. */
  function BlockOf(lines: seq<string>, parse: Parser): (bs: seq<Block>)
    requires |lines| > 0
    ensures |bs| <= 1
  {
    match parse(JoinLines(lines[..BlockLength(lines)]))
    case Some(w) => [Component(w)]
    case None => []
  }

  /** What the loop does at the first of `lines`: the blocks it emits and how many
      lines it consumes. */
  function Step(lines: seq<string>, parse: Parser): (r: (seq<Block>, nat))
    requires |lines| > 0
    ensures 1 <= r.1 <= |lines|
    ensures |r.0| <= 1
  {
    if OpensBlock(lines[0]) then (BlockOf(lines, parse), BlockLength(lines))
    else (LineBlocks(lines[0]), 1)
  }

  function Scan(lines: seq<string>, parse: Parser): (blocks: seq<Block>)
    ensures |blocks| <= |lines|
    decreases |lines|
  {
    if |lines| == 0 then []
    else
      var r := Step(lines, parse);
      r.0 + Scan(lines[r.1..], parse)
  }

  /** The blocks of a section's content. */
  function Render(content: string, parse: Parser): (blocks: seq<Block>)
    ensures |blocks| <= |SplitLines(content)|
    ensures '\n' !in content && !OpensBlock(content) ==> blocks == LineBlocks(content)
  {
    if '\n' !in content && !OpensBlock(content) then
      SplitNoNewline(content);
      ScanPlainCons([content], parse);
      assert [content][1..] == [];
      Scan(SplitLines(content), parse)
    else
      Scan(SplitLines(content), parse)
  }

  /** The loop of `DocContent`, index by index; it renders exactly `Render`. */
  method RenderLoop(content: string, parse: Parser) returns (elements: seq<Block>)
    ensures elements == Render(content, parse)
  {
    var lines := SplitLines(content);
    elements := [];
    var i := 0;
    while i < |lines|
      invariant 0 <= i <= |lines|
      invariant elements + Scan(lines[i..], parse) == Scan(lines, parse)
    {
      var emitted, next := LoopStep(lines, i, parse);
      Seqs.AppendAssoc(elements, emitted, Scan(lines[next..], parse));
      elements := elements + emitted;
      i := next;
    }
  }

  /** One pass of the loop: the blocks emitted at `i` and where scanning
      resumes. */
  method LoopStep(lines: seq<string>, i: nat, parse: Parser) returns (emitted: seq<Block>, next: nat)
    requires i < |lines|
    ensures i < next <= |lines|
    ensures emitted + Scan(lines[next..], parse) == Scan(lines[i..], parse)
  {
    if OpensBlock(lines[i]) {
      emitted, next := ComponentStep(lines, i, parse);
    } else {
      emitted, next := LineStep(lines, i, parse);
    }
  }

  /** One pass of the loop on a line that opens a component: gather its block,
      parse it, emit the component if it parsed. */
  method ComponentStep(lines: seq<string>, i: nat, parse: Parser) returns (emitted: seq<Block>, next: nat)
    requires i < |lines| && OpensBlock(lines[i])
    ensures i < next <= |lines|
    ensures emitted + Scan(lines[next..], parse) == Scan(lines[i..], parse)
  {
    var componentStr;
    componentStr, next := GatherBlock(lines, i);
    var rest := lines[i..];
    assert rest[0] == lines[i];
    Seqs.SuffixSlices(lines, i, next);
    ScanBlockCons(rest, parse);
    BlockOfText(rest, parse, componentStr);
    var parsed := parse(componentStr);
    emitted := if parsed.Some? then [Component(parsed.value)] else [];
    assert emitted == BlockOf(rest, parse);
    assert rest[BlockLength(rest)..] == lines[next..];
  }

  /** The block at the head of `lines`, given the text of its lines. */
  lemma BlockOfText(lines: seq<string>, parse: Parser, text: string)
    requires |lines| > 0 && text == JoinLines(lines[..BlockLength(lines)])
    ensures BlockOf(lines, parse) == if parse(text).Some? then [Component(parse(text).value)] else []
  {
  }

  /** One pass of the loop on any other line: blank lines and unknown tags emit
      nothing, the three heading markers a heading, anything else a paragraph. */
  method LineStep(lines: seq<string>, i: nat, parse: Parser) returns (emitted: seq<Block>, next: nat)
    requires i < |lines| && !OpensBlock(lines[i])
    ensures next == i + 1
    ensures emitted + Scan(lines[next..], parse) == Scan(lines[i..], parse)
  {
    var line := lines[i];
    assert lines[i..][0] == line;
    ScanPlainCons(lines[i..], parse);
    Seqs.SuffixSlices(lines, i, i + 1);
    emitted := [];
    if IsBlank(line) {
    } else if StartsWith(line, "# ") {
      emitted := [Heading(1, line[2..])];
    } else if StartsWith(line, "## ") {
      emitted := [Heading(2, line[3..])];
    } else if StartsWith(line, "### ") {
      emitted := [Heading(3, line[4..])];
    } else if !StartsWith(line, "<") {
      emitted := [Paragraph(line)];
    }
    next := i + 1;
  }

  /** The lines of the component block opening at `start`, joined back with
      newlines, and the index after it: the inner loop of `DocContent`. */
  method GatherBlock(lines: seq<string>, start: nat) returns (componentStr: string, next: nat)
    requires start < |lines|
    ensures start < next <= |lines|
    ensures next - start == BlockLength(lines[start..])
    ensures componentStr == JoinLines(lines[start..next])
  {
    var line := lines[start];
    Seqs.SuffixSlices(lines, start, start + 1);
    assert lines[start..start + 1] == [line];
    componentStr := line;
    var depth := 1;
    next := start + 1;
    if !Contains(line, "/>") && !Contains(line, "</") {
      while next < |lines| && depth > 0
        invariant start < next <= |lines|
        invariant componentStr == JoinLines(lines[start..next])
        invariant next + Gather(lines[next..], depth) == start + 1 + Gather(lines[start + 1..], 1)
      {
        Seqs.SliceSnoc(lines, start, next);
        JoinSnoc(lines[start..next], lines[next]);
        Seqs.SuffixSlices(lines, next, next + 1);
        componentStr := componentStr + "\n" + lines[next];
        if Opens(lines[next]) {
          depth := depth + 1;
        }
        if Closes(lines[next]) {
          depth := depth - 1;
        }
        next := next + 1;
      }
    }
  }

  /** A first line that opens no component block contributes its own blocks. */
  lemma ScanPlainCons(lines: seq<string>, parse: Parser)
    requires |lines| > 0 && !OpensBlock(lines[0])
    ensures Scan(lines, parse) == LineBlocks(lines[0]) + Scan(lines[1..], parse)
  {
  }

  /** A first line that opens a component block contributes that block and skips
      its lines. */
  lemma ScanBlockCons(lines: seq<string>, parse: Parser)
    requires |lines| > 0 && OpensBlock(lines[0])
    ensures Scan(lines, parse) == BlockOf(lines, parse) + Scan(lines[BlockLength(lines)..], parse)
  {
  }

  // ---------------------------------------------------------------------------
  // Properties

  /** Any line outside a component renders as nothing (blank lines and markup
      that is not a component), one heading of level 1 to 3, or one paragraph
      holding the whole line; `#### ` and `#x` lines are paragraphs. */
  lemma PlainLine(line: string, parse: Parser)
    requires !OpensBlock(line)
    ensures Scan([line], parse) == [] <==> IsBlank(line) || StartsWith(line, "<")
    ensures !IsBlank(line) && StartsWith(line, "# ") ==> Scan([line], parse) == [Heading(1, line[2..])]
    ensures !IsBlank(line) && StartsWith(line, "## ") ==> Scan([line], parse) == [Heading(2, line[3..])]
    ensures !IsBlank(line) && StartsWith(line, "### ") ==> Scan([line], parse) == [Heading(3, line[4..])]
    ensures !IsBlank(line) && !StartsWith(line, "<") && !StartsWith(line, "# ") &&
            !StartsWith(line, "## ") && !StartsWith(line, "### ") ==>
              Scan([line], parse) == [Paragraph(line)]
  {
    ScanPlainCons([line], parse);
    assert [line][1..] == [];
    assert Scan([line], parse) == LineBlocks(line);
    if StartsWith(line, "<") {
      FirstCharDecides(line, "<", "# ");
      FirstCharDecides(line, "<", "## ");
      FirstCharDecides(line, "<", "### ");
    }
    HeadingMarkers(line);
  }

  /** The three heading markers exclude one another. */
  lemma HeadingMarkers(line: string)
    ensures StartsWith(line, "## ") ==> !StartsWith(line, "# ")
    ensures StartsWith(line, "### ") ==> !StartsWith(line, "# ") && !StartsWith(line, "## ")
  {
    if StartsWith(line, "## ") {
      assert line[1] == line[..3][1];
    }
    if StartsWith(line, "### ") {
      assert line[1] == line[..4][1] && line[2] == line[..4][2];
    }
  }

  /** Content without component lines renders line by line, so concatenating
      such content with more content concatenates the blocks. */
  lemma {:induction false} ScanAppend(xs: seq<string>, ys: seq<string>, parse: Parser)
    requires forall k :: 0 <= k < |xs| ==> !OpensBlock(xs[k])
    ensures Scan(xs + ys, parse) == Scan(xs, parse) + Scan(ys, parse)
    decreases |xs|
  {
    if |xs| == 0 {
      assert xs + ys == ys;
    } else {
      ScanAppend(xs[1..], ys, parse);
      ScanAppendStep(xs, ys, parse);
    }
  }

  lemma ScanAppendStep(xs: seq<string>, ys: seq<string>, parse: Parser)
    requires |xs| > 0 && !OpensBlock(xs[0])
    requires Scan(xs[1..] + ys, parse) == Scan(xs[1..], parse) + Scan(ys, parse)
    ensures Scan(xs + ys, parse) == Scan(xs, parse) + Scan(ys, parse)
  {
    var head := LineBlocks(xs[0]);
    Seqs.TailOfAppend(xs, ys);
    ScanPlainCons(xs + ys, parse);
    ScanPlainCons(xs, parse);
    Seqs.AppendAssoc(head, Scan(xs[1..], parse), Scan(ys, parse));
  }

  /** Joining two texts with a newline concatenates their blocks when the first
      has no line that opens a component block. */
  lemma RenderAppend(a: string, b: string, parse: Parser)
    requires forall k :: 0 <= k < |SplitLines(a)| ==> !OpensBlock(SplitLines(a)[k])
    ensures Render(a + "\n" + b, parse) == Render(a, parse) + Render(b, parse)
  {
    SplitAppend(a, b);
    ScanAppend(SplitLines(a), SplitLines(b), parse);
  }

  /** The empty text renders nothing. */
  lemma EmptyRendersNothing(parse: Parser)
    ensures Render("", parse) == []
  {
    assert SplitLines("") == [""];
    assert IsBlank("");
  }

  /** A heading line, a blank line, then a body: the heading comes first and the
      body renders as on its own. */
  lemma HeadingThenBody(title: string, body: string, parse: Parser)
    requires '\n' !in title
    ensures Render("# " + title + "\n\n" + body, parse) == [Heading(1, title)] + Render(body, parse)
  {
    var h := "# " + title;
    var rest := "\n" + body;
    HeadingLine(title, parse);
    RenderAppend(h, rest, parse);
    BlankThenBody(body, parse);
    BlankLineBetween(h, body);
  }

  /** A heading line on its own: one level-1 heading, and no component block. */
  lemma HeadingLine(title: string, parse: Parser)
    requires '\n' !in title
    ensures SplitLines("# " + title) == ["# " + title]
    ensures !OpensBlock("# " + title)
    ensures Render("# " + title, parse) == [Heading(1, title)]
  {
    var h := "# " + title;
    assert '\n' !in h by {
      assert forall k :: 0 <= k < |h| ==> h[k] == if k < 2 then "# "[k] else title[k - 2];
    }
    SplitNoNewline(h);
    assert !IsBlank(h) by {
      assert !IsSpace(h[0]);
      BlankIffAllSpace(h);
    }
    assert h[..2] == "# ";
    assert h[2..] == title;
    ScanPlainCons([h], parse);
    assert [h][1..] == [];
  }

  /** A leading empty line renders nothing. */
  lemma BlankThenBody(body: string, parse: Parser)
    ensures Render("\n" + body, parse) == Render(body, parse)
  {
    var lines := SplitLines("\n" + body);
    assert lines == [""] + SplitLines(body) by {
      assert SplitLines("") == [""];
      assert "" + "\n" + body == "\n" + body;
      SplitAppend("", body);
    }
    assert IsBlank("");
    ScanPlainCons(lines, parse);
    assert lines[1..] == SplitLines(body);
  }
}
