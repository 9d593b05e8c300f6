/**
 * main.py `parse_outline`: the line-oriented reader of the Markdown-like
 * outline (`# ` deck title, `## ` chapter, `### ` section, `- ` item) that
 * builds the title / chapters / sections / items structure.
 *
 * `ParseOutline` is the loop of `parse_outline`. It is proved equal to `Parsed`,
 * a fold of `Step` over the lines, and that fold is proved equal to
 * `Reference`, an independent recursive-descent reading of the same lines;
 * the properties of the parser are stated about the two.
 */
module Outline {
  import opened Wrappers
  import opened Text

  datatype Section = Section(title: string, items: seq<string>)
  datatype Chapter = Chapter(title: string, sections: seq<Section>)
  /** The `{'title': ..., 'chapters': [...]}` dictionary. */
  datatype Deck = Deck(title: string, chapters: seq<Chapter>)

  /** What one line of the outline is, once stripped, by the first prefix it has. */
  datatype LineKind =
    | Blank
    | DeckTitle(text: string)
    | ChapterHeading(text: string)
    | SectionHeading(text: string)
    | Item(text: string)
    | Unrecognised

  /** The prefixes are tested in the order `parse_outline` tests them; the text after one is stripped again. */
  function Classify(line: string): (kind: LineKind)
    ensures kind == Blank <==> AllSpace(line)
  {
    StripEmpty(line);
    var l := Strip(line);
    if l == "" then Blank
    else if "# " <= l then DeckTitle(Strip(l[2..]))
    else if "## " <= l then ChapterHeading(Strip(l[3..]))
    else if "### " <= l then SectionHeading(Strip(l[4..]))
    else if "- " <= l then Item(Strip(l[2..]))
    else Unrecognised
  }

  /** The lines `parse_outline` iterates over: the stripped content split at each newline. */
  function Lines(content: string): seq<string> {
    Split(Strip(content), '\n')
  }

  // ---------------------------------------------------------------------------
  // The parser as a fold over the lines
  // ---------------------------------------------------------------------------

  /**
   * The loop's variables. In `parse_outline`, `current_section` is an alias of the
   * last section of `current_chapter`; here `sectionOpen` says that this
   * last section is the current one.
   */
  datatype ParserState = ParserState(title: string, chapters: seq<Chapter>, current: Option<Chapter>, sectionOpen: bool)

  predicate Valid(st: ParserState) {
    st.sectionOpen ==> st.current.Some? && |st.current.value.sections| > 0
  }

  const Start := ParserState("", [], None, false)

  /** The chapters once the open chapter, if any, has been appended. */
  function Closed(st: ParserState): seq<Chapter> {
    st.chapters + if st.current.Some? then [st.current.value] else []
  }

  /** `current_section['items'].append(text)`, seen through the chapter that holds the section. */
  function AppendItem(ch: Chapter, text: string): (r: Chapter)
    requires |ch.sections| > 0
    ensures r.title == ch.title && |r.sections| == |ch.sections|
  {
    var n := |ch.sections|;
    var last := ch.sections[n - 1];
    ch.(sections := ch.sections[..n - 1] + [last.(items := last.items + [text])])
  }

  /** One iteration of the loop body, on the line's kind. */
  function Step(st: ParserState, kind: LineKind): (r: ParserState)
    requires Valid(st)
    ensures Valid(r)
  {
    match kind
    case DeckTitle(t) => st.(title := t)
    case ChapterHeading(t) => ParserState(st.title, Closed(st), Some(Chapter(t, [])), false)
    case SectionHeading(t) =>
      if st.current.None? then st
      else
        var ch := st.current.value;
        st.(current := Some(ch.(sections := ch.sections + [Section(t, [])])), sectionOpen := true)
    case Item(t) =>
      if !st.sectionOpen then st else st.(current := Some(AppendItem(st.current.value, t)))
    case _ => st
  }

  /** The kind of each line, in order. */
  function Kinds(lines: seq<string>): (ks: seq<LineKind>)
    ensures |ks| == |lines|
  {
    if lines == [] then [] else [Classify(lines[0])] + Kinds(lines[1..])
  }

  lemma {:induction false} KindsAt(lines: seq<string>, k: nat)
    requires k < |lines|
    ensures Kinds(lines)[k] == Classify(lines[k])
  {
    if k > 0 {
      KindsAt(lines[1..], k - 1);
    }
  }

  function Run(st: ParserState, lines: seq<LineKind>): (r: ParserState)
    requires Valid(st)
    ensures Valid(r)
    decreases |lines|
  {
    if lines == [] then st else Run(Step(st, lines[0]), lines[1..])
  }

  function ParseLines(lines: seq<string>): Deck {
    var st := Run(Start, Kinds(lines));
    Deck(st.title, Closed(st))
  }

  /** What `parse_outline(content)` returns. */
  function Parsed(content: string): Deck {
    ParseLines(Lines(content))
  }

  lemma {:induction false} RunAppend(st: ParserState, lines: seq<LineKind>, line: LineKind)
    requires Valid(st)
    ensures Run(st, lines + [line]) == Step(Run(st, lines), line)
    decreases |lines|
  {
    if lines != [] {
      assert (lines + [line])[1..] == lines[1..] + [line];
      RunAppend(Step(st, lines[0]), lines[1..], line);
    }
  }

  lemma {:induction false} RunConcat(st: ParserState, a: seq<LineKind>, b: seq<LineKind>)
    requires Valid(st)
    ensures Run(st, a + b) == Run(Run(st, a), b)
    decreases |a|
  {
    if a == [] {
      assert a + b == b;
    } else {
      assert (a + b)[1..] == a[1..] + b;
      RunConcat(Step(st, a[0]), a[1..], b);
    }
  }

  // ---------------------------------------------------------------------------
  // The loop of parse_outline
  // ---------------------------------------------------------------------------

  /** The loop of `parse_outline`, over the lines of the stripped content. */
  method ParseOutline(content: string) returns (deck: Deck)
    ensures deck == Parsed(content)
    ensures deck == Reference(Lines(content))
  {
    var lines := Split(Strip(content), '\n');
    var title := "";
    var chapters: seq<Chapter> := [];
    var current: Option<Chapter> := None;
    var sectionOpen := false;
    ghost var kinds := Kinds(lines);
    for k := 0 to |lines|
      invariant Valid(ParserState(title, chapters, current, sectionOpen))
      invariant ParserState(title, chapters, current, sectionOpen) == Run(Start, kinds[..k])
    {
      RunAppend(Start, kinds[..k], kinds[k]);
      assert kinds[..k + 1] == kinds[..k] + [kinds[k]];
      var line := Strip(lines[k]);
      ghost var kind := kinds[k];
      KindsAt(lines, k);
      if line == "" {
        assert kind == Blank;
        continue;
      }
      if "# " <= line {
        assert kind == DeckTitle(Strip(line[2..]));
        title := Strip(line[2..]);
      } else if "## " <= line {
        assert kind == ChapterHeading(Strip(line[3..]));
        if current.Some? {
          chapters := chapters + [current.value];
        }
        current := Some(Chapter(Strip(line[3..]), []));
        sectionOpen := false;
      } else if "### " <= line {
        assert kind == SectionHeading(Strip(line[4..]));
        if current.Some? {
          var ch := current.value;
          current := Some(ch.(sections := ch.sections + [Section(Strip(line[4..]), [])]));
          sectionOpen := true;
        }
      } else if "- " <= line {
        assert kind == Item(Strip(line[2..]));
        if sectionOpen {
          current := Some(AppendItem(current.value, Strip(line[2..])));
        }
      } else {
        assert kind == Unrecognised;
      }
    }
    assert kinds[..|lines|] == kinds;
    if current.Some? {
      chapters := chapters + [current.value];
    }
    deck := Deck(title, chapters);
    RunAgainstReference(Start, kinds);
  }

  // ---------------------------------------------------------------------------
  // A reference reading of the outline, by recursive descent
  // ---------------------------------------------------------------------------

  /** The text of the last `# ` line, if there is one. */
  function LastTitle(lines: seq<LineKind>): Option<string> {
    if lines == [] then None
    else
      var later := LastTitle(lines[1..]);
      if later.Some? then later
      else if lines[0].DeckTitle? then Some(lines[0].text)
      else None
  }

  /** The `- ` items up to the next `### ` or `## ` line (`# ` lines do not end them). */
  function ItemsUntilHeading(lines: seq<LineKind>): seq<string> {
    if lines == [] then []
    else
      match lines[0]
      case ChapterHeading(_) => []
      case SectionHeading(_) => []
      case Item(t) => [t] + ItemsUntilHeading(lines[1..])
      case _ => ItemsUntilHeading(lines[1..])
  }

  /** The sections up to the next `## ` line, each with the items that follow its heading. */
  function SectionsUntilChapter(lines: seq<LineKind>): seq<Section> {
    if lines == [] then []
    else
      match lines[0]
      case ChapterHeading(_) => []
      case SectionHeading(t) => [Section(t, ItemsUntilHeading(lines[1..]))] + SectionsUntilChapter(lines[1..])
      case _ => SectionsUntilChapter(lines[1..])
  }

  /** One chapter per `## ` line, each with the sections that follow its heading. */
  function ChaptersOf(lines: seq<LineKind>): seq<Chapter> {
    if lines == [] then []
    else
      match lines[0]
      case ChapterHeading(t) => [Chapter(t, SectionsUntilChapter(lines[1..]))] + ChaptersOf(lines[1..])
      case _ => ChaptersOf(lines[1..])
  }

  /** The deck that the reading of the lines by recursive descent describes. */
  function Reference(lines: seq<string>): Deck {
    var ks := Kinds(lines);
    Deck(LastTitle(ks).GetOr(""), ChaptersOf(ks))
  }

  /** The sections of the open chapter once the lines still to come have added their items to the open section. */
  function Extended(ch: Chapter, sectionOpen: bool, lines: seq<LineKind>): seq<Section>
    requires sectionOpen ==> |ch.sections| > 0
  {
    if !sectionOpen then ch.sections
    else
      var n := |ch.sections|;
      var last := ch.sections[n - 1];
      ch.sections[..n - 1] + [last.(items := last.items + ItemsUntilHeading(lines))]
  }

  /** What the open chapter of `st` becomes once `lines` have been read. */
  function OpenPart(st: ParserState, lines: seq<LineKind>): seq<Chapter>
    requires Valid(st)
  {
    if st.current.None? then []
    else
      var ch := st.current.value;
      [Chapter(ch.title, Extended(ch, st.sectionOpen, lines) + SectionsUntilChapter(lines))]
  }

  /** The deck that state `st` and the lines still to read describe, by the reference reading. */
  function Expected(st: ParserState, lines: seq<LineKind>): Deck
    requires Valid(st)
  {
    Deck(LastTitle(lines).GetOr(st.title), st.chapters + OpenPart(st, lines) + ChaptersOf(lines))
  }

  lemma ExtendedByNothing(ch: Chapter, sectionOpen: bool, lines: seq<LineKind>)
    requires sectionOpen ==> |ch.sections| > 0
    requires ItemsUntilHeading(lines) == []
    ensures Extended(ch, sectionOpen, lines) == ch.sections
  {
    if sectionOpen {
      var n := |ch.sections|;
      var last := ch.sections[n - 1];
      assert last.(items := last.items + []) == last;
      assert ch.sections[..n - 1] + [last] == ch.sections;
    }
  }

  lemma ClosedOpenPart(st: ParserState, lines: seq<LineKind>)
    requires Valid(st)
    requires ItemsUntilHeading(lines) == [] && SectionsUntilChapter(lines) == []
    ensures st.chapters + OpenPart(st, lines) == Closed(st)
  {
    if st.current.Some? {
      var ch := st.current.value;
      ExtendedByNothing(ch, st.sectionOpen, lines);
      assert Extended(ch, st.sectionOpen, lines) + [] == ch.sections;
    }
  }

  /** Reading one more line moves the state on without changing the expected deck. */
  lemma StepAgainstReference(st: ParserState, line: LineKind, rest: seq<LineKind>)
    requires Valid(st)
    ensures Expected(st, [line] + rest) == Expected(Step(st, line), rest)
  {
    var lines := [line] + rest;
    assert lines[0] == line && lines[1..] == rest;
    var next := Step(st, line);
    match line
    case DeckTitle(t) => {
      assert ItemsUntilHeading(lines) == ItemsUntilHeading(rest);
      assert OpenPart(st, lines) == OpenPart(next, rest);
    }
    case ChapterHeading(t) => {
      ClosedOpenPart(st, lines);
      assert [] + SectionsUntilChapter(rest) == SectionsUntilChapter(rest);
      assert OpenPart(next, rest) == [Chapter(t, SectionsUntilChapter(rest))];
      assert ChaptersOf(lines) == OpenPart(next, rest) + ChaptersOf(rest);
    }
    case SectionHeading(t) => {
      if st.current.Some? {
        var ch := st.current.value;
        var section := Section(t, ItemsUntilHeading(rest));
        var secs := ch.sections + [Section(t, [])];
        assert secs[..|secs| - 1] == ch.sections;
        assert [] + ItemsUntilHeading(rest) == ItemsUntilHeading(rest);
        assert Extended(next.current.value, true, rest) == ch.sections + [section];
        ExtendedByNothing(ch, st.sectionOpen, lines);
        assert ch.sections + ([section] + SectionsUntilChapter(rest))
            == (ch.sections + [section]) + SectionsUntilChapter(rest);
      }
    }
    case Item(t) => {
      if st.sectionOpen {
        var ch := st.current.value;
        var n := |ch.sections|;
        var last := ch.sections[n - 1];
        var ch' := AppendItem(ch, t);
        assert ch'.sections[..n - 1] == ch.sections[..n - 1];
        assert ch'.sections[n - 1].items + ItemsUntilHeading(rest) == last.items + ([t] + ItemsUntilHeading(rest));
      }
    }
    case Blank => {}
    case Unrecognised => {}
  }

  /** From any state of the loop, the fold and the reference reading agree on the rest of the lines. */
  lemma {:induction false} RunAgainstReference(st: ParserState, lines: seq<LineKind>)
    requires Valid(st)
    ensures Deck(Run(st, lines).title, Closed(Run(st, lines))) == Expected(st, lines)
    decreases |lines|
  {
    if lines == [] {
      ClosedOpenPart(st, lines);
    } else {
      StepAgainstReference(st, lines[0], lines[1..]);
      assert [lines[0]] + lines[1..] == lines;
      RunAgainstReference(Step(st, lines[0]), lines[1..]);
    }
  }

  /** The fold of `parse_outline`'s loop and the recursive-descent reading give the same deck. */
  lemma ParserMatchesReference(lines: seq<string>)
    ensures ParseLines(lines) == Reference(lines)
  {
    var ks := Kinds(lines);
    RunAgainstReference(Start, ks);
    assert Closed(Run(Start, ks)) == ChaptersOf(ks);
  }

  // ---------------------------------------------------------------------------
  // Properties of the parser
  // ---------------------------------------------------------------------------

  lemma {:induction false} KindsConcat(a: seq<string>, b: seq<string>)
    ensures Kinds(a + b) == Kinds(a) + Kinds(b)
  {
    if a == [] {
      assert a + b == b;
    } else {
      assert (a + b)[1..] == a[1..] + b;
      KindsConcat(a[1..], b);
    }
  }

  lemma {:induction false} LastTitleIsLast(ks: seq<LineKind>, i: nat)
    requires i < |ks| && ks[i].DeckTitle?
    requires forall j | i < j < |ks| :: !ks[j].DeckTitle?
    ensures LastTitle(ks) == Some(ks[i].text)
  {
    if i == 0 {
      NoTitle(ks[1..]);
    } else {
      LastTitleIsLast(ks[1..], i - 1);
    }
  }

  lemma {:induction false} NoTitle(ks: seq<LineKind>)
    requires forall j | 0 <= j < |ks| :: !ks[j].DeckTitle?
    ensures LastTitle(ks) == None
  {
    if ks != [] {
      NoTitle(ks[1..]);
    }
  }

  /**
   * The deck title is the text of the last `# ` line (a later one overwrites
   * an earlier one), and empty when there is none.
   */
  lemma TitleIsLastDeckTitle(lines: seq<string>)
    ensures (forall i | 0 <= i < |lines| :: !Classify(lines[i]).DeckTitle?) ==> ParseLines(lines).title == ""
    ensures forall i | 0 <= i < |lines| && Classify(lines[i]).DeckTitle?
                       && (forall j | i < j < |lines| :: !Classify(lines[j]).DeckTitle?) ::
              ParseLines(lines).title == Classify(lines[i]).text
  {
    var ks := Kinds(lines);
    ParserMatchesReference(lines);
    forall j | 0 <= j < |lines| ensures ks[j] == Classify(lines[j]) {
      KindsAt(lines, j);
    }
    if forall i | 0 <= i < |lines| :: !Classify(lines[i]).DeckTitle? {
      NoTitle(ks);
    }
    forall i | 0 <= i < |lines| && Classify(lines[i]).DeckTitle?
               && (forall j | i < j < |lines| :: !Classify(lines[j]).DeckTitle?)
      ensures ParseLines(lines).title == Classify(lines[i]).text
    {
      LastTitleIsLast(ks, i);
    }
  }

  /** The texts of the `## ` lines, in order. */
  function ChapterHeadings(ks: seq<LineKind>): seq<string> {
    if ks == [] then []
    else if ks[0].ChapterHeading? then [ks[0].text] + ChapterHeadings(ks[1..])
    else ChapterHeadings(ks[1..])
  }

  lemma {:induction false} ChaptersFollowHeadings(ks: seq<LineKind>)
    ensures |ChaptersOf(ks)| == |ChapterHeadings(ks)|
    ensures forall k | 0 <= k < |ChaptersOf(ks)| :: ChaptersOf(ks)[k].title == ChapterHeadings(ks)[k]
  {
    if ks != [] {
      ChaptersFollowHeadings(ks[1..]);
    }
  }

  /**
   * One chapter per `## ` line, in input order, titled by that line: the
   * chapter still open at the end is appended exactly once, and no chapter
   * comes from anything else.
   */
  lemma ChaptersAreTheChapterHeadings(lines: seq<string>)
    ensures |ParseLines(lines).chapters| == |ChapterHeadings(Kinds(lines))|
    ensures forall k | 0 <= k < |ParseLines(lines).chapters| ::
              ParseLines(lines).chapters[k].title == ChapterHeadings(Kinds(lines))[k]
  {
    ParserMatchesReference(lines);
    ChaptersFollowHeadings(Kinds(lines));
  }

  /** A line that leaves the loop's state as it is can be taken out of the input. */
  lemma IgnoredLine(a: seq<string>, x: string, b: seq<string>)
    requires Step(Run(Start, Kinds(a)), Classify(x)) == Run(Start, Kinds(a))
    ensures ParseLines(a + [x] + b) == ParseLines(a + b)
  {
    KindsConcat(a + [x], b);
    KindsConcat(a, [x]);
    KindsConcat(a, b);
    assert Kinds([x]) == [Classify(x)];
    RunConcat(Start, Kinds(a) + [Classify(x)], Kinds(b));
    RunConcat(Start, Kinds(a), Kinds(b));
    RunAppend(Start, Kinds(a), Classify(x));
  }

  /** Blank and whitespace-only lines, and lines with no known prefix, are ignored wherever they stand. */
  lemma BlankOrUnrecognisedIgnored(a: seq<string>, x: string, b: seq<string>)
    requires Classify(x) == Blank || Classify(x) == Unrecognised
    ensures ParseLines(a + [x] + b) == ParseLines(a + b)
  {
    IgnoredLine(a, x, b);
  }

  lemma {:induction false} NoChapterNoCurrent(st: ParserState, ks: seq<LineKind>)
    requires Valid(st) && st.current.None?
    requires forall i | 0 <= i < |ks| :: !ks[i].ChapterHeading?
    ensures Run(st, ks).current.None?
    decreases |ks|
  {
    if ks != [] {
      NoChapterNoCurrent(Step(st, ks[0]), ks[1..]);
    }
  }

  lemma {:induction false} NoSectionNotOpen(st: ParserState, ks: seq<LineKind>)
    requires Valid(st) && !st.sectionOpen
    requires forall i | 0 <= i < |ks| :: !ks[i].SectionHeading?
    ensures !Run(st, ks).sectionOpen
    decreases |ks|
  {
    if ks != [] {
      NoSectionNotOpen(Step(st, ks[0]), ks[1..]);
    }
  }

  lemma KindsHave(lines: seq<string>)
    ensures forall i | 0 <= i < |lines| :: Kinds(lines)[i] == Classify(lines[i])
  {
    forall i | 0 <= i < |lines| ensures Kinds(lines)[i] == Classify(lines[i]) {
      KindsAt(lines, i);
    }
  }

  /** A `### ` line before the first `## ` line opens no section and is ignored. */
  lemma OrphanSectionIgnored(a: seq<string>, x: string, b: seq<string>)
    requires Classify(x).SectionHeading?
    requires forall i | 0 <= i < |a| :: !Classify(a[i]).ChapterHeading?
    ensures ParseLines(a + [x] + b) == ParseLines(a + b)
  {
    KindsHave(a);
    NoChapterNoCurrent(Start, Kinds(a));
    IgnoredLine(a, x, b);
  }

  /** A `- ` line before the first `### ` line has no section to go to and is ignored. */
  lemma OrphanItemIgnored(a: seq<string>, x: string, b: seq<string>)
    requires Classify(x).Item?
    requires forall i | 0 <= i < |a| :: !Classify(a[i]).SectionHeading?
    ensures ParseLines(a + [x] + b) == ParseLines(a + b)
  {
    KindsHave(a);
    NoSectionNotOpen(Start, Kinds(a));
    IgnoredLine(a, x, b);
  }

  /** A `- ` line right after a `## ` line is ignored: the new chapter has no open section. */
  lemma ItemAfterChapterHeadingIgnored(a: seq<string>, h: string, x: string, b: seq<string>)
    requires Classify(h).ChapterHeading? && Classify(x).Item?
    ensures ParseLines(a + [h, x] + b) == ParseLines(a + [h] + b)
  {
    KindsConcat(a, [h]);
    assert Kinds([h]) == [Classify(h)];
    RunAppend(Start, Kinds(a), Classify(h));
    IgnoredLine(a + [h], x, b);
    assert a + [h] + [x] + b == a + [h, x] + b;
  }
}
