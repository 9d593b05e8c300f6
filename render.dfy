/**
 * main.py, the `section_content` text that `structured_page_stream` builds
 * for each chapter before asking the LLM for the chapter's pages: a `## `
 * line for the chapter, then for each section a `### ` line followed by one
 * `- ` line per item, every line ended by a newline. Reading it back with
 * `parse_outline` gives that chapter again (`RenderParseRoundTrip`).
 */
module Render {
  import opened Wrappers
  import opened Text
  import opened Outline

  function ItemLines(items: seq<string>): seq<string> {
    if items == [] then [] else ["- " + items[0]] + ItemLines(items[1..])
  }

  function SectionLines(s: Section): seq<string> {
    ["### " + s.title] + ItemLines(s.items)
  }

  function SectionsLines(ss: seq<Section>): seq<string> {
    if ss == [] then [] else SectionLines(ss[0]) + SectionsLines(ss[1..])
  }

  /** The lines written for one chapter, without their newlines. */
  function ChapterLines(ch: Chapter): seq<string> {
    ["## " + ch.title] + SectionsLines(ch.sections)
  }

  /** The lines, each followed by a newline. */
  function Terminated(lines: seq<string>): string {
    if lines == [] then "" else lines[0] + "\n" + Terminated(lines[1..])
  }

  /** The text `structured_page_stream` sends to the LLM as `section_content` for chapter `ch`. */
  function ChapterText(ch: Chapter): string {
    Terminated(ChapterLines(ch))
  }

  lemma {:induction false} TerminatedConcat(a: seq<string>, b: seq<string>)
    ensures Terminated(a + b) == Terminated(a) + Terminated(b)
  {
    if a == [] {
      assert a + b == b;
    } else {
      assert (a + b)[1..] == a[1..] + b;
      TerminatedConcat(a[1..], b);
    }
  }

  lemma {:induction false} ItemLinesConcat(a: seq<string>, b: seq<string>)
    ensures ItemLines(a + b) == ItemLines(a) + ItemLines(b)
  {
    if a == [] {
      assert a + b == b;
    } else {
      assert (a + b)[1..] == a[1..] + b;
      ItemLinesConcat(a[1..], b);
    }
  }

  lemma {:induction false} SectionsLinesConcat(a: seq<Section>, b: seq<Section>)
    ensures SectionsLines(a + b) == SectionsLines(a) + SectionsLines(b)
  {
    if a == [] {
      assert a + b == b;
    } else {
      assert (a + b)[1..] == a[1..] + b;
      SectionsLinesConcat(a[1..], b);
    }
  }

  lemma TerminatedAppend(done: seq<string>, line: string)
    ensures Terminated(done + [line]) == Terminated(done) + (line + "\n")
  {
    TerminatedConcat(done, [line]);
    assert [line][1..] == [];
  }

  lemma ItemLinesStep(items: seq<string>, j: nat)
    requires j < |items|
    ensures ItemLines(items[..j + 1]) == ItemLines(items[..j]) + ["- " + items[j]]
  {
    ItemLinesConcat(items[..j], [items[j]]);
    assert items[..j + 1] == items[..j] + [items[j]];
    assert ItemLines([items[j]]) == ["- " + items[j]] + ItemLines([]);
  }

  lemma SectionsLinesStep(ss: seq<Section>, i: nat)
    requires i < |ss|
    ensures SectionsLines(ss[..i + 1]) == SectionsLines(ss[..i]) + SectionLines(ss[i])
  {
    SectionsLinesConcat(ss[..i], [ss[i]]);
    assert ss[..i + 1] == ss[..i] + [ss[i]];
    assert SectionsLines([ss[i]]) == SectionLines(ss[i]) + SectionsLines([]);
  }

  /**
   * The renderer of main.py:314-318: the chapter line, then one section at a
   * time (see `AppendSection`), all appended to `text`.
   */
  method RenderChapter(ch: Chapter) returns (text: string)
    ensures text == ChapterText(ch)
  {
    text := "## " + ch.title + "\n";
    RenderedStart(ch);
    for i := 0 to |ch.sections|
      invariant text == Rendered(ch, i)
    {
      RenderedStep(ch, i);
      text := AppendSection(text, ch.sections[i]);
    }
    RenderedAll(ch);
  }

  /** What the renderer has written once it has done the first `i` sections. */
  function Rendered(ch: Chapter, i: nat): string
    requires i <= |ch.sections|
  {
    Terminated(["## " + ch.title] + SectionsLines(ch.sections[..i]))
  }

  lemma RenderedStart(ch: Chapter)
    ensures Rendered(ch, 0) == "## " + ch.title + "\n"
  {
    assert ["## " + ch.title] + SectionsLines(ch.sections[..0]) == ["## " + ch.title];
    TerminatedAppend([], "## " + ch.title);
  }

  lemma RenderedStep(ch: Chapter, i: nat)
    requires i < |ch.sections|
    ensures Rendered(ch, i + 1) == Rendered(ch, i) + Terminated(SectionLines(ch.sections[i]))
  {
    var head, before, block := ["## " + ch.title], SectionsLines(ch.sections[..i]), SectionLines(ch.sections[i]);
    SectionsLinesStep(ch.sections, i);
    assert head + SectionsLines(ch.sections[..i + 1]) == (head + before) + block;
    TerminatedConcat(head + before, block);
  }

  lemma RenderedAll(ch: Chapter)
    ensures Rendered(ch, |ch.sections|) == ChapterText(ch)
  {
    assert ch.sections[..|ch.sections|] == ch.sections;
  }

  /** The body of the renderer's outer loop: a section's `### ` line and its items' `- ` lines, appended to `text`. */
  method AppendSection(text: string, section: Section) returns (result: string)
    ensures result == text + Terminated(SectionLines(section))
  {
    result := text + ("### " + section.title + "\n");
    ItemsStart(section);
    for j := 0 to |section.items|
      invariant result == text + RenderedItems(section, j)
    {
      ItemsStep(section, j);
      result := result + ("- " + section.items[j] + "\n");
    }
    assert section.items[..|section.items|] == section.items;
  }

  /** What is written for a section once its first `j` items are done. */
  function RenderedItems(s: Section, j: nat): string
    requires j <= |s.items|
  {
    Terminated(["### " + s.title] + ItemLines(s.items[..j]))
  }

  lemma ItemsStart(s: Section)
    ensures RenderedItems(s, 0) == "### " + s.title + "\n"
  {
    assert ["### " + s.title] + ItemLines(s.items[..0]) == ["### " + s.title];
    TerminatedAppend([], "### " + s.title);
  }

  lemma ItemsStep(s: Section, j: nat)
    requires j < |s.items|
    ensures RenderedItems(s, j + 1) == RenderedItems(s, j) + ("- " + s.items[j] + "\n")
  {
    var head, before, line := ["### " + s.title], ItemLines(s.items[..j]), "- " + s.items[j];
    ItemLinesStep(s.items, j);
    assert head + ItemLines(s.items[..j + 1]) == (head + before) + [line];
    TerminatedAppend(head + before, line);
  }

  // ---------------------------------------------------------------------------
  // Round trip through parse_outline
  // ---------------------------------------------------------------------------

  /** A title or item the outline format can carry unchanged: non-empty, already stripped, one line. */
  predicate Clean(t: string) {
    t != "" && Strip(t) == t && '\n' !in t
  }

  predicate WellFormed(ch: Chapter) {
    Clean(ch.title)
    && forall i | 0 <= i < |ch.sections| ::
         Clean(ch.sections[i].title)
         && forall j | 0 <= j < |ch.sections[i].items| :: Clean(ch.sections[i].items[j])
  }

  /** A clean text behind a marker is a line `strip()` leaves alone, and it reads back as that text. */
  lemma MarkedLine(marker: string, t: string)
    requires marker != "" && !IsSpace(marker[0])
    requires Clean(t)
    ensures Strip(marker + t) == marker + t
    ensures (marker + t)[|marker|..] == t
  {
    StripEnds(t);
    var l := marker + t;
    assert l[0] == marker[0];
    assert l[|l| - 1] == t[|t| - 1];
    StripFixedPoint(l);
  }

  lemma ClassifyChapterLine(t: string)
    requires Clean(t)
    ensures Classify("## " + t) == ChapterHeading(t)
  {
    MarkedLine("## ", t);
    assert ("## " + t)[1] == '#';
  }

  lemma ClassifySectionLine(t: string)
    requires Clean(t)
    ensures Classify("### " + t) == SectionHeading(t)
  {
    MarkedLine("### ", t);
    assert ("### " + t)[1] == '#';
    assert ("### " + t)[2] == '#';
  }

  lemma ClassifyItemLine(t: string)
    requires Clean(t)
    ensures Classify("- " + t) == Item(t)
  {
    MarkedLine("- ", t);
    assert ("- " + t)[0] == '-';
  }

  function ItemKinds(items: seq<string>): seq<LineKind> {
    if items == [] then [] else [Item(items[0])] + ItemKinds(items[1..])
  }

  function SectionsKinds(ss: seq<Section>): seq<LineKind> {
    if ss == [] then [] else [SectionHeading(ss[0].title)] + ItemKinds(ss[0].items) + SectionsKinds(ss[1..])
  }

  lemma {:induction false} ItemLinesKinds(items: seq<string>)
    requires forall j | 0 <= j < |items| :: Clean(items[j])
    ensures Kinds(ItemLines(items)) == ItemKinds(items)
  {
    if items != [] {
      ClassifyItemLine(items[0]);
      ItemLinesKinds(items[1..]);
      KindsConcat(["- " + items[0]], ItemLines(items[1..]));
      assert Kinds(["- " + items[0]]) == [Item(items[0])];
    }
  }

  lemma {:induction false} SectionsLinesKinds(ss: seq<Section>)
    requires forall i | 0 <= i < |ss| :: Clean(ss[i].title) && forall j | 0 <= j < |ss[i].items| :: Clean(ss[i].items[j])
    ensures Kinds(SectionsLines(ss)) == SectionsKinds(ss)
  {
    if ss != [] {
      var s := ss[0];
      ClassifySectionLine(s.title);
      ItemLinesKinds(s.items);
      SectionsLinesKinds(ss[1..]);
      KindsConcat(SectionLines(s), SectionsLines(ss[1..]));
      KindsConcat(["### " + s.title], ItemLines(s.items));
      assert Kinds(["### " + s.title]) == [SectionHeading(s.title)];
    }
  }

  lemma {:induction false} ItemKindsRead(items: seq<string>, rest: seq<LineKind>)
    ensures ItemsUntilHeading(ItemKinds(items) + rest) == items + ItemsUntilHeading(rest)
    ensures SectionsUntilChapter(ItemKinds(items) + rest) == SectionsUntilChapter(rest)
    ensures ChaptersOf(ItemKinds(items) + rest) == ChaptersOf(rest)
    ensures LastTitle(ItemKinds(items) + rest) == LastTitle(rest)
  {
    if items == [] {
      assert ItemKinds(items) + rest == rest;
    } else {
      assert ItemKinds(items) + rest == [Item(items[0])] + (ItemKinds(items[1..]) + rest);
      ItemKindsRead(items[1..], rest);
      ItemFirst(items[0], ItemKinds(items[1..]) + rest);
    }
  }

  /** How the reference reading treats an item line in front of others. */
  lemma ItemFirst(x: string, ks: seq<LineKind>)
    ensures ItemsUntilHeading([Item(x)] + ks) == [x] + ItemsUntilHeading(ks)
    ensures SectionsUntilChapter([Item(x)] + ks) == SectionsUntilChapter(ks)
    ensures ChaptersOf([Item(x)] + ks) == ChaptersOf(ks)
    ensures LastTitle([Item(x)] + ks) == LastTitle(ks)
  {
    assert ([Item(x)] + ks)[1..] == ks;
  }

  lemma {:induction false} SectionsKindsRead(ss: seq<Section>)
    ensures SectionsUntilChapter(SectionsKinds(ss)) == ss
    ensures ItemsUntilHeading(SectionsKinds(ss)) == []
    ensures ChaptersOf(SectionsKinds(ss)) == []
    ensures LastTitle(SectionsKinds(ss)) == None
  {
    if ss != [] {
      var s := ss[0];
      var rest := ItemKinds(s.items) + SectionsKinds(ss[1..]);
      assert SectionsKinds(ss) == [SectionHeading(s.title)] + rest;
      SectionsKindsRead(ss[1..]);
      ItemKindsRead(s.items, SectionsKinds(ss[1..]));
      assert s.items + [] == s.items;
      assert ss == [s] + ss[1..];
    }
  }

  lemma {:induction false} TerminatedIsJoined(lines: seq<string>)
    requires lines != []
    ensures Terminated(lines) == Join(lines, '\n') + "\n"
  {
    if |lines| > 1 {
      TerminatedIsJoined(lines[1..]);
    }
  }

  lemma {:induction false} JoinedStarts(lines: seq<string>)
    requires lines != [] && lines[0] != ""
    ensures Join(lines, '\n') != "" && Join(lines, '\n')[0] == lines[0][0]
  {
  }

  lemma {:induction false} JoinedEnds(lines: seq<string>)
    requires lines != [] && lines[|lines| - 1] != ""
    ensures Join(lines, '\n') != ""
    ensures Join(lines, '\n')[|Join(lines, '\n')| - 1] == lines[|lines| - 1][|lines[|lines| - 1]| - 1]
  {
    if |lines| > 1 {
      JoinedEnds(lines[1..]);
    }
  }

  /** The content `parse_outline` splits is the rendered text without its final newline. */
  lemma StripRendered(ch: Chapter)
    requires WellFormed(ch)
    ensures Strip(ChapterText(ch)) == Join(ChapterLines(ch), '\n')
  {
    var lines := ChapterLines(ch);
    var last := lines[|lines| - 1];
    assert last != "" && !IsSpace(last[|last| - 1]) by {
      if ch.sections == [] {
        MarkedLine("## ", ch.title);
        StripEnds("## " + ch.title);
      } else {
        SectionsLastLine(ch.sections);
        SectionLastLine(ch.sections[|ch.sections| - 1]);
        assert last == SectionsLines(ch.sections)[|SectionsLines(ch.sections)| - 1];
      }
    }
    JoinedStarts(lines);
    JoinedEnds(lines);
    TerminatedIsJoined(lines);
    var j := Join(lines, '\n');
    assert lines[0][0] == '#';
    assert TrimLeft(j + "\n") == j + "\n";
    assert (j + "\n")[..|j + "\n"| - 1] == j;
    assert TrimRight(j + "\n") == TrimRight(j);
    assert TrimRight(j) == j;
  }

  /** The last line written for a non-empty list of sections is the last line of the last section. */
  lemma {:induction false} SectionsLastLine(ss: seq<Section>)
    requires ss != []
    ensures SectionsLines(ss) != []
    ensures SectionsLines(ss)[|SectionsLines(ss)| - 1] == SectionLines(ss[|ss| - 1])[|SectionLines(ss[|ss| - 1])| - 1]
  {
    if |ss| > 1 {
      SectionsLastLine(ss[1..]);
      assert SectionsLines(ss) == SectionLines(ss[0]) + SectionsLines(ss[1..]);
    } else {
      assert SectionsLines(ss) == SectionLines(ss[0]) + SectionsLines([]);
    }
  }

  /** The last line written for a section of clean texts ends with a non-space. */
  lemma SectionLastLine(s: Section)
    requires Clean(s.title) && forall j | 0 <= j < |s.items| :: Clean(s.items[j])
    ensures var l := SectionLines(s)[|SectionLines(s)| - 1]; l != "" && !IsSpace(l[|l| - 1])
  {
    if s.items == [] {
      MarkedLine("### ", s.title);
      StripEnds("### " + s.title);
    } else {
      LastItemLineClean(s.items);
    }
  }

  lemma {:induction false} LastItemLineClean(items: seq<string>)
    requires items != []
    requires forall j | 0 <= j < |items| :: Clean(items[j])
    ensures ItemLines(items) != []
    ensures var l := ItemLines(items)[|ItemLines(items)| - 1]; l == "- " + items[|items| - 1]
    ensures var l := ItemLines(items)[|ItemLines(items)| - 1]; l != "" && !IsSpace(l[|l| - 1])
  {
    if |items| > 1 {
      LastItemLineClean(items[1..]);
    } else {
      MarkedLine("- ", items[0]);
      StripEnds("- " + items[0]);
    }
  }

  lemma NoNewlineInLines(ch: Chapter)
    requires WellFormed(ch)
    ensures forall k | 0 <= k < |ChapterLines(ch)| :: '\n' !in ChapterLines(ch)[k]
  {
    SectionsLinesOneLine(ch.sections);
  }

  lemma {:induction false} SectionsLinesOneLine(ss: seq<Section>)
    requires forall i | 0 <= i < |ss| :: Clean(ss[i].title) && forall j | 0 <= j < |ss[i].items| :: Clean(ss[i].items[j])
    ensures forall k | 0 <= k < |SectionsLines(ss)| :: '\n' !in SectionsLines(ss)[k]
  {
    if ss != [] {
      SectionsLinesOneLine(ss[1..]);
      ItemLinesOneLine(ss[0].items);
    }
  }

  lemma {:induction false} ItemLinesOneLine(items: seq<string>)
    requires forall j | 0 <= j < |items| :: Clean(items[j])
    ensures forall k | 0 <= k < |ItemLines(items)| :: '\n' !in ItemLines(items)[k]
  {
    if items != [] {
      ItemLinesOneLine(items[1..]);
    }
  }

  /**
   * Rendering a chapter whose titles and items are non-empty, already
   * stripped and free of newlines, and parsing the text, gives a deck with
   * no title and exactly that chapter.
   */
  lemma RenderParseRoundTrip(ch: Chapter)
    requires WellFormed(ch)
    ensures Parsed(ChapterText(ch)) == Deck("", [ch])
  {
    var lines := ChapterLines(ch);
    StripRendered(ch);
    NoNewlineInLines(ch);
    SplitJoin(lines, '\n');
    assert Lines(ChapterText(ch)) == lines;
    ParserMatchesReference(lines);
    ClassifyChapterLine(ch.title);
    SectionsLinesKinds(ch.sections);
    KindsConcat(["## " + ch.title], SectionsLines(ch.sections));
    assert Kinds(["## " + ch.title]) == [ChapterHeading(ch.title)];
    var ks := [ChapterHeading(ch.title)] + SectionsKinds(ch.sections);
    assert Kinds(lines) == ks;
    SectionsKindsRead(ch.sections);
    assert ks[1..] == SectionsKinds(ch.sections);
  }
}
