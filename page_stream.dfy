/**
 * `structured_page_stream` (main.py:282-353): the records the
 * `/tools/aippt` endpoint streams. First the pages of the cover-and-contents
 * stream, then, for every chapter in outline order, the pages of the stream
 * the LLM produces for that chapter's rendered `section_content`, and finally
 * the end record. An exception from any stream yields one error record and
 * ends the response.
 */
module PageStream {
  import opened Wrappers
  import opened Outline
  import Render
  import opened Resegment

  /** The record that closes a stream that ran to the end. */
  const End: string := "{\"type\": \"end\"}"

  /** The text that opens every error message ("error during generation: "). */
  const ErrorPrefix: string := "生成过程中出错: "

  /** What an error record starts with, before the exception's message. */
  const ErrorOpening: string := "{\"error\": \"" + ErrorPrefix

  /**
   * The record yielded instead of everything else once a stream raised
   * `message`: the message stands unchanged between the fixed opening and
   * the closing `"}`, so it can be read back from the record.
   */
  function ErrorRecord(message: string): (r: string)
    ensures |r| == |ErrorOpening| + |message| + 2
    ensures r[..|ErrorOpening|] == ErrorOpening && r[|ErrorOpening|..|r| - 2] == message && r[|r| - 2..] == "\"}"
  {
    var r := ErrorOpening + message + "\"}";
    assert r[|ErrorOpening|..|r| - 2] == message;
    r
  }

  /**
   * The streams the generator reads, in order: the cover-and-contents
   * stream, then per chapter the stream drafted from the chapter's title and
   * rendered text. `draft` stands for the section-content chain; it is given
   * the chapter's position as well, because every call of the chain is a fresh
   * sampled completion, and two chapters with the same text may get
   * different streams.
   */
  function Streams(cover: Upstream, chapters: seq<Chapter>, draft: (nat, string, string) -> Upstream): seq<Upstream> {
    [cover] + seq(|chapters|, i requires 0 <= i < |chapters| => draft(i, chapters[i].title, Render.ChapterText(chapters[i])))
  }

  /** What re-segmenting one stream gives: its pages, and its exception if it raised one. */
  datatype Outcome = Outcome(pages: seq<string>, failure: Option<string>)

  /** Each stream re-segmented, as `Paginate` does it. */
  function Outcomes(us: seq<Upstream>): seq<Outcome> {
    seq(|us|, i requires 0 <= i < |us| => Outcome(Pages(us[i]), us[i].failure))
  }

  /** The records yielded for the given outcomes, read in order. */
  function Emit(os: seq<Outcome>): seq<string> {
    if os == [] then [End]
    else if os[0].failure.Some? then os[0].pages + [ErrorRecord(os[0].failure.value)]
    else os[0].pages + Emit(os[1..])
  }

  /**
   * The generator: every stream re-segmented in turn (see `Paginate`), the
   * end record after the last, an error record in place of the rest as soon
   * as a stream fails.
   */
  method StructuredPageStream(cover: Upstream, chapters: seq<Chapter>, draft: (nat, string, string) -> Upstream)
    returns (records: seq<string>)
    ensures records == Emit(Outcomes(Streams(cover, chapters, draft)))
  {
    ghost var os := Outcomes(Streams(cover, chapters, draft));
    records := [];
    var pages, failure := Paginate(cover);
    OutcomesAt(cover, chapters, draft, 0);
    EmitStep(os, 0, records);
    records := records + pages;
    if failure.Some? {
      records := records + [ErrorRecord(failure.value)];
      return;
    }
    for i := 0 to |chapters|
      invariant Emit(os) == records + Emit(os[i + 1..])
    {
      var chapter := chapters[i];
      var sectionContent := Render.RenderChapter(chapter);
      pages, failure := Paginate(draft(i, chapter.title, sectionContent));
      OutcomesAt(cover, chapters, draft, i + 1);
      EmitStep(os, i + 1, records);
      records := records + pages;
      if failure.Some? {
        records := records + [ErrorRecord(failure.value)];
        return;
      }
    }
    assert os[|chapters| + 1..] == [];
    records := records + [End];
  }

  /** Stream `0` is the cover, stream `i + 1` the draft of chapter `i`. */
  lemma OutcomesAt(cover: Upstream, chapters: seq<Chapter>, draft: (nat, string, string) -> Upstream, i: nat)
    requires i <= |chapters|
    ensures var os := Outcomes(Streams(cover, chapters, draft));
      |os| == |chapters| + 1
      && os[i] == (var u := if i == 0 then cover else draft(i - 1, chapters[i - 1].title, Render.ChapterText(chapters[i - 1]));
                   Outcome(Pages(u), u.failure))
  {
  }

  /** Emitting from outcome `i` on: its pages, then its error record or the records of the outcomes after it. */
  lemma EmitStep(os: seq<Outcome>, i: nat, records: seq<string>)
    requires i < |os| && Emit(os) == records + Emit(os[i..])
    ensures os[i].failure.Some? ==> Emit(os) == (records + os[i].pages) + [ErrorRecord(os[i].failure.value)]
    ensures os[i].failure.None? ==> Emit(os) == (records + os[i].pages) + Emit(os[i + 1..])
  {
    assert os[i..][0] == os[i];
    assert os[i..][1..] == os[i + 1..];
  }

  /** Every page of the given outcomes, in order. */
  function AllPages(os: seq<Outcome>): seq<string> {
    if os == [] then [] else os[0].pages + AllPages(os[1..])
  }

  /** When no stream fails: all their pages in order, then the end record. */
  lemma {:induction false} CompletedStream(os: seq<Outcome>)
    requires forall k | 0 <= k < |os| :: os[k].failure.None?
    ensures Emit(os) == AllPages(os) + [End]
  {
    if os != [] {
      CompletedStream(os[1..]);
    }
  }

  /**
   * When stream `j` is the first to fail: the pages of the streams up to it,
   * then its error record, and nothing from the streams after it.
   */
  lemma {:induction false} FailedStream(os: seq<Outcome>, j: nat)
    requires j < |os| && os[j].failure.Some?
    requires forall k | 0 <= k < j :: os[k].failure.None?
    ensures Emit(os) == AllPages(os[..j + 1]) + [ErrorRecord(os[j].failure.value)]
  {
    if j == 0 {
      assert os[..1] == [os[0]];
      assert AllPages([os[0]]) == os[0].pages + AllPages([]);
    } else {
      FailedStream(os[1..], j - 1);
      assert os[1..][..j] == os[1..j + 1];
      assert os[..j + 1] == [os[0]] + os[1..j + 1];
    }
  }

  /** The records that end a response are not pages. */
  lemma ClosingRecords(message: string)
    ensures !Record(End) && !Record(ErrorRecord(message)) && ErrorRecord(message) != End
  {
    var e := ErrorRecord(message);
    assert e[|e| - 1] == '}';
    assert End[|End| - 1] == '}';
    assert e[2] == 'e' && End[2] == 't';
  }

  /**
   * The shape of every response whose outcomes hold only pages: pages, then
   * exactly one closing record, which is the end record exactly when no
   * stream failed.
   */
  lemma {:induction false} StreamShape(os: seq<Outcome>)
    requires forall k, j | 0 <= k < |os| && 0 <= j < |os[k].pages| :: Record(os[k].pages[j])
    ensures var r := Emit(os);
      |r| >= 1
      && (forall k | 0 <= k < |r| - 1 :: Record(r[k]))
      && !Record(r[|r| - 1])
      && (r[|r| - 1] == End <==> forall k | 0 <= k < |os| :: os[k].failure.None?)
  {
    var r := Emit(os);
    if os == [] {
      ClosingRecords("");
    } else {
      var o := os[0];
      var tail := if o.failure.Some? then [ErrorRecord(o.failure.value)] else Emit(os[1..]);
      assert r == o.pages + tail;
      if o.failure.Some? {
        ClosingRecords(o.failure.value);
      } else {
        StreamShape(os[1..]);
        assert (forall k | 0 <= k < |os| :: os[k].failure.None?)
               <==> (forall k | 0 <= k < |os[1..]| :: os[1..][k].failure.None?) by {
          forall k | 0 < k < |os| ensures os[k] == os[1..][k - 1] {}
        }
      }
      forall k | 0 <= k < |r| - 1 ensures Record(r[k]) {
        if k >= |o.pages| {
          assert r[k] == tail[k - |o.pages|];
        } else {
          assert Record(o.pages[k]);
        }
      }
    }
  }

  /** The re-segmented streams hold only pages, so every response has the shape `StreamShape` states. */
  lemma OutcomesArePages(us: seq<Upstream>)
    ensures var os := Outcomes(us);
      forall k, j | 0 <= k < |os| && 0 <= j < |os[k].pages| :: Record(os[k].pages[j])
  {
    forall k | 0 <= k < |us| ensures forall j | 0 <= j < |Pages(us[k])| :: Record(Pages(us[k])[j]) {
      PageShape(us[k]);
    }
  }

  /**
   * The generator for an outline whose streams all complete: the cover
   * pages, then each chapter's pages in outline order, then the end record.
   */
  lemma CompletedDeck(cover: Upstream, chapters: seq<Chapter>, draft: (nat, string, string) -> Upstream)
    requires cover.failure.None?
    requires forall i | 0 <= i < |chapters| :: draft(i, chapters[i].title, Render.ChapterText(chapters[i])).failure.None?
    ensures var os := Outcomes(Streams(cover, chapters, draft));
      Emit(os) == Pages(cover) + AllPages(os[1..]) + [End]
  {
    var os := Outcomes(Streams(cover, chapters, draft));
    forall k | 0 <= k < |os| ensures os[k].failure.None? {
      OutcomesAt(cover, chapters, draft, k);
    }
    CompletedStream(os);
    OutcomesAt(cover, chapters, draft, 0);
    assert AllPages(os) == os[0].pages + AllPages(os[1..]);
  }
}
