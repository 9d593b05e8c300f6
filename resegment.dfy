/**
 * The re-segmenter inside `structured_page_stream` (main.py:288-307, repeated
 * for every chapter at main.py:320-340): the chunks of one LLM stream are
 * appended to a `buffer`; whenever the buffer holds `"\n\n"` it is partitioned
 * at the first occurrence and the part before it becomes a page, which is
 * yielded (with the separator) unless it is blank; at the end of the stream a
 * non-blank remainder is yielded with `"\n\n"` appended.
 *
 * `Cut` is the specification: the leftmost splitting of the whole streamed
 * text at `"\n\n"`. `Paginate` is the loop, proved to yield `Pages`, which
 * depends only on the concatenated text.
 */
module Resegment {
  import opened Wrappers
  import opened Text

  const Separator: string := "\n\n"

  /** The separator starts at position `i` of `s`. */
  predicate SepAt(s: string, i: int) {
    0 <= i && i + 1 < |s| && s[i] == '\n' && s[i + 1] == '\n'
  }

  /** `"\n\n" not in s` */
  predicate NoSep(s: string) {
    forall i | 0 <= i < |s| :: !SepAt(s, i)
  }

  /** `s.find("\n\n")`, or `None` when it is absent. */
  function FindSep(s: string): (r: Option<nat>)
    ensures r.None? <==> NoSep(s)
    ensures r.Some? ==> SepAt(s, r.value) && forall j | 0 <= j < r.value :: !SepAt(s, j)
    decreases |s|
  {
    if |s| < 2 then None
    else if s[0] == '\n' && s[1] == '\n' then
      assert SepAt(s, 0);
      Some(0)
    else
      var r := FindSep(s[1..]);
      assert !SepAt(s, 0);
      if r.None? then
        assert NoSep(s) by {
          forall j | 0 < j < |s| ensures !SepAt(s, j) {
            assert !SepAt(s[1..], j - 1);
          }
        }
        None
      else
        assert SepAt(s[1..], r.value);
        assert forall j | 0 <= j < r.value + 1 :: !SepAt(s, j) by {
          forall j | 0 < j < r.value + 1 ensures !SepAt(s, j) {
            assert !SepAt(s[1..], j - 1);
          }
        }
        assert SepAt(s, r.value + 1);
        Some(r.value + 1)
  }

  /** The Python condition `"\n\n" in buffer`. */
  predicate HasSep(s: string) {
    FindSep(s).Some?
  }

  /**
   * `s.partition("\n\n")`: the text before the first separator, the separator
   * and the text after it; `(s, "", "")` when there is no separator.
   */
  function Partition(s: string): (r: (string, string, string))
    ensures r.0 + r.1 + r.2 == s
    ensures HasSep(s) ==> r.1 == Separator && SepAt(s, |r.0|) && forall j | 0 <= j < |r.0| :: !SepAt(s, j)
    ensures !HasSep(s) ==> r == (s, "", "")
  {
    match FindSep(s)
    case None => (s, "", "")
    case Some(i) =>
      assert s == s[..i] + Separator + s[i + 2..];
      (s[..i], Separator, s[i + 2..])
  }

  /**
   * What a page body taken from before the first separator looks like: it
   * holds no separator and does not end with a newline (else the separator
   * would have started one character earlier).
   */
  predicate Segment(s: string) {
    NoSep(s) && (s != "" ==> s[|s| - 1] != '\n')
  }

  /** Every segment followed by its separator. */
  function Rejoin(segments: seq<string>): string {
    if segments == [] then "" else segments[0] + Separator + Rejoin(segments[1..])
  }

  /** The streamed text cut at every separator, leftmost first, and what is left over. */
  datatype Cutting = Cutting(segments: seq<string>, remainder: string)

  /** Repeated `partition` of the whole text (see `CutNoLoss`, `CutSegments`, `CutRemainder`, `CutUnique`). */
  function Cut(t: string): Cutting
    decreases |t|
  {
    match FindSep(t)
    case None => Cutting([], t)
    case Some(i) =>
      var rest := Cut(t[i + 2..]);
      Cutting([t[..i]] + rest.segments, rest.remainder)
  }

  /**
   * Nothing is lost: the segments, each followed by its separator, then the
   * remainder, give back `t`.
   */
  lemma {:induction false} CutNoLoss(t: string)
    ensures Rejoin(Cut(t).segments) + Cut(t).remainder == t
    decreases |t|
  {
    match FindSep(t)
    case None =>
    case Some(i) =>
      FirstPartition(t, i);
      CutNoLoss(t[i + 2..]);
      ConsNoLoss(t, t[..i], t[i + 2..], Cut(t[i + 2..]));
  }

  lemma ConsNoLoss(t: string, head: string, tail: string, c: Cutting)
    requires t == head + Separator + tail && Rejoin(c.segments) + c.remainder == tail
    ensures Rejoin([head] + c.segments) + c.remainder == t
  {
    RejoinCons(head, c.segments);
  }

  /** Every segment is the text before a first separator. */
  lemma {:induction false} CutSegments(t: string)
    ensures forall k | 0 <= k < |Cut(t).segments| :: Segment(Cut(t).segments[k])
    decreases |t|
  {
    match FindSep(t)
    case None =>
    case Some(i) =>
      FirstPartition(t, i);
      CutSegments(t[i + 2..]);
      var rest := Cut(t[i + 2..]);
      assert Cut(t).segments == [t[..i]] + rest.segments;
  }

  /** The remainder holds no separator. */
  lemma {:induction false} CutRemainder(t: string)
    ensures NoSep(Cut(t).remainder)
    decreases |t|
  {
    match FindSep(t)
    case None =>
    case Some(i) =>
      CutRemainder(t[i + 2..]);
  }

  lemma RejoinCons(head: string, segments: seq<string>)
    ensures Rejoin([head] + segments) == head + Separator + Rejoin(segments)
  {
    assert ([head] + segments)[1..] == segments;
  }

  /** The text before the first separator is a `Segment`. */
  lemma FirstPartition(t: string, i: nat)
    requires SepAt(t, i) && forall j | 0 <= j < i :: !SepAt(t, j)
    ensures Segment(t[..i]) && t == t[..i] + Separator + t[i + 2..]
  {
    var head := t[..i];
    forall j | 0 <= j < |head| ensures !SepAt(head, j) {
      assert !SepAt(t, j);
      assert j + 1 < |head| ==> head[j] == t[j] && head[j + 1] == t[j + 1];
    }
    assert head != "" ==> !SepAt(t, i - 1);
  }

  lemma {:induction false} RejoinConcat(x: seq<string>, y: seq<string>)
    ensures Rejoin(x + y) == Rejoin(x) + Rejoin(y)
  {
    if x == [] {
      assert x + y == y;
    } else {
      assert (x + y)[1..] == x[1..] + y;
      RejoinConcat(x[1..], y);
    }
  }

  /**
   * `Cut` is the only way to write `t` as segments, each followed by a
   * separator, and a remainder without a separator.
   */
  lemma {:induction false} CutUnique(segments: seq<string>, remainder: string)
    requires forall k | 0 <= k < |segments| :: Segment(segments[k])
    requires NoSep(remainder)
    ensures Cut(Rejoin(segments) + remainder) == Cutting(segments, remainder)
  {
    var t := Rejoin(segments) + remainder;
    if segments == [] {
      assert t == remainder;
    } else {
      var s0, more := segments[0], segments[1..];
      var tail := Rejoin(more) + remainder;
      assert t == s0 + Separator + tail;
      assert SepAt(t, |s0|);
      forall j | 0 <= j < |s0| ensures !SepAt(t, j) {
        if j + 1 < |s0| {
          assert !SepAt(s0, j);
        }
      }
      assert FindSep(t) == Some(|s0|);
      assert t[..|s0|] == s0;
      assert t[|s0| + 2..] == tail;
      CutUnique(more, remainder);
      assert [s0] + more == segments;
    }
  }

  /**
   * Cutting continues where it left off: cutting `a + b` gives the segments
   * of `a`, then those of `a`'s remainder followed by `b`.
   */
  lemma CutAppend(a: string, b: string)
    ensures var ca := Cut(a); var cb := Cut(ca.remainder + b);
      Cut(a + b) == Cutting(ca.segments + cb.segments, cb.remainder)
  {
    var ca := Cut(a);
    CutNoLoss(a);
    CutSegments(a);
    var cb := Cut(ca.remainder + b);
    CutNoLoss(ca.remainder + b);
    CutSegments(ca.remainder + b);
    CutRemainder(ca.remainder + b);
    JoinCuttings(a, b, ca, cb);
    CutUnique(ca.segments + cb.segments, cb.remainder);
  }

  lemma JoinCuttings(a: string, b: string, ca: Cutting, cb: Cutting)
    requires Rejoin(ca.segments) + ca.remainder == a
    requires Rejoin(cb.segments) + cb.remainder == ca.remainder + b
    requires forall k | 0 <= k < |ca.segments| :: Segment(ca.segments[k])
    requires forall k | 0 <= k < |cb.segments| :: Segment(cb.segments[k])
    ensures Rejoin(ca.segments + cb.segments) + cb.remainder == a + b
    ensures forall k | 0 <= k < |ca.segments + cb.segments| :: Segment((ca.segments + cb.segments)[k])
  {
    var both := ca.segments + cb.segments;
    forall k | 0 <= k < |both| ensures Segment(both[k]) {
      if k < |ca.segments| {
        assert both[k] == ca.segments[k];
      } else {
        assert both[k] == cb.segments[k - |ca.segments|];
      }
    }
    RejoinConcat(ca.segments, cb.segments);
    calc {
      Rejoin(ca.segments + cb.segments) + cb.remainder;
      Rejoin(ca.segments) + (Rejoin(cb.segments) + cb.remainder);
      Rejoin(ca.segments) + (ca.remainder + b);
      (Rejoin(ca.segments) + ca.remainder) + b;
    }
  }

  /** The pages yielded for the given segments: the non-blank ones, with their separator. */
  function Kept(segments: seq<string>): seq<string> {
    if segments == [] then []
    else (if Strip(segments[0]) != "" then [segments[0] + Separator] else []) + Kept(segments[1..])
  }

  lemma {:induction false} KeptConcat(x: seq<string>, y: seq<string>)
    ensures Kept(x + y) == Kept(x) + Kept(y)
  {
    if x == [] {
      assert x + y == y;
    } else {
      assert (x + y)[1..] == x[1..] + y;
      KeptConcat(x[1..], y);
    }
  }

  /** The page yielded at the end of a stream that did not fail. */
  function Flush(remainder: string): seq<string> {
    if Strip(remainder) != "" then [remainder + Separator] else []
  }

  /**
   * One LLM stream as the re-segmenter sees it: the chunks that arrive and,
   * when the stream raises after them, the exception's message.
   */
  datatype Upstream = Upstream(chunks: seq<string>, failure: Option<string>)

  /** The chunks appended in order, as `buffer += chunk` accumulates them. */
  function Concat(parts: seq<string>): string {
    if parts == [] then "" else Concat(parts[..|parts| - 1]) + parts[|parts| - 1]
  }

  lemma {:induction false} ConcatAppend(x: seq<string>, y: seq<string>)
    ensures Concat(x + y) == Concat(x) + Concat(y)
    decreases |y|
  {
    if y == [] {
      assert x + y == x;
    } else {
      assert (x + y)[..|x + y| - 1] == x + y[..|y| - 1];
      ConcatAppend(x, y[..|y| - 1]);
    }
  }

  /** The pages yielded for one stream. */
  function Pages(u: Upstream): seq<string> {
    var c := Cut(Concat(u.chunks));
    Kept(c.segments) + (if u.failure.None? then Flush(c.remainder) else [])
  }

  /**
   * The loop of main.py:288-307: the pages it yields are `Pages(u)`, and it
   * passes the stream's exception on. The concatenated text alone decides
   * the pages, however the stream happens to be chunked.
   */
  method Paginate(u: Upstream) returns (pages: seq<string>, failure: Option<string>)
    ensures failure == u.failure
    ensures pages == Pages(u)
  {
    var buffer := "";
    pages := [];
    ghost var segments: seq<string> := [];
    for i := 0 to |u.chunks|
      invariant Cut(Concat(u.chunks[..i])) == Cutting(segments, buffer)
      invariant pages == Kept(segments)
    {
      ghost var text := Concat(u.chunks[..i + 1]);
      ChunkStep(u.chunks, i, segments, buffer);
      buffer := buffer + u.chunks[i];
      while HasSep(buffer)
        invariant Cut(text) == Cutting(segments + Cut(buffer).segments, Cut(buffer).remainder)
        invariant pages == Kept(segments)
        decreases |buffer|
      {
        var (pageContent, separator, restOfBuffer) := Partition(buffer);
        PartitionStep(text, segments, buffer);
        if Strip(pageContent) != "" {
          pages := pages + [pageContent + separator];
        }
        segments := segments + [pageContent];
        buffer := restOfBuffer;
      }
      // the buffer holds no separator once the inner loop is done
      assert NoSep(buffer);
    }
    assert u.chunks[..|u.chunks|] == u.chunks;
    ghost var flush := if u.failure.None? then Flush(buffer) else [];
    assert Pages(u) == pages + flush;
    failure := u.failure;
    if failure.None? && Strip(buffer) != "" {
      pages := pages + [buffer + "\n\n"];
    }
  }

  /** Appending a chunk to the buffer: the cutting of the text so far continues with the buffer's. */
  lemma ChunkStep(chunks: seq<string>, i: nat, segments: seq<string>, buffer: string)
    requires i < |chunks|
    requires Cut(Concat(chunks[..i])) == Cutting(segments, buffer)
    ensures Cut(Concat(chunks[..i + 1]))
            == Cutting(segments + Cut(buffer + chunks[i]).segments, Cut(buffer + chunks[i]).remainder)
  {
    ConcatStep(chunks, i);
    CutAppend(Concat(chunks[..i]), chunks[i]);
  }

  lemma ConcatStep(chunks: seq<string>, i: nat)
    requires i < |chunks|
    ensures Concat(chunks[..i + 1]) == Concat(chunks[..i]) + chunks[i]
  {
    assert chunks[..i + 1][..i] == chunks[..i];
  }

  /** One `partition` of a buffer that holds a separator takes off the first segment of its cutting. */
  lemma PartitionStep(text: string, segments: seq<string>, buffer: string)
    requires HasSep(buffer)
    requires Cut(text) == Cutting(segments + Cut(buffer).segments, Cut(buffer).remainder)
    ensures var (head, separator, rest) := Partition(buffer);
      separator == Separator && |rest| < |buffer|
      && Cut(text) == Cutting((segments + [head]) + Cut(rest).segments, Cut(rest).remainder)
      && Kept(segments + [head]) == Kept(segments) + (if Strip(head) != "" then [head + separator] else [])
  {
    var (head, separator, rest) := Partition(buffer);
    assert Cut(buffer) == Cutting([head] + Cut(rest).segments, Cut(rest).remainder);
    assert segments + ([head] + Cut(rest).segments) == (segments + [head]) + Cut(rest).segments;
    KeptSnoc(segments, head);
  }

  lemma KeptSnoc(segments: seq<string>, s: string)
    ensures Kept(segments + [s]) == Kept(segments) + (if Strip(s) != "" then [s + Separator] else [])
  {
    KeptConcat(segments, [s]);
    assert [s][1..] == [];
  }

  // ---------------------------------------------------------------------------
  // What the yielded pages are

  /**
   * A yielded page: a body that is not all whitespace and holds no
   * separator, followed by `"\n\n"`.
   */
  predicate Record(p: string) {
    |p| >= 2 && p[|p| - 2..] == Separator && NoSep(p[..|p| - 2]) && !AllSpace(p[..|p| - 2])
  }

  /** A non-blank segment followed by its separator is a page that ends at its first separator. */
  lemma SegmentPage(s: string)
    requires Segment(s) && Strip(s) != ""
    ensures Record(s + Separator) && FindSep(s + Separator) == Some(|s|)
  {
    var p := s + Separator;
    StripEmpty(s);
    assert p[..|p| - 2] == s && p[|p| - 2..] == Separator;
    assert SepAt(p, |s|);
    forall j | 0 <= j < |s| ensures !SepAt(p, j) {
      if j + 1 < |s| {
        assert !SepAt(s, j);
      }
    }
  }

  /**
   * A page taken from before a separator ends at its first separator: the
   * body neither holds one nor ends with a newline.
   */
  lemma {:induction false} KeptShape(segments: seq<string>)
    requires forall k | 0 <= k < |segments| :: Segment(segments[k])
    ensures forall k | 0 <= k < |Kept(segments)| ::
      Record(Kept(segments)[k]) && FindSep(Kept(segments)[k]) == Some(|Kept(segments)[k]| - 2)
  {
    if segments != [] {
      var s := segments[0];
      var own := if Strip(s) != "" then [s + Separator] else [];
      var rest := Kept(segments[1..]);
      KeptShape(segments[1..]);
      assert Kept(segments) == own + rest;
      if Strip(s) != "" {
        SegmentPage(s);
      }
      forall k | 0 <= k < |Kept(segments)|
        ensures Record(Kept(segments)[k]) && FindSep(Kept(segments)[k]) == Some(|Kept(segments)[k]| - 2)
      {
        if k >= |own| {
          assert Kept(segments)[k] == rest[k - |own|];
        }
      }
    }
  }

  /**
   * Every yielded page is a `Record`; every page except a final flush ends
   * at its first separator.
   */
  lemma PageShape(u: Upstream)
    ensures forall k | 0 <= k < |Pages(u)| :: Record(Pages(u)[k])
    ensures var c := Cut(Concat(u.chunks));
      forall k | 0 <= k < |Kept(c.segments)| :: FindSep(Pages(u)[k]) == Some(|Pages(u)[k]| - 2)
  {
    var c := Cut(Concat(u.chunks));
    CutSegments(Concat(u.chunks));
    CutRemainder(Concat(u.chunks));
    KeptShape(c.segments);
    if u.failure.None? && Strip(c.remainder) != "" {
      var p := c.remainder + Separator;
      StripEmpty(c.remainder);
      assert p[..|p| - 2] == c.remainder && p[|p| - 2..] == Separator;
    }
  }

  /** The non-whitespace characters of `s`, in order. */
  function NonSpace(s: string): string {
    if s == "" then "" else (if IsSpace(s[0]) then "" else [s[0]]) + NonSpace(s[1..])
  }

  lemma {:induction false} NonSpaceConcat(a: string, b: string)
    ensures NonSpace(a + b) == NonSpace(a) + NonSpace(b)
  {
    if a == "" {
      assert a + b == b;
    } else {
      assert (a + b)[1..] == a[1..] + b;
      NonSpaceConcat(a[1..], b);
    }
  }

  lemma {:induction false} NonSpaceOfSpace(s: string)
    requires AllSpace(s)
    ensures NonSpace(s) == ""
  {
    if s != "" {
      NonSpaceOfSpace(s[1..]);
    }
  }

  /** A segment with its separator has the segment's own non-whitespace characters. */
  lemma NonSpaceWithSeparator(s: string)
    ensures NonSpace(s + Separator) == NonSpace(s)
  {
    NonSpaceConcat(s, Separator);
    NonSpaceOfSpace(Separator);
  }

  /** Dropping blank segments and separators loses no non-whitespace character. */
  lemma {:induction false} KeptNonSpace(segments: seq<string>)
    ensures NonSpace(Concat(Kept(segments))) == NonSpace(Rejoin(segments))
  {
    if segments != [] {
      var s := segments[0];
      var own := if Strip(s) != "" then [s + Separator] else [];
      var rest := Kept(segments[1..]);
      assert Kept(segments) == own + rest;
      KeptNonSpace(segments[1..]);
      ConcatAppend(own, rest);
      NonSpaceConcat(Concat(own), Concat(rest));
      NonSpaceConcat(s + Separator, Rejoin(segments[1..]));
      NonSpaceWithSeparator(s);
      if Strip(s) != "" {
        assert Concat(own) == s + Separator by {
          assert own[..0] == [];
        }
      } else {
        StripEmpty(s);
        NonSpaceOfSpace(s);
      }
    }
  }

  /** The flush keeps the remainder's non-whitespace characters. */
  lemma FlushNonSpace(remainder: string)
    ensures NonSpace(Concat(Flush(remainder))) == NonSpace(remainder)
  {
    if Strip(remainder) != "" {
      var f := Flush(remainder);
      assert Concat(f) == remainder + Separator by {
        assert f[..0] == [];
      }
      NonSpaceWithSeparator(remainder);
    } else {
      StripEmpty(remainder);
      NonSpaceOfSpace(remainder);
    }
  }

  /**
   * No loss: the pages of a stream that ends normally hold every
   * non-whitespace character of the streamed text, in order.
   */
  lemma NoLoss(chunks: seq<string>)
    ensures NonSpace(Concat(Pages(Upstream(chunks, None)))) == NonSpace(Concat(chunks))
  {
    var c := Cut(Concat(chunks));
    CutNonSpace(Concat(chunks));
    FlushNonSpace(c.remainder);
    ConcatAppend(Kept(c.segments), Flush(c.remainder));
    NonSpaceConcat(Concat(Kept(c.segments)), Concat(Flush(c.remainder)));
  }

  /** A failed stream loses the non-whitespace characters of its unfinished last page and no others. */
  lemma NoLossBeforeFailure(chunks: seq<string>, message: string)
    ensures NonSpace(Concat(Pages(Upstream(chunks, Some(message)))))
            + NonSpace(Cut(Concat(chunks)).remainder) == NonSpace(Concat(chunks))
  {
    var c := Cut(Concat(chunks));
    CutNonSpace(Concat(chunks));
    assert Pages(Upstream(chunks, Some(message))) == Kept(c.segments) + [];
    assert Kept(c.segments) + [] == Kept(c.segments);
  }

  /** The kept segments and the remainder hold the text's non-whitespace characters. */
  lemma CutNonSpace(t: string)
    ensures NonSpace(Concat(Kept(Cut(t).segments))) + NonSpace(Cut(t).remainder) == NonSpace(t)
  {
    CutNoLoss(t);
    KeptNonSpace(Cut(t).segments);
    NonSpaceConcat(Rejoin(Cut(t).segments), Cut(t).remainder);
  }

  /**
   * The flush: a stream that ends normally yields what a failing one
   * yields, plus its remainder as one more page unless that is all
   * whitespace.
   */
  lemma FlushOnce(chunks: seq<string>, message: string)
    ensures var rem := Cut(Concat(chunks)).remainder;
      Pages(Upstream(chunks, None))
      == Pages(Upstream(chunks, Some(message))) + (if AllSpace(rem) then [] else [rem + Separator])
  {
    StripEmpty(Cut(Concat(chunks)).remainder);
  }

  /**
   * Pages go out as soon as they are complete and are never taken back:
   * what is yielded after the first chunks is the start of what is yielded
   * after more chunks.
   */
  lemma EarlyPagesStay(earlier: seq<string>, later: seq<string>)
    ensures var done := Kept(Cut(Concat(earlier)).segments);
      done <= Kept(Cut(Concat(earlier + later)).segments)
  {
    var a := Concat(earlier);
    ConcatAppend(earlier, later);
    CutAppend(a, Concat(later));
    var rest := Cut(Cut(a).remainder + Concat(later)).segments;
    KeptConcat(Cut(a).segments, rest);
  }
}
