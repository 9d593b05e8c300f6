# pptist-aibackend: outline parser, page re-segmenter and content stream

This project models the core of the pptist-aibackend service. The service
turns a Markdown-like presentation outline into a stream of slide pages that
an LLM writes. The model covers five parts:

- **`parse_outline`** (`Outline`). A line-by-line reader of the outline. A `# `
  line sets the deck title, a `## ` line opens a chapter, a `### ` line opens a
  section of the current chapter, and a `- ` line adds an item to the current
  section. The model keeps its loop as a method. That method is
  proved equal to a fold of one step per line. The fold is proved equal to an
  independent recursive-descent reading of the same lines.
- **The chapter renderer** (`Render`). This is the text handed to the LLM for
  each chapter: `## title`, then `### section` and `- item` lines, each ending
  in a newline. The renderer's two nested loops are methods. They are proved
  to produce `ChapterText`, and rendering followed by parsing gives back the
  chapter.
- **The re-segmenter** (`Resegment`). LLM chunks are added to a buffer. Each
  `"\n\n"` in the buffer ends a page, and a page goes out only if it is not
  blank. At the end of the stream, a non-blank remainder goes out as a final
  page. The loop is proved to yield `Pages`, which is defined from the leftmost
  cutting `Cut` of the whole streamed text. So the pages do not depend on how
  the stream is chunked.
- **`structured_page_stream`** (`PageStream`). First the pages of the
  cover-and-contents stream. Then, for each chapter in outline order, the pages
  of the stream drafted from that chapter's rendered text. Then
  `{"type": "end"}`. If any stream raises, one
  `{"error": "生成过程中出错: <message>"}` record goes out and nothing follows
  it.
- **config.py** (`Config`). The settings read from the environment, including
  the `DEBUG` rule. Also `validate`, `get_model_config`, and the guard every
  chain builder runs before it creates a client.

The remaining modules are `Text`, which models the Python string built-ins the
code uses (`isspace`, `strip`, `split`, `startswith`, ASCII `lower`), and
`Wrappers`, which holds `Option`.

Pages are not trimmed. main.py:297 uses `strip()` only to test for a blank
page, and main.py:300 and main.py:307 yield the text as it is, with `"\n\n"`
appended (`Resegment.Record`). `Resegment.NoLoss` is therefore stated on the
non-whitespace characters.

The LLM streams are inputs. Each one is an `Upstream`: the finite list of
chunks it delivers, plus the message of the exception it raises after them,
if any. The per-chapter stream is a function `draft` of the chapter's
position, its title and its rendered text. Because of the position, two
chapters with the same text may get different streams, as two sampled
completions may differ.

## Model

| member | source | states |
|---|---|---|
| Config.DebugFlag | config.py:19 | `DEBUG` lower-cased equals `true` exactly when the value has four characters, each the lower- or upper-case letter of `true` |
| Config.LoadSettings | config.py:12-19 | each setting is the environment value when the variable is set and the listed default otherwise; the key is absent exactly when `OPENAI_API_KEY` is unset; `debug` follows `DebugFlag` on `DEBUG` |
| Config.Validate | config.py:21-27 | a missing or empty key is invalid, either placeholder key is invalid, and any other key is valid |
| Config.GetModelConfig | config.py:29-36 | the requested model unless it is missing or empty, the default model then; temperature, key and base URL copied from the settings |
| Config.ChainConfig | main.py:121-124 | no client configuration exactly when the settings do not validate; otherwise a non-placeholder key and the `get_model_config` of the requested model |
| Text.Split | main.py:168 | `split('\n')` gives at least one piece, no piece holds a newline, and joining the pieces with newlines gives the input back |
| Text.SplitJoin | main.py:168 | splitting the newline-join of newline-free pieces gives the pieces back |
| Text.StripEmpty | main.py:178-179 | `strip()` is empty exactly when the line is all whitespace |
| Text.StripIsInfix | main.py:178 | `strip()` removes a whitespace run at each end and keeps the middle unchanged |
| Text.StripFixedPoint | main.py:178 | a string is its own `strip()` exactly when it is empty or starts and ends with a non-space |
| Outline.Classify | main.py:178-201 | a line is blank, and skipped, exactly when it is all whitespace |
| Outline.ParseOutline | main.py:166-207 | the loop's deck equals the fold of one step per line and the recursive-descent reading of the stripped, newline-split content |
| Outline.ParserMatchesReference | main.py:177-205 | the step-per-line fold and the recursive-descent reading give the same deck for every sequence of lines |
| Outline.TitleIsLastDeckTitle | main.py:182-183 | the title is the text of the last `# ` line, and empty when no line is one |
| Outline.ChaptersAreTheChapterHeadings | main.py:184-205 | one chapter per `## ` line, in input order, titled by that line's stripped text; the chapter open at the end is added exactly once |
| Outline.BlankOrUnrecognisedIgnored | main.py:178-201 | inserting a blank line or a line with no known prefix anywhere leaves the deck unchanged |
| Outline.OrphanSectionIgnored | main.py:192-198 | a `### ` line before any `## ` line is ignored |
| Outline.OrphanItemIgnored | main.py:199-201 | a `- ` line before any `### ` line is ignored |
| Outline.ItemAfterChapterHeadingIgnored | main.py:184-201 | a `- ` line right after a `## ` line is ignored, because the new chapter has no open section |
| Render.RenderChapter | main.py:314-318 | the rendered text is the chapter line followed by each section's line and its items' lines, each ending in a newline |
| Render.AppendSection | main.py:316-318 | one pass of the outer loop appends the section's `### ` line and its `- ` item lines to the text |
| Render.RenderParseRoundTrip | main.py:314-318 | parsing a chapter's rendered text gives a deck with no title and exactly that chapter, when the titles and items are non-empty, stripped and single-line |
| Resegment.FindSep | main.py:295 | absent exactly when the buffer holds no `"\n\n"`; otherwise the first position of `"\n\n"` |
| Resegment.Partition | main.py:296 | the three parts rejoin to the buffer; with a separator, the first part is the text before the first one and the second part is `"\n\n"`; without one, `(s, "", "")` |
| Resegment.Paginate | main.py:288-307 | the pages yielded for a stream are `Pages` of its chunks, and its exception is passed on |
| Resegment.CutNoLoss | main.py:293-301 | the page bodies, each followed by its separator, and then the buffer left over, give back the streamed text |
| Resegment.CutSegments | main.py:295-296 | every page body holds no separator and does not end with a newline |
| Resegment.CutRemainder | main.py:295 | the buffer left after the inner loop holds no separator |
| Resegment.CutUnique | main.py:293-301 | splitting every page body at its first separator is the only such cutting of the text |
| Resegment.CutAppend | main.py:289-301 | cutting continues where it stopped: the text of more chunks is cut from the previous buffer onwards, so chunking does not change the pages |
| Resegment.PageShape | main.py:297-307 | every yielded page is a non-blank body without a separator, followed by `"\n\n"`; every page but the final flush ends at its first separator |
| Resegment.NoLoss | main.py:288-307 | for a stream that completes, the pages hold every non-whitespace character of the streamed text, in order |
| Resegment.NoLossBeforeFailure | main.py:288-301 | a failing stream loses the non-whitespace characters of its unfinished buffer and no others |
| Resegment.FlushOnce | main.py:303-307 | a completed stream yields the pages of a failed one, plus the buffer with `"\n\n"` unless the buffer is all whitespace |
| Resegment.EarlyPagesStay | main.py:289-301 | the pages yielded after some chunks are a prefix of the pages yielded after more chunks |
| PageStream.ErrorRecord | main.py:351-353 | the error record is the fixed opening `{"error": "生成过程中出错: `, then the exception's message unchanged, then `"}`, so the message can be read back |
| PageStream.StructuredPageStream | main.py:282-353 | the records are the cover pages, then the pages of each chapter's own stream in outline order; then the end record, or an error record as soon as a stream fails |
| PageStream.CompletedStream | main.py:288-346 | when no stream fails, the records are all the pages in order, followed by `{"type": "end"}` |
| PageStream.CompletedDeck | main.py:288-346 | when no stream fails, the records are the cover pages, then the chapter pages, then the end record |
| PageStream.FailedStream | main.py:350-353 | when stream `j` fails first, the records are the pages of streams up to `j`, then its error record, and nothing from later streams |
| PageStream.ClosingRecords | main.py:346-353 | neither the end record `{"type": "end"}` (`PageStream.End`) nor an error record has the form of a page, and the two differ |
| PageStream.StreamShape | main.py:282-353 | every response is pages followed by exactly one closing record; that record is the end record exactly when no stream failed |
| PageStream.OutcomesArePages | main.py:297-307 | every page in every re-segmented stream has the form of a page |

## Left out

- The HTTP layer is not modelled: FastAPI routing, request models and their validation, `StreamingResponse`, and the `/health` and `/` endpoints.
- The LangChain prompts, `ChatOpenAI` clients and chain composition (main.py:119-161) are not modelled. Only the `validate` guard and `get_model_config` from them appear, as `Config.ChainConfig`. Each LLM stream is an input `Upstream`. The arguments the chains are given are not modelled: `language` and `content` for the cover stream, and `language` for the chapter streams. So `PageStream.StructuredPageStream` does not say how those arguments shape the streams.
- Loading prompt templates from files and reading `.env` are file I/O. The environment is a map parameter.
- The float parse of `DEFAULT_TEMPERATURE` and the integer parse of `PORT` are left out, along with the exceptions they raise. Their results are parameters of `Config.LoadSettings`, and the temperature is an opaque type that is only copied.
- `Config.DebugFlag`: `str.lower` is modelled on ASCII letters only. This is exact for the comparison with `"true"`, because no non-ASCII character lower-cases to one of those letters.
- Async execution and concurrency are not modelled. Each stream is read to its end or to its exception, in order.
- Logging and the `page_count` counter are left out. They affect only log lines.
- The outline endpoint's `token_stream` (main.py:240-253) is a pass-through of chunks and is not modelled.
- The mapping of exceptions to HTTP errors is not modelled: the 400 for a failing parse (main.py:264-269) and the 500 for a failing chain build (main.py:272-280). `parse_outline` itself cannot raise.
- In `parse_outline`, `current_section` is an alias of the last section of `current_chapter`. The model keeps that section inside the chapter value and records whether it is open. Aliasing is not modelled separately.
- `Settings` is modelled as a value. Its fields are set once in `__init__` and never changed.
- test_api.py and api/index.py are not part of this model.
