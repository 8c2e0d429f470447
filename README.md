# mcp_server_tesseract in Dafny

A model of the OCR tools of the `mcp_server_tesseract` server
(`src/mcp_server_tesseract/server.py`), with proofs about it.

- `extract_text_from_image` runs two guards: the project directory must be
  set, and the joined path must exist. It then decodes the image, converts
  it to `RGB` unless it is `RGB` or `L` already, and runs the OCR engine. It
  returns the stripped text, the mean of the positive token confidences and
  the token count.
- `extract_text_from_pdf` runs the same two guards, opens the document and
  goes through its pages in order. A page keeps its text layer when the
  stripped text is longer than 50 characters. Otherwise the page is rendered
  and OCRed, and it falls back to a non-empty text layer when OCR gives no
  text. Each kept text gets a `=== Seite n ===` marker, with ` (OCR)` before
  the closing `===` for OCR text. The pieces are joined by a blank line and
  returned with `total_pages`, `processed_pages` and the word count.
- `check_tesseract_languages` reports the installed language codes sorted
  and counted. It lists which of eleven common languages are installed and
  whether German and English are.

The OCR engine, the image decoder and the document library are not run.
What they answer for a given file is an input:
- `ImageOcr.ImageFile`: undecodable, or decoded with the engine's answers;
- `PdfPipeline.PdfDocument`: unopenable, or its pages;
- `PdfPipeline.Page`: a page's text layer and the outcome of rendering it;
- `Languages.LanguageQuery`: the installed codes, or a raised error.

The project directory is an `Option<string>`. Whether the joined path exists
is a boolean parameter. An exception a step raises becomes a `Raised`,
`Undecodable`, `Unopenable`, `RenderFailed` or `QueryRaised` value carrying
its message, and the tool's `except` branch turns it into the failure result.

Modules:
- `Wrappers`: `Option`.
- `Text`: the Python string operations used. These are `str.isspace`,
  `strip`, `split()`, `join` and the decimal rendering of a page number.
- `ImageOcr`: the image tool.
- `PdfPipeline`: the document tool. The page loop is an imperative method
  (`PageLoop`). It is proved against the functional specification
  `Run(Steps(...))`, and the properties of the loop are lemmas about that
  specification.
- `Languages`: the language report.

Where the code does something one might not expect, the model follows the
code:
- A short page with an empty text layer whose OCR gives no text adds
  nothing to `all_text`: no marker, no segment (server.py:195).
- `total_pages` is the loop variable after the loop, so it is the last page
  index, one less than the page count (server.py:210). On a successful
  document `processed_pages == total_pages + 1`.
- A document with no pages never binds `page_num`. Reading it at line 210
  raises `UnboundLocalError`, which the `except` branch reports as a
  failure. `PdfPipeline.UnboundPageNum` is that error's message as recent
  CPython words it.
- Rendering a page (`get_pixmap`, `save`) is not inside a page-level `try`.
  A page whose rendering raises therefore fails the whole document, and the
  pages after it are not reached.

## Model

| member | source | states |
|---|---|---|
| Text.Strip | src/mcp_server_tesseract/server.py:174 | `str.strip()` as `rstrip` of `lstrip`; its own contract gives the length bound, and `StripParts`, `StripEmpty` and `SplitStrip` carry its properties |
| Text.TrimStartParts | src/mcp_server_tesseract/server.py:174 | `lstrip` removes exactly a whitespace prefix (Python's `isspace` set) and stops at a non-space character |
| Text.TrimEndParts | src/mcp_server_tesseract/server.py:174 | `rstrip` removes exactly a whitespace suffix and stops at a non-space character |
| Text.StripParts | src/mcp_server_tesseract/server.py:174 | `strip()` is the slice between the leading and the trailing whitespace, and its ends are not whitespace |
| Text.StripEmpty | src/mcp_server_tesseract/server.py:195 | a stripped text is empty exactly when the input is all whitespace |
| Text.Token | src/mcp_server_tesseract/server.py:133 | the token is the longest whitespace-free prefix |
| Text.Split | src/mcp_server_tesseract/server.py:133 | every token of `split()` is non-empty and contains no whitespace |
| Text.WordCount | src/mcp_server_tesseract/server.py:133 | `len(s.split())`; `SplitStrip`, `SplitJoin` and `PdfWordCount` carry its properties |
| Text.SplitStrip | src/mcp_server_tesseract/server.py:128-133 | stripping does not change the tokens, so the word count of the raw OCR text is that of the returned text |
| Text.SplitConcat | src/mcp_server_tesseract/server.py:203 | splitting at a non-empty whitespace run splits the two sides apart |
| Text.SplitJoin | src/mcp_server_tesseract/server.py:203-212 | the tokens of a whitespace-joined list are the tokens of its members, in order |
| Text.SplitJoinWords | src/mcp_server_tesseract/server.py:177 | splitting words joined by single spaces gives the words back |
| Text.Join | src/mcp_server_tesseract/server.py:203 | `sep.join(xs)`; `SplitJoin` and `JoinEmpty` carry its properties |
| Text.JoinEmpty | src/mcp_server_tesseract/server.py:203 | a join is empty exactly when every member is empty and there is at most one member or the separator is empty |
| Text.NatToString | src/mcp_server_tesseract/server.py:177 | the page number is rendered as decimal digits without whitespace and without a leading zero |
| Text.NatToStringValue | src/mcp_server_tesseract/server.py:177 | reading the digits back gives the number |
| ImageOcr.NormalizeMode | src/mcp_server_tesseract/server.py:105-106 | the engine always gets `RGB` or `L`; the mode is kept exactly when it is one of those, and every other mode becomes `RGB` |
| ImageOcr.NormalizeModeIdempotent | src/mcp_server_tesseract/server.py:105-106 | converting twice is converting once |
| ImageOcr.PositiveConfidences | src/mcp_server_tesseract/server.py:117 | the kept confidences are all positive, and each positive value is kept as often as it occurs |
| ImageOcr.AverageConfidence | src/mcp_server_tesseract/server.py:117-122 | the average is non-negative, is 0 exactly when no confidence is positive, and is at most 100 when the confidences are |
| ImageOcr.AverageBounds | src/mcp_server_tesseract/server.py:117-122 | the average lies between any bounds on the positive confidences |
| ImageOcr.ExtractTextFromImage | src/mcp_server_tesseract/server.py:89-137 | each guard gives its failure; success exactly when the file decodes and the engine answers; then the text is stripped, the word count counts the returned text's tokens, and the confidence is 0 when `image_to_data` raises; every failure has empty text |
| ImageOcr.ImageGuards | src/mcp_server_tesseract/server.py:91-99 | with no project directory or a missing file, the result does not depend on the file and is a failure with empty text |
| PdfPipeline.PageImagePath | src/mcp_server_tesseract/server.py:185 | the file name `page_<n>.png` of a page image, with the 0-based index; `NatToString` carries the digit properties |
| PdfPipeline.Heading | src/mcp_server_tesseract/server.py:177 | the marker line `=== Seite <n+1> ===`, with ` (OCR)` before the closing `===` for OCR text (lines 193, 197); `HeadingTokens` and `HeadingSpaced` carry its properties |
| PdfPipeline.Render | src/mcp_server_tesseract/server.py:177 | the string appended to `all_text`: marker, newline, body (lines 193, 197); `RenderWords` carries its properties |
| PdfPipeline.PageStep | src/mcp_server_tesseract/server.py:171-197 | a page raises exactly when its text layer is short and rendering fails; a segment belongs to the page and has a non-empty body |
| PdfPipeline.Steps | src/mcp_server_tesseract/server.py:170-197 | one step per page, each segment tagged with its own page index |
| PdfPipeline.PageLoop | src/mcp_server_tesseract/server.py:166-199 | the loop, whose body takes each page through the text-layer, render and OCR branches, raises exactly when `Run(Steps(...))` aborts, with its message; otherwise `all_text` is the rendered segments, `processed_pages` the counter and `page_num` the last index, unbound for no pages |
| PdfPipeline.Run | src/mcp_server_tesseract/server.py:170-199 | the page loop as a function of the steps: in page order until one raises, appending segments and counting pages; `RunProcessed`, `RunOrdered`, `RunContents`, `RunAborts` and `AbortIsFinal` carry its properties |
| PdfPipeline.ExtractPdf | src/mcp_server_tesseract/server.py:152-216 | the tool's result as a function of its inputs: guards, opening, the loop, the unbound `page_num` for no pages, and the joined text; `PdfGuards`, `ZeroPagesFail`, `PdfResultShape`, `PdfSucceeds`, `BlankPageWithFailedOcr` and `PdfWordCount` carry its properties |
| PdfPipeline.ExtractTextFromPdf | src/mcp_server_tesseract/server.py:152-216 | the tool's result is `ExtractPdf` of its inputs |
| PdfPipeline.LongPageUsesEmbedded | src/mcp_server_tesseract/server.py:176-177 | a page with more than 50 stripped characters keeps its text layer, and its rendering is never looked at |
| PdfPipeline.ShortPageUsesOcr | src/mcp_server_tesseract/server.py:178-194 | a short page with non-empty recognised text gives an OCR segment with the stripped recognition |
| PdfPipeline.ShortPageFallsBack | src/mcp_server_tesseract/server.py:191-197 | a short page without OCR text falls back to its stripped text layer, or adds nothing when that is empty |
| PdfPipeline.RunProcessed | src/mcp_server_tesseract/server.py:199 | `processed_pages` counts every page, whichever branch it took |
| PdfPipeline.RunOrdered | src/mcp_server_tesseract/server.py:170-197 | segments come in strictly increasing page order, at most one per page |
| PdfPipeline.RunContents | src/mcp_server_tesseract/server.py:170-197 | every segment is what its page's step added, and every page whose step adds a segment has one |
| PdfPipeline.RunAborts | src/mcp_server_tesseract/server.py:170-199 | the loop raises exactly when some page raises, with the message of the first such page |
| PdfPipeline.AbortIsFinal | src/mcp_server_tesseract/server.py:215-216 | once a page has raised, the later pages do not change the outcome |
| PdfPipeline.AllLongPages | src/mcp_server_tesseract/server.py:170-177 | a document of long pages is never OCRed: one embedded segment per page, in order |
| PdfPipeline.PdfGuards | src/mcp_server_tesseract/server.py:154-162 | with no project directory or a missing file, the document is never opened, and the result is a failure with empty text |
| PdfPipeline.ZeroPagesFail | src/mcp_server_tesseract/server.py:210 | a document with no pages fails with the unbound `page_num` error |
| PdfPipeline.PdfSucceeds | src/mcp_server_tesseract/server.py:170-213 | the converse of the success conditions: with the directory set, an existing file and an opened document of at least one page, the document succeeds unless a page with a short text layer fails to render; failed OCR never fails it |
| PdfPipeline.PdfResultShape | src/mcp_server_tesseract/server.py:203-216 | a failure has empty text; a success comes from an opened non-empty document whose loop did not raise, with `total_pages` the last index, `processed_pages` the page count, the text the joined rendered segments, the word count its token count, and empty text exactly when there are no segments |
| PdfPipeline.BlankPageWithFailedOcr | src/mcp_server_tesseract/server.py:170-211 | a long page followed by a blank page whose OCR fails succeeds with two processed pages, and the text is the first page's segment alone |
| PdfPipeline.HeadingTokens | src/mcp_server_tesseract/server.py:193 | a marker line splits into `===`, `Seite`, the page number, `(OCR)` for OCR segments, and `===` |
| PdfPipeline.HeadingSpaced | src/mcp_server_tesseract/server.py:193 | a marker line is its tokens joined by single spaces |
| PdfPipeline.PlainMarkerSpaced | src/mcp_server_tesseract/server.py:177 | the marker of an embedded page is its four tokens joined by spaces |
| PdfPipeline.OcrMarkerSpaced | src/mcp_server_tesseract/server.py:193 | the marker of an OCR page is its five tokens joined by spaces |
| PdfPipeline.RenderWords | src/mcp_server_tesseract/server.py:192-193 | a rendered segment has the marker's 4 or 5 tokens and then the body's |
| PdfPipeline.PdfWordCount | src/mcp_server_tesseract/server.py:212 | the reported word count is the marker tokens of the segments plus the tokens of their bodies |
| Languages.StrLeTotal | src/mcp_server_tesseract/server.py:268 | Python's string order is total |
| Languages.StrLeTransitive | src/mcp_server_tesseract/server.py:268 | Python's string order is transitive |
| Languages.StrLeAntisymmetric | src/mcp_server_tesseract/server.py:268 | Python's string order is antisymmetric |
| Languages.Insert | src/mcp_server_tesseract/server.py:268 | inserting into a sorted list keeps it sorted and adds exactly the new element |
| Languages.SortCodes | src/mcp_server_tesseract/server.py:268 | `sorted(languages)` is ascending and a permutation of the codes |
| Languages.SortedUnique | src/mcp_server_tesseract/server.py:268 | two sorted permutations of each other are equal, so the sorted list is determined by the codes |
| Languages.SortIdempotent | src/mcp_server_tesseract/server.py:268 | sorting a sorted list changes nothing |
| Languages.InstalledEntries | src/mcp_server_tesseract/server.py:260-262 | an entry is kept exactly when it is in the table and its code installed, as often as it occurs in the table, in table order; this fixes the result whether or not the table repeats entries |
| Languages.CommonAvailable | src/mcp_server_tesseract/server.py:246-262 | the common languages listed are exactly the installed entries of the table, in table order |
| Languages.CheckLanguages | src/mcp_server_tesseract/server.py:227-281 | a raised query gives a failure with an empty list; otherwise the report has the codes sorted and permuted, their count, the installed common languages, and the German and English flags exactly when `deu` and `eng` are installed |
| Languages.FlagsMatchCommon | src/mcp_server_tesseract/server.py:270-272 | the German flag is set exactly when `Deutsch` is listed, and likewise for English |
| Languages.AvailableOrderFree | src/mcp_server_tesseract/server.py:268 | the sorted list does not depend on the order the engine reports the codes in |

## Left out

- The OCR engine (`image_to_string`, `image_to_data`), the image decoder and the document library (`fitz.open`, `load_page`, `get_text`, `get_pixmap`, `save`) are not run. Their answers are inputs, and an exception from any of them is a value carrying its message. An exception from `load_page` or `get_text` falls under `RenderFailed`, since it too aborts at that page.
- `image.convert("RGB")` raising is folded into `Undecodable`. `NormalizeMode` states the mode rule, but the engine's answers are given per file, not per mode.
- The engine configuration string (`--oem 3 --psm 6 -l <language>`) is not modelled, since it only reaches the engine.
- `int(conf)` on the engine's confidence strings is not modelled: confidences are integers already, and a string that does not convert counts as `image_to_data` raising.
- `round(avg_confidence, 2)` at line 132 is not modelled, because it is floating-point rounding. The model reports the exact mean as a real.
- `os.path.join` and `os.path.exists` are not modelled. Whether the joined path exists is a parameter, and the error messages carry the path as given.
- The temporary directory of the page images is not modelled. The image path handed to the image tool is the file name `page_<n>.png` alone, and its lifecycle (creation, cleanup, `doc.close()`) is left out.
- The rendering zoom (`fitz.Matrix(2.0, 2.0)`) is not modelled, since it only affects the image the engine sees.
- The version probe (`subprocess.run` of `tesseract --version` with its first output line or `Unbekannt`, lines 232-243) is not modelled. The version line is a parameter of `CheckLanguages`, as is `tesseract_cmd`.
- `setup_tesseract_windows`, `parse_args`, `set_project_dir`, `main` and the server framework (`FastMCP`, tool registration, transport) are left out, since none of them changes the tools' results.
- `src/mcp_server_tesseract/test.py` is a manual script that calls the tools on sample files, and it is not part of this model.
- The message of the `UnboundLocalError` for a document with no pages depends on the Python version. The model uses one fixed wording.
- Text.TrimStart: its own contract states only the length bound. The slice and whitespace facts are the lemma `TrimStartParts`, so they are not unfolded wherever `strip` is used.
- Text.TrimEnd: as for `TrimStart`, the facts are in `TrimEndParts`.
- Text.Strip: only the length bound is in its contract. The ends and the slice are in `StripParts`.
