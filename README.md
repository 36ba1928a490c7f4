# Documentation export scraper, modelled in Dafny

A model of `docs/agno_docs_to_llm_markdown.py`, a one-shot script. It reads
the navigation tree of a documentation site, collects every page path named
under a `"pages"` key, and downloads each page's Markdown with one retry.
The fetched pages go into a single buffer, each behind a heading, and the
buffer is written to one file. A summary ends the run.

- `navigation.dfy`, module `Navigation`: the decoded JSON value as a
  datatype `Node` (dict with ordered entries, list, string, other scalar).
  `ExtractPages` models `extract_pages`. `FlattenPagesValue` models
  `_flatten_pages_value`. They are mutually recursive functions. Each loop
  that appends to the local `pages` list is a function that adds one entry
  or item at a time. A walk returns `Paths(...)`, or `NotIterable` for the
  `TypeError` that `for item in value` raises on a number, a boolean or null.
  A `"pages"` value that is a string or a dict is iterated as Python does
  it: a string gives its characters and a dict gives its keys.
- `page_sites.dfy`, module `PageSites`: a description of "page paths reached
  through chains of `"pages"` keys" that does not use the walk. It is stated
  as paths of steps through the tree. The lemmas prove that on a tree whose
  `"pages"` values are lists, the walk returns exactly the strings at those
  sites. There is one element per site, each site appears once, and the
  sites come in document order.
- `progress.dfy`, module `Progress`: the arithmetic for the length of the
  `show_progress` bar.
- `export.dfy`, module `Export`: the page loop of `main` as the method
  `ExportPages`. It has a `while` loop and invariants. The network is an
  input: for each page, the answer to the first request and the answer the
  repeated request would get. The method returns `success_count`,
  `output_lines`, the requests issued and the positions the progress bar is
  drawn for. Each result is proved equal to a specification function of the
  pages and the answers. `Run` is the rest of `main` from the decoded
  navigation object on: extraction, the loop, the file contents, and the
  summary's division, which raises `ZeroDivisionError` when no page was found.

The `_flatten_pages_value` docstring (line 30) speaks only of nested lists.
The code also iterates a `"pages"` value that is a string or a dict, and
raises on a number (lines 32-36); the model follows the code.

## Model

| member | source | states |
|---|---|---|
| `Navigation.IndexOf` | docs/agno_docs_to_llm_markdown.py:36 | `item.get('pages')` finds the first entry with the key, or reports that none has it; no earlier entry has the key |
| `Navigation.NoPagesKeyNoPages` | docs/agno_docs_to_llm_markdown.py:15-27 | a tree with no `"pages"` key anywhere yields no page path and no error; page paths are reachable only through a `"pages"` key |
| `Navigation.ExtractEntriesAppend` | docs/agno_docs_to_llm_markdown.py:18-23 | a dict's result is the in-order concatenation over its entries: splitting the entries splits the result at the same place |
| `Navigation.ExtractItemsAppend` | docs/agno_docs_to_llm_markdown.py:24-26 | a list's result is the in-order concatenation of its items' results |
| `Navigation.FlattenItemsAppend` | docs/agno_docs_to_llm_markdown.py:31-37 | a `"pages"` list flattens to the in-order concatenation of its items' flattenings |
| `Navigation.EntriesFailIffSomeEntryFails` | docs/agno_docs_to_llm_markdown.py:19-23 | a dict's walk fails exactly when the walk of one of its entries fails, because the error is never caught |
| `Navigation.ItemsFailIffSomeItemFails` | docs/agno_docs_to_llm_markdown.py:25-26 | a list's walk fails exactly when one item's walk fails |
| `Navigation.FlattenFailsIffSomeItemFails` | docs/agno_docs_to_llm_markdown.py:32-36 | a `"pages"` list fails to flatten exactly when one of its items does |
| `Navigation.FlattenStrings` | docs/agno_docs_to_llm_markdown.py:32-34 | string items are kept verbatim, in order, with duplicates |
| `Navigation.FlattenIteratesValue` | docs/agno_docs_to_llm_markdown.py:32 | for any iterable `"pages"` value, flattening handles exactly what `for item in value` visits: a list's items, a string's characters, a dict's keys |
| `Navigation.FlattenNestedExample` | docs/agno_docs_to_llm_markdown.py:29-37 | `["a", {"pages": ["b", "c"]}, "d"]` flattens to `["a", "b", "c", "d"]` |
| `Navigation.PagesListIgnoresOtherKeysExample` | docs/agno_docs_to_llm_markdown.py:20-36 | inside a `"pages"` list a dict contributes only its own `"pages"` entry; outside one, every key is descended into |
| `Navigation.NonListPagesValueExamples` | docs/agno_docs_to_llm_markdown.py:32 | a string `"pages"` value gives its characters, a dict gives its keys, and a number fails the whole walk |
| `PageSites.NavSites` | docs/agno_docs_to_llm_markdown.py:15-37 | on a tree whose `"pages"` values are lists, the walk does not fail and returns the page path at every page site, one per site, in document order |
| `PageSites.ExtractPagesCountsSites` | docs/agno_docs_to_llm_markdown.py:15-37 | the result's length is the number of distinct page sites: duplicates are kept and nothing is deduplicated |
| `PageSites.ExtractedIffPageSite` | docs/agno_docs_to_llm_markdown.py:15-37 | a string is returned exactly when the tree holds it at a page site, so every returned element is a string from the tree |
| `Progress.TruncDiv` | docs/agno_docs_to_llm_markdown.py:42 | `int()` of a quotient truncates toward zero: the floor for a non-negative quotient, the ceiling for a negative one |
| `Progress.Repeat` | docs/agno_docs_to_llm_markdown.py:43 | string repetition gives `k` copies, or none when `k <= 0` |
| `Progress.FilledWithinWidth` | docs/agno_docs_to_llm_markdown.py:41-42 | for `0 <= current <= total` and `total > 0`, `0 <= filled <= width` |
| `Progress.BarShape` | docs/agno_docs_to_llm_markdown.py:41-43 | the bar has exactly `width` characters: `filled` full cells, then `-` |
| `Progress.FilledIsFloor` | docs/agno_docs_to_llm_markdown.py:41-42 | `filled` is `width * current / total` rounded down |
| `Progress.FilledMonotone` | docs/agno_docs_to_llm_markdown.py:41-42 | `filled` never decreases as `current` grows |
| `Progress.FullAtEnd` | docs/agno_docs_to_llm_markdown.py:41-42 | at `current == total` the bar is full |
| `Progress.HalfwayExample` | docs/agno_docs_to_llm_markdown.py:41-43 | `current=20, total=40, width=40` gives 20 full cells and 20 `-` |
| `Export.ExportPages` | docs/agno_docs_to_llm_markdown.py:56-77 | with `total` fixed before the loop, the loop leaves `success_count`, `output_lines`, the requests issued (each for the doubled-slash URL line 63 builds) and the drawn progress positions equal to their specifications `SuccessCount`, `Output`, `Requests` and `ProgressShown` |
| `Export.Run` | docs/agno_docs_to_llm_markdown.py:55-83 | a `TypeError` from extraction ends the run before any fetch; with no pages, the empty buffer is written and the summary divides by zero; otherwise the file holds the loop's buffer and the summary is `success_count / total * 100` |
| `Export.OutputThreePerSuccess` | docs/agno_docs_to_llm_markdown.py:73-76 | `len(output_lines) == 3 * success_count` |
| `Export.SuccessCountBounded` | docs/agno_docs_to_llm_markdown.py:62-73 | `0 <= success_count <= total` |
| `Export.SuccessCountExtremes` | docs/agno_docs_to_llm_markdown.py:62-73 | `success_count == total` exactly when every page gets a 200 within two attempts, and `0` exactly when every page fails both |
| `Export.OutputAppend` | docs/agno_docs_to_llm_markdown.py:62-77 | the buffer for consecutive runs of pages is the concatenation of their buffers |
| `Export.FailedPageSkipped` | docs/agno_docs_to_llm_markdown.py:69-72 | a page that fails both attempts contributes nothing, and the pages after it are still exported |
| `Export.BlockPosition` | docs/agno_docs_to_llm_markdown.py:73-76 | a fetched page's heading, text and separator sit right after the blocks of the pages fetched before it |
| `Export.RequestsPerPage` | docs/agno_docs_to_llm_markdown.py:64-72 | each page is requested once when the first answer is 200 and exactly twice otherwise, never more |
| `Export.RequestsInOrder` | docs/agno_docs_to_llm_markdown.py:62-68 | requests go out page by page without returning to an earlier page, each for the URL line 63 builds for its page |
| `Export.ProgressBarsWellFormed` | docs/agno_docs_to_llm_markdown.py:71-77 | every bar drawn in the loop is 40 characters wide, the bars never move backward, and the last one is full |
| `Export.PercentWithinRange` | docs/agno_docs_to_llm_markdown.py:82 | the success percentage lies between 0 and 100 |
| `Export.TwoOfFiveFail` | docs/agno_docs_to_llm_markdown.py:62-83 | when pages 2 and 4 of 5 fail both attempts, the buffer holds pages 1, 3 and 5 in order, and the summary is 3 of 5, 60 per cent |
| `Export.RetryRecovers` | docs/agno_docs_to_llm_markdown.py:65-76 | a page answered non-200 then 200 is requested twice (one pause), both times at `https://docs.agno.com//<page>.md`, and its text appears once |
| `Export.DoubledSlashAsWritten` | docs/agno_docs_to_llm_markdown.py:63 | the URL as written is `https://docs.agno.com//<page>.md` and differs from the intended one |
| `Export.PageUrlSingleSlash` | docs/agno_docs_to_llm_markdown.py:63 | the corrected URL has exactly one slash between the host and a relative page path |

## Left out

- The landing-page request, the HTML parse and the `json.loads` of the embedded payload are not modelled. So is the fixed key path into that payload (lines 50-53). `Run` starts from the decoded navigation object. Failures in those steps are fatal in the script.
- HTTP requests and the proxy setting are not modelled. The answers are the input `network`. Transport exceptions (timeouts, connection errors) are not modelled; in the script they end the run.
- `time.sleep(30)` is not modelled. The pause shows only as the repeated request.
- Writing the file (lines 79-80) is not modelled beyond its contents: `Run` returns the lines written. UTF-8 encoding is not modelled.
- All console output is not modelled: the start line, "Throttling...", the failure warning, the progress text and the summary text. The loop records only the positions `show_progress` is called with.
- The percentage formats `{pct:6.2%}` and `{success_pct:.1f}` are not modelled. `SuccessPercent` is exact rational arithmetic, not a float.
- Progress.Filled: computed exactly as `width * current / total` truncated toward zero. The script multiplies the width by the float `current / total`. A double slightly below the exact quotient can lower the result by one. With width 22, current 15 and total 22, the float gives 14 where the exact value is 15. With the width the script always uses, 40, the two agree for every total below 3000.
- Progress.Filled: requires `total > 0`. Both call sites (lines 71 and 77) pass `(idx, total)` with `1 <= idx <= total`. A zero or negative `total` is not modelled.
- PageSites.NavSites: the page-site theorems assume every `"pages"` value is a list, which is the documented shape. For other values, `FlattenIteratesValue` and the example lemmas state what the walk does.
- A `Node` dict may list a key twice, but a Python dict cannot. `IndexOf` takes the first entry with the key, which is the only one in a real dict.

## Findings

| source | as written | input that shows it | evidently intended | confidence | as-written member | corrected member |
|---|---|---|---|---|---|---|
| docs/agno_docs_to_llm_markdown.py:63 | `f"{SITE}/{page}.md"` with `SITE` already ending in `/` | page `introduction` gives `https://docs.agno.com//introduction.md` | `https://docs.agno.com/introduction.md`, one slash between host and path | medium, not executed; many servers treat the doubled slash like a single one | `Export.DoubledSlashAsWritten` | `Export.PageUrlSingleSlash` |

`ExportPages` requests the URL as written, `PageUrlAsWritten`, with the doubled slash; `PageUrl` is the corrected form.
