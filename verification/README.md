# Notebook cleaner, modelled in Dafny

This project models the notebook-cleaning pass of a small research
repository for Monte Carlo backtesting. The script `scripts/clean_notebooks.py`
rewrites the cell list of a Jupyter notebook in three passes:

1. **Headers.** For distribution notebooks it inserts a list of markdown
   section headers. The i-th header goes in front of the i-th code cell, and
   code cells whose source is only whitespace are dropped.
2. **Clearing.** It empties `outputs` and sets `execution_count` to `null` on
   every code cell.
3. **Trimming.** It pops code cells whose source is only whitespace off the
   end of the list.

The script edits the list and the cell dictionaries in place. The model
makes each pass a pure function from the old cell list to the new one.

Files:

- `text.dfy`, module `Text`: the string operations involved. These are
  Python's `"".join(lines)` and `s.strip() == ""`. `strip()` removes the
  characters `str.isspace` accepts, and `Text.WhitespaceChars` lists them.
- `cells.dfy`, module `Cells`: the cell datatype and the two cell
  constructors.
  - `cell_type` is `Code`, `Markdown` or `Other`. `Other` covers `raw`, any
    other string and a missing key, since the script only ever tests for
    `"code"`.
  - `outputs` is `Option<seq<Output>>`. `None` means the key is absent, as in
    a markdown cell built by the script.
  - `execution_count` is `Missing`, `Null` or `Count(n)`.
  - `id` is `Option<string>`. An absent `id` key and `"id": null` are both
    `None`. The script never reads `id` and only copies it, so the
    difference cannot change what it does.
  - An "empty code cell" is a code cell whose joined source strips to `""`.
- `clean_notebooks.dfy`, module `CleanNotebooks`: the three passes, the
  header loop written as the script writes it (a method with an output list
  and a counter), the pipeline of `process_notebook`, and the lemmas about
  them.

The lemmas do two jobs. Some pin each pass down completely: trimming and
clearing are each shown to be the only result satisfying their contracts, and
header insertion is described by where every cell and every header lands.
Others relate the passes to one another: idempotence, commuting, and trimming
becoming redundant after header insertion. One lemma states a property of the
script as written: re-running it with the same header list inserts the
headers a second time. The script never checks for existing markdown. The
comment on the header step talks about notebooks "without any markdown", but
the script relies on its header table instead (`None` for a notebook that
already has headers).

## Model

| member | source | states |
|---|---|---|
| Text.TrimStartRemovesWhitespacePrefix | scripts/clean_notebooks.py:33 | The left half of `strip()` removes exactly the longest whitespace prefix: the result is a suffix, everything cut was whitespace, and the result does not start with whitespace. |
| Text.TrimEndRemovesWhitespaceSuffix | scripts/clean_notebooks.py:33 | The right half of `strip()` removes exactly the longest whitespace suffix. |
| Text.BlankIffAllWhitespace | scripts/clean_notebooks.py:32-33 | `s.strip() == ""` holds exactly when every character of `s` is whitespace, so an empty string counts as blank. |
| Text.JoinBlankIffLinesBlank | scripts/clean_notebooks.py:125-126 | The joined source of a cell is blank exactly when each of its lines is blank. The test does not depend on how the text is split into lines. |
| Cells.MakeMarkdownCell | scripts/clean_notebooks.py:49-56 | A new header cell is a markdown cell whose source is the one-line list `[text]`. It has a null id, empty metadata, and no `outputs` or `execution_count` key. Not being code, it counts as cleared. |
| Cells.MakeCodeCell | scripts/clean_notebooks.py:59-68 | A new code cell is already cleared: no outputs and a null count. A list argument becomes the source as it is, and a single value is wrapped into a one-line list. The cell is empty exactly when that text is blank. |
| CleanNotebooks.RemoveTrailingEmptyCells | scripts/clean_notebooks.py:29-37 | The result is a prefix of the input. Every removed cell was an empty code cell. The result is empty or does not end in an empty code cell. |
| CleanNotebooks.TrimmedIsUnique | scripts/clean_notebooks.py:29-37 | Those three properties determine the trimmed list. In particular, a trailing non-code cell stops the trimming however blank its text is. |
| CleanNotebooks.TrimIdempotent | scripts/clean_notebooks.py:29-37 | Trimming twice is trimming once. |
| CleanNotebooks.ClearCell | scripts/clean_notebooks.py:42-45 | A code cell ends with `outputs = []` and a null count, keeping its type, id, metadata and source. Any other cell, and any cell that is already cleared, is returned unchanged. |
| CleanNotebooks.ClearOutputs | scripts/clean_notebooks.py:40-46 | Length and order are kept. Every cell ends cleared with its type, id, metadata and source unchanged. Non-code cells are unchanged. |
| CleanNotebooks.ClearOutputsIsUnique | scripts/clean_notebooks.py:40-46 | The contract of `ClearOutputs` determines its result. |
| CleanNotebooks.ClearOutputsOfCleared | scripts/clean_notebooks.py:40-46 | A list of already cleared cells is left unchanged. |
| CleanNotebooks.ClearOutputsIdempotent | scripts/clean_notebooks.py:40-46 | Clearing twice is clearing once. |
| CleanNotebooks.ClearOutputsKeepsKinds | scripts/clean_notebooks.py:40-46 | Clearing keeps the number of code cells and which cells are empty code cells. |
| CleanNotebooks.TrimCommutesWithClear | scripts/clean_notebooks.py:29-46 | Trimming after clearing gives the same list as clearing after trimming. |
| CleanNotebooks.FreshCodeCellIsCleared | scripts/clean_notebooks.py:59-68 | Clearing a cell built by `make_code_cell` changes nothing. |
| CleanNotebooks.FreshMarkdownCellSurvives | scripts/clean_notebooks.py:49-56 | A header cell passes every step untouched. Clearing keeps it, header insertion never drops it, and at the end of a list it stops the trimming, even when its text is blank. |
| CleanNotebooks.KeptMembers | scripts/clean_notebooks.py:124-127 | The cells surviving header insertion are exactly the input cells that are not empty code cells. |
| CleanNotebooks.KeptAppend | scripts/clean_notebooks.py:123-133 | That filtering distributes over concatenation, so surviving cells keep their relative order. |
| CleanNotebooks.AddHeaders | scripts/clean_notebooks.py:116-134 | With no header list the cells are returned unchanged. With a header list, no empty code cell remains. |
| CleanNotebooks.AddHeadersToDistributionNotebook | scripts/clean_notebooks.py:116-134 | The script's single loop, with its output list, its skip of empty code cells and its counter of code cells seen, computes `AddHeaders`. |
| CleanNotebooks.WithHeadersDropsEmptyCode | scripts/clean_notebooks.py:123-133 | The header loop's output holds no empty code cell. |
| CleanNotebooks.WithHeadersFiltersFirst | scripts/clean_notebooks.py:123-131 | Skipping empty code cells inside the loop is the same as filtering them out first. The counter only counts non-empty code cells. |
| CleanNotebooks.WithHeadersLength | scripts/clean_notebooks.py:128-131 | On a list without empty code cells, the loop adds one header per code cell while headers remain. |
| CleanNotebooks.WithHeadersKeepsCells | scripts/clean_notebooks.py:121-133 | Cell `f[j]` of such a list moves right by the number of headers placed in front of it or of an earlier code cell. |
| CleanNotebooks.WithHeadersPlacesHeaders | scripts/clean_notebooks.py:122-131 | A code cell with n code cells before it is immediately preceded by the header n places past the counter, when that header exists. |
| CleanNotebooks.AddHeadersPlacement | scripts/clean_notebooks.py:116-134 | Let `f` be the input without its empty code cells. The output length is `|f| + min(|headers|, code cells of f)`. Every cell of `f` appears in order, shifted by the headers placed up to it. `headers[i]` sits right before the i-th code cell of `f`. |
| CleanNotebooks.NoHeadersOnlyFilters | scripts/clean_notebooks.py:121-134 | An empty header list (not `None`) still drops the empty code cells and inserts nothing. |
| CleanNotebooks.WithHeadersCodeCount | scripts/clean_notebooks.py:124-133 | Header cells are markdown, so the output has exactly as many code cells as the filtered input. |
| CleanNotebooks.ProcessNotebook | scripts/clean_notebooks.py:137-152 | After headers, clearing and trimming, every code cell is cleared and the list does not end in an empty code cell. The result is a prefix of the cleared, header-inserted list, and every cell cut off is an empty code cell. With and without a header list, this determines the result (see `TrimmedIsUnique`). |
| CleanNotebooks.ProcessWithHeadersTrimsNothing | scripts/clean_notebooks.py:142-150 | When a header list is given, the trimming step removes nothing. |
| CleanNotebooks.ProcessIdempotentWithoutHeaders | scripts/clean_notebooks.py:137-152 | Cleaning an already cleaned notebook again without headers leaves it unchanged. |
| CleanNotebooks.ReprocessingAddsHeadersAgain | scripts/clean_notebooks.py:142-144 | Cleaning a cleaned notebook again with the same header list grows it by `min(|headers|, code cells)`. `headers[i]` is inserted again right before the i-th code cell, and every cell of the once-cleaned notebook reappears in order, shifted by the headers placed up to it. |

## Left out

- `load_notebook`, `save_notebook` and `main` (scripts/clean_notebooks.py:18-26, 157-188): file and JSON I/O, the hard-coded `BASE_DIR`, directory globbing and console output. `ProcessNotebook` takes the cell list and returns the new one. Reading `nb.get("cells", [])` and writing `nb["cells"]` back are left to the caller, and the other notebook keys are untouched.
- The `DIST_HEADERS` table (scripts/clean_notebooks.py:72-113): constant prose. Headers are an arbitrary `Option<seq<string>>`.
- Cell keys the script never reads or writes, such as `attachments`, are not part of the cell datatype. Metadata is a string map and outputs are opaque records, because the script only copies or discards them.
- A cell without a `source` key is modelled with an empty source list, which is how `cell.get("source", [])` reads it. The model does not keep the absent key apart from an empty list.
- A `source` stored as one string rather than a list of lines is modelled as a one-line list. `"".join` gives the same text for both.
- Cells.MakeCodeCell: only a list of strings or a single string is modelled as the argument. The script wraps any non-list value, such as a number or a tuple, into a one-element list.
- In-place mutation and aliasing: the script pops from the caller's list and mutates cell dictionaries the caller may share. The model returns new values and says nothing about the caller's references.
- The docstring of scripts/clean_notebooks.py:4-8 also promises clearing only "large" outputs and removing print-only cells. The code clears every output of every code cell and removes no print-only cells, and the model follows the code.
- `utils/plotting.py` and `utils/data.py`: thin wrappers over plotting libraries and a market-data download, with no checkable behaviour of their own.
