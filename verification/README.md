# IPYNB2PY notebook refactor tool: a Dafny model of its core

IPYNB2PY is a Streamlit page. It takes an uploaded Jupyter notebook and pulls
the code cells out as one Python text. It hands that text to a crewAI agent
backed by a language model. From the agent's reply it takes the first
```` ```python ```` fenced block and offers it for download. This project
models the three deterministic pieces of that pipeline in `main2.py`:

- **Notebook** (`notebook.dfy`) models `AutoCodeRefactor.read_ipynb_file` on an
  already parsed notebook.
  - It keeps the code cells and flattens each cell's `source` with `"".join`.
  - It joins the cells with `"\n"`.
  - A failed lookup or join gives `None`, never a partial text.
  - The result is proved equal to a reference filter-map, `CodeTexts`.
  - With at least one code cell, none of whose texts holds a newline,
    splitting the result at newlines gives back each code cell's text.
    Joining the pieces of any split text gives the text back
    (`Strings.JoinSplitLines`).
- **Fence** (`fence.dfy`) models the extraction
  `re.findall(r"```python\s*(.*?)\s*```", text, re.DOTALL)[0]`.
  - The model is an explicit scanner: `SkipSpace`, `FindClose`, `MatchAt`,
    `FindFirst` and `FirstPythonBlock`.
  - It is proved equal, in both directions, to a declarative reading of the
    pattern:
    - `PatternMatch` is any way the pattern can match.
    - `Chosen` is the match Python's backtracking settles on: the longest
      leading `\s*`, then the shortest lazy group.
    - The match at the leftmost opener wins.
- **Flow** (`flow.dfy`) models the branches of the button handler:
  - "Could not read ipynb file." when the extracted text is falsy (`None` or
    `""`).
  - "No code was generated or result is not a string." when the reply has no
    block.
  - Otherwise the block is shown and offered.
- **Strings** (`strings.dfy`) holds Python's whitespace class, `"".join`,
  `"\n".join` and `str.split("\n")`, with their algebra.
- **Scenarios** (`scenarios.dfy`) holds worked examples on concrete inputs.

The language-model crew is an external service, so its reply is an input
(`reply`) of `Flow.Decide` and `Flow.Run`. `json.load` is not modelled: the
extractor starts from parsed JSON. The header comment of `notebook.dfy` says
how each JSON shape maps onto the `Document`, `Cell` and `Source` datatypes.

When a code cell's text ends in a newline and another code cell follows, the
`"\n"` separator comes on top of it, so a blank line separates the two. For
example, the code cells
`["x = 1\n", "y = 2\n"]` followed by `"print(x+y)"` gives
`"x = 1\ny = 2\n\nprint(x+y)"` (`Scenarios.MixedNotebook`).

## Model

| member | source | states |
|---|---|---|
| Strings.ConcatChars | main2.py:69 | `"".join` over a string's characters gives the string back, so a `source` given as one string contributes itself |
| Strings.ConcatAppend | main2.py:69 | `"".join` of two lists back to back is the two joins back to back |
| Strings.JoinLinesSnoc | main2.py:69 | appending one more piece to a non-empty `"\n".join` adds exactly one newline before it |
| Strings.JoinLinesNewlines | main2.py:69 | joining n pieces with `"\n"` adds exactly n - 1 characters, all newlines |
| Strings.SplitJoinLines | main2.py:69 | splitting at newlines undoes `"\n".join` of at least one piece when no piece holds a newline |
| Strings.JoinSplitLines | main2.py:69 | `"\n".join` undoes splitting at newlines, for every text |
| Notebook.JoinSource | main2.py:69 | `"".join(source)` fails exactly on a number, boolean, null or a list holding a non-string (`Unjoinable`); an object joins its keys (`Fragments`); a string source gives itself |
| Notebook.CodeSources | main2.py:68 | the comprehension succeeds exactly when every cell has `cell_type` and every code cell has `source` |
| Notebook.JoinAll | main2.py:69 | the inner generator succeeds exactly when every collected source is joinable, and then gives each source's join in order |
| Notebook.ReadIpynb | main2.py:63-73 | the extractor returns text exactly when the notebook is readable, and the text is the code cells' texts (reference `CodeTexts`) joined by newlines |
| Notebook.PipelineMatchesReference | main2.py:68-69 | collect-then-join fails exactly when some cell is unreadable, and otherwise gives the reference list of code texts |
| Notebook.CodeTextsAppend | main2.py:68 | code-cell selection is a filter: the texts of `a + b` are those of `a` followed by those of `b` |
| Notebook.CodeTextsSingle | main2.py:68 | one cell contributes its text if it is a code cell, and nothing otherwise |
| Notebook.CodeTextAtRank | main2.py:68-69 | document order is kept: the code cell at index i supplies the piece at the position given by the number of code cells before it |
| Notebook.NonCodeCellIgnored | main2.py:68 | inserting a non-code cell anywhere leaves the extractor's result, failure included, unchanged |
| Notebook.AppendCodeCell | main2.py:69 | appending a code cell appends its text after one newline, or gives just its text when there was no code cell |
| Notebook.NoCodeTexts | main2.py:68 | cells that all have a non-code `cell_type` are readable and select nothing |
| Notebook.NoCodeCellsGiveEmpty | main2.py:68-70 | a notebook without code cells reads as `""`, not as a failure |
| Notebook.CodeCellsNewlines | main2.py:69 | with n code cells the result is their texts plus exactly n - 1 newline separators |
| Notebook.SplitRecoversCells | main2.py:69 | with at least one code cell and no code text holding a newline, splitting the result at newlines gives back each code cell's text in order |
| Fence.SkipSpace | main2.py:104 | the leading `\s*` takes the maximal whitespace run: all whitespace, stopping at the end or at a non-whitespace character |
| Fence.FindClose | main2.py:104 | the lazy group ends at the first position followed by whitespace and a fence, or there is no such position |
| Fence.MatchAt | main2.py:104 | at an index the scanner returns Python's chosen match when the pattern matches there, and `None` exactly when it cannot match there |
| Fence.FindFirst | main2.py:105-108 | the scanner returns the leftmost index where the pattern matches, and none matches before it |
| Fence.ChosenUnique | main2.py:104 | backtracking settles on exactly one match per opener |
| Fence.ChosenLeadIsMaximal | main2.py:104 | the chosen leading `\s*` is the maximal whitespace run after the opener |
| Fence.ChosenGroupShape | main2.py:104 | the chosen group holds no closing fence and has no whitespace at either end |
| Fence.FirstPythonBlock | main2.py:104-108 | the block returned is a piece of the reply, holds no fence and has no whitespace at either end |
| Fence.ScannerIsLeftmostChosen | main2.py:104-108 | the scanner's block is the group of the chosen match at the leftmost matching opener |
| Fence.LeftmostChosenIsScanned | main2.py:104-108 | conversely, the group of the leftmost chosen match is what the scanner returns |
| Fence.NoBlockIff | main2.py:104-107 | there is no block exactly when no opener is followed, anywhere later, by a closing fence |
| Fence.LaterTextIgnored | main2.py:105-108 | once a reply holds a block, appending any text (later blocks included) never changes `matches[0]` |
| Fence.OneBlockComplete | main2.py:104-108 | a reply made of backquote-free prose, the opener, whitespace, a non-empty backquote-free body with no whitespace at either end, whitespace and the fence yields exactly the body |
| Fence.OneBlock | main2.py:104-108 | the same with any text after the fence |
| Fence.EmptyBlock | main2.py:104-108 | a block with only whitespace inside yields `""`, which is distinct from no block |
| Fence.NoBackquoteNoBlock | main2.py:105-107 | a reply without a backquote has no block |
| Flow.Decide | main2.py:101-122 | "could not read" exactly when the extracted text is falsy; "no code" exactly when it is truthy and the reply has no opener followed by a fence; otherwise the code offered is `matches[0]`, the group of the chosen match at the leftmost opener where the pattern matches, and is a trimmed, fence-free piece of the reply |
| Flow.UnreadableNeverAsksCrew | main2.py:101-122 | with a falsy extracted text the outcome is "could not read" whatever the reply is |
| Flow.BrokenNotebookStops | main2.py:98-122 | a notebook whose lookups or joins fail ends in "could not read" |
| Flow.NoCodeCellsStop | main2.py:98-122 | a notebook without code cells reads fine but still ends in "could not read", because `""` is falsy |
| Flow.ReadableOffersLeftmostBlock | main2.py:101-109 | conversely, with a truthy extracted text, the group of the leftmost chosen match is the code offered |
| Scenarios.MixedNotebook | main2.py:68-69 | a markdown cell, a fragment-list code cell and a string code cell read as `"x = 1\ny = 2\n\nprint(x+y)"` |
| Scenarios.ReplyWithOneBlock | main2.py:101-109 | the reply `"Here:\n```python\ndef f():\n    pass\n```\nDone."` yields the code `"def f():\n    pass"` |
| Scenarios.TwoBlocks | main2.py:105-108 | of two blocks only the first is returned |
| Scenarios.TagIsAPrefix | main2.py:104 | after a ```` ```python3 ```` opener the `3` starts the returned block |
| Scenarios.EmptyBlockOffered | main2.py:104-117 | an empty block is offered as an empty file |
| Scenarios.ReplyWithoutBlock | main2.py:105-120 | a reply without a block ends in "no code" |
| Scenarios.OneEmptyCodeCellStops | main2.py:98-122 | a single empty code cell reads as `""` and stops the handler |
| Scenarios.TwoEmptyCodeCellsProceed | main2.py:69-101 | two empty code cells read as `"\n"`, which is truthy, so the handler goes on |

## Left out

- Parsing (`json.load`, main2.py:66-67): the model starts from parsed JSON.
  An unreadable file or invalid JSON also makes the extractor return `None`.
  That case has no `Document` value of its own.
- The `st.error` message printed when the extractor fails (main2.py:72): it is
  a side effect and does not change the result.
- The Streamlit page (main2.py:83-99, 109-120): the title, the uploader, the
  button, the spinner, the code display and the download button are UI. Only
  which outcome is reached is modelled, as `Flow.Outcome`.
- The temporary file (main2.py:93-99): it only carries the upload to the
  extractor.
- The crewAI `Crew`, `Agent` and `Task` and the language model (main2.py:17-61, 103):
  they are an external service, so the reply is an input. An exception raised
  by the crew (main2.py:124-125) is therefore not modelled either.
- `result.raw` that is not a string: the reply is always a string in the
  model.
- The timestamped download name (main2.py:112-113): it reads the clock.
- `write_to_file` (main2.py:76-80): the handler never calls it.
- The `pysqlite3` module swap and the environment lookup of the API key
  (main2.py:1-3, 17-19): they are set-up only.
- Strings.IsSpace: taken to be the character set of Python's `str.isspace()`,
  which `\s` matches in a `str` pattern. The set is written out by code point.
  Python's Unicode database is not part of this model.
- A `cells` value that is a dict or a string: it iterates as its keys or its
  characters and gets no case of its own. An empty one is
  `Document(Some([]))` and reads as `""`. A non-empty one is a list of
  `Cell(None, _)` and reads as `None`, because indexing a string cell raises.
- Lone surrogates: a Python string from `json.load` can hold one (from a
  `\ud800` escape), and a Dafny `char` cannot. Such strings are not
  representable. Both the extractor and the scanner would treat that
  character like any other non-whitespace character.
