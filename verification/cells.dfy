/**
 The notebook cell as the cleaner sees it: the JSON object of one entry of a
 notebook's `cells` list, reduced to the keys the cleaner reads or writes.
 */
module Cells {
  import opened Text

  datatype Option<+T> = None | Some(value: T)

  /** The value of the `cell_type` key. Only `"code"` is ever tested for;
      `Other` stands for `"raw"`, any other string, and a missing key. */
  datatype CellType = Code | Markdown | Other

  /** The `execution_count` key: absent, JSON `null`, or a number. */
  datatype ExecutionCount = Missing | Null | Count(n: int)

  /** One entry of a code cell's `outputs` list (a stream, display data, an
      error, ...), kept opaque: the cleaner only ever discards outputs. */
  datatype Output = Output(outputType: string, payload: string)

  /** `outputs == None` means the key is absent, as in a markdown cell. */
  datatype Cell = Cell(
    cellType: CellType,
    id: Option<string>,
    metadata: map<string, string>,
    source: seq<string>,
    outputs: Option<seq<Output>>,
    executionCount: ExecutionCount
  )

  predicate IsCode(c: Cell) {
    c.cellType == Code
  }

  /** A code cell whose joined source strips to "": the cells the cleaner
      drops and trims. */
  predicate IsEmptyCode(c: Cell) {
    IsCode(c) && IsBlank(Join(c.source))
  }

  /** A cell that has been through output clearing: a code cell has an empty
      `outputs` list and a `null` execution count. */
  predicate IsCleared(c: Cell) {
    IsCode(c) ==> c.outputs == Some([]) && c.executionCount == Null
  }

  /** Two cells agree on everything but their outputs and execution count. */
  predicate SameContent(c: Cell, d: Cell) {
    && c.cellType == d.cellType
    && c.id == d.id
    && c.metadata == d.metadata
    && c.source == d.source
  }

  predicate NoEmptyCode(cells: seq<Cell>) {
    forall i :: 0 <= i < |cells| ==> !IsEmptyCode(cells[i])
  }

  /** A markdown cell holding `text` as its single source line, with neither
      an `outputs` nor an `execution_count` key. It is never a code cell, so
      output clearing and trimming leave it alone, and its text is exactly
      `text`. */
  function MakeMarkdownCell(text: string): (c: Cell)
    ensures c.cellType == Markdown && !IsCode(c) && IsCleared(c)
    ensures c.source == [text] && Join(c.source) == text
    ensures c.outputs == None && c.executionCount == Missing
    ensures c.id == None && c.metadata == map[]
  {
    Cell(Markdown, None, map[], [text], None, Missing)
  }

  /** The argument of the code-cell constructor: either a list of source
      lines, or a single value that gets wrapped into a one-element list. */
  datatype SourceArg = Lines(lines: seq<string>) | Single(text: string) {
    function JoinedText(): string {
      match this
      case Lines(ls) => Join(ls)
      case Single(t) => t
    }
  }

  /** A fresh code cell: already cleared, its text is the argument's text, and
      it counts as empty exactly when that text is blank. */
  function MakeCodeCell(source: SourceArg): (c: Cell)
    ensures IsCode(c) && IsCleared(c)
    ensures Join(c.source) == source.JoinedText()
    ensures source.Lines? ==> c.source == source.lines
    ensures source.Single? ==> c.source == [source.text]
    ensures IsEmptyCode(c) <==> IsBlank(source.JoinedText())
    ensures c.id == None && c.metadata == map[]
  {
    var lines := match source
      case Lines(ls) => ls
      case Single(t) => [t];
    assert Join([source.JoinedText()]) == source.JoinedText() + Join([]);
    Cell(Code, None, map[], lines, Some([]), Null)
  }
}
