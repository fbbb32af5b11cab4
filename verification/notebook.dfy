/** The notebook extractor `AutoCodeRefactor.read_ipynb_file`: keep the code
    cells of an already parsed notebook, flatten each cell's `source`, and
    join the cells with newlines; any failed lookup or join yields `None`.

    How parsed JSON maps onto these datatypes:
    - `Document(None)`: the top level is not an object, has no `cells` key,
      or `cells` is a number, boolean or null. An empty string or empty
      object as `cells` iterates like `[]`; a non-empty one yields
      non-object cells.
    - `Cell(None, _)`: the cell has no `cell_type` key, or is not an object
      at all (indexing it with a string raises just the same).
      A `cell_type` that is not a string compares unequal to "code" and is
      written as any other string.
    - `Source`: a string is `Text`; a list of strings is `Fragments`; an
      object is `Fragments` of its keys (iterating a dict yields its keys);
      a number, boolean, null or a list holding a non-string is
      `Unjoinable`, because `"".join` raises on it. */
module Notebook {
  import opened Wrappers
  import opened Strings

  datatype Source = Text(text: string) | Fragments(parts: seq<string>) | Unjoinable

  /** `cellType` and `source` are `None` when the key is absent. */
  datatype Cell = Cell(cellType: Option<string>, source: Option<Source>)

  datatype Document = Document(cells: Option<seq<Cell>>)

  predicate IsCode(c: Cell) {
    c.cellType == Some("code")
  }

  /** `"".join(source)` for one cell. Joining a string iterates over its
      characters, which gives the string back. */
  function JoinSource(src: Source): (r: Option<string>)
    ensures r.None? <==> src.Unjoinable?
    ensures src.Text? ==> r == Some(src.text)
  {
    match src
    case Text(t) => ConcatChars(t); Some(Concat(Chars(t)))
    case Fragments(ps) => Some(Concat(ps))
    case Unjoinable => None
  }

  /** The text a cell contributes, stated directly: a string as is, a list's
      fragments back to back. */
  function SourceText(src: Source): string
    requires !src.Unjoinable?
  {
    if src.Text? then src.text else Concat(src.parts)
  }

  /** The lookups the comprehension makes on `c` succeed: `cell_type`
      always, `source` only on a code cell. */
  predicate CellShaped(c: Cell) {
    c.cellType.Some? && (IsCode(c) ==> c.source.Some?)
  }

  /** Shaped, and a code cell's source can be joined. */
  predicate CellReadable(c: Cell) {
    CellShaped(c) && (IsCode(c) ==> !c.source.value.Unjoinable?)
  }

  ghost predicate Shaped(cells: seq<Cell>) {
    forall i :: 0 <= i < |cells| ==> CellShaped(cells[i])
  }

  ghost predicate ReadableCells(cells: seq<Cell>) {
    forall i :: 0 <= i < |cells| ==> CellReadable(cells[i])
  }

  ghost predicate Readable(doc: Document) {
    doc.cells.Some? && ReadableCells(doc.cells.value)
  }

  /** Reference definition: the texts of the code cells, in document order. */
  ghost function CodeTexts(cells: seq<Cell>): seq<string>
    requires ReadableCells(cells)
  {
    if |cells| == 0 then []
    else
      assert ReadableCells(cells[1..]) by {
        forall i | 0 <= i < |cells| - 1 ensures cells[1..][i] == cells[i + 1] { }
      }
      (if IsCode(cells[0]) then [SourceText(cells[0].source.value)] else [])
      + CodeTexts(cells[1..])
  }

  /** The list comprehension
      `[cell['source'] for cell in cells if cell['cell_type'] == 'code']`:
      `None` when a lookup raises, otherwise one source per code cell. */
  function CodeSources(cells: seq<Cell>): (r: Option<seq<Source>>)
    ensures r.Some? <==> Shaped(cells)
  {
    if |cells| == 0 then Some([])
    else
      var c := cells[0];
      assert Shaped(cells) <==> CellShaped(c) && Shaped(cells[1..]) by {
        assert forall i :: 0 <= i < |cells| - 1 ==> cells[1..][i] == cells[i + 1];
      }
      if c.cellType.None? then None
      else if IsCode(c) && c.source.None? then None
      else
        match CodeSources(cells[1..])
        case None => None
        case Some(rest) => Some(if IsCode(c) then [c.source.value] + rest else rest)
  }

  /** The generator `"".join(cell) for cell in code_cells`, forced by the
      outer join: `None` as soon as one source cannot be joined. */
  function JoinAll(srcs: seq<Source>): (r: Option<seq<string>>)
    ensures r.Some? <==> forall j :: 0 <= j < |srcs| ==> !srcs[j].Unjoinable?
    ensures r.Some? ==>
      |r.value| == |srcs| && forall j :: 0 <= j < |srcs| ==> JoinSource(srcs[j]) == Some(r.value[j])
  {
    if |srcs| == 0 then Some([])
    else
      match JoinSource(srcs[0])
      case None => None
      case Some(t) =>
        match JoinAll(srcs[1..])
        case None => None
        case Some(rest) => Some([t] + rest)
  }

  /** `read_ipynb_file` on an already parsed notebook: the code cells'
      texts joined by newlines, or `None` when any lookup or join fails. It
      never returns a partial text. */
  function ReadIpynb(doc: Document): (r: Option<string>)
    ensures r.Some? <==> Readable(doc)
    ensures r.Some? ==> r.value == JoinLines(CodeTexts(doc.cells.value))
  {
    match doc.cells
    case None => None
    case Some(cells) =>
      match CodeSources(cells)
      case None => None
      case Some(srcs) =>
        PipelineMatchesReference(cells);
        match JoinAll(srcs)
        case None => None
        case Some(texts) => Some(JoinLines(texts))
  }

  /** The two stages of the extractor (collect the code cells' sources, then
      join each) agree with the reference: they fail exactly when some cell
      is unreadable, and otherwise give the code cells' texts in order. */
  lemma {:induction false} PipelineMatchesReference(cells: seq<Cell>)
    requires Shaped(cells)
    ensures JoinAll(CodeSources(cells).value)
         == if ReadableCells(cells) then Some(CodeTexts(cells)) else None
  {
    if |cells| > 0 {
      var c := cells[0];
      assert forall i :: 0 <= i < |cells| - 1 ==> cells[1..][i] == cells[i + 1];
      assert ReadableCells(cells) <==> CellReadable(c) && ReadableCells(cells[1..]);
      assert CellShaped(c);
      PipelineMatchesReference(cells[1..]);
      var rest := CodeSources(cells[1..]).value;
      if IsCode(c) {
        var srcs := [c.source.value] + rest;
        assert CodeSources(cells).value == srcs;
        assert srcs[1..] == rest;
        if !c.source.value.Unjoinable? {
          assert JoinSource(c.source.value) == Some(SourceText(c.source.value));
          if ReadableCells(cells) {
            assert CodeTexts(cells) == [SourceText(c.source.value)] + CodeTexts(cells[1..]);
          }
        }
      } else {
        assert CodeSources(cells).value == rest;
        if ReadableCells(cells) {
          assert CodeTexts(cells) == [] + CodeTexts(cells[1..]);
          assert [] + CodeTexts(cells[1..]) == CodeTexts(cells[1..]);
        }
      }
    }
  }


  /** Code-cell extraction is a filter: the texts of `a + b` are those of
      `a` followed by those of `b`. */
  lemma {:induction false} CodeTextsAppend(a: seq<Cell>, b: seq<Cell>)
    requires ReadableCells(a) && ReadableCells(b)
    ensures ReadableCells(a + b)
    ensures CodeTexts(a + b) == CodeTexts(a) + CodeTexts(b)
  {
    assert ReadableCells(a + b) by {
      forall i | 0 <= i < |a + b|
        ensures (a + b)[i] == if i < |a| then a[i] else b[i - |a|] { }
    }
    if |a| > 0 {
      assert (a + b)[1..] == a[1..] + b;
      assert ReadableCells(a[1..]) by {
        forall i | 0 <= i < |a| - 1 ensures a[1..][i] == a[i + 1] { }
      }
      CodeTextsAppend(a[1..], b);
    } else {
      assert a + b == b;
    }
  }

  /** A single cell contributes its text when it is a code cell and nothing
      otherwise. */
  lemma CodeTextsSingle(c: Cell)
    requires CellReadable(c)
    ensures ReadableCells([c])
    ensures CodeTexts([c]) == if IsCode(c) then [SourceText(c.source.value)] else []
  {
    assert [c][1..] == [];
  }

  /** Document order: the code cell at index `i` supplies the piece whose
      position is the number of code cells before it. */
  lemma CodeTextAtRank(cells: seq<Cell>, i: int)
    requires ReadableCells(cells)
    requires 0 <= i < |cells| && IsCode(cells[i])
    ensures ReadableCells(cells[..i])
    ensures |CodeTexts(cells[..i])| < |CodeTexts(cells)|
    ensures CodeTexts(cells)[|CodeTexts(cells[..i])|] == SourceText(cells[i].source.value)
  {
    var pre, mid, post := cells[..i], [cells[i]], cells[i + 1..];
    assert ReadableCells(pre) by {
      forall k | 0 <= k < i ensures pre[k] == cells[k] { }
    }
    assert ReadableCells(mid);
    assert ReadableCells(post) by {
      forall k | 0 <= k < |post| ensures post[k] == cells[i + 1 + k] { }
    }
    assert cells == pre + mid + post;
    CodeTextsAppend(pre, mid);
    CodeTextsAppend(pre + mid, post);
    CodeTextsSingle(cells[i]);
  }

  /** Non-code cells contribute nothing, wherever they sit: dropping one
      (with its `cell_type` present) leaves the result unchanged. */
  lemma NonCodeCellIgnored(a: seq<Cell>, c: Cell, b: seq<Cell>)
    requires c.cellType.Some? && !IsCode(c)
    ensures ReadIpynb(Document(Some(a + [c] + b))) == ReadIpynb(Document(Some(a + b)))
  {
    var whole := a + [c] + b;
    if ReadableCells(a) && ReadableCells(b) {
      assert ReadableCells([c]);
      CodeTextsAppend(a, [c]);
      CodeTextsAppend(a + [c], b);
      CodeTextsAppend(a, b);
      CodeTextsSingle(c);
      assert CodeTexts(whole) == CodeTexts(a + b);
    } else {
      assert !ReadableCells(whole) by {
        if !ReadableCells(a) {
          var k :| 0 <= k < |a| && !CellReadable(a[k]);
          assert whole[k] == a[k];
        } else {
          var k :| 0 <= k < |b| && !CellReadable(b[k]);
          assert whole[|a| + 1 + k] == b[k];
        }
      }
      assert !ReadableCells(a + b) by {
        if !ReadableCells(a) {
          var k :| 0 <= k < |a| && !CellReadable(a[k]);
          assert (a + b)[k] == a[k];
        } else {
          var k :| 0 <= k < |b| && !CellReadable(b[k]);
          assert (a + b)[|a| + k] == b[k];
        }
      }
    }
  }

  /** Appending a code cell to a readable notebook appends its text after one
      newline, or makes it the whole text when there was no code cell yet. */
  lemma AppendCodeCell(cells: seq<Cell>, src: Source, x: string)
    requires ReadIpynb(Document(Some(cells))) == Some(x)
    requires !src.Unjoinable?
    ensures ReadIpynb(Document(Some(cells + [Cell(Some("code"), Some(src))])))
         == Some(if |CodeTexts(cells)| == 0 then SourceText(src) else x + "\n" + SourceText(src))
  {
    var c := Cell(Some("code"), Some(src));
    assert ReadableCells([c]);
    CodeTextsAppend(cells, [c]);
    CodeTextsSingle(c);
    if |CodeTexts(cells)| > 0 {
      JoinLinesSnoc(CodeTexts(cells), SourceText(src));
    } else {
      assert CodeTexts(cells) + [SourceText(src)] == [SourceText(src)];
    }
  }

  /** A notebook without code cells reads as the empty text, not as `None`. */
  lemma NoCodeCellsGiveEmpty(cells: seq<Cell>)
    requires forall i :: 0 <= i < |cells| ==> cells[i].cellType.Some? && !IsCode(cells[i])
    ensures ReadIpynb(Document(Some(cells))) == Some("")
  {
    assert CodeTexts(cells) == [] by {
      NoCodeTexts(cells);
    }
  }

  lemma {:induction false} NoCodeTexts(cells: seq<Cell>)
    requires forall i :: 0 <= i < |cells| ==> cells[i].cellType.Some? && !IsCode(cells[i])
    ensures ReadableCells(cells) && CodeTexts(cells) == []
  {
    if |cells| > 0 {
      assert forall i :: 0 <= i < |cells| - 1 ==> cells[1..][i] == cells[i + 1];
      NoCodeTexts(cells[1..]);
    }
  }

  /** n code cells are separated by exactly n - 1 newlines, and nothing else
      is added to their texts. */
  lemma CodeCellsNewlines(doc: Document)
    requires Readable(doc) && |CodeTexts(doc.cells.value)| >= 1
    ensures var r := ReadIpynb(doc).value; var ts := CodeTexts(doc.cells.value);
      && |r| == |Concat(ts)| + |ts| - 1
      && multiset(r)['\n'] == multiset(Concat(ts))['\n'] + |ts| - 1
  {
    JoinLinesNewlines(CodeTexts(doc.cells.value));
  }

  /** When no code cell's text holds a newline, splitting the result at
      newlines recovers each code cell's text, in order. */
  lemma SplitRecoversCells(doc: Document)
    requires Readable(doc) && |CodeTexts(doc.cells.value)| >= 1
    requires forall j :: 0 <= j < |CodeTexts(doc.cells.value)| ==> '\n' !in CodeTexts(doc.cells.value)[j]
    ensures SplitLines(ReadIpynb(doc).value) == CodeTexts(doc.cells.value)
  {
    SplitJoinLines(CodeTexts(doc.cells.value));
  }
}
