/** The branch structure of the refactor button's handler: read the
    notebook, stop on a falsy result, otherwise hand the text to the refactor
    crew and look for a ```` ```python ```` block in its reply. The crew
    itself is an external service; its reply is taken as an input. */
module Flow {
  import opened Wrappers
  import opened Strings
  import opened Notebook
  import opened Fence

  /** `ReadFailed`: "Could not read ipynb file."; `NoCode`: "No code was
      generated or result is not a string."; `Code(c)`: `c` is shown and
      offered for download. */
  datatype Outcome = ReadFailed | NoCode | Code(code: string)

  /** Python's truth value of the extractor's result: `None` and `""` are
      both false. */
  predicate Truthy(content: Option<string>) {
    content.Some? && content.value != ""
  }

  /** The decision taken once the extractor has run and, when it produced
      text, the crew has replied with `reply`. */
  function Decide(content: Option<string>, reply: string): (o: Outcome)
    ensures o.ReadFailed? <==> !Truthy(content)
    ensures o.NoCode? <==>
      && Truthy(content)
      && forall i, f :: OpenerAt(reply, i) && i + |Opener| <= f ==> !FenceAt(reply, f)
    ensures o.Code? ==>
      && (forall k :: !FenceAt(o.code, k))
      && (|o.code| > 0 ==> !IsSpace(o.code[0]) && !IsSpace(o.code[|o.code| - 1]))
      && exists lo :: HasAt(reply, lo, o.code)
    ensures o.Code? ==>
      exists i, p, g :: 0 <= p <= g <= |reply|
        && Chosen(reply, i, p, g, SkipSpace(reply, g))
        && (forall j, p', g', e' :: 0 <= j < i ==> !PatternMatch(reply, j, p', g', e'))
        && o.code == reply[p..g]
  {
    if !Truthy(content) then ReadFailed
    else
      NoBlockIff(reply);
      match FirstPythonBlock(reply)
      case None => NoCode
      case Some(c) =>
        ScannerIsLeftmostChosen(reply);
        var b := FindFirst(reply, 0).value;
        assert Chosen(reply, b.open, b.lo, b.hi, SkipSpace(reply, b.hi));
        Code(c)
  }

  /** The whole handler on an uploaded notebook and the crew's reply. */
  function Run(doc: Document, reply: string): Outcome {
    Decide(ReadIpynb(doc), reply)
  }

  /** When the extractor fails or yields the empty text, the crew's reply is
      never looked at: every reply leads to the same "could not read"
      outcome. */
  lemma UnreadableNeverAsksCrew(content: Option<string>, reply1: string, reply2: string)
    requires !Truthy(content)
    ensures Decide(content, reply1) == Decide(content, reply2) == ReadFailed
  {
  }

  /** A notebook whose lookups or joins fail ends in "could not read". */
  lemma BrokenNotebookStops(doc: Document, reply: string)
    requires !Readable(doc)
    ensures Run(doc, reply) == ReadFailed
  {
  }

  /** A notebook without code cells reads as `""`, which is falsy, so it also
      ends in "could not read", although reading it raised nothing. */
  lemma NoCodeCellsStop(cells: seq<Cell>, reply: string)
    requires forall i :: 0 <= i < |cells| ==> cells[i].cellType.Some? && !IsCode(cells[i])
    ensures Run(Document(Some(cells)), reply) == ReadFailed
  {
    NoCodeCellsGiveEmpty(cells);
  }

  /** When the notebook yields some text, the handler offers `matches[0]`:
      the group of the chosen match at the leftmost opener where the pattern
      matches. */
  lemma ReadableOffersLeftmostBlock(doc: Document, reply: string, i: int, p: int, g: int, e: int)
    requires Truthy(ReadIpynb(doc))
    requires Chosen(reply, i, p, g, e)
    requires forall j, p', g', e' :: 0 <= j < i ==> !PatternMatch(reply, j, p', g', e')
    ensures 0 <= p <= g <= |reply| && Run(doc, reply) == Code(reply[p..g])
  {
    LeftmostChosenIsScanned(reply, i, p, g, e);
  }
}
