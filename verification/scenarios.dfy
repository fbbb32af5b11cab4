/** Worked examples of the extractor, the scanner and the handler on
    concrete inputs: a mixed notebook, replies with one, two, empty or no
    blocks, a tag with a suffix, and notebooks whose code cells are empty.
    The concrete strings are named as parameters and fixed by `requires`. */
module Scenarios {
  import opened Wrappers
  import opened Strings
  import opened Notebook
  import opened Fence
  import opened Flow

  /** A markdown cell, a code cell given as the fragments `"x = 1\n"` and
      `"y = 2\n"`, and a code cell given as the one string `"print(x+y)"`:
      the two code cells' texts joined by one newline. The first cell's text
      already ends in a newline, so a blank line separates the two, giving
      `"x = 1\ny = 2\n\nprint(x+y)"`. */
  lemma MixedNotebook(md: Cell, c1: Cell, c2: Cell, x: string, y: string, z: string)
    requires x == "x = 1\n" && y == "y = 2\n" && z == "print(x+y)"
    requires md == Cell(Some("markdown"), Some(Text("# title")))
    requires c1 == Cell(Some("code"), Some(Fragments([x, y])))
    requires c2 == Cell(Some("code"), Some(Text(z)))
    ensures ReadIpynb(Document(Some([md, c1, c2]))) == Some(x + y + "\n" + z)
  {
    CodeTextsSingle(md);
    CodeTextsSingle(c1);
    CodeTextsSingle(c2);
    CodeTextsAppend([md], [c1]);
    CodeTextsAppend([md] + [c1], [c2]);
    assert [md] + [c1] + [c2] == [md, c1, c2];
    assert Concat([x, y]) == x + y by {
      assert [x, y][1..] == [y];
      assert Concat([y]) == y + Concat([]);
    }
    var texts := [x + y, z];
    assert CodeTexts([md, c1, c2]) == texts;
    assert texts[1..] == [z];
    assert JoinLines(texts) == texts[0] + "\n" + JoinLines([z]);
  }

  /** The block inside a reply is returned without the whitespace around it,
      and the handler offers it. */
  lemma ReplyWithOneBlock(doc: Document, pre: string, code: string, post: string)
    requires Truthy(ReadIpynb(doc))
    requires pre == "Here:\n" && code == "def f():\n    pass" && post == "\nDone."
    ensures Run(doc, pre + Opener + "\n" + code + "\n" + Closer + post) == Code(code)
  {
    OneBlock(pre, "\n", code, "\n", post);
  }

  /** Of two blocks only the first is returned. */
  lemma TwoBlocks(first: string, second: string)
    requires first == "a = 1" && second == "b = 2"
    ensures FirstPythonBlock(Opener + "\n" + first + "\n" + Closer
                             + ("\n" + Opener + "\n" + second + "\n" + Closer))
         == Some(first)
  {
    OneBlock("", "\n", first, "\n", "\n" + Opener + "\n" + second + "\n" + Closer);
    assert "" + Opener == Opener;
  }

  /** The tag is matched as a prefix: after ```` ```python3 ```` the `3`
      starts the returned block. */
  lemma TagIsAPrefix(code: string)
    requires code == "\nx = 1"
    ensures FirstPythonBlock(Opener + "3" + code + "\n" + Closer) == Some("3" + code)
  {
    assert "" + Opener + "" + ("3" + code) + "\n" + Closer == Opener + "3" + code + "\n" + Closer;
    OneBlockComplete("", "", "3" + code, "\n");
  }

  /** An empty block is found and is empty; the handler then offers an
      empty file. */
  lemma EmptyBlockOffered(doc: Document, reply: string)
    requires Truthy(ReadIpynb(doc))
    requires reply == "```python\n```"
    ensures Run(doc, reply) == Code("")
  {
    EmptyBlock("\n", "");
    assert Opener + "\n" + Closer + "" == reply;
  }

  /** A reply with no fenced block ends in "no code". */
  lemma ReplyWithoutBlock(doc: Document, reply: string)
    requires Truthy(ReadIpynb(doc))
    requires reply == "I cannot help with that."
    ensures Run(doc, reply) == NoCode
  {
    NoBackquoteNoBlock(reply);
  }

  /** One empty code cell reads as `""` and stops the handler. */
  lemma OneEmptyCodeCellStops(c: Cell, reply: string)
    requires c == Cell(Some("code"), Some(Text("")))
    ensures Run(Document(Some([c])), reply) == ReadFailed
  {
    CodeTextsSingle(c);
  }

  /** Two empty code cells read as `"\n"`, which is truthy, so the handler
      goes on to the crew. */
  lemma TwoEmptyCodeCellsProceed(c: Cell)
    requires c == Cell(Some("code"), Some(Text("")))
    ensures ReadIpynb(Document(Some([c, c]))) == Some("\n")
    ensures Truthy(ReadIpynb(Document(Some([c, c]))))
  {
    CodeTextsSingle(c);
    CodeTextsAppend([c], [c]);
    assert [c] + [c] == [c, c];
    assert CodeTexts([c]) == [""];
    assert CodeTexts([c, c]) == ["", ""];
    assert JoinLines(["", ""]) == "" + "\n" + JoinLines([""]);
    assert JoinLines([""]) == "";
    assert "" + "\n" + "" == "\n";
    assert Readable(Document(Some([c, c])));
  }
}
