/** The first-fenced-block extraction
    `re.findall(r"```python\s*(.*?)\s*```", text, re.DOTALL)[0]`, written as
    an explicit scanner and proved against a declarative reading of the
    pattern.

    The reading: a match at `i` consists of the opener at `i`, a whitespace
    run `s[i+9..p]` (first `\s*`), the group `s[p..g]` (any characters; with
    DOTALL a newline is ordinary), a whitespace run `s[g..e]` (second `\s*`)
    and a closing fence at `e`. Python's backtracking prefers the longest
    first run, then the shortest group; `findall(...)[0]` takes the match at
    the leftmost `i`. */
module Fence {
  import opened Wrappers
  import opened Strings

  const Opener: string := "```python"
  const Closer: string := "```"

  predicate OpenerAt(s: string, i: int) {
    HasAt(s, i, Opener)
  }

  predicate FenceAt(s: string, e: int) {
    HasAt(s, e, Closer)
  }

  /** One way the pattern can match with the opener at `i`. */
  ghost predicate PatternMatch(s: string, i: int, p: int, g: int, e: int) {
    && OpenerAt(s, i)
    && i + |Opener| <= p <= g <= e
    && AllSpace(s, i + |Opener|, p)
    && AllSpace(s, g, e)
    && FenceAt(s, e)
  }

  /** The match Python's backtracking settles on at `i`: the greediest
      leading `\s*`, then the laziest group. */
  ghost predicate Chosen(s: string, i: int, p: int, g: int, e: int) {
    && PatternMatch(s, i, p, g, e)
    && (forall p', g', e' :: PatternMatch(s, i, p', g', e') ==> p' <= p)
    && (forall g', e' :: PatternMatch(s, i, p, g', e') ==> g <= g')
  }

  /** A block the scanner found: the opener's index and the group's bounds. */
  datatype Block = Block(open: nat, lo: nat, hi: nat)

  /** A closing fence starts with a backquote, which is not whitespace. */
  lemma FenceNotSpace(s: string, e: int)
    requires FenceAt(s, e)
    ensures 0 <= e < |s| && s[e] == '`' && !IsSpace(s[e])
  {
    assert s[e] == s[e..e + |Closer|][0];
  }

  /** An opener starts with a backquote too. */
  lemma OpenerStartsWithBackquote(s: string, i: int)
    requires OpenerAt(s, i)
    ensures 0 <= i < |s| && s[i] == '`'
  {
    assert s[i] == s[i..i + |Opener|][0];
  }

  /** A whitespace run cannot reach past a fence that starts inside it. */
  lemma RunStopsAtFence(s: string, x: int, y: int, f: int)
    requires AllSpace(s, x, y) && FenceAt(s, f) && x <= f
    ensures y <= f
  {
    FenceNotSpace(s, f);
  }

  /** The end of the maximal whitespace run starting at `p`. */
  function SkipSpace(s: string, p: nat): (q: nat)
    requires p <= |s|
    ensures p <= q <= |s|
    ensures AllSpace(s, p, q)
    ensures q == |s| || !IsSpace(s[q])
    decreases |s| - p
  {
    if p < |s| && IsSpace(s[p]) then SkipSpace(s, p + 1) else p
  }

  /** A run that ends at a non-space character is the maximal one. */
  lemma SkipSpaceStopsAt(s: string, g: nat, e: nat)
    requires AllSpace(s, g, e) && e < |s| && !IsSpace(s[e])
    ensures SkipSpace(s, g) == e
  {
  }

  /** The group may end at `g`: only whitespace separates `g` from a fence. */
  predicate Closes(s: string, g: nat) {
    g <= |s| && FenceAt(s, SkipSpace(s, g))
  }

  /** The group end of every match closes it, and its fence is where the
      whitespace after the group stops. */
  lemma MatchCloses(s: string, i: int, p: int, g: int, e: int)
    requires PatternMatch(s, i, p, g, e)
    ensures 0 <= g && Closes(s, g) && SkipSpace(s, g) == e
  {
    FenceNotSpace(s, e);
    SkipSpaceStopsAt(s, g, e);
  }

  /** No match's leading run outlasts the maximal one, and every match's
      fence lies at or after it. */
  lemma MatchLeadBound(s: string, i: int, p: int, g: int, e: int)
    requires PatternMatch(s, i, p, g, e)
    ensures p <= SkipSpace(s, i + |Opener|) <= e
  {
    var q := SkipSpace(s, i + |Opener|);
    FenceNotSpace(s, e);
    RunStopsAtFence(s, i + |Opener|, q, e);
  }

  /** The leftmost position at or after `g` where the group may end. */
  function FindClose(s: string, g: nat): (r: Option<nat>)
    requires g <= |s|
    ensures r.Some? ==> g <= r.value <= |s| && Closes(s, r.value)
    ensures r.Some? ==> forall k: nat :: g <= k < r.value ==> !Closes(s, k)
    ensures r.None? ==> forall k: nat :: g <= k <= |s| ==> !Closes(s, k)
    decreases |s| - g
  {
    if Closes(s, g) then Some(g)
    else if g == |s| then None
    else FindClose(s, g + 1)
  }

  /** Any match gives the scan for the group's end something to find. */
  lemma MatchFindsClose(s: string, i: int, p: int, g: int, e: int)
    requires PatternMatch(s, i, p, g, e)
    ensures FindClose(s, SkipSpace(s, i + |Opener|)).Some?
  {
    MatchLeadBound(s, i, p, g, e);
    FenceNotSpace(s, e);
    SkipSpaceStopsAt(s, e, e);
    assert Closes(s, e);
  }

  /** The pattern anchored at `i`: the match Python chooses there, or `None`
      when there is none. */
  function MatchAt(s: string, i: nat): (m: Option<Block>)
    ensures m.Some? ==>
      && m.value.open == i && m.value.lo <= m.value.hi <= |s|
      && Chosen(s, i, m.value.lo, m.value.hi, SkipSpace(s, m.value.hi))
    ensures m.None? ==> forall p, g, e :: !PatternMatch(s, i, p, g, e)
  {
    if !OpenerAt(s, i) then None
    else
      var q := SkipSpace(s, i + |Opener|);
      match FindClose(s, q)
      case None =>
        forall p, g, e | PatternMatch(s, i, p, g, e) ensures false {
          MatchFindsClose(s, i, p, g, e);
        }
        None
      case Some(g) =>
        var e := SkipSpace(s, g);
        assert PatternMatch(s, i, q, g, e);
        assert forall p', g', e' :: PatternMatch(s, i, p', g', e') ==> p' <= q by {
          forall p', g', e' | PatternMatch(s, i, p', g', e') ensures p' <= q {
            MatchLeadBound(s, i, p', g', e');
          }
        }
        assert forall g', e' :: PatternMatch(s, i, q, g', e') ==> g <= g' by {
          forall g', e' | PatternMatch(s, i, q, g', e') ensures g <= g' {
            MatchCloses(s, i, q, g', e');
          }
        }
        Some(Block(i, q, g))
  }

  /** The leftmost position at or after `from` where the pattern matches:
      the search `findall` performs to produce its first element. */
  function FindFirst(s: string, from: nat): (r: Option<Block>)
    ensures r.Some? ==> from <= r.value.open && MatchAt(s, r.value.open) == r
    ensures r.Some? ==> forall j: nat :: from <= j < r.value.open ==> MatchAt(s, j).None?
    ensures r.None? ==> forall j: nat :: from <= j ==> MatchAt(s, j).None?
    decreases |s| - from
  {
    if from + |Opener| > |s| then
      assert forall j: nat :: from <= j ==> MatchAt(s, j).None? by {
        forall j: nat | from <= j ensures MatchAt(s, j).None? {
          assert !OpenerAt(s, j);
        }
      }
      None
    else
      match MatchAt(s, from)
      case Some(b) => Some(b)
      case None => FindFirst(s, from + 1)
  }

  /** At any opener, the chosen match is unique. */
  lemma ChosenUnique(s: string, i: int, p: int, g: int, e: int, p2: int, g2: int, e2: int)
    requires Chosen(s, i, p, g, e) && Chosen(s, i, p2, g2, e2)
    ensures p == p2 && g == g2 && e == e2
  {
    MatchCloses(s, i, p, g, e);
    MatchCloses(s, i, p2, g2, e2);
  }

  /** The chosen match's leading run is the maximal whitespace run after the
      opener. */
  lemma ChosenLeadIsMaximal(s: string, i: int, p: int, g: int, e: int)
    requires Chosen(s, i, p, g, e)
    ensures p == SkipSpace(s, i + |Opener|)
  {
    MatchLeadBound(s, i, p, g, e);
    var q := SkipSpace(s, i + |Opener|);
    if q <= g {
      assert PatternMatch(s, i, q, g, e);
    } else {
      assert PatternMatch(s, i, q, q, e);
    }
  }

  /** The group of a chosen match has the shape the pattern promises: no
      fence inside, no whitespace at either end. */
  lemma ChosenGroupShape(s: string, i: int, p: int, g: int, e: int)
    requires Chosen(s, i, p, g, e)
    ensures forall k :: !FenceAt(s[p..g], k)
    ensures p < g ==> !IsSpace(s[p]) && !IsSpace(s[g - 1])
  {
    forall k | FenceAt(s[p..g], k) ensures false {
      var w := s[p..g][k..k + |Closer|];
      assert w == s[p + k..p + k + |Closer|] by {
        assert forall m :: 0 <= m < |w| ==> w[m] == s[p + k + m];
      }
      assert PatternMatch(s, i, p, p + k, p + k);
    }
    ChosenLeadIsMaximal(s, i, p, g, e);
    if p < g && IsSpace(s[g - 1]) {
      assert PatternMatch(s, i, p, g - 1, e);
    }
  }

  /** The first ```` ```python ```` block of `reply`: its content with the
      surrounding whitespace trimmed, or `None` when there is none. The block
      is a piece of the reply holding no fence and no whitespace at its
      ends. */
  function FirstPythonBlock(reply: string): (r: Option<string>)
    ensures r.Some? ==> forall k :: !FenceAt(r.value, k)
    ensures r.Some? && |r.value| > 0 ==> !IsSpace(r.value[0]) && !IsSpace(r.value[|r.value| - 1])
    ensures r.Some? ==> exists lo :: HasAt(reply, lo, r.value)
  {
    match FindFirst(reply, 0)
    case None => None
    case Some(b) =>
      ChosenGroupShape(reply, b.open, b.lo, b.hi, SkipSpace(reply, b.hi));
      assert HasAt(reply, b.lo, reply[b.lo..b.hi]);
      Some(reply[b.lo..b.hi])
  }

  /** The scanner's block is the group of the chosen match at the leftmost
      position where the pattern matches at all. */
  lemma ScannerIsLeftmostChosen(s: string)
    requires FindFirst(s, 0).Some?
    ensures var b := FindFirst(s, 0).value;
      && Chosen(s, b.open, b.lo, b.hi, SkipSpace(s, b.hi))
      && (forall j, p, g, e :: 0 <= j < b.open ==> !PatternMatch(s, j, p, g, e))
      && FirstPythonBlock(s) == Some(s[b.lo..b.hi])
  {
    var b := FindFirst(s, 0).value;
    forall j, p, g, e | 0 <= j < b.open ensures !PatternMatch(s, j, p, g, e) {
      assert MatchAt(s, j).None?;
    }
  }

  /** Conversely, whenever the pattern matches, the scanner returns the
      group of the leftmost chosen match. */
  lemma LeftmostChosenIsScanned(s: string, i: int, p: int, g: int, e: int)
    requires Chosen(s, i, p, g, e)
    requires forall j, p', g', e' :: 0 <= j < i ==> !PatternMatch(s, j, p', g', e')
    ensures 0 <= p <= g <= |s| && FirstPythonBlock(s) == Some(s[p..g])
  {
    var r := FindFirst(s, 0);
    assert MatchAt(s, i).Some?;
    var b := r.value;
    ScannerIsLeftmostChosen(s);
    ChosenUnique(s, i, p, g, e, b.lo, b.hi, SkipSpace(s, b.hi));
  }

  /** Whenever the pattern matches somewhere, the scanner finds a block. */
  lemma MatchIsScanned(s: string, i: int, p: int, g: int, e: int)
    requires PatternMatch(s, i, p, g, e)
    ensures FindFirst(s, 0).Some?
  {
    assert MatchAt(s, i).Some?;
  }

  /** There is no block exactly when no opener is followed, anywhere later,
      by a closing fence. */
  lemma NoBlockIff(s: string)
    ensures FirstPythonBlock(s).None? <==>
      forall i, f :: OpenerAt(s, i) && i + |Opener| <= f ==> !FenceAt(s, f)
  {
    if FirstPythonBlock(s).None? {
      forall i, f | OpenerAt(s, i) && i + |Opener| <= f ensures !FenceAt(s, f) {
        if FenceAt(s, f) {
          MatchIsScanned(s, i, i + |Opener|, f, f);
        }
      }
    } else {
      ScannerIsLeftmostChosen(s);
    }
  }

  /** A match in `a` is a match in `a + b`. */
  lemma PatternMatchExtend(a: string, b: string, i: int, p: int, g: int, e: int)
    requires PatternMatch(a, i, p, g, e)
    ensures PatternMatch(a + b, i, p, g, e)
  {
    assert (a + b)[i..i + |Opener|] == a[i..i + |Opener|];
    assert (a + b)[e..e + |Closer|] == a[e..e + |Closer|];
    AllSpaceAppend(a, b, i + |Opener|, p);
    AllSpaceAppend(a, b, g, e);
  }

  /** A match in `a + b` whose fence lies inside `a` is a match in `a`. */
  lemma PatternMatchRestrict(a: string, b: string, i: int, p: int, g: int, e: int)
    requires PatternMatch(a + b, i, p, g, e) && e + |Closer| <= |a|
    ensures PatternMatch(a, i, p, g, e)
  {
    assert (a + b)[i..i + |Opener|] == a[i..i + |Opener|];
    assert (a + b)[e..e + |Closer|] == a[e..e + |Closer|];
    AllSpaceAppend(a, b, i + |Opener|, p);
    AllSpaceAppend(a, b, g, e);
  }

  /** A chosen match in `a` stays the chosen one once text is appended. */
  lemma ChosenExtend(a: string, b: string, i: int, p: int, g: int, e: int)
    requires Chosen(a, i, p, g, e)
    ensures Chosen(a + b, i, p, g, e)
  {
    var s := a + b;
    PatternMatchExtend(a, b, i, p, g, e);
    forall p', g', e' | PatternMatch(s, i, p', g', e') ensures p' <= p {
      RunStopsAtFence(s, i + |Opener|, p', e);
      AllSpaceAppend(a, b, i + |Opener|, p');
      assert PatternMatch(a, i, p', e, e);
    }
    forall g', e' | PatternMatch(s, i, p, g', e') ensures g <= g' {
      if g' < g {
        RunStopsAtFence(s, g', e', e);
        PatternMatchRestrict(a, b, i, p, g', e');
      }
    }
  }

  /** No opener before `i` gains a match from appended text, as long as `a`
      already holds a fence after `i`'s opener. */
  lemma LeftmostExtend(a: string, b: string, i: int, e: int)
    requires forall j, p, g, e' :: 0 <= j < i ==> !PatternMatch(a, j, p, g, e')
    requires FenceAt(a, e) && i + |Opener| <= e
    ensures forall j, p, g, e' :: 0 <= j < i ==> !PatternMatch(a + b, j, p, g, e')
  {
    var s := a + b;
    forall j, p, g, e' | 0 <= j < i ensures !PatternMatch(s, j, p, g, e') {
      if PatternMatch(s, j, p, g, e') {
        assert j + |Opener| <= |a|;
        assert s[j..j + |Opener|] == a[j..j + |Opener|];
        assert PatternMatch(a, j, j + |Opener|, e, e);
      }
    }
  }

  /** Only the first complete block counts: text appended after it, later
      blocks included, never changes the result. */
  lemma LaterTextIgnored(a: string, b: string)
    requires FirstPythonBlock(a).Some?
    ensures FirstPythonBlock(a + b) == FirstPythonBlock(a)
  {
    var blk := FindFirst(a, 0).value;
    var i, lo, hi := blk.open, blk.lo, blk.hi;
    var e := SkipSpace(a, hi);
    ScannerIsLeftmostChosen(a);
    assert Chosen(a, i, lo, hi, e);
    assert FirstPythonBlock(a) == Some(a[lo..hi]);
    ChosenExtend(a, b, i, lo, hi, e);
    LeftmostExtend(a, b, i, e);
    assert (a + b)[lo..hi] == a[lo..hi];
    LeftmostChosenIsScanned(a + b, i, lo, hi, e);
  }

  /** Conditions under which `pre + Opener + ws1 + body + ws2 + Closer`
      holds exactly one block: prose and body free of backquotes, whitespace
      around a body that is itself trimmed. */
  predicate OneBlockParts(pre: string, ws1: string, body: string, ws2: string) {
    && '`' !in pre && '`' !in body
    && AllSpace(ws1, 0, |ws1|) && AllSpace(ws2, 0, |ws2|)
    && |body| > 0 && !IsSpace(body[0]) && !IsSpace(body[|body| - 1])
  }

  /** `s` is laid out as `pre`, the opener, `ws1`, `body`, `ws2` and the
      closing fence, back to back. */
  predicate Laid(s: string, pre: string, ws1: string, body: string, ws2: string) {
    var p := |pre| + |Opener| + |ws1|;
    && HasAt(s, 0, pre)
    && OpenerAt(s, |pre|)
    && HasAt(s, |pre| + |Opener|, ws1)
    && HasAt(s, p, body)
    && HasAt(s, p + |body|, ws2)
    && FenceAt(s, p + |body| + |ws2|)
  }

  /** The concatenation of the parts is laid out as those parts. */
  lemma ConcatLaid(pre: string, ws1: string, body: string, ws2: string)
    ensures Laid(pre + Opener + ws1 + body + ws2 + Closer, pre, ws1, body, ws2)
  {
    var s := pre + Opener + ws1 + body + ws2 + Closer;
    HasAtAppend(pre + Opener + ws1 + body + ws2, Closer);
    HasAtSplit(s, 0, pre + Opener + ws1 + body, ws2);
    HasAtSplit(s, 0, pre + Opener + ws1, body);
    HasAtSplit(s, 0, pre + Opener, ws1);
    HasAtSplit(s, 0, pre, Opener);
  }

  /** In a laid-out one-block reply the opener's match is the chosen one and
      no earlier position matches. */
  lemma LaidChosen(s: string, pre: string, ws1: string, body: string, ws2: string)
    requires OneBlockParts(pre, ws1, body, ws2) && Laid(s, pre, ws1, body, ws2)
    ensures Chosen(s, |pre|, |pre| + |Opener| + |ws1|, |pre| + |Opener| + |ws1| + |body|,
                   |pre| + |Opener| + |ws1| + |body| + |ws2|)
    ensures forall j, p', g', e' :: 0 <= j < |pre| ==> !PatternMatch(s, j, p', g', e')
  {
    var i := |pre|;
    var p := i + |Opener| + |ws1|;
    var g := p + |body|;
    HasAtIndex(s, 0, pre);
    HasAtIndex(s, p, body);
    AllSpaceAt(s, i + |Opener|, ws1);
    AllSpaceAt(s, g, ws2);
    assert s[p] == body[0];
    assert s[g - 1] == body[|body| - 1];
    SkipSpaceStopsAt(s, i + |Opener|, p);
    forall p', g', e' | PatternMatch(s, i, p', g', e') ensures p' <= p {
      MatchLeadBound(s, i, p', g', e');
    }
    forall g', e' | PatternMatch(s, i, p, g', e') ensures g <= g' {
      FenceNotSpace(s, e');
    }
    forall j, p', g', e' | 0 <= j < i && PatternMatch(s, j, p', g', e') ensures false {
      OpenerStartsWithBackquote(s, j);
    }
  }

  /** A laid-out one-block reply yields its body. */
  lemma LaidBlock(s: string, pre: string, ws1: string, body: string, ws2: string)
    requires OneBlockParts(pre, ws1, body, ws2) && Laid(s, pre, ws1, body, ws2)
    ensures FirstPythonBlock(s) == Some(body)
  {
    var p := |pre| + |Opener| + |ws1|;
    var g := p + |body|;
    LaidChosen(s, pre, ws1, body, ws2);
    assert s[p..g] == body;
    LeftmostChosenIsScanned(s, |pre|, p, g, g + |ws2|);
  }

  /** A reply holding one block, laid out as prose without backquotes, the
      opener, whitespace, a backquote-free body with no whitespace at its
      ends, whitespace and the closing fence: the result is the body. */
  lemma OneBlockComplete(pre: string, ws1: string, body: string, ws2: string)
    requires OneBlockParts(pre, ws1, body, ws2)
    ensures FirstPythonBlock(pre + Opener + ws1 + body + ws2 + Closer) == Some(body)
  {
    ConcatLaid(pre, ws1, body, ws2);
    LaidBlock(pre + Opener + ws1 + body + ws2 + Closer, pre, ws1, body, ws2);
  }

  /** The same with anything at all after the closing fence. */
  lemma OneBlock(pre: string, ws1: string, body: string, ws2: string, post: string)
    requires OneBlockParts(pre, ws1, body, ws2)
    ensures FirstPythonBlock(pre + Opener + ws1 + body + ws2 + Closer + post) == Some(body)
  {
    OneBlockComplete(pre, ws1, body, ws2);
    LaterTextIgnored(pre + Opener + ws1 + body + ws2 + Closer, post);
  }

  /** A block with nothing but whitespace inside is found, and is empty:
      an empty block is distinct from no block. */
  lemma EmptyBlock(ws: string, post: string)
    requires AllSpace(ws, 0, |ws|)
    ensures FirstPythonBlock(Opener + ws + Closer + post) == Some("")
  {
    var s0 := Opener + ws + Closer;
    var e := |Opener| + |ws|;
    assert s0[0..|Opener|] == Opener;
    assert s0[e..e + |Closer|] == Closer;
    assert forall k :: 0 <= k < |ws| ==> s0[|Opener| + k] == ws[k];
    assert PatternMatch(s0, 0, e, e, e);
    FenceNotSpace(s0, e);
    SkipSpaceStopsAt(s0, |Opener|, e);
    forall p', g', e' | PatternMatch(s0, 0, p', g', e') ensures p' <= e {
      MatchLeadBound(s0, 0, p', g', e');
    }
    LeftmostChosenIsScanned(s0, 0, e, e, e);
    LaterTextIgnored(s0, post);
  }

  /** A reply without a single backquote holds no block. */
  lemma NoBackquoteNoBlock(s: string)
    requires '`' !in s
    ensures FirstPythonBlock(s) == None
  {
    forall i ensures !OpenerAt(s, i) {
      if OpenerAt(s, i) {
        OpenerStartsWithBackquote(s, i);
      }
    }
    NoBlockIff(s);
  }
}
