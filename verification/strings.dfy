/** String helpers shared by the notebook extractor and the fence scanner:
    Python's whitespace class, `"".join`, `"\n".join` and `str.split("\n")`. */
module Strings {

  /** The characters Python's `str.isspace()` accepts, which is also the set
      the `re` module's `\s` matches in a `str` pattern. */
  predicate IsSpace(c: char) {
    var n := c as int;
    || (9 <= n <= 13)
    || (28 <= n <= 31)
    || n == 32
    || n == 0x85
    || n == 0xA0
    || n == 0x1680
    || (0x2000 <= n <= 0x200A)
    || n == 0x2028
    || n == 0x2029
    || n == 0x202F
    || n == 0x205F
    || n == 0x3000
  }

  /** `s[lo..hi]` is a (possibly empty) run of whitespace. */
  predicate AllSpace(s: string, lo: int, hi: int) {
    && 0 <= lo <= hi <= |s|
    && forall k :: lo <= k < hi ==> IsSpace(s[k])
  }

  /** A whitespace run inside `a` is one in `a + b` and back. */
  lemma AllSpaceAppend(a: string, b: string, lo: int, hi: int)
    requires hi <= |a|
    ensures AllSpace(a + b, lo, hi) <==> AllSpace(a, lo, hi)
  {
    assert forall k :: 0 <= k < |a| ==> (a + b)[k] == a[k];
  }

  /** `w` occurs in `s` starting at index `i`. */
  predicate HasAt(s: string, i: int, w: string) {
    0 <= i && i + |w| <= |s| && s[i..i + |w|] == w
  }

  /** Both halves of `a + b` occur where they were put. */
  lemma HasAtAppend(a: string, b: string)
    ensures HasAt(a + b, 0, a) && HasAt(a + b, |a|, b)
  {
    assert (a + b)[0..|a|] == a;
    assert (a + b)[|a|..|a| + |b|] == b;
  }

  /** An occurrence of `a + b` is an occurrence of `a` followed by one of `b`. */
  lemma HasAtSplit(s: string, i: int, a: string, b: string)
    requires HasAt(s, i, a + b)
    ensures HasAt(s, i, a) && HasAt(s, i + |a|, b)
  {
    var w := s[i..i + |a| + |b|];
    assert s[i..i + |a|] == w[0..|a|];
    assert s[i + |a|..i + |a| + |b|] == w[|a|..];
  }

  /** Character by character, an occurrence of `w` at `i` is `w`. */
  lemma HasAtIndex(s: string, i: int, w: string)
    requires HasAt(s, i, w)
    ensures forall k :: 0 <= k < |w| ==> s[i + k] == w[k]
  {
    forall k | 0 <= k < |w| ensures s[i + k] == w[k] {
      assert s[i + k] == s[i..i + |w|][k];
    }
  }

  /** A whitespace string occurring at `i` is a whitespace run of `s`. */
  lemma AllSpaceAt(s: string, i: int, w: string)
    requires HasAt(s, i, w) && AllSpace(w, 0, |w|)
    ensures AllSpace(s, i, i + |w|)
  {
    HasAtIndex(s, i, w);
    forall k | i <= k < i + |w| ensures IsSpace(s[k]) {
      assert s[i + (k - i)] == w[k - i];
    }
  }

  /** Python's `"".join(parts)`: the parts back to back, no separator. */
  function Concat(parts: seq<string>): string {
    if |parts| == 0 then "" else parts[0] + Concat(parts[1..])
  }

  /** The one-character strings Python yields when it iterates over `t`. */
  function Chars(t: string): (r: seq<string>)
    ensures |r| == |t|
    ensures forall i :: 0 <= i < |t| ==> r[i] == [t[i]]
  {
    seq(|t|, i requires 0 <= i < |t| => [t[i]])
  }

  /** Python's `"\n".join(pieces)`: one newline between neighbours,
      none before the first or after the last. */
  function JoinLines(pieces: seq<string>): string {
    if |pieces| == 0 then ""
    else if |pieces| == 1 then pieces[0]
    else pieces[0] + "\n" + JoinLines(pieces[1..])
  }

  /** Python's `s.split("\n")`: the maximal newline-free pieces, in order. */
  function SplitLines(s: string): (r: seq<string>)
    ensures |r| >= 1
    ensures forall i :: 0 <= i < |r| ==> '\n' !in r[i]
  {
    if |s| == 0 then [""]
    else
      var rest := SplitLines(s[1..]);
      if s[0] == '\n' then [""] + rest
      else [[s[0]] + rest[0]] + rest[1..]
  }

  /** Joining the characters of a string gives the string back. */
  lemma {:induction false} ConcatChars(t: string)
    ensures Concat(Chars(t)) == t
  {
    if |t| > 0 {
      assert Chars(t)[1..] == Chars(t[1..]);
      ConcatChars(t[1..]);
      assert t == [t[0]] + t[1..];
    }
  }

  /** `"".join` distributes over list concatenation. */
  lemma {:induction false} ConcatAppend(a: seq<string>, b: seq<string>)
    ensures Concat(a + b) == Concat(a) + Concat(b)
  {
    if |a| > 0 {
      assert (a + b)[1..] == a[1..] + b;
      ConcatAppend(a[1..], b);
    } else {
      assert a + b == b;
    }
  }

  /** Appending a piece adds exactly one separator before it. */
  lemma {:induction false} JoinLinesSnoc(ps: seq<string>, t: string)
    requires |ps| >= 1
    ensures JoinLines(ps + [t]) == JoinLines(ps) + "\n" + t
  {
    if |ps| > 1 {
      assert (ps + [t])[1..] == ps[1..] + [t];
      JoinLinesSnoc(ps[1..], t);
    }
  }

  /** n pieces gain exactly n - 1 newlines: the joined text is as long as the
      pieces together plus n - 1, and holds n - 1 newlines more than they do. */
  lemma {:induction false} JoinLinesNewlines(ps: seq<string>)
    requires |ps| >= 1
    ensures |JoinLines(ps)| == |Concat(ps)| + |ps| - 1
    ensures multiset(JoinLines(ps))['\n'] == multiset(Concat(ps))['\n'] + |ps| - 1
  {
    if |ps| > 1 {
      JoinLinesNewlines(ps[1..]);
      assert Concat(ps) == ps[0] + Concat(ps[1..]);
      assert JoinLines(ps) == ps[0] + "\n" + JoinLines(ps[1..]);
    } else {
      assert Concat(ps) == ps[0] + Concat([]);
    }
  }

  /** A newline-free text is a single piece. */
  lemma {:induction false} SplitLinesNoNewline(a: string)
    requires '\n' !in a
    ensures SplitLines(a) == [a]
  {
    if |a| > 0 {
      assert a == [a[0]] + a[1..];
      SplitLinesNoNewline(a[1..]);
    }
  }

  /** Splitting at a newline that follows a newline-free prefix peels off
      that prefix as the first piece. */
  lemma {:induction false} SplitLinesCons(a: string, b: string)
    requires '\n' !in a
    ensures SplitLines(a + "\n" + b) == [a] + SplitLines(b)
  {
    if |a| == 0 {
      assert a + "\n" + b == "\n" + b;
      assert ("\n" + b)[1..] == b;
    } else {
      var s := a + "\n" + b;
      assert s[1..] == a[1..] + "\n" + b;
      assert a[0] != '\n';
      SplitLinesCons(a[1..], b);
      assert [a[0]] + a[1..] == a;
    }
  }

  /** Splitting undoes joining, for pieces that hold no newline themselves. */
  lemma {:induction false} SplitJoinLines(ps: seq<string>)
    requires |ps| >= 1
    requires forall i :: 0 <= i < |ps| ==> '\n' !in ps[i]
    ensures SplitLines(JoinLines(ps)) == ps
  {
    if |ps| == 1 {
      SplitLinesNoNewline(ps[0]);
    } else {
      SplitJoinLines(ps[1..]);
      SplitLinesCons(ps[0], JoinLines(ps[1..]));
      assert ps == [ps[0]] + ps[1..];
    }
  }

  /** Joining undoes splitting, for every text. */
  lemma {:induction false} JoinSplitLines(s: string)
    ensures JoinLines(SplitLines(s)) == s
  {
    if |s| > 0 {
      var rest := SplitLines(s[1..]);
      JoinSplitLines(s[1..]);
      assert s == [s[0]] + s[1..];
      if s[0] == '\n' {
        assert ([""] + rest)[1..] == rest;
      } else {
        var r := SplitLines(s);
        assert r == [[s[0]] + rest[0]] + rest[1..];
        if |rest| == 1 {
          assert r == [[s[0]] + rest[0]];
        } else {
          assert r[1..] == rest[1..];
          assert JoinLines(rest) == rest[0] + "\n" + JoinLines(rest[1..]);
        }
      }
    }
  }
}
