/**
 * Character-level helpers shared by the encoder and the module generator:
 * searching for a character, splitting text into newline-terminated lines,
 * dropping line breaks, and joining strings with a newline between them
 * (Python's '\n'.join).
 */
module Text {

  /** Index of the first occurrence of c in s, or |s| when there is none. */
  function IndexOf(s: string, c: char): (i: nat)
    ensures i <= |s|
    ensures i < |s| ==> s[i] == c
    ensures c !in s[..i]
  {
    if |s| == 0 then 0
    else if s[0] == c then 0
    else
      var i := 1 + IndexOf(s[1..], c);
      assert s[..i] == [s[0]] + s[1..][..i - 1];
      i
  }

  lemma {:induction false} IndexOfAppend(a: string, b: string, c: char)
    requires c !in a
    ensures IndexOf(a + b, c) == |a| + IndexOf(b, c)
  {
    if |a| > 0 {
      assert (a + b)[1..] == a[1..] + b;
      IndexOfAppend(a[1..], b, c);
    } else {
      assert a + b == b;
    }
  }

  /**
   * The lines of s: the pieces between line breaks, without the breaks.
   * A final line break does not start another (empty) line.
   */
  function Lines(s: string): (ls: seq<string>)
    ensures forall k :: 0 <= k < |ls| ==> '\n' !in ls[k]
    decreases |s|
  {
    if |s| == 0 then []
    else
      var i := IndexOf(s, '\n');
      if i == |s| then [s] else [s[..i]] + Lines(s[i + 1..])
  }

  /** A line without a break, followed by a break, is the first line. */
  lemma LinesCons(a: string, rest: string)
    requires '\n' !in a
    ensures Lines(a + "\n" + rest) == [a] + Lines(rest)
  {
    var s := a + "\n" + rest;
    assert s == a + ("\n" + rest);
    IndexOfAppend(a, "\n" + rest, '\n');
    assert IndexOf(s, '\n') == |a|;
    assert s[..|a|] == a;
    assert s[|a| + 1..] == rest;
  }

  /** Text that ends at a line break, followed by one unbroken piece, gains that piece as its last line. */
  lemma {:induction false} LinesSnoc(p: string, e: string)
    requires |p| == 0 || p[|p| - 1] == '\n'
    requires |e| > 0 && '\n' !in e
    ensures Lines(p + e) == Lines(p) + [e]
    decreases |p|
  {
    if |p| == 0 {
      assert p + e == e;
      assert IndexOf(e, '\n') == |e|;
    } else {
      var i := IndexOf(p, '\n');
      var a, r := p[..i], p[i + 1..];
      assert p == a + "\n" + r;
      assert |r| == 0 || r[|r| - 1] == '\n' by {
        if |r| > 0 {
          assert r[|r| - 1] == p[|p| - 1];
        }
      }
      assert p + e == a + "\n" + (r + e);
      LinesCons(a, r);
      LinesCons(a, r + e);
      LinesSnoc(r, e);
      Regroup([a], Lines(r), [e]);
    }
  }

  /** Concatenation is associative: a concatenation of three sequences can be regrouped. */
  lemma Regroup<T>(x: seq<T>, y: seq<T>, z: seq<T>)
    ensures x + (y + z) == x + y + z
  {
  }

  /** s with every line break removed. */
  function RemoveNewlines(s: string): (r: string)
    ensures '\n' !in r
    ensures |r| <= |s|
  {
    if |s| == 0 then []
    else if s[0] == '\n' then RemoveNewlines(s[1..])
    else [s[0]] + RemoveNewlines(s[1..])
  }

  lemma {:induction false} RemoveNewlinesAppend(a: string, b: string)
    ensures RemoveNewlines(a + b) == RemoveNewlines(a) + RemoveNewlines(b)
  {
    if |a| > 0 {
      assert (a + b)[0] == a[0];
      assert (a + b)[1..] == a[1..] + b;
      RemoveNewlinesAppend(a[1..], b);
    } else {
      assert a + b == b;
    }
  }

  lemma {:induction false} RemoveNewlinesNoop(s: string)
    requires '\n' !in s
    ensures RemoveNewlines(s) == s
  {
    if |s| > 0 {
      assert s == [s[0]] + s[1..];
      RemoveNewlinesNoop(s[1..]);
    }
  }

  /** Each string of ls followed by a line break: the text whose Lines are ls. */
  function Unlines(ls: seq<string>): (s: string)
  {
    if |ls| == 0 then [] else ls[0] + "\n" + Unlines(ls[1..])
  }

  /** Lines undoes Unlines for lines without breaks. */
  lemma {:induction false} LinesUnlines(ls: seq<string>)
    requires forall k :: 0 <= k < |ls| ==> '\n' !in ls[k]
    ensures Lines(Unlines(ls)) == ls
  {
    if |ls| > 0 {
      LinesCons(ls[0], Unlines(ls[1..]));
      LinesUnlines(ls[1..]);
    }
  }

  /**
   * Python's '\n'.join(xs): the strings of xs with one line break between
   * neighbours, that is, Unlines(xs) without its final line break.
   */
  function JoinLines(xs: seq<string>): (r: string)
    ensures |xs| > 0 ==> r + "\n" == Unlines(xs)
  {
    if |xs| == 0 then []
    else if |xs| == 1 then
      assert Unlines(xs) == xs[0] + "\n" + [];
      xs[0]
    else
      var r := xs[0] + "\n" + JoinLines(xs[1..]);
      assert r + "\n" == xs[0] + "\n" + (JoinLines(xs[1..]) + "\n");
      r
  }

  /**
   * Splitting a join at its line breaks gives back the joined strings, when
   * none of them holds a break: '\n'.join(xs).split('\n') == xs.
   */
  lemma JoinLinesSplit(xs: seq<string>)
    requires |xs| > 0
    requires forall k :: 0 <= k < |xs| ==> '\n' !in xs[k]
    ensures Lines(JoinLines(xs) + "\n") == xs
  {
    LinesUnlines(xs);
  }

  /** The separator count: a join of n strings is their total length plus n - 1 breaks. */
  function TotalLength(xs: seq<string>): nat
  {
    if |xs| == 0 then 0 else |xs[0]| + TotalLength(xs[1..])
  }

  lemma {:induction false} JoinLinesLength(xs: seq<string>)
    requires |xs| > 0
    ensures |JoinLines(xs)| == TotalLength(xs) + |xs| - 1
  {
    if |xs| > 1 {
      JoinLinesLength(xs[1..]);
    }
  }
}
