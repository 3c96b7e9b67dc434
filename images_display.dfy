/**
 * The IMAGES display that calculate generates: one entry per (name, payload)
 * pair and the entries joined by line breaks; a reader for such a display,
 * used to state that the display holds exactly the given pairs; and the
 * dictionary it evaluates to.
 */
module ImagesDisplay {
  import opened Results
  import opened Text

  /** The text between an entry's name and its payload: closing quote, colon, opening triple quote. */
  const KeyEnd: string := "\": \"\"\""

  /** The text after an entry's payload: closing triple quote and comma. */
  const ValueEnd: string := "\"\"\","

  /**
   * One entry of the IMAGES display, as the f-string in calculate builds it:
   * the name in double quotes, then a triple-quoted string that starts with
   * a line break and holds the payload. Nothing is escaped or checked.
   */
  function Entry(name: string, payload: string): (r: string)
    ensures |r| == 1 + |name| + |KeyEnd| + 1 + |payload| + |ValueEnd|
  {
    "\"" + name + KeyEnd + "\n" + payload + ValueEnd
  }

  /** The entry of every (name, payload) pair, in order. */
  function Entries(pairs: seq<(string, string)>): seq<string>
  {
    seq(|pairs|, k requires 0 <= k < |pairs| => Entry(pairs[k].0, pairs[k].1))
  }

  /** The text that replaces "{}": the entries joined by line breaks; empty exactly when there are no pairs. */
  function Body(pairs: seq<(string, string)>): (r: string)
    ensures |r| == 0 <==> |pairs| == 0
  {
    var xs := Entries(pairs);
    if |xs| == 0 then JoinLines(xs)
    else
      JoinLinesLength(xs);
      assert TotalLength(xs) == |xs[0]| + TotalLength(xs[1..]);
      JoinLines(xs)
  }

  /**
   * Line layout of one entry: its name line, then the payload's lines, then
   * a closing line of its own. This holds when the name has no line break and
   * the payload ends with one (or is empty), as base64.encodestring's does.
   */
  lemma EntryLines(name: string, payload: string)
    requires '\n' !in name
    requires |payload| == 0 || payload[|payload| - 1] == '\n'
    ensures Lines(Entry(name, payload)) == ["\"" + name + KeyEnd] + (Lines(payload) + [ValueEnd])
  {
    var first := "\"" + name + KeyEnd;
    Regroup(first + "\n", payload, ValueEnd);
    LinesOfEntryText(Entry(name, payload), first, payload);
  }

  lemma LinesOfEntryText(t: string, first: string, payload: string)
    requires '\n' !in first
    requires |payload| == 0 || payload[|payload| - 1] == '\n'
    requires t == first + "\n" + (payload + ValueEnd)
    ensures Lines(t) == [first] + (Lines(payload) + [ValueEnd])
  {
    assert '\n' !in ValueEnd;
    LinesCons(first, payload + ValueEnd);
    LinesSnoc(payload, ValueEnd);
  }

  // ----- Reading the IMAGES display back -----

  /**
   * Whether s stands for itself between the quotes of a Python string
   * literal: it holds no quote (which would end the literal) and no
   * backslash (which would start an escape sequence).
   */
  predicate LiteralSafe(s: string)
  {
    '"' !in s && '\\' !in s
  }

  /** A name additionally has no line break, which a one-line literal cannot hold. */
  predicate NameSafe(s: string)
  {
    LiteralSafe(s) && '\n' !in s && '\r' !in s
  }

  /** Cuts t before its first quote: the quote-free text in front, and the rest. */
  function SplitAtQuote(t: string): (r: (string, string))
    ensures r.0 + r.1 == t && '"' !in r.0
    ensures |r.1| > 0 ==> r.1[0] == '"'
  {
    var i := IndexOf(t, '"');
    assert t == t[..i] + t[i..];
    (t[..i], t[i..])
  }

  lemma SplitAtQuoteOf(a: string, b: string)
    requires '"' !in a && |b| > 0 && b[0] == '"'
    ensures SplitAtQuote(a + b) == (a, b)
  {
    IndexOfAppend(a, b, '"');
    assert (a + b)[..|a|] == a;
    assert (a + b)[|a|..] == b;
  }

  /** What follows p in t, when t starts with p. */
  function StripPrefix(p: string, t: string): (r: Option<string>)
    ensures r.Some? ==> p + r.value == t
    ensures r.None? ==> !(|p| <= |t| && t[..|p|] == p)
  {
    if |p| <= |t| && t[..|p|] == p then
      assert t == t[..|p|] + t[|p|..];
      Some(t[|p|..])
    else None
  }

  lemma StripPrefixOf(p: string, t: string)
    ensures StripPrefix(p, p + t) == Some(t)
  {
    assert (p + t)[..|p|] == p;
    assert (p + t)[|p|..] == t;
  }

  /**
   * Reads one entry from the front of t: a one-line literal key, `: `, a
   * triple-quoted value and a comma. Gives the key, the value (the text
   * between the triple quotes) and what follows. Only literals without
   * quotes, backslashes inside (and, for keys, line breaks) are accepted, so
   * that each literal's value is its text.
   */
  function ParseEntry(t: string): (r: Option<(string, string, string)>)
    ensures r.Some? ==> |r.value.2| < |t|
  {
    if |t| == 0 || t[0] != '"' then None
    else
      var (key, afterKey) := SplitAtQuote(t[1..]);
      match StripPrefix(KeyEnd, afterKey)
      case None => None
      case Some(afterColon) =>
        var (value, afterValue) := SplitAtQuote(afterColon);
        match StripPrefix(ValueEnd, afterValue)
        case None => None
        case Some(rest) =>
          if NameSafe(key) && LiteralSafe(value) then Some((key, value, rest)) else None
  }

  /** Reads the entries of an IMAGES display body, one per line-separated entry, in order. */
  function ParseBody(t: string): (r: Option<seq<(string, string)>>)
    decreases |t|
  {
    if |t| == 0 then Some([])
    else match ParseEntry(t)
      case None => None
      case Some((key, value, rest)) =>
        if |rest| == 0 then Some([(key, value)])
        else if rest[0] != '\n' || |rest| == 1 then None
        else match ParseBody(rest[1..])
          case None => None
          case Some(more) => Some([(key, value)] + more)
  }

  /**
   * The (key, value) pairs the generated display holds for the given
   * (name, payload) pairs: the value of a triple-quoted literal that starts
   * with a line break is that line break followed by the payload.
   */
  function Stored(pairs: seq<(string, string)>): seq<(string, string)>
  {
    seq(|pairs|, k requires 0 <= k < |pairs| => (pairs[k].0, "\n" + pairs[k].1))
  }

  predicate Embeddable(pairs: seq<(string, string)>)
  {
    forall k :: 0 <= k < |pairs| ==> NameSafe(pairs[k].0) && LiteralSafe(pairs[k].1)
  }

  /** An entry reads back as its name, its value and the text after it. */
  lemma ParseEntryOfEntry(name: string, payload: string, rest: string)
    requires NameSafe(name) && LiteralSafe(payload)
    ensures ParseEntry(Entry(name, payload) + rest) == Some((name, "\n" + payload, rest))
  {
    var value := "\n" + payload;
    var t := Entry(name, payload) + rest;
    assert t == "\"" + (name + (KeyEnd + (value + (ValueEnd + rest))));
    ParseEntryOfText(t, name, value, rest);
  }

  lemma ParseEntryOfText(t: string, name: string, value: string, rest: string)
    requires NameSafe(name) && LiteralSafe(value)
    requires t == "\"" + (name + (KeyEnd + (value + (ValueEnd + rest))))
    ensures ParseEntry(t) == Some((name, value, rest))
  {
    var afterKey := KeyEnd + (value + (ValueEnd + rest));
    assert t[1..] == name + afterKey;
    SplitAtQuoteOf(name, afterKey);
    assert SplitAtQuote(t[1..]) == (name, afterKey);
    StripPrefixOf(KeyEnd, value + (ValueEnd + rest));
    SplitAtQuoteOf(value, ValueEnd + rest);
    StripPrefixOf(ValueEnd, rest);
  }

  /**
   * The generated display holds exactly the given pairs: one entry per pair,
   * in the same order, duplicates kept, each name and payload verbatim.
   */
  lemma {:induction false} ParseBodyOfBody(pairs: seq<(string, string)>)
    requires Embeddable(pairs)
    ensures ParseBody(Body(pairs)) == Some(Stored(pairs))
    decreases |pairs|
  {
    if |pairs| == 0 {
      assert Stored(pairs) == [];
    } else {
      var name, payload := pairs[0].0, pairs[0].1;
      var tail := pairs[1..];
      if |pairs| == 1 {
        assert Body(pairs) == Entry(name, payload) + [];
        ParseEntryOfEntry(name, payload, []);
        ParseBodyLast(Body(pairs), name, "\n" + payload);
        assert Stored(pairs) == [(name, "\n" + payload)];
      } else {
        assert Entries(pairs)[1..] == Entries(tail);
        var rest := "\n" + Body(tail);
        assert Body(pairs) == Entry(name, payload) + rest;
        ParseEntryOfEntry(name, payload, rest);
        assert Embeddable(tail) by {
          forall k | 0 <= k < |tail| ensures NameSafe(tail[k].0) && LiteralSafe(tail[k].1) {
            assert tail[k] == pairs[k + 1];
          }
        }
        ParseBodyOfBody(tail);
        assert rest[1..] == Body(tail);
        ParseBodyNext(Body(pairs), name, "\n" + payload, rest, Stored(tail));
        StoredCons(pairs);
      }
    }
  }

  /** A body whose one entry ends the text reads as that entry alone. */
  lemma ParseBodyLast(t: string, key: string, value: string)
    requires ParseEntry(t) == Some((key, value, []))
    ensures ParseBody(t) == Some([(key, value)])
  {
  }

  /** A body whose first entry is followed by a line break and more entries reads as that entry, then the rest. */
  lemma ParseBodyNext(t: string, key: string, value: string, rest: string, more: seq<(string, string)>)
    requires ParseEntry(t) == Some((key, value, rest))
    requires |rest| > 1 && rest[0] == '\n' && ParseBody(rest[1..]) == Some(more)
    ensures ParseBody(t) == Some([(key, value)] + more)
  {
  }

  lemma StoredCons(pairs: seq<(string, string)>)
    requires |pairs| > 0
    ensures Stored(pairs) == [(pairs[0].0, "\n" + pairs[0].1)] + Stored(pairs[1..])
  {
    var s, r := Stored(pairs), [(pairs[0].0, "\n" + pairs[0].1)] + Stored(pairs[1..]);
    assert |s| == |r|;
    forall k | 0 <= k < |s| ensures s[k] == r[k] {
      if k > 0 {
        assert pairs[1..][k - 1] == pairs[k];
      }
    }
  }

  // ----- The dictionary the display evaluates to -----

  /**
   * The dict a Python display with these (key, value) pairs evaluates to:
   * pairs are taken in order, and a later key replaces an earlier one.
   */
  function DictOf(kvs: seq<(string, string)>): (r: map<string, string>)
    ensures |r| <= |kvs|
  {
    if |kvs| == 0 then map[]
    else DictOf(kvs[..|kvs| - 1])[kvs[|kvs| - 1].0 := kvs[|kvs| - 1].1]
  }

  /** Every name is a key, and holds the value of its last entry: duplicates are resolved last-wins. */
  lemma {:induction false} DictOfLastWins(kvs: seq<(string, string)>)
    ensures forall key :: key in DictOf(kvs) <==> exists k :: 0 <= k < |kvs| && kvs[k].0 == key
    ensures forall k :: 0 <= k < |kvs| && (forall l :: k < l < |kvs| ==> kvs[l].0 != kvs[k].0) ==>
      DictOf(kvs)[kvs[k].0] == kvs[k].1
    decreases |kvs|
  {
    if |kvs| > 0 {
      var init := kvs[..|kvs| - 1];
      DictOfLastWins(init);
      forall key ensures key in DictOf(kvs) <==> exists k :: 0 <= k < |kvs| && kvs[k].0 == key {
        if key in DictOf(init) {
          var k :| 0 <= k < |init| && init[k].0 == key;
          assert kvs[k].0 == key;
        }
        if exists k :: 0 <= k < |kvs| && kvs[k].0 == key {
          var k :| 0 <= k < |kvs| && kvs[k].0 == key;
          if k < |init| {
            assert init[k].0 == key;
          }
        }
      }
      forall k | 0 <= k < |kvs| && (forall l :: k < l < |kvs| ==> kvs[l].0 != kvs[k].0)
        ensures DictOf(kvs)[kvs[k].0] == kvs[k].1
      {
        if k < |init| {
          assert init[k] == kvs[k];
          assert forall l :: k < l < |init| ==> init[l].0 != init[k].0 by {
            forall l | k < l < |init| ensures init[l].0 != init[k].0 {
              assert init[l] == kvs[l];
            }
          }
        }
      }
    }
  }
}
