/** The target text: a list of words joined with single spaces (`words.String`). */
module Words {
  import opened Bytes

  /** A Go `word` (a string), as the bytes it holds. */
  type Word = seq<Byte>

  /** `strings.Join(ws, " ")`. */
  function Join(ws: seq<Word>): (r: seq<Byte>)
    ensures |ws| >= 2 ==> |r| > |ws[0]| && r[..|ws[0]|] == ws[0] && r[|ws[0]|] == Space
  {
    if |ws| == 0 then []
    else if |ws| == 1 then ws[0]
    else ws[0] + [Space] + Join(ws[1..])
  }

  /** `words.String`: collects the words into a slice in order, then joins them. */
  method String(ws: seq<Word>) returns (r: seq<Byte>)
    ensures r == Join(ws)
  {
    var s: seq<Word> := [];
    for i := 0 to |ws|
      invariant s == ws[..i]
    {
      s := s + [ws[i]];
    }
    assert s == ws;
    r := Join(s);
  }

  /** The sum of the lengths of the words. */
  function TotalLength(ws: seq<Word>): nat
  {
    if ws == [] then 0 else |ws[0]| + TotalLength(ws[1..])
  }

  predicate SpaceFree(w: Word)
  {
    forall i :: 0 <= i < |w| ==> w[i] != Space
  }

  /**
   * `strings.Split(s, " ")`, kept as the independent inverse of `Join`:
   * n separators give n + 1 pieces, and the empty text gives one empty piece.
   */
  function Split(s: seq<Byte>): (r: seq<Word>)
    ensures |r| >= 1
  {
    if s == [] then [[]]
    else
      var rest := Split(s[1..]);
      if s[0] == Space then [[]] + rest
      else [[s[0]] + rest[0]] + rest[1..]
  }

  /** No words give the empty text; one word gives that word unchanged. */
  lemma JoinEmptyAndSingle(w: Word)
    ensures Join([]) == []
    ensures Join([w]) == w
  {
  }

  /** Appending a word to a non-empty list appends one space and the word. */
  lemma {:induction false} JoinSnoc(ws: seq<Word>, w: Word)
    requires ws != []
    ensures Join(ws + [w]) == Join(ws) + [Space] + w
  {
    if |ws| == 1 {
      assert ws + [w] == [ws[0], w];
      assert [ws[0], w][1..] == [w];
    } else {
      assert (ws + [w])[1..] == ws[1..] + [w];
      JoinSnoc(ws[1..], w);
    }
  }

  /** For n >= 1 words the text is the words' total length plus n - 1 separators. */
  lemma {:induction false} JoinLength(ws: seq<Word>)
    requires |ws| >= 1
    ensures |Join(ws)| == TotalLength(ws) + |ws| - 1
  {
    if |ws| == 1 {
      assert ws[1..] == [];
    } else {
      JoinLength(ws[1..]);
    }
  }

  /** A word without spaces splits into itself. */
  lemma {:induction false} SplitSpaceFree(w: Word)
    requires SpaceFree(w)
    ensures Split(w) == [w]
  {
    if w != [] {
      SplitSpaceFree(w[1..]);
      assert [w[0]] + w[1..] == w;
    }
  }

  /** A space-free word followed by a separator splits off as one piece. */
  lemma {:induction false} SplitAfterWord(w: Word, t: seq<Byte>)
    requires SpaceFree(w)
    ensures Split(w + [Space] + t) == [w] + Split(t)
  {
    var u := w + [Space] + t;
    if w == [] {
      assert u[1..] == t;
    } else {
      assert u[0] == w[0];
      assert u[1..] == w[1..] + [Space] + t;
      SplitAfterWord(w[1..], t);
      assert [w[0]] + w[1..] == w;
    }
  }

  /** Splitting the joined text on spaces gives back a non-empty list of space-free words. */
  lemma {:induction false} SplitJoin(ws: seq<Word>)
    requires ws != []
    requires forall i :: 0 <= i < |ws| ==> SpaceFree(ws[i])
    ensures Split(Join(ws)) == ws
  {
    if |ws| == 1 {
      SplitSpaceFree(ws[0]);
    } else {
      SplitAfterWord(ws[0], Join(ws[1..]));
      SplitJoin(ws[1..]);
      assert [ws[0]] + ws[1..] == ws;
    }
  }

  /** The empty list is the one case the round trip misses: its text splits into one empty word. */
  lemma SplitJoinEmpty()
    ensures Split(Join([])) == [[]]
  {
  }
}
