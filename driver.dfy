/**
 * The key-dispatch loop of `main`: every key read becomes one `traverse` call
 * (backward for backspace, forward for anything else) followed by a redraw.
 */
module Driver {
  import opened Bytes
  import opened Editing
  import opened Rendering
  import opened Game

  /** The `switch r`: backspace steps back, every other key code steps forward. */
  function Direction(r: Rune): (d: int)
    ensures d == 1 || d == -1
    ensures d == -1 <==> r == Backspace
  {
    if r == Backspace then -1 else 1
  }

  /** What one loop iteration does to the session: the edit, then the redraw's `'_'` pass. */
  function KeyStep(s: Session, r: Rune, w: int): (t: Session)
    requires CanRefresh(s, w)
    ensures CanRefresh(t, w)
  {
    Refresh(Traverse(s, r, Direction(r)).next, w)
  }

  /**
   * The session after the keys have been handled one after another, in order. The
   * result of each `traverse` is discarded, as the loop does.
   */
  function Replay(s: Session, keys: seq<Rune>, w: int): (t: Session)
    requires CanRefresh(s, w)
    ensures CanRefresh(t, w)
    ensures t.src == s.src
    ensures s.wordCount <= t.wordCount <= s.wordCount + |keys|
    ensures OnlyGainsTrue(s.correct, t.correct)
    decreases |keys|
  {
    if keys == [] then s
    else KeyStep(Replay(s, keys[..|keys| - 1], w), keys[|keys| - 1], w)
  }

  /** No key the loop can read makes `traverse` fail, so the discarded error is always nil. */
  lemma DispatchNeverFails(s: Session, r: Rune)
    requires Inv(s) && |s.src| > 0
    ensures Traverse(s, r, Direction(r)).outcome == Pass
  {
  }

  /** Handling `a` and then `b` is handling their concatenation. */
  lemma {:induction false} ReplayAppend(s: Session, a: seq<Rune>, b: seq<Rune>, w: int)
    requires CanRefresh(s, w)
    ensures Replay(s, a + b, w) == Replay(Replay(s, a, w), b, w)
    decreases |b|
  {
    if b == [] {
      assert a + b == a;
    } else {
      var init := b[..|b| - 1];
      assert (a + b)[..|a + b| - 1] == a + init;
      ReplayAppend(s, a, init, w);
    }
  }

  /** The last key is handled last: replaying `keys + [k]` is `keys` followed by `k`. */
  lemma ReplayLast(s: Session, keys: seq<Rune>, k: Rune, w: int)
    requires CanRefresh(s, w)
    ensures Replay(s, keys + [k], w) == KeyStep(Replay(s, keys, w), k, w)
  {
    assert (keys + [k])[..|keys|] == keys;
  }

  /** The first key is handled first: replaying `[k] + keys` is `k` followed by `keys`. */
  lemma ReplayFirst(s: Session, k: Rune, keys: seq<Rune>, w: int)
    requires CanRefresh(s, w)
    ensures Replay(s, [k] + keys, w) == Replay(KeyStep(s, k, w), keys, w)
  {
    ReplayAppend(s, [k], keys, w);
    assert [k][..0] == [];
  }

  /**
   * A non-backspace key writes `byte(r)` at the cursor, marks it and counts a word by the
   * rules of `traverse`, and advances the cursor; the redraw touches neither.
   */
  lemma TypeKey(s: Session, r: Rune, w: int)
    requires CanRefresh(s, w) && r != Backspace
    ensures var t := KeyStep(s, r, w);
      var hit := ByteOf(r) == s.src[s.pos];
      && t.pos == (if s.pos == |s.src| - 1 then s.pos else s.pos + 1)
      && t.correct == (if hit then s.correct[s.pos := true] else s.correct)
      && t.wordCount == (if hit && s.src[s.pos] == Space then s.wordCount + 1 else s.wordCount)
  {
    TraverseForward(s, r);
  }

  /**
   * The loop of `main` over a finite key sequence: each key is dispatched to one
   * `traverse` call and then the screen is redrawn on a `width` by `height` terminal.
   */
  method ProcessKeys(gs: GameState, keys: seq<Rune>, width: int, height: int)
    requires gs.Valid() && CanRefresh(gs.State(), width)
    modifies gs, gs.modBytes
    ensures gs.Valid()
    ensures gs.State() == Replay(old(gs.State()), keys, width)
  {
    for i := 0 to |keys|
      invariant gs.Valid()
      invariant gs.State() == Replay(old(gs.State()), keys[..i], width)
    {
      var r := keys[i];
      var err: Outcome;
      if r == Backspace {
        err := gs.Traverse(r, -1);
      } else {
        err := gs.Traverse(r, 1);
      }
      var view := gs.RefreshUI(width, height);
      assert keys[..i + 1][..i] == keys[..i];
    }
    assert keys[..|keys|] == keys;
  }
}

module Scenarios {
  import opened Bytes
  import opened Words
  import opened Editing

  /** Typing `r` on a session: one forward `traverse`. */
  function Advance(s: Session, r: Rune): (t: Session)
    requires Inv(s) && |s.src| > 0
    ensures Inv(t) && |t.src| == |s.src|
  {
    Traverse(s, r, 1).next
  }

  /**
   * Target "abc de", typed "abd de": index 2 stays unverified, the separator at index 3
   * still matches, and the word counter rises exactly once, at the separator.
   */
  lemma MismatchThenSeparator(src: seq<Byte>)
    requires src == Join([[97, 98, 99], [100, 101]])
    ensures var s3 := Advance(Advance(Advance(Start(src), 97), 98), 100);
      var s6 := Advance(Advance(Advance(s3, 32), 100), 101);
      && s3.wordCount == 0 && !Marked(s3.correct, 2)
      && !Marked(s6.correct, 2) && Marked(s6.correct, 3) && s6.wordCount == 1 && s6.pos == 5
  {
    assert src == [97, 98, 99, 32, 100, 101];
  }

  /** Backspace at the start restores byte 0 and leaves the cursor at 0. */
  lemma RetreatAtStart(s: Session, r: Rune)
    requires Inv(s) && |s.src| > 0 && s.pos == 0
    ensures Traverse(s, r, -1).next.mod[0] == s.src[0]
    ensures Traverse(s, r, -1).next.pos == 0
  {
  }
}
