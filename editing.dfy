/**
 * The session state that `traverse` edits, as a value, and `traverse` itself as a
 * function from the old state to the new one. The class `Game.GameState` keeps the
 * same state in arrays and fields and is proved to follow `Traverse` exactly.
 */
module Editing {
  import opened Bytes

  /** The two errors `traverse` can return. */
  datatype TraverseError = LengthMismatch | InvalidDirection

  /** Go's `error` result: nil (`Pass`) or an error. */
  datatype Outcome = Pass | Fail(error: TraverseError)

  /**
   * The fields of `gameState` that the edit touches: the target bytes, the working
   * bytes, the cursor, the correctness map and the word counter.
   */
  datatype Session = Session(src: seq<Byte>, mod: seq<Byte>, pos: int, correct: map<int, bool>, wordCount: int)

  /** The state after a call together with the error it returned. */
  datatype Stepped = Stepped(next: Session, outcome: Outcome)

  /** Reading the Go map `correctnessMap[k]`: an absent key reads as false. */
  predicate Marked(correct: map<int, bool>, k: int)
  {
    k in correct && correct[k]
  }

  /** The state a fresh game starts in: the working buffer is a copy of the target. */
  function Start(src: seq<Byte>): (s: Session)
    ensures Inv(s)
    ensures s.src == src && s.mod == src
    ensures s.pos == 0 && s.wordCount == 0
    ensures forall k :: !Marked(s.correct, k)
  {
    Session(src, src, 0, map[], 0)
  }

  /**
   * The engine's standing invariants: equal lengths, the cursor on a byte of the
   * buffer (or 0 for an empty buffer), every map entry true and inside the buffer,
   * and a non-negative word count.
   */
  predicate Inv(s: Session)
  {
    && |s.mod| == |s.src|
    && 0 <= s.pos
    && (s.pos < |s.src| || s.pos == 0)
    && (forall k :: k in s.correct ==> s.correct[k] && 0 <= k < |s.src|)
    && s.wordCount >= 0
  }

  /**
   * What `traverse` needs in order not to index out of range: a cursor that is not
   * negative and that lies inside the buffer once the lengths agree. A mismatched
   * pair of buffers is allowed; the call then returns `LengthMismatch`.
   */
  predicate CanTraverse(s: Session)
  {
    0 <= s.pos && (|s.mod| == |s.src| ==> s.pos < |s.src|)
  }

  /** The correctness map only gains entries, and every entry it gains or rewrites is true. */
  predicate OnlyGainsTrue(before: map<int, bool>, after: map<int, bool>)
  {
    && (forall k :: k in before ==> k in after)
    && (forall k :: k in after ==> (k in before && after[k] == before[k]) || after[k])
  }

  /** `math.Min` on two ints, through float64 (exact for the values that occur). */
  function Min(a: int, b: int): (r: int)
    ensures r <= a && r <= b
    ensures r == a || r == b
  {
    if a <= b then a else b
  }

  /** `traverse(char, dir)` on a session. */
  function Traverse(s: Session, ch: Rune, dir: int): (r: Stepped)
    requires CanTraverse(s)
    ensures r.next.src == s.src
    ensures |r.next.mod| == |s.mod|
    ensures |s.mod| == |s.src| ==> 0 <= r.next.pos < |s.src|
    ensures OnlyGainsTrue(s.correct, r.next.correct)
    ensures s.wordCount <= r.next.wordCount <= s.wordCount + 1
    ensures Inv(s) ==> Inv(r.next)
  {
    if |s.mod| != |s.src| then
      Stepped(s, Fail(LengthMismatch))
    else if s.pos + dir < 0 then
      Stepped(s.(mod := s.mod[0 := s.src[0]], pos := 0), Pass)
    else if dir != 1 && dir != -1 then
      Stepped(s, Fail(InvalidDirection))
    else
      var mod :=
        if dir > 0 then s.mod[s.pos := ByteOf(ch)]
        else s.mod[s.pos := s.src[s.pos]][s.pos - 1 := s.src[s.pos - 1]];
      var hit := mod[s.pos] == s.src[s.pos];
      var correct := if hit then s.correct[s.pos := true] else s.correct;
      var wordCount := if hit && s.src[s.pos] == Space then s.wordCount + 1 else s.wordCount;
      Stepped(Session(s.src, mod, Min(s.pos + dir, |s.src| - 1), correct, wordCount), Pass)
  }

  /** Buffers of different lengths: the call reports `LengthMismatch` and changes nothing. */
  lemma TraverseRejectsMismatch(s: Session, ch: Rune, dir: int)
    requires CanTraverse(s) && |s.mod| != |s.src|
    ensures Traverse(s, ch, dir) == Stepped(s, Fail(LengthMismatch))
  {
  }

  /**
   * A step that would put the cursor below 0, for any `dir`: only byte 0 is restored,
   * the cursor goes to 0, and the map and the counter are left alone.
   */
  lemma TraverseUnderflow(s: Session, ch: Rune, dir: int)
    requires CanTraverse(s) && |s.mod| == |s.src| && s.pos + dir < 0
    ensures var r := Traverse(s, ch, dir);
      && r.outcome == Pass
      && r.next.pos == 0
      && r.next.mod[0] == s.src[0]
      && (forall k :: 0 < k < |s.mod| ==> r.next.mod[k] == s.mod[k])
      && r.next.correct == s.correct
      && r.next.wordCount == s.wordCount
  {
  }

  /** A direction other than 1 or -1 that does not underflow is rejected and changes nothing. */
  lemma TraverseInvalidDirection(s: Session, ch: Rune, dir: int)
    requires CanTraverse(s) && |s.mod| == |s.src| && s.pos + dir >= 0
    requires dir != 1 && dir != -1
    ensures Traverse(s, ch, dir) == Stepped(s, Fail(InvalidDirection))
  {
  }

  /**
   * Forward step: the byte under the cursor becomes `byte(ch)`, no other byte changes,
   * and the cursor advances by one unless it is on the last byte, where it stays.
   */
  lemma TraverseForward(s: Session, ch: Rune)
    requires CanTraverse(s) && |s.mod| == |s.src|
    ensures var r := Traverse(s, ch, 1);
      && r.outcome == Pass
      && r.next.mod[s.pos] == ByteOf(ch)
      && (forall k :: 0 <= k < |s.mod| && k != s.pos ==> r.next.mod[k] == s.mod[k])
      && r.next.pos == (if s.pos == |s.src| - 1 then s.pos else s.pos + 1)
  {
  }

  /**
   * Backward step away from byte 0: the bytes at the cursor and just before it are
   * restored from the target, nothing else changes, the cursor moves back by one, and
   * because the byte under the cursor now matches, the cursor's index is always marked
   * correct and a space there always counts a word.
   */
  lemma TraverseBackward(s: Session, ch: Rune)
    requires CanTraverse(s) && |s.mod| == |s.src| && s.pos > 0
    ensures var r := Traverse(s, ch, -1);
      && r.outcome == Pass
      && r.next.mod[s.pos] == s.src[s.pos]
      && r.next.mod[s.pos - 1] == s.src[s.pos - 1]
      && (forall k :: 0 <= k < |s.mod| && k != s.pos && k != s.pos - 1 ==> r.next.mod[k] == s.mod[k])
      && r.next.pos == s.pos - 1
      && Marked(r.next.correct, s.pos)
      && r.next.wordCount == (if s.src[s.pos] == Space then s.wordCount + 1 else s.wordCount)
  {
  }

  /**
   * Bookkeeping of an accepted step: the cursor's index ends up marked exactly when it
   * was marked already or its byte now matches the target, no other entry changes, and
   * the counter rises by one exactly when the byte matches and the target byte is a space.
   */
  lemma TraverseBookkeeping(s: Session, ch: Rune, dir: int)
    requires CanTraverse(s) && |s.mod| == |s.src| && s.pos + dir >= 0
    requires dir == 1 || dir == -1
    ensures var r := Traverse(s, ch, dir);
      var hit := r.next.mod[s.pos] == s.src[s.pos];
      && (Marked(r.next.correct, s.pos) <==> Marked(s.correct, s.pos) || hit)
      && (forall k :: k != s.pos ==> (k in r.next.correct <==> k in s.correct))
      && (forall k :: k != s.pos && k in s.correct ==> r.next.correct[k] == s.correct[k])
      && (r.next.wordCount == s.wordCount + 1 <==> hit && s.src[s.pos] == Space)
      && (r.next.wordCount == s.wordCount <==> !(hit && s.src[s.pos] == Space))
  {
  }

  /** Typing `ch`: the cursor's index is newly marked exactly when `byte(ch)` is the target byte. */
  lemma TraverseForwardMarks(s: Session, ch: Rune)
    requires CanTraverse(s) && |s.mod| == |s.src| && !Marked(s.correct, s.pos)
    ensures Marked(Traverse(s, ch, 1).next.correct, s.pos) <==> ByteOf(ch) == s.src[s.pos]
  {
  }

  /**
   * An index becomes marked only at the cursor and only when, at that moment, the
   * working byte there equals the target byte.
   */
  lemma TraverseMarksOnlyMatches(s: Session, ch: Rune, dir: int, k: int)
    requires CanTraverse(s) && !Marked(s.correct, k)
    requires Marked(Traverse(s, ch, dir).next.correct, k)
    ensures k == s.pos
    ensures Traverse(s, ch, dir).next.mod[k] == s.src[k]
  {
  }
}
