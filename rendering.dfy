/**
 * The arithmetic and the one side effect of `refreshUI`: the viewport parity fix,
 * the window around the cursor, the `'_'` written over unverified spaces before the
 * cursor, and the row that is printed (without colours or escape codes).
 */
module Rendering {
  import opened Bytes
  import opened Editing

  /** `if n%2 == 0 { n-- }`: the largest odd number not above `n`. */
  function OddDown(n: int): (r: int)
    ensures r % 2 == 1
    ensures r == n || r == n - 1
    ensures r == n <==> n % 2 == 1
  {
    if n % 2 == 0 then n - 1 else n
  }

  /** The slice bounds of the printed row and the number of leading pad spaces. */
  datatype Bounds = Bounds(start: int, end: int, pad: int, endStart: int)

  /**
   * The window for cursor `pos` in a buffer of `len` bytes and a half-width `half`.
   * The bytes before the cursor are `[start, pos)`, those after it `[endStart, end)`;
   * `pad` spaces precede them so that the cursor byte lands in column `half`.
   */
  function Window(pos: int, len: int, half: int): (b: Bounds)
    requires 0 <= pos < len && 0 <= half
    ensures 0 <= b.start <= pos
    ensures b.endStart == pos + 1 && b.end <= len
    ensures 0 <= b.pad && b.pad + (pos - b.start) == half
    ensures b.start == 0 || b.pad == 0
    ensures b.end == len || b.end == pos + half
    ensures half >= 1 ==> b.endStart <= b.end && b.end - b.endStart < half
    ensures half == 0 ==> b.end < b.endStart
  {
    var start := if pos - half < 0 then 0 else pos - half;
    var end := if pos + half > len then len else pos + half;
    var pad := if half - pos < 0 then 0 else half - pos;
    var endStart := if pos + 1 > len then len else pos + 1;
    Bounds(start, end, pad, endStart)
  }

  /**
   * What `refreshUI` needs in order not to panic: a cursor on a byte of the buffer, and
   * a terminal at least 3 columns wide, so that the half-width is at least 1 (a narrower
   * one inverts the bounds of the tail slice, see `Window`).
   */
  predicate CanRefresh(s: Session, w: int)
  {
    Inv(s) && |s.src| > 0 && w >= 3
  }

  /** The window `refreshUI` computes for a session and a raw terminal width. */
  function WindowOf(s: Session, w: int): (b: Bounds)
    requires CanRefresh(s, w)
    ensures b.endStart <= b.end <= |s.mod|
  {
    Window(s.pos, |s.mod|, OddDown(w) / 2)
  }

  /** The buffer after every unmarked space in `[start, stop)` is replaced by `'_'`. */
  function MaskSpaces(mod: seq<Byte>, correct: map<int, bool>, start: int, stop: int): (r: seq<Byte>)
    ensures |r| == |mod|
    ensures forall k :: 0 <= k < |mod| && !(start <= k < stop) ==> r[k] == mod[k]
    ensures forall k :: 0 <= k < |mod| ==> r[k] == mod[k] || (r[k] == Placeholder && mod[k] == Space)
  {
    seq(|mod|, k requires 0 <= k < |mod| =>
      if start <= k < stop && !Marked(correct, k) && mod[k] == Space then Placeholder else mod[k])
  }

  /** Extending the masked range by one index touches only that index. */
  lemma MaskSpacesStep(mod: seq<Byte>, correct: map<int, bool>, start: int, stop: int)
    requires 0 <= start <= stop < |mod|
    ensures MaskSpaces(mod, correct, start, stop + 1) ==
      MaskSpaces(mod, correct, start, stop)[stop :=
        if !Marked(correct, stop) && mod[stop] == Space then Placeholder else mod[stop]]
  {
  }

  /** The state `refreshUI` leaves behind: only the working buffer changes. */
  function Refresh(s: Session, w: int): (r: Session)
    requires CanRefresh(s, w)
    ensures CanRefresh(r, w)
    ensures r.src == s.src && r.pos == s.pos && r.correct == s.correct && r.wordCount == s.wordCount
    ensures |r.mod| == |s.mod|
    ensures var b := WindowOf(s, w);
      && (forall k :: 0 <= k < |s.mod| && !(b.start <= k < s.pos) ==> r.mod[k] == s.mod[k])
      && (forall k :: b.start <= k < s.pos ==>
            if !Marked(s.correct, k) && s.mod[k] == Space then r.mod[k] == Placeholder else r.mod[k] == s.mod[k])
  {
    s.(mod := MaskSpaces(s.mod, s.correct, WindowOf(s, w).start, s.pos))
  }

  /** After a refresh no unmarked byte in the visible part before the cursor is a space. */
  lemma RefreshLeavesNoBareSpace(s: Session, w: int, k: int)
    requires CanRefresh(s, w)
    requires WindowOf(s, w).start <= k < s.pos && !Marked(s.correct, k)
    ensures Refresh(s, w).mod[k] != Space
  {
  }

  /** Refreshing twice with the same width changes nothing more than refreshing once. */
  lemma RefreshIdempotent(s: Session, w: int)
    requires CanRefresh(s, w)
    ensures Refresh(Refresh(s, w), w) == Refresh(s, w)
  {
    var r := Refresh(s, w);
    var rr := Refresh(r, w);
    assert WindowOf(r, w) == WindowOf(s, w);
    assert rr.mod == r.mod;
  }

  /**
   * The printed row: the parity-fixed viewport, the pad, the bytes before the cursor
   * with a flag for the ones shown as unverified, the cursor byte, the bytes after it,
   * and the column of the caret on the next line.
   */
  datatype View = View(
    width: int, height: int, pad: int,
    before: seq<Byte>, wrong: seq<bool>, cursor: Byte, after: seq<Byte>,
    caret: int)

  /** For each index in `[start, stop)`, whether it is shown in the "incorrect" colour. */
  function Unverified(correct: map<int, bool>, start: int, stop: int): seq<bool>
  {
    seq(if start <= stop then stop - start else 0, i => !Marked(correct, start + i))
  }

  /** The row `refreshUI` prints for a session (after its `'_'` substitution). */
  function Layout(s: Session, w: int, h: int): (v: View)
    requires CanRefresh(s, w)
    ensures v.pad + |v.before| == v.caret
  {
    var width := OddDown(w);
    var b := Window(s.pos, |s.mod|, width / 2);
    View(width, OddDown(h), b.pad,
      s.mod[b.start..s.pos],
      Unverified(s.correct, b.start, s.pos),
      s.mod[s.pos], s.mod[b.endStart..b.end], width / 2)
  }

  /**
   * The cursor byte is printed in the column of the caret, the row fits the viewport,
   * and the row is exactly the window of the working buffer.
   */
  lemma LayoutCentered(s: Session, w: int, h: int)
    requires CanRefresh(s, w)
    ensures var v := Layout(s, w, h);
      && v.width % 2 == 1 && v.height % 2 == 1 && v.width >= 3
      && v.pad + |v.before| == v.caret == v.width / 2
      && v.pad + |v.before| + 1 + |v.after| <= v.width
      && v.before + [v.cursor] + v.after == s.mod[WindowOf(s, w).start..WindowOf(s, w).end]
      && v.cursor == s.mod[s.pos]
      && |v.wrong| == |v.before|
      && (forall i :: 0 <= i < |v.wrong| ==> (v.wrong[i] <==> !Marked(s.correct, s.pos - |v.before| + i)))
  {
    var b := WindowOf(s, w);
    assert s.mod[b.start..b.end] == s.mod[b.start..s.pos] + [s.mod[s.pos]] + s.mod[b.endStart..b.end];
  }
}
