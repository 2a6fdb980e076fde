/**
 * `gameState`: the target bytes and the working bytes as arrays, and the cursor,
 * correctness map and word counter as fields that `Traverse` updates in place.
 */
module Game {
  import opened Bytes
  import opened Words
  import opened Editing
  import opened Rendering

  class GameState {
    const srcWords: seq<Word>
    const srcBytes: array<Byte>
    const modBytes: array<Byte>
    var pos: int
    var correctnessMap: map<int, bool>
    var wordCount: int

    /** The fields as a session value. */
    ghost function State(): Session
      reads this, srcBytes, modBytes
    {
      Session(srcBytes[..], modBytes[..], pos, correctnessMap, wordCount)
    }

    /** Two distinct buffers, the target spelling out the words, and the engine invariants. */
    ghost predicate Valid()
      reads this, srcBytes, modBytes
    {
      && srcBytes != modBytes
      && srcBytes[..] == Join(srcWords)
      && Inv(State())
    }

    /** `NewGameState`: the target is the joined words and the working buffer a copy of it. */
    constructor (words: seq<Word>)
      ensures Valid()
      ensures fresh(srcBytes) && fresh(modBytes)
      ensures srcWords == words
      ensures State() == Start(Join(words))
    {
      var text := String(words);
      var src := new Byte[|text|](i requires 0 <= i < |text| => text[i]);
      assert src[..] == text by {
        assert forall k :: 0 <= k < |text| ==> src[..][k] == text[k];
      }
      var dst := new Byte[src.Length];
      var i := 0;
      while i < src.Length
        invariant 0 <= i <= src.Length
        invariant dst[..i] == src[..i]
        invariant src[..] == text
      {
        dst[i] := src[i];
        i := i + 1;
      }
      assert dst[..] == dst[..i];
      srcWords, srcBytes, modBytes := words, src, dst;
      pos, correctnessMap, wordCount := 0, map[], 0;
      new;
    }

    /** `traverse(char, dir)`: one edit step, exactly as `Editing.Traverse` describes it. */
    method Traverse(ch: Rune, dir: int) returns (r: Outcome)
      requires srcBytes != modBytes && CanTraverse(State())
      modifies this, modBytes
      ensures Stepped(State(), r) == Editing.Traverse(old(State()), ch, dir)
      ensures old(Valid()) ==> Valid()
    {
      if modBytes.Length != srcBytes.Length {
        return Fail(LengthMismatch);
      }
      if pos + dir < 0 {
        modBytes[0] := srcBytes[0];
        pos := 0;
        return Pass;
      }
      if dir != 1 && dir != -1 {
        return Fail(InvalidDirection);
      }
      if dir > 0 {
        modBytes[pos] := ByteOf(ch);
      } else if dir < 0 {
        modBytes[pos] := srcBytes[pos];
        modBytes[pos - 1] := srcBytes[pos - 1];
      }
      if modBytes[pos] == srcBytes[pos] {
        correctnessMap := correctnessMap[pos := true];
        if srcBytes[pos] == Space {
          wordCount := wordCount + 1;
        }
      }
      pos := pos + dir;
      pos := Min(pos, srcBytes.Length - 1);
      return Pass;
    }

    /**
     * `refreshUI` for a terminal of `width` by `height`: writes `'_'` over the unmarked
     * spaces shown before the cursor and returns the row it would print.
     */
    method RefreshUI(width: int, height: int) returns (view: View)
      requires Valid() && CanRefresh(State(), width)
      modifies modBytes
      ensures Valid()
      ensures State() == Refresh(old(State()), width)
      ensures view == Layout(State(), width, height)
    {
      var w, h := OddDown(width), OddDown(height);
      var b := Window(pos, modBytes.Length, w / 2);
      var start, end, padCount, endStart := b.start, b.end, b.pad, b.endStart;
      ghost var s0, before := State(), modBytes[..];
      var i := 0;
      while i < pos - start
        invariant 0 <= i <= pos - start
        invariant modBytes[..] == MaskSpaces(before, correctnessMap, start, start + i)
      {
        MaskSpacesStep(before, correctnessMap, start, start + i);
        if !Marked(correctnessMap, start + i) {
          if modBytes[start + i] == Space {
            modBytes[start + i] := Placeholder;
          }
        }
        i := i + 1;
      }
      var text := modBytes[..];
      view := View(w, h, padCount, text[start..pos], Unverified(correctnessMap, start, pos),
        text[pos], text[endStart..end], w / 2);
      assert State() == Refresh(s0, width);
    }
  }
}
