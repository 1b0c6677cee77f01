/** How the two batch scripts meet: the dithering script writes
    `<stem>_dithered.png` for each input `<stem>.png`, and the packer picks
    up exactly the names ending in `_dithered.png`, sorted. */
module Pipeline {
  import opened Names
  import Dither
  import PackSpritesheet

  /** A frame named `<stem>.png` is dithered, and its output is packed. */
  lemma DitheredFrameIsPacked(stem: string)
    requires !HasPng(stem)
    ensures Dither.IsPngName(stem + ".png")
    ensures PackSpritesheet.IsDitheredName(Dither.DitheredName(stem + ".png"))
  {
    Dither.DitheredNameOfPng(stem);
    var out := stem + "_dithered.png";
    assert out[|out| - 13..] == "_dithered.png";
  }

  /** A frame named with an upper-case extension is dithered, but its output
      keeps the input's name and the packer skips it. */
  lemma UpperCaseFrameIsNotPacked()
    ensures Dither.IsPngName("X.PNG")
    ensures !PackSpritesheet.IsDitheredName(Dither.DitheredName("X.PNG"))
  {
    Dither.UpperCaseExtensionKeepsName();
  }

  /** Appending the same suffix, or any suffixes, to two different names of
      equal length keeps their order. */
  lemma {:induction false} LexLeEqualLength(a: string, b: string, s: string, t: string)
    requires |a| == |b| && a != b
    ensures LexLe(a + s, b + t) <==> LexLe(a, b)
    decreases |a|
  {
    assert |a| > 0;
    assert (a + s)[0] == a[0] && (b + t)[0] == b[0];
    if a[0] == b[0] {
      assert a[1..] != b[1..] by {
        assert a == [a[0]] + a[1..] && b == [b[0]] + b[1..];
      }
      assert (a + s)[1..] == a[1..] + s && (b + t)[1..] == b[1..] + t;
      LexLeEqualLength(a[1..], b[1..], s, t);
    }
  }

  /** For frames whose stems have equal length (as with fixed-width frame
      numbers), the packer's order of the outputs is the order in which the
      dithering script visited the inputs. */
  lemma RenamePreservesOrder(a: string, b: string)
    requires |a| == |b|
    ensures LexLe(a + ".png", b + ".png") <==> LexLe(a + "_dithered.png", b + "_dithered.png")
  {
    if a == b {
      LexLeTotal(a + ".png", a + ".png");
      LexLeTotal(a + "_dithered.png", a + "_dithered.png");
    } else {
      LexLeEqualLength(a, b, ".png", ".png");
      LexLeEqualLength(a, b, "_dithered.png", "_dithered.png");
    }
  }

  /** Stems of different lengths can swap places: `a.png` comes before
      `a0.png`, but `a0_dithered.png` comes before `a_dithered.png`. */
  lemma RenameCanReorder()
    ensures LexLe("a.png", "a0.png") && !LexLe("a0.png", "a.png")
    ensures LexLe("a0_dithered.png", "a_dithered.png") && !LexLe("a_dithered.png", "a0_dithered.png")
  {
    assert "a.png"[1..] == ".png" && "a0.png"[1..] == "0.png";
    assert "a0_dithered.png"[1..] == "0_dithered.png" && "a_dithered.png"[1..] == "_dithered.png";
  }
}
