/** EnumBoard of internal/boards/tiles.go: the static preview board. It shows
    a grid of colours given to Setup; ticks, resets and clicks do nothing. */
module Tiles {
  import opened Common

  class EnumBoard {
    var values: seq<seq<Color>>
    var hvrX: int
    var hvrY: int

    /** The zero board, `&EnumBoard{}`. */
    constructor ()
      ensures values == [] && hvrX == 0 && hvrY == 0
    {
      values := [];
      hvrX, hvrY := 0, 0;
    }

    /** The number of rows and the length of row 0. */
    function Size(): (dims: (nat, nat))
      reads this
      requires |values| > 0
      ensures dims.0 == |values| && dims.1 == |values[0]|
    {
      (|values|, |values[0]|)
    }

    /** A tick of the preview: nothing changes (no modifies clause) and no
        error is returned. */
    method Update() returns (err: Outcome)
      ensures err == Pass
    {
      err := Pass;
    }

    /** The frame Draw paints: the stored colours, cell by cell. */
    method Draw() returns (frame: seq<seq<Color>>)
      ensures frame == values
    {
      frame := [];
      for x := 0 to |values|
        invariant frame == values[..x]
      {
        var row: seq<Color> := [];
        for y := 0 to |values[x]|
          invariant row == values[x][..y]
        {
          assert values[x][..y + 1] == values[x][..y] + [values[x][y]];
          row := row + [values[x][y]];
        }
        assert values[x][..|values[x]|] == values[x];
        assert values[..x + 1] == values[..x] + [values[x]];
        frame := frame + [row];
      }
      assert values[..|values|] == values;
    }

    method Setup(init: seq<seq<Color>>)
      modifies this`values
      ensures values == init
    {
      values := init;
    }

    /** Nothing to restore: nothing changes and no error is returned. */
    method Reset() returns (err: Outcome)
      ensures err == Pass
    {
      err := Pass;
    }

    method GetState() returns (state: seq<seq<Color>>)
      ensures state == values
    {
      state := values;
    }

    /** Clicks are ignored, whatever the button. */
    method Click(btn: MouseButton)
      ensures unchanged(this)
    {
    }

    /** Records the cursor, with no range check. */
    method Hover(x: int, y: int)
      modifies this`hvrX, this`hvrY
      ensures hvrX == x && hvrY == y
    {
      hvrX := x;
      hvrY := y;
    }
  }

  /** After Setup, GetState gives back exactly the grid Setup was given, and
      neither a tick, a reset nor a click changes it. */
  method SetupThenState(b: EnumBoard, init: seq<seq<Color>>, btn: MouseButton) returns (state: seq<seq<Color>>)
    modifies b
    ensures state == init && b.values == init
  {
    b.Setup(init);
    var _ := b.Update();
    var _ := b.Reset();
    b.Click(btn);
    state := b.GetState();
  }
}
