/** The stateful side of the App component: the `blocks` state cell and the
    animation frame that replaces it. Frame scheduling and rendering are not
    part of this module; each call of Animate is one frame. */
module App {
  import opened FallingBlocks

  class Simulation {
    /** The current block list, as held by the component's state. */
    var blocks: seq<Block>

    /** Every live block is on the grid. */
    ghost predicate Valid()
      reads this
    {
      AllInGrid(blocks)
    }

    /** The component starts with no blocks. */
    constructor ()
      ensures Valid() && blocks == []
    {
      blocks := [];
    }

    /** Append a new group in column col, coloured from the colour sample. */
    method SpawnBlockGroup(col: int, colorSample: real)
      requires IsSample(colorSample)
      modifies this
      ensures blocks == old(blocks) + MakeGroup(col, PickColor(colorSample))
      ensures old(Valid()) && 0 <= col < COLS ==> Valid()
      ensures ColumnBlocked(blocks, col)
    {
      var group := MakeGroup(col, PickColor(colorSample));
      GroupShape(col, PickColor(colorSample));
      assert group[GROUP_SIZE - 1] in group;
      blocks := blocks + group;
      ColumnBlockedAppend(old(blocks), group, col);
    }

    /** One animation frame: advance and cull all blocks, then, when the gate
        sample exceeds the threshold and the sampled column is free, spawn. */
    method Animate(gate: real, colSample: real, colorSample: real)
      requires Valid() && IsSample(colSample) && IsSample(colorSample)
      modifies this
      ensures Valid()
      ensures blocks == Step(old(blocks), gate, colSample, colorSample)
    {
      StepKeepsInGrid(blocks, gate, colSample, colorSample);
      var updated := Cull(Advance(blocks));
      blocks := updated;
      if gate > SPAWN_THRESHOLD {
        var col := ColumnOf(colSample);
        if !ColumnBlocked(updated, col) {
          SpawnBlockGroup(col, colorSample);
        }
      }
    }
  }
}
