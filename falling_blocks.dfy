/** The falling-blocks simulation as pure functions on block lists: the
    constants of the grid, spawning a group, the per-frame advance and
    cull, the column guard and the net effect of one animation frame.
    Rows are exact reals; the random samples of each frame are parameters. */
module FallingBlocks {

  const ROWS: nat := 15
  const COLS: nat := 20
  const GROUP_SIZE: nat := 5
  /** Rows moved per frame. */
  const FALL_SPEED: real := 0.05
  const COLORS: seq<string> := ["rgb(225, 0, 0)", "rgb(0, 225, 0)", "rgb(0, 0, 255)"]
  /** Row of block 0 of a new group: block i starts at row SPAWN_ROW - i. */
  const SPAWN_ROW: int := 4
  /** A frame tries to spawn only when its gate sample exceeds this. */
  const SPAWN_THRESHOLD: real := 0.99

  /** One falling block: its column, its fractional row and its colour. */
  datatype Block = Block(col: int, y: real, color: string)

  /** A value Math.random can return. */
  predicate IsSample(r: real) {
    0.0 <= r < 1.0
  }

  /** Math.floor(r * n) for a sample r: an index in [0, n). */
  function ScaledIndex(r: real, n: nat): (k: int)
    requires IsSample(r) && n > 0
    ensures 0 <= k < n
    ensures k as real <= r * n as real < k as real + 1.0
  {
    ScaledBelow(r, n);
    (r * n as real).Floor
  }

  /** A sample scaled by n lies in [0, n). */
  lemma {:induction false} ScaledBelow(r: real, n: nat)
    requires IsSample(r) && n > 0
    ensures 0.0 <= r * n as real < n as real
  {
    if n > 1 {
      ScaledBelow(r, n - 1);
      assert r * n as real == r * (n - 1) as real + r;
    }
  }

  /** The column a frame picks from its column sample. */
  function ColumnOf(r: real): (c: int)
    requires IsSample(r)
    ensures 0 <= c < COLS
  {
    ScaledIndex(r, COLS)
  }

  /** The palette colour a spawn picks from its colour sample. */
  function PickColor(r: real): (color: string)
    requires IsSample(r)
    ensures exists k :: 0 <= k < |COLORS| && color == COLORS[k]
  {
    var k := ScaledIndex(r, |COLORS|);
    COLORS[k]
  }

  // ---------------------------------------------------------------------
  // Spawning a group

  /** The GROUP_SIZE blocks of a new group in column col, all of one colour. */
  function MakeGroup(col: int, color: string): (g: seq<Block>)
    ensures |g| == GROUP_SIZE
    ensures forall b :: b in g ==> b.col == col && b.color == color && 0.0 <= b.y <= 4.0
  {
    seq(GROUP_SIZE, i requires 0 <= i < GROUP_SIZE => Block(col, (SPAWN_ROW - i) as real, color))
  }

  /** A group has GROUP_SIZE blocks in its column and colour, block i on row
      4 - i, so that its rows are exactly 0 through 4. */
  lemma GroupShape(col: int, color: string)
    ensures |MakeGroup(col, color)| == GROUP_SIZE
    ensures forall b :: b in MakeGroup(col, color) ==>
              b.col == col && b.color == color && 0.0 <= b.y < GROUP_SIZE as real
    ensures forall i :: 0 <= i < GROUP_SIZE ==> MakeGroup(col, color)[i].y == (4 - i) as real
    ensures (set b | b in MakeGroup(col, color) :: b.y) == {0.0, 1.0, 2.0, 3.0, 4.0}
  {
    var g := MakeGroup(col, color);
    var rows := set b | b in g :: b.y;
    assert g[0].y == 4.0 && g[1].y == 3.0 && g[2].y == 2.0 && g[3].y == 1.0 && g[4].y == 0.0;
    assert g[0] in g && g[1] in g && g[2] in g && g[3] in g && g[4] in g;
    assert {0.0, 1.0, 2.0, 3.0, 4.0} <= rows;
    forall y | y in rows ensures y in {0.0, 1.0, 2.0, 3.0, 4.0} {
      var b :| b in g && b.y == y;
      var i :| 0 <= i < |g| && g[i] == b;
    }
  }

  // ---------------------------------------------------------------------
  // Advance: every block moves down by FALL_SPEED

  /** Every block one frame lower, in the same order. */
  function Advance(s: seq<Block>): (r: seq<Block>)
    ensures |r| == |s|
    ensures forall i :: 0 <= i < |s| ==>
              r[i].col == s[i].col && r[i].color == s[i].color && r[i].y == s[i].y + FALL_SPEED
  {
    if s == [] then [] else [s[0].(y := s[0].y + FALL_SPEED)] + Advance(s[1..])
  }

  /** Every block of s moved down by d rows: a reference for moving blocks. */
  function Shift(s: seq<Block>, d: real): seq<Block> {
    seq(|s|, i requires 0 <= i < |s| => s[i].(y := s[i].y + d))
  }

  /** Advance is Shift by one frame's worth of rows. */
  lemma AdvanceIsShift(s: seq<Block>)
    ensures Advance(s) == Shift(s, FALL_SPEED)
  {
  }

  /** Shifting twice is shifting by the sum. */
  lemma ShiftShift(s: seq<Block>, d: real, e: real)
    ensures Shift(Shift(s, d), e) == Shift(s, d + e)
  {
  }

  // ---------------------------------------------------------------------
  // Cull: keep the blocks still inside the grid

  /** a is a subsequence of b: b with some elements left out, order kept. */
  predicate IsSubseq<T(==)>(a: seq<T>, b: seq<T>)
    decreases |b|
  {
    if a == [] then true
    else if b == [] then false
    else (a[0] == b[0] && IsSubseq(a[1..], b[1..])) || IsSubseq(a, b[1..])
  }

  /** The blocks of s with y < ROWS: each kept block as often as in s, every
      block past the bottom removed, order kept. */
  function Cull(s: seq<Block>): (r: seq<Block>)
    ensures forall b :: b in r ==> b in s && b.y < ROWS as real
    ensures forall b :: multiset(r)[b] == if b.y < ROWS as real then multiset(s)[b] else 0
    ensures IsSubseq(r, s)
    ensures |r| <= |s|
  {
    if s == [] then []
    else if s[0].y < ROWS as real then
      assert s == [s[0]] + s[1..];
      [s[0]] + Cull(s[1..])
    else
      assert s == [s[0]] + s[1..];
      Cull(s[1..])
  }

  /** A subsequence has no element more often than the whole sequence. */
  lemma {:induction false} SubseqMultiset<T>(a: seq<T>, b: seq<T>)
    requires IsSubseq(a, b)
    ensures multiset(a) <= multiset(b)
    decreases |b|
  {
    if a == [] {
    } else {
      assert b == [b[0]] + b[1..];
      if a[0] == b[0] && IsSubseq(a[1..], b[1..]) {
        SubseqMultiset(a[1..], b[1..]);
        assert a == [a[0]] + a[1..];
      } else {
        SubseqMultiset(a, b[1..]);
      }
    }
  }

  /** Cull's result is the only subsequence of s that keeps exactly the blocks
      with y < ROWS: so Cull is the order-preserving filter of the blocks with y < ROWS. */
  lemma {:induction false} CullUnique(r: seq<Block>, s: seq<Block>)
    requires IsSubseq(r, s)
    requires forall b :: multiset(r)[b] == if b.y < ROWS as real then multiset(s)[b] else 0
    ensures r == Cull(s)
    decreases |s|
  {
    if s == [] {
      assert r == [];
    } else {
      var x := s[0];
      assert s == [x] + s[1..];
      if x.y < ROWS as real {
        assert multiset(r)[x] == multiset(s)[x] > 0;
        assert r != [];
        assert r == [r[0]] + r[1..];
        if r[0] == x && IsSubseq(r[1..], s[1..]) {
          forall b ensures multiset(r[1..])[b] == if b.y < ROWS as real then multiset(s[1..])[b] else 0 {
            assert multiset(r)[b] == multiset([r[0]])[b] + multiset(r[1..])[b];
          }
          CullUnique(r[1..], s[1..]);
        } else {
          assert IsSubseq(r, s[1..]);
          SubseqMultiset(r, s[1..]);
          assert false;
        }
      } else {
        if r != [] {
          assert r == [r[0]] + r[1..];
          assert r[0] != x by {
            assert multiset(r)[r[0]] > 0;
          }
        }
        assert IsSubseq(r, s[1..]);
        forall b ensures multiset(r)[b] == if b.y < ROWS as real then multiset(s[1..])[b] else 0 {
          assert multiset(s)[b] == multiset([x])[b] + multiset(s[1..])[b];
        }
        CullUnique(r, s[1..]);
      }
    }
  }

  /** Cull removes nothing exactly when every block is above the bottom. */
  lemma {:induction false} CullKeepsAll(s: seq<Block>)
    ensures Cull(s) == s <==> forall b :: b in s ==> b.y < ROWS as real
  {
    if forall b :: b in s ==> b.y < ROWS as real {
      forall b ensures multiset(s)[b] == if b.y < ROWS as real then multiset(s)[b] else 0 {
        if b.y >= ROWS as real {
          assert b !in s;
        }
      }
      assert IsSubseq(s, s) by { SubseqRefl(s); }
      CullUnique(s, s);
    }
  }

  /** Every sequence is a subsequence of itself. */
  lemma {:induction false} SubseqRefl<T>(s: seq<T>)
    ensures IsSubseq(s, s)
    decreases |s|
  {
    if s != [] {
      SubseqRefl(s[1..]);
    }
  }

  /** Cull removes every block that is on or past the bottom row. */
  lemma CullNone(s: seq<Block>)
    requires forall b :: b in s ==> b.y >= ROWS as real
    ensures Cull(s) == []
  {
    if Cull(s) != [] {
      assert Cull(s)[0] in Cull(s);
    }
  }

  /** Cull of a list with a known first block. */
  lemma CullCons(x: Block, t: seq<Block>)
    ensures Cull([x] + t) == if x.y < ROWS as real then [x] + Cull(t) else Cull(t)
  {
    assert ([x] + t)[0] == x && ([x] + t)[1..] == t;
  }

  /** Shift of a list with a known first block. */
  lemma ShiftCons(x: Block, t: seq<Block>, d: real)
    ensures Shift([x] + t, d) == [x.(y := x.y + d)] + Shift(t, d)
  {
  }

  /** A block culled once stays culled while blocks keep moving down: culling
      before a downward shift changes nothing after the next cull. */
  lemma {:induction false} CullShift(s: seq<Block>, d: real)
    requires d >= 0.0
    ensures Cull(Shift(Cull(s), d)) == Cull(Shift(s, d))
    decreases |s|
  {
    if s != [] {
      var x, t := s[0], s[1..];
      var x' := x.(y := x.y + d);
      assert s == [x] + t;
      CullShift(t, d);
      CullCons(x, t);
      ShiftCons(x, t, d);
      CullCons(x', Shift(t, d));
      if x.y < ROWS as real {
        ShiftCons(x, Cull(t), d);
        CullCons(x', Shift(Cull(t), d));
      }
    }
  }

  // ---------------------------------------------------------------------
  // The column guard and one animation frame

  /** Whether some block in column col has not yet fallen below row
      GROUP_SIZE, scanning the list from the front. */
  function ColumnBlocked(s: seq<Block>, col: int): (blocked: bool)
    ensures blocked <==> exists b :: b in s && b.col == col && b.y < GROUP_SIZE as real
  {
    if s == [] then false
    else
      assert s == [s[0]] + s[1..];
      (s[0].col == col && s[0].y < GROUP_SIZE as real) || ColumnBlocked(s[1..], col)
  }

  /** The column guard of a list built by appending. */
  lemma ColumnBlockedAppend(a: seq<Block>, b: seq<Block>, col: int)
    ensures ColumnBlocked(a + b, col) <==> ColumnBlocked(a, col) || ColumnBlocked(b, col)
  {
    if ColumnBlocked(a + b, col) {
      var x :| x in a + b && x.col == col && x.y < GROUP_SIZE as real;
      assert x in a || x in b;
    }
    if ColumnBlocked(b, col) {
      var x :| x in b && x.col == col && x.y < GROUP_SIZE as real;
      assert x in a + b;
    }
  }

  /** Move every block down one frame and remove those past the bottom. */
  function Update(s: seq<Block>): (r: seq<Block>)
    ensures forall b :: b in r ==> b.y < ROWS as real
    ensures IsSubseq(r, Advance(s))
    ensures |r| <= |s|
  {
    Cull(Advance(s))
  }

  /** After advance and cull every block is inside the grid, each is an input
      block moved down one frame, and no block is gone that is still inside. */
  lemma UpdateSpec(s: seq<Block>)
    ensures IsSubseq(Update(s), Advance(s))
    ensures |Update(s)| <= |s|
    ensures forall b :: b in Update(s) ==> b.y < ROWS as real
    ensures forall i :: 0 <= i < |s| ==>
              (Advance(s)[i] in Update(s) <==> s[i].y + FALL_SPEED < ROWS as real)
  {
    SubseqMultiset(Update(s), Advance(s));
    var u := Update(s);
    var a := Advance(s);
    assert |multiset(u)| <= |multiset(a)| by {
      MultisetSubsetSize(multiset(u), multiset(a));
    }
    forall i | 0 <= i < |s| ensures a[i] in u <==> s[i].y + FALL_SPEED < ROWS as real {
      assert a[i] in a;
      assert multiset(a)[a[i]] > 0;
    }
  }

  /** A sub-multiset is no larger. */
  lemma {:induction false} MultisetSubsetSize<T>(m: multiset<T>, n: multiset<T>)
    requires m <= n
    ensures |m| <= |n|
    decreases |n|
  {
    if m != multiset{} {
      var x :| x in m;
      MultisetSubsetSize(m - multiset{x}, n - multiset{x});
    }
  }

  /** The spawn attempt of a frame in column col (the guard and the spawn):
      append a new group unless the column is blocked. */
  function Admit(s: seq<Block>, col: int, colorSample: real): (r: seq<Block>)
    requires IsSample(colorSample)
    ensures |r| == |s| + (if ColumnBlocked(s, col) then 0 else GROUP_SIZE)
    ensures r[..|s|] == s
    ensures forall i :: |s| <= i < |r| ==> r[i].col == col && r[i].y < GROUP_SIZE as real
    ensures ColumnBlocked(r, col)
  {
    if ColumnBlocked(s, col) then s
    else
      var g := MakeGroup(col, PickColor(colorSample));
      GroupShape(col, PickColor(colorSample));
      assert g[GROUP_SIZE - 1] in g;
      ColumnBlockedAppend(s, g, col);
      s + g
  }

  /** A second spawn attempt in the same column, before any advance, is
      rejected and leaves the list as the first attempt made it. */
  lemma SecondSpawnRejected(s: seq<Block>, col: int, k1: real, k2: real)
    requires IsSample(k1) && IsSample(k2)
    ensures Admit(Admit(s, col, k1), col, k2) == Admit(s, col, k1)
  {
  }

  /** One animation frame: advance and cull, then, if the gate sample exceeds
      the threshold, attempt a spawn in the sampled column. */
  function Step(s: seq<Block>, gate: real, colSample: real, colorSample: real): (r: seq<Block>)
    requires IsSample(colSample) && IsSample(colorSample)
    ensures r == Update(s) ||
            r == Update(s) + MakeGroup(ColumnOf(colSample), PickColor(colorSample))
    ensures r != Update(s) <==>
            gate > SPAWN_THRESHOLD && !ColumnBlocked(Update(s), ColumnOf(colSample))
  {
    var u := Update(s);
    if gate > SPAWN_THRESHOLD then
      assert |MakeGroup(ColumnOf(colSample), PickColor(colorSample))| > 0;
      Admit(u, ColumnOf(colSample), colorSample)
    else u
  }

  // ---------------------------------------------------------------------
  // Invariants over many frames

  /** A block on the grid: a valid column and a row in [0, ROWS). */
  predicate InGrid(b: Block) {
    0 <= b.col < COLS && 0.0 <= b.y < ROWS as real
  }

  predicate AllInGrid(s: seq<Block>) {
    forall b :: b in s ==> InGrid(b)
  }

  /** A frame keeps every block on the grid: columns stay in range, rows never
      go negative and every block at or past the bottom is gone. */
  lemma StepKeepsInGrid(s: seq<Block>, gate: real, colSample: real, colorSample: real)
    requires AllInGrid(s) && IsSample(colSample) && IsSample(colorSample)
    ensures AllInGrid(Step(s, gate, colSample, colorSample))
  {
    var u := Update(s);
    UpdateKeepsInGrid(s);
    var g := MakeGroup(ColumnOf(colSample), PickColor(colorSample));
    GroupRowsBounded(ColumnOf(colSample), PickColor(colorSample));
    GroupShape(ColumnOf(colSample), PickColor(colorSample));
    assert AllInGrid(g);
    assert AllInGrid(u + g);
  }

  /** Advance and cull keep every block on the grid. */
  lemma UpdateKeepsInGrid(s: seq<Block>)
    requires AllInGrid(s)
    ensures AllInGrid(Update(s))
  {
    var a := Advance(s);
    forall b | b in Update(s) ensures InGrid(b) {
      assert b in a;
      var i :| 0 <= i < |a| && a[i] == b;
      assert s[i] in s;
    }
  }

  /** n frames whose gate does not fire. */
  function Drift(s: seq<Block>, n: nat): (r: seq<Block>)
    ensures |r| <= |s|
    ensures n > 0 ==> forall b :: b in r ==> b.y < ROWS as real
    decreases n
  {
    if n == 0 then s else Drift(Update(s), n - 1)
  }

  /** A frame whose gate sample does not exceed the threshold only drifts. */
  lemma QuietStep(s: seq<Block>, gate: real, colSample: real, colorSample: real)
    requires gate <= SPAWN_THRESHOLD && IsSample(colSample) && IsSample(colorSample)
    ensures Step(s, gate, colSample, colorSample) == Drift(s, 1)
  {
  }

  /** Rows a block falls in n frames. */
  function Drop(n: nat): real {
    if n == 0 then 0.0 else FALL_SPEED + Drop(n - 1)
  }

  /** n frames drop a block by exactly n * FALL_SPEED rows. */
  lemma {:induction false} DropIsLinear(n: nat)
    ensures Drop(n) == n as real * FALL_SPEED
  {
    if n > 0 {
      DropIsLinear(n - 1);
    }
  }

  /** After n quiet frames the list is the input moved down Drop(n) rows and
      culled once: each block falls exactly FALL_SPEED per frame and is
      removed on the first frame its row reaches ROWS. */
  lemma {:induction false} DriftIsShiftedCull(s: seq<Block>, n: nat)
    requires forall b :: b in s ==> b.y < ROWS as real
    ensures Drift(s, n) == Cull(Shift(s, Drop(n)))
    decreases n
  {
    if n == 0 {
      CullShiftZero(s);
    } else {
      var d := Drop(n - 1);
      assert d >= 0.0 by { DropIsLinear(n - 1); }
      calc {
        Drift(s, n);
        Drift(Update(s), n - 1);
        { DriftIsShiftedCull(Update(s), n - 1); }
        Cull(Shift(Update(s), d));
        { UpdateThenShift(s, d); }
        Cull(Shift(s, FALL_SPEED + d));
        { assert FALL_SPEED + d == Drop(n); }
        Cull(Shift(s, Drop(n)));
      }
    }
  }

  /** Culling a list already on the grid, moved by nothing, gives it back. */
  lemma CullShiftZero(s: seq<Block>)
    requires forall b :: b in s ==> b.y < ROWS as real
    ensures Cull(Shift(s, Drop(0))) == s
  {
    assert Shift(s, Drop(0)) == s;
    CullKeepsAll(s);
  }

  /** One frame followed by a drop of d rows and a cull is a drop of
      FALL_SPEED + d rows and a cull. */
  lemma UpdateThenShift(s: seq<Block>, d: real)
    requires d >= 0.0
    ensures Cull(Shift(Update(s), d)) == Cull(Shift(s, FALL_SPEED + d))
  {
    var a := Shift(s, FALL_SPEED);
    calc {
      Cull(Shift(Update(s), d));
      { AdvanceIsShift(s); }
      Cull(Shift(Cull(a), d));
      { CullShift(a, d); }
      Cull(Shift(a, d));
      { ShiftShift(s, FALL_SPEED, d); }
      Cull(Shift(s, FALL_SPEED + d));
    }
  }

  /** A group spawned alone is entirely gone after 300 quiet frames
      (300 * 0.05 = 15 rows in exact arithmetic). */
  lemma GroupGoneAfter300(col: int, color: string, n: nat)
    requires n >= 300
    ensures Drift(MakeGroup(col, color), n) == []
  {
    var g := MakeGroup(col, color);
    GroupRowsBounded(col, color);
    var d := Drop(n);
    assert d >= 15.0 by { DropIsLinear(n); }
    ShiftRowsBounded(g, d, 0.0, 4.0);
    CullNone(Shift(g, d));
    DriftIsShiftedCull(g, n);
  }

  /** ... and no block of it is removed early: for the first 220 frames all
      five blocks are still there, each exactly n * FALL_SPEED rows lower. */
  lemma GroupIntactBefore220(col: int, color: string, n: nat)
    requires n < 220
    ensures Drift(MakeGroup(col, color), n) == Shift(MakeGroup(col, color), Drop(n))
  {
    var g := MakeGroup(col, color);
    GroupRowsBounded(col, color);
    var d := Drop(n);
    assert 0.0 <= d < 11.0 by { DropIsLinear(n); }
    ShiftRowsBounded(g, d, 0.0, 4.0);
    CullKeepsAll(Shift(g, d));
    DriftIsShiftedCull(g, n);
  }

  /** The rows of a new group lie in [0, 4]. */
  lemma GroupRowsBounded(col: int, color: string)
    ensures forall b :: b in MakeGroup(col, color) ==> 0.0 <= b.y <= 4.0
  {
    GroupShape(col, color);
  }

  /** Moving a list down by d moves the bounds of its rows by d. */
  lemma ShiftRowsBounded(s: seq<Block>, d: real, lo: real, hi: real)
    requires forall b :: b in s ==> lo <= b.y <= hi
    ensures forall b :: b in Shift(s, d) ==> lo + d <= b.y <= hi + d
  {
    forall b | b in Shift(s, d) ensures lo + d <= b.y <= hi + d {
      var i :| 0 <= i < |s| && Shift(s, d)[i] == b;
      assert s[i] in s;
    }
  }

  /** Spawning twice in column 7 of an empty grid leaves exactly one group. */
  lemma SpawnTwiceInSevenScenario(k1: real, k2: real)
    requires IsSample(k1) && IsSample(k2)
    ensures |Admit(Admit([], 7, k1), 7, k2)| == GROUP_SIZE
  {
  }
}
