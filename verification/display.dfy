/** The 64 x 32 monochrome framebuffer.

    The grid is stored row-major, `grid[row][column]`, with 32 rows of 64
    pixels.  `Draw` takes its first coordinate as the ROW (wrapped modulo
    32) and its second as the COLUMN (wrapped modulo 64); the interpreter's
    draw opcode passes Vy first and Vx second, so that on screen Vx is the
    horizontal and Vy the vertical position.
 */
module Display {
  import opened Bits

  const Width := 64
  const Height := 32

  predicate IsGrid(g: seq<seq<bool>>) {
    |g| == Height && forall r :: 0 <= r < Height ==> |g[r]| == Width
  }

  type Grid = g: seq<seq<bool>> | IsGrid(g) witness seq(Height, _ => seq(Width, _ => false))

  predicate InGrid(r: int, c: int) {
    0 <= r < Height && 0 <= c < Width
  }

  /** Every pixel off. */
  function Clear(): (g: Grid)
    ensures forall r, c :: InGrid(r, c) ==> !g[r][c]
  {
    seq(Height, _ => seq(Width, _ => false))
  }

  /** Bit `j` of a sprite row, counted from the most significant bit, as
      the Go code tests it: `row & (0x80 >> j) != 0`. */
  predicate SpriteBit(b: Byte, j: nat)
    requires j < 8
  {
    Pow2Below(7 - j);
    And8(b, Pow2(7 - j)) != 0
  }

  /** Row `i` of a sprite lands on grid row `(coordX + uint8(i)) % 32`. */
  function RowOf(coordX: Byte, i: nat): int {
    ((coordX + i % 256) % 256) % Height
  }

  /** Bit `j` of a sprite row lands on grid column `(coordY + uint8(j)) % 64`. */
  function ColOf(coordY: Byte, j: nat): int {
    ((coordY + j % 256) % 256) % Width
  }

  function Toggle(g: Grid, r: int, c: int): (g': Grid)
    requires InGrid(r, c)
  {
    g[r := g[r][c := !g[r][c]]]
  }

  /*** The closed form: which pixels a sprite covers. ***/

  /** The sprite column that lands on grid column `c`. */
  function ColIndex(coordY: Byte, c: int): int {
    (c - coordY) % Width
  }

  /** The sprite row that lands on grid row `r`. */
  function RowIndex(coordX: Byte, r: int): int {
    (r - coordX) % Height
  }

  /** Column `c` is covered by a set bit `j >= j0` of the sprite row `b`
      drawn from column `coordY`. */
  predicate ColumnCovered(coordY: Byte, b: Byte, j0: nat, c: int) {
    var j := ColIndex(coordY, c);
    j0 <= j < 8 && SpriteBit(b, j)
  }

  /** Pixel (r, c) is covered by a set bit of a sprite row `i >= i0`. */
  predicate CoveredFrom(coordX: Byte, coordY: Byte, sprite: seq<Byte>, i0: nat, r: int, c: int) {
    var i := RowIndex(coordX, r);
    i0 <= i < |sprite| && ColumnCovered(coordY, sprite[i], 0, c)
  }

  predicate Covered(coordX: Byte, coordY: Byte, sprite: seq<Byte>, r: int, c: int) {
    CoveredFrom(coordX, coordY, sprite, 0, r, c)
  }

  /** A set bit `j >= j0` of sprite row `b` lands on a lit pixel of `row`. */
  predicate RowHitsLit(g: Grid, row: int, coordY: Byte, b: Byte, j0: nat)
    requires 0 <= row < Height
  {
    exists j :: j0 <= j < 8 && SpriteBit(b, j) && g[row][ColOf(coordY, j)]
  }

  /** A set bit of a sprite row `i >= i0` lands on a lit pixel. */
  predicate HitsLit(g: Grid, coordX: Byte, coordY: Byte, sprite: seq<Byte>, i0: nat) {
    exists i, j :: i0 <= i < |sprite| && 0 <= j < 8 && SpriteBit(sprite[i], j) && g[RowOf(coordX, i)][ColOf(coordY, j)]
  }

  /** On a wheel of `m` positions (a divisor of 256), offset `k` from
      `base` lands on `p` iff `p - base` is `k` modulo `m`. */
  lemma WrapOffset(base: Byte, k: nat, p: int, m: int)
    requires m == 32 || m == 64
    requires k < m && 0 <= p < m
    ensures ((base + k % 256) % 256) % m == p <==> (p - base) % m == k
  {
    var s := base + k;
    assert k % 256 == k;
    ModOfMod(s, m);
    var q := s / m;
    ModUnique(s, m, q, s % m);
    if s % m == p {
      ModUnique(p - base, m, -q, k);
    }
    if (p - base) % m == k {
      var q' := (p - base) / m;
      ModUnique(p - base, m, q', k);
      ModUnique(s, m, -q', p);
    }
  }

  /** Reducing modulo 256 first does not change a remainder modulo a
      divisor of 256. */
  lemma ModOfMod(s: nat, m: int)
    requires m == 32 || m == 64
    ensures (s % 256) % m == s % m
  {
    var k := 256 / m;
    assert 256 == m * k;
    var a := s / 256;
    var b := s % 256;
    ModUnique(s, 256, a, b);
    ModUnique(b, m, b / m, b % m);
    assert s == m * (k * a + b / m) + b % m;
    ModUnique(s, m, k * a + b / m, b % m);
  }

  /** `Covered` unfolded: the sprite row and bit that land on the pixel. */
  lemma CoveredAtIndex(coordX: Byte, coordY: Byte, sprite: seq<Byte>, r: int, c: int)
    ensures var i := RowIndex(coordX, r);
      var j := ColIndex(coordY, c);
      Covered(coordX, coordY, sprite, r, c) == (i < |sprite| && j < 8 && SpriteBit(sprite[i], j))
  {
  }

  lemma ColumnOffset(coordY: Byte, j: nat, c: int)
    requires j < 8 && 0 <= c < Width
    ensures ColOf(coordY, j) == c <==> ColIndex(coordY, c) == j
  {
    WrapOffset(coordY, j, c, Width);
  }

  lemma RowOffset(coordX: Byte, i: nat, r: int)
    requires i < Height && 0 <= r < Height
    ensures RowOf(coordX, i) == r <==> RowIndex(coordX, r) == i
  {
    WrapOffset(coordX, i, r, Height);
  }

  /*** The drawing loops, as the Go code runs them. ***/

  /** The inner loop: bits `j..7` of sprite row `b` on grid row `row`. */
  function DrawBits(g: Grid, row: int, coordY: Byte, b: Byte, j: nat, collision: bool): (Grid, bool)
    requires 0 <= row < Height && j <= 8
    decreases 8 - j
  {
    if j == 8 then (g, collision)
    else if SpriteBit(b, j) then
      var col := ColOf(coordY, j);
      var g' := Toggle(g, row, col);
      DrawBits(g', row, coordY, b, j + 1, collision || !g'[row][col])
    else
      DrawBits(g, row, coordY, b, j + 1, collision)
  }

  /** The outer loop: sprite rows `i..` drawn from grid row `coordX`. */
  function DrawRows(g: Grid, coordX: Byte, coordY: Byte, sprite: seq<Byte>, i: nat, collision: bool): (Grid, bool)
    requires i <= |sprite|
    decreases |sprite| - i
  {
    if i == |sprite| then (g, collision)
    else
      var step := DrawBits(g, RowOf(coordX, i), coordY, sprite[i], 0, collision);
      DrawRows(step.0, coordX, coordY, sprite, i + 1, step.1)
  }

  lemma ToggleAt(g: Grid, row: int, col: int, r: int, c: int)
    requires InGrid(row, col) && InGrid(r, c)
    ensures Toggle(g, row, col)[r][c] == (g[r][c] != (r == row && c == col))
  {
  }

  lemma ColumnsDistinct(coordY: Byte, j: nat, j': nat)
    requires j < 8 && j' < 8 && j != j'
    ensures ColOf(coordY, j) != ColOf(coordY, j')
  {
    ColumnOffset(coordY, j, ColOf(coordY, j));
    ColumnOffset(coordY, j', ColOf(coordY, j));
  }

  lemma RowsDistinct(coordX: Byte, i: nat, i': nat)
    requires i < Height && i' < Height && i != i'
    ensures RowOf(coordX, i) != RowOf(coordX, i')
  {
    RowOffset(coordX, i, RowOf(coordX, i));
    RowOffset(coordX, i', RowOf(coordX, i));
  }

  lemma ColumnCoveredStep(coordY: Byte, b: Byte, j: nat, c: int)
    requires j < 8 && 0 <= c < Width
    ensures ColumnCovered(coordY, b, j, c) ==
            (ColumnCovered(coordY, b, j + 1, c) || (c == ColOf(coordY, j) && SpriteBit(b, j)))
    ensures !(ColumnCovered(coordY, b, j + 1, c) && c == ColOf(coordY, j))
  {
    ColumnOffset(coordY, j, c);
  }

  lemma CoveredFromStep(coordX: Byte, coordY: Byte, sprite: seq<Byte>, i: nat, r: int, c: int)
    requires i < |sprite| <= Height && InGrid(r, c)
    ensures CoveredFrom(coordX, coordY, sprite, i, r, c) ==
            (CoveredFrom(coordX, coordY, sprite, i + 1, r, c) ||
             (r == RowOf(coordX, i) && ColumnCovered(coordY, sprite[i], 0, c)))
    ensures !(CoveredFrom(coordX, coordY, sprite, i + 1, r, c) && r == RowOf(coordX, i))
  {
    RowOffset(coordX, i, r);
  }

  lemma RowHitsLitStep(g: Grid, row: int, coordY: Byte, b: Byte, j: nat)
    requires 0 <= row < Height && j < 8
    ensures RowHitsLit(g, row, coordY, b, j) ==
            ((SpriteBit(b, j) && g[row][ColOf(coordY, j)]) || RowHitsLit(g, row, coordY, b, j + 1))
  {
    if RowHitsLit(g, row, coordY, b, j) {
      var j' :| j <= j' < 8 && SpriteBit(b, j') && g[row][ColOf(coordY, j')];
      if j' > j {
        assert RowHitsLit(g, row, coordY, b, j + 1);
      }
    }
  }

  /** Toggling the pixel of bit `j` does not affect what bits `j+1..7` hit. */
  lemma RowHitsLitToggle(g: Grid, row: int, coordY: Byte, b: Byte, j: nat)
    requires 0 <= row < Height && j < 8
    ensures RowHitsLit(Toggle(g, row, ColOf(coordY, j)), row, coordY, b, j + 1) ==
            RowHitsLit(g, row, coordY, b, j + 1)
  {
    var g' := Toggle(g, row, ColOf(coordY, j));
    forall j' | j + 1 <= j' < 8
      ensures g'[row][ColOf(coordY, j')] == g[row][ColOf(coordY, j')]
    {
      ColumnsDistinct(coordY, j, j');
    }
  }

  lemma HitsLitStep(g: Grid, coordX: Byte, coordY: Byte, sprite: seq<Byte>, i: nat)
    requires i < |sprite|
    ensures HitsLit(g, coordX, coordY, sprite, i) ==
            (RowHitsLit(g, RowOf(coordX, i), coordY, sprite[i], 0) || HitsLit(g, coordX, coordY, sprite, i + 1))
  {
    if HitsLit(g, coordX, coordY, sprite, i) {
      HitsLitSplit(g, coordX, coordY, sprite, i);
    }
    if RowHitsLit(g, RowOf(coordX, i), coordY, sprite[i], 0) {
      var j' :| 0 <= j' < 8 && SpriteBit(sprite[i], j') && g[RowOf(coordX, i)][ColOf(coordY, j')];
      assert HitsLit(g, coordX, coordY, sprite, i);
    }
  }

  lemma HitsLitSplit(g: Grid, coordX: Byte, coordY: Byte, sprite: seq<Byte>, i: nat)
    requires i < |sprite| && HitsLit(g, coordX, coordY, sprite, i)
    ensures RowHitsLit(g, RowOf(coordX, i), coordY, sprite[i], 0) || HitsLit(g, coordX, coordY, sprite, i + 1)
  {
    var i', j' :| i <= i' < |sprite| && 0 <= j' < 8 && SpriteBit(sprite[i'], j') && g[RowOf(coordX, i')][ColOf(coordY, j')];
    if i' > i {
      assert HitsLit(g, coordX, coordY, sprite, i + 1);
    } else {
      assert RowHitsLit(g, RowOf(coordX, i), coordY, sprite[i], 0);
    }
  }

  /** Rows `i+1..` see the same pixels in two grids that agree off row `i`. */
  lemma HitsLitOtherRows(g: Grid, g': Grid, coordX: Byte, coordY: Byte, sprite: seq<Byte>, i: nat)
    requires i < |sprite| <= Height
    requires forall r, c :: InGrid(r, c) && r != RowOf(coordX, i) ==> g'[r][c] == g[r][c]
    ensures HitsLit(g', coordX, coordY, sprite, i + 1) == HitsLit(g, coordX, coordY, sprite, i + 1)
  {
    forall i', j' | i + 1 <= i' < |sprite| && 0 <= j' < 8
      ensures g'[RowOf(coordX, i')][ColOf(coordY, j')] == g[RowOf(coordX, i')][ColOf(coordY, j')]
    {
      RowsDistinct(coordX, i, i');
    }
  }

  /** The inner loop flips exactly the covered pixels of its row. */
  lemma {:induction false} DrawBitsGrid(g: Grid, row: int, coordY: Byte, b: Byte, j: nat, collision: bool, r: int, c: int)
    requires 0 <= row < Height && j <= 8 && InGrid(r, c)
    ensures DrawBits(g, row, coordY, b, j, collision).0[r][c] ==
            (g[r][c] != (r == row && ColumnCovered(coordY, b, j, c)))
    decreases 8 - j
  {
    if j < 8 {
      var col := ColOf(coordY, j);
      ColumnCoveredStep(coordY, b, j, c);
      if SpriteBit(b, j) {
        var g' := Toggle(g, row, col);
        DrawBitsGrid(g', row, coordY, b, j + 1, collision || !g'[row][col], r, c);
        ToggleAt(g, row, col, r, c);
      } else {
        DrawBitsGrid(g, row, coordY, b, j + 1, collision, r, c);
      }
    }
  }

  /** The inner loop reports a collision exactly when a set bit lands on a
      lit pixel of its row. */
  lemma {:induction false} DrawBitsCollision(g: Grid, row: int, coordY: Byte, b: Byte, j: nat, collision: bool)
    requires 0 <= row < Height && j <= 8
    ensures DrawBits(g, row, coordY, b, j, collision).1 == (collision || RowHitsLit(g, row, coordY, b, j))
    decreases 8 - j
  {
    if j < 8 {
      var col := ColOf(coordY, j);
      RowHitsLitStep(g, row, coordY, b, j);
      if SpriteBit(b, j) {
        var g' := Toggle(g, row, col);
        DrawBitsCollision(g', row, coordY, b, j + 1, collision || !g'[row][col]);
        RowHitsLitToggle(g, row, coordY, b, j);
        ToggleAt(g, row, col, row, col);
      } else {
        DrawBitsCollision(g, row, coordY, b, j + 1, collision);
      }
    } else {
      assert !RowHitsLit(g, row, coordY, b, j);
    }
  }

  /** The outer loop flips exactly the covered pixels, when no two sprite
      rows land on the same grid row. */
  lemma {:induction false} DrawRowsGrid(g: Grid, coordX: Byte, coordY: Byte, sprite: seq<Byte>, i: nat, collision: bool, r: int, c: int)
    requires i <= |sprite| <= Height && InGrid(r, c)
    ensures DrawRows(g, coordX, coordY, sprite, i, collision).0[r][c] ==
            (g[r][c] != CoveredFrom(coordX, coordY, sprite, i, r, c))
    decreases |sprite| - i
  {
    if i < |sprite| {
      var row := RowOf(coordX, i);
      var step := DrawBits(g, row, coordY, sprite[i], 0, collision);
      DrawRowsGrid(step.0, coordX, coordY, sprite, i + 1, step.1, r, c);
      DrawBitsGrid(g, row, coordY, sprite[i], 0, collision, r, c);
      CoveredFromStep(coordX, coordY, sprite, i, r, c);
    }
  }

  /** The outer loop reports a collision exactly when a set sprite bit
      lands on a lit pixel, when no two sprite rows share a grid row. */
  lemma {:induction false} DrawRowsCollision(g: Grid, coordX: Byte, coordY: Byte, sprite: seq<Byte>, i: nat, collision: bool)
    requires i <= |sprite| <= Height
    ensures DrawRows(g, coordX, coordY, sprite, i, collision).1 == (collision || HitsLit(g, coordX, coordY, sprite, i))
    decreases |sprite| - i
  {
    if i < |sprite| {
      var row := RowOf(coordX, i);
      var step := DrawBits(g, row, coordY, sprite[i], 0, collision);
      DrawRowsCollision(step.0, coordX, coordY, sprite, i + 1, step.1);
      DrawBitsCollision(g, row, coordY, sprite[i], 0, collision);
      forall r, c | InGrid(r, c) && r != row
        ensures step.0[r][c] == g[r][c]
      {
        DrawBitsGrid(g, row, coordY, sprite[i], 0, collision, r, c);
      }
      HitsLitOtherRows(g, step.0, coordX, coordY, sprite, i);
      HitsLitStep(g, coordX, coordY, sprite, i);
    } else {
      assert !HitsLit(g, coordX, coordY, sprite, i);
    }
  }

  /** XORs the sprite onto the grid; the result is true when some pixel was
      switched from on to off.  For sprites of at most 32 rows (the draw
      opcode passes at most 15) every pixel is toggled at most once, so the
      result is the closed form: covered pixels flip, the others keep their
      value, and the collision flag says some covered pixel was lit. */
  function Draw(g: Grid, coordX: Byte, coordY: Byte, sprite: seq<Byte>): (res: (Grid, bool))
    ensures |sprite| <= Height ==> forall r, c :: InGrid(r, c) ==>
              res.0[r][c] == (g[r][c] != Covered(coordX, coordY, sprite, r, c))
    ensures |sprite| <= Height ==> (res.1 <==> HitsLit(g, coordX, coordY, sprite, 0))
  {
    if |sprite| <= Height then
      forall r, c | InGrid(r, c)
        ensures DrawRows(g, coordX, coordY, sprite, 0, false).0[r][c] == (g[r][c] != Covered(coordX, coordY, sprite, r, c))
      {
        DrawRowsGrid(g, coordX, coordY, sprite, 0, false, r, c);
      }
      DrawRowsCollision(g, coordX, coordY, sprite, 0, false);
      DrawRows(g, coordX, coordY, sprite, 0, false)
    else
      DrawRows(g, coordX, coordY, sprite, 0, false)
  }

  /** The Go code's mask test reads bit `7 - j` of the sprite row. */
  lemma SpriteBitIsBit(b: Byte, j: nat)
    requires j < 8
    ensures SpriteBit(b, j) <==> TestBit(b, 7 - j)
  {
    AndSingleBit(b, 7 - j, 8);
  }

  /** A set sprite bit covers the pixel it lands on. */
  lemma CoveredAt(coordX: Byte, coordY: Byte, sprite: seq<Byte>, i: nat, j: nat)
    requires i < |sprite| <= Height && j < 8 && SpriteBit(sprite[i], j)
    ensures Covered(coordX, coordY, sprite, RowOf(coordX, i), ColOf(coordY, j))
  {
    RowOffset(coordX, i, RowOf(coordX, i));
    ColumnOffset(coordY, j, ColOf(coordY, j));
  }

  /** Drawing is an XOR: the same sprite at the same place twice gives
      back the original grid. */
  lemma DrawTwiceRestores(g: Grid, coordX: Byte, coordY: Byte, sprite: seq<Byte>)
    requires |sprite| <= Height
    ensures Draw(Draw(g, coordX, coordY, sprite).0, coordX, coordY, sprite).0 == g
  {
    var g1 := Draw(g, coordX, coordY, sprite).0;
    var g2 := Draw(g1, coordX, coordY, sprite).0;
    forall r | 0 <= r < Height
      ensures g2[r] == g[r]
    {
      assert forall c :: 0 <= c < Width ==> g2[r][c] == g[r][c];
    }
  }

  /** The second of two identical draws collides exactly when a set sprite
      bit lands on a pixel that was off before the first. */
  lemma DrawTwiceCollision(g: Grid, coordX: Byte, coordY: Byte, sprite: seq<Byte>)
    requires |sprite| <= Height
    ensures Draw(Draw(g, coordX, coordY, sprite).0, coordX, coordY, sprite).1 <==>
            exists i, j :: 0 <= i < |sprite| && 0 <= j < 8 && SpriteBit(sprite[i], j) && !g[RowOf(coordX, i)][ColOf(coordY, j)]
  {
    var g1 := Draw(g, coordX, coordY, sprite).0;
    forall i, j | 0 <= i < |sprite| && 0 <= j < 8 && SpriteBit(sprite[i], j)
      ensures g1[RowOf(coordX, i)][ColOf(coordY, j)] == !g[RowOf(coordX, i)][ColOf(coordY, j)]
    {
      CoveredAt(coordX, coordY, sprite, i, j);
    }
  }

  /** The collision flag is true iff some pixel was switched from on to
      off. */
  lemma CollisionMeansSwitchedOff(g: Grid, coordX: Byte, coordY: Byte, sprite: seq<Byte>)
    requires |sprite| <= Height
    ensures Draw(g, coordX, coordY, sprite).1 <==>
            exists r, c :: InGrid(r, c) && g[r][c] && !Draw(g, coordX, coordY, sprite).0[r][c]
  {
    var g1 := Draw(g, coordX, coordY, sprite).0;
    if Draw(g, coordX, coordY, sprite).1 {
      var i, j :| 0 <= i < |sprite| && 0 <= j < 8 && SpriteBit(sprite[i], j) && g[RowOf(coordX, i)][ColOf(coordY, j)];
      CoveredAt(coordX, coordY, sprite, i, j);
      assert InGrid(RowOf(coordX, i), ColOf(coordY, j));
    }
    if exists r, c :: InGrid(r, c) && g[r][c] && !g1[r][c] {
      var r, c :| InGrid(r, c) && g[r][c] && !g1[r][c];
      var i := RowIndex(coordX, r);
      var j := ColIndex(coordY, c);
      RowOffset(coordX, i, r);
      ColumnOffset(coordY, j, c);
      assert HitsLit(g, coordX, coordY, sprite, 0) by {
        assert 0 <= i < |sprite| && 0 <= j < 8 && SpriteBit(sprite[i], j) && g[RowOf(coordX, i)][ColOf(coordY, j)];
      }
    }
  }

  lemma {:induction false} BlankRowNoop(g: Grid, row: int, coordY: Byte, b: Byte, j: nat, collision: bool)
    requires 0 <= row < Height && j <= 8 && b == 0
    ensures DrawBits(g, row, coordY, b, j, collision) == (g, collision)
    decreases 8 - j
  {
    if j < 8 {
      ZeroAnd(Pow2(7 - j), 8);
      assert !SpriteBit(b, j);
      BlankRowNoop(g, row, coordY, b, j + 1, collision);
    }
  }

  lemma {:induction false} BlankRowsNoop(g: Grid, coordX: Byte, coordY: Byte, sprite: seq<Byte>, i: nat, collision: bool)
    requires i <= |sprite|
    requires forall k :: 0 <= k < |sprite| ==> sprite[k] == 0
    ensures DrawRows(g, coordX, coordY, sprite, i, collision) == (g, collision)
    decreases |sprite| - i
  {
    if i < |sprite| {
      BlankRowNoop(g, RowOf(coordX, i), coordY, sprite[i], 0, collision);
      BlankRowsNoop(g, coordX, coordY, sprite, i + 1, collision);
    }
  }

  /** An all-zero sprite, of any height, changes nothing and reports no
      collision. */
  lemma BlankSpriteNoop(g: Grid, coordX: Byte, coordY: Byte, sprite: seq<Byte>)
    requires forall k :: 0 <= k < |sprite| ==> sprite[k] == 0
    ensures Draw(g, coordX, coordY, sprite) == (g, false)
  {
    BlankRowsNoop(g, coordX, coordY, sprite, 0, false);
  }

  /** Every bit of 0xFF is set. */
  lemma FullRow(j: nat)
    requires j < 8
    ensures SpriteBit(0xFF, j)
  {
    SpriteBitIsBit(0xFF, j);
    Pow2Values();
    AllOnesBelow(0xFF, 8, 7 - j);
  }

  /** A two-row sprite of set bits drawn from the bottom-right corner
      (row 31, column 63) flips exactly rows 31 and 0 in columns 63 and
      0..6: both coordinates wrap, and nothing else changes. */
  lemma DrawWrapsAround(g: Grid)
    ensures var g' := Draw(g, 31, 63, [0xFF, 0xFF]).0;
      forall r, c :: InGrid(r, c) ==> g'[r][c] == (g[r][c] != ((r == 31 || r == 0) && (c == 63 || c <= 6)))
  {
    var sprite: seq<Byte> := [0xFF, 0xFF];
    forall r, c | InGrid(r, c)
      ensures Covered(31, 63, sprite, r, c) == ((r == 31 || r == 0) && (c == 63 || c <= 6))
    {
      var i, j := RowIndex(31, r), ColIndex(63, c);
      if r != 31 {
        ModUnique(r - 31, Height, -1, r + 1);
      }
      if c != 63 {
        ModUnique(c - 63, Width, -1, c + 1);
      }
      assert i < 2 <==> r == 31 || r == 0;
      assert j < 8 <==> c == 63 || c <= 6;
      if i < 2 && j < 8 {
        FullRow(j);
      }
      CoveredAtIndex(31, 63, sprite, r, c);
    }
  }
}
