/** The playfield shared by the browser port and the pygame prototype:
    falling blocks and the fixed occupancy grid they settle into.
    Coordinates are integer pixels; the grid maps (row, col) to an optional glyph. */
module Playfield {

  datatype Option<T> = None | Some(value: T)

  function Max(a: int, b: int): int { if a < b then b else a }

  function Min(a: int, b: int): int { if a < b then a else b }

  /** An axis-aligned pixel rectangle; `Right` and `Bottom` are exclusive edges. */
  datatype Rect = Rect(left: int, top: int, width: int, height: int)
  {
    function Right(): int { left + width }
    function Bottom(): int { top + height }

    /** Half-open point containment, as the click test and pygame's collidepoint use it. */
    predicate Contains(px: int, py: int) {
      left <= px < Right() && top <= py < Bottom()
    }
  }

  /** A falling square carrying one glyph. Position, angle and the settled flag change in place. */
  class Block {
    var x: int
    var y: int
    const size: int
    const glyph: string
    var angle: int
    var settled: bool

    constructor (x: int, y: int, size: int, glyph: string, angle: int)
      ensures this.x == x && this.y == y && this.size == size
      ensures this.glyph == glyph && this.angle == angle && !settled
    {
      this.x := x;
      this.y := y;
      this.size := size;
      this.glyph := glyph;
      this.angle := angle;
      settled := false;
    }

    /** The block's square on screen. */
    function Bounds(): Rect
      reads this
    {
      Rect(x, y, size, size)
    }
  }

  // What one frame of falling did to a block: the two-state predicates
  // below compare a block with itself at the start of the frame.

  /** `b` came to rest during the frame. */
  twostate predicate Landed(b: Block)
    reads b`settled
  {
    !old(b.settled) && b.settled
  }

  /** `b` neither moved nor changed state. */
  twostate predicate Kept(b: Block)
    reads b`y, b`settled
  {
    b.y == old(b.y) && b.settled == old(b.settled)
  }

  /** `b` took its turn: a settled block is left as it was, and a falling one
      has landed or is exactly `step` lower. */
  twostate predicate Stepped(b: Block, step: int)
    reads b`y, b`settled
  {
    if old(b.settled) then Kept(b) else b.settled || b.y == old(b.y) + step
  }

  /** Where the blocks of `s` stand and whether they have settled, as values
      that later changes to the blocks leave alone. */
  ghost function Places(s: seq<Block>): (r: seq<(int, int, bool)>)
    reads s
    ensures |r| == |s|
    ensures forall j :: 0 <= j < |s| ==> r[j] == (s[j].x, s[j].y, s[j].settled)
  {
    if s == [] then [] else [(s[0].x, s[0].y, s[0].settled)] + Places(s[1..])
  }

  /** A rows x cols occupancy table laid over the pixel area [left, left+width) x [top, top+height). */
  class Grid {
    const left: int
    const top: int
    const width: int
    const height: int
    const cell: int
    const cols: int
    const rows: int
    const occupied: array2<Option<string>>

    ghost predicate Valid() {
      && cell > 0 && width >= 0 && height >= 0
      && cols == width / cell && rows == height / cell
      && occupied.Length0 == rows && occupied.Length1 == cols
    }

    constructor (left: int, top: int, width: int, height: int, cell: int)
      requires cell > 0 && width >= 0 && height >= 0
      ensures Valid() && fresh(occupied)
      ensures this.left == left && this.top == top && this.width == width
      ensures this.height == height && this.cell == cell
      ensures Empty()
    {
      this.left := left;
      this.top := top;
      this.width := width;
      this.height := height;
      this.cell := cell;
      cols := width / cell;
      rows := height / cell;
      occupied := new Option<string>[height / cell, width / cell]((r, c) => None);
    }

    ghost predicate Empty()
      requires Valid()
      reads occupied
    {
      forall r, c :: 0 <= r < rows && 0 <= c < cols ==> occupied[r, c] == None
    }

    /** The table as a value, keyed by (row, col). */
    ghost function Cells(): map<(int, int), Option<string>>
      requires Valid()
      reads occupied
    {
      map r, c | 0 <= r < rows && 0 <= c < cols :: (r, c) := occupied[r, c]
    }

    /** The clamped column and row span a rectangle overlaps. */
    function FirstCol(rc: Rect): int
      requires Valid()
    {
      Max(0, (rc.left - left) / cell)
    }

    function LastCol(rc: Rect): int
      requires Valid()
    {
      Min(cols - 1, (rc.Right() - 1 - left) / cell)
    }

    function FirstRow(rc: Rect): int
      requires Valid()
    {
      Max(0, (rc.top - top) / cell)
    }

    function LastRow(rc: Rect): int
      requires Valid()
    {
      Min(rows - 1, (rc.Bottom() - 1 - top) / cell)
    }

    /** Inside the side walls and not below the floor (the top is not checked). */
    predicate WithinWalls(rc: Rect) {
      left <= rc.left && rc.Right() <= left + width && rc.Bottom() <= top + height
    }

    ghost predicate FootprintFree(rc: Rect)
      requires Valid()
      reads occupied
    {
      forall r, c :: FirstRow(rc) <= r <= LastRow(rc) && FirstCol(rc) <= c <= LastCol(rc) ==>
        occupied[r, c] == None
    }

    /** What `canMove` / `can_move` answers. */
    ghost predicate Accepts(rc: Rect)
      requires Valid()
      reads occupied
    {
      WithinWalls(rc) && FootprintFree(rc)
    }

    /** The cell `settle` writes: the block's top-left corner, clamped into the table. */
    function SettleCol(x: int): int
      requires Valid()
    {
      Max(0, Min(cols - 1, (x - left) / cell))
    }

    function SettleRow(y: int): int
      requires Valid()
    {
      Max(0, Min(rows - 1, (y - top) / cell))
    }

    /** The row whose occupancy ends the game: row 1, or row 0 on a grid of fewer than two rows. */
    function TopRow(): int {
      if rows < 2 then 0 else 1
    }

    ghost predicate AtTop()
      requires Valid() && (rows >= 1 || cols == 0)
      reads occupied
    {
      exists c :: 0 <= c < cols && occupied[TopRow(), c] != None
    }

    method Clear()
      requires Valid()
      modifies occupied
      ensures Empty()
      ensures rows >= 1 || cols == 0 ==> !AtTop()
    {
      var r := 0;
      while r < rows
        invariant 0 <= r <= rows
        invariant forall i, j :: 0 <= i < r && 0 <= j < cols ==> occupied[i, j] == None
      {
        var c := 0;
        while c < cols
          invariant 0 <= c <= cols
          invariant forall j :: 0 <= j < c ==> occupied[r, j] == None
          invariant forall i, j :: 0 <= i < r && 0 <= j < cols ==> occupied[i, j] == None
        {
          occupied[r, c] := None;
          c := c + 1;
        }
        r := r + 1;
      }
    }

    method CanMove(rc: Rect) returns (ok: bool)
      requires Valid()
      ensures ok == Accepts(rc)
    {
      if rc.left < left || rc.Right() > left + width {
        return false;
      }
      if rc.Bottom() > top + height {
        return false;
      }
      var c0, c1 := FirstCol(rc), LastCol(rc);
      var r0, r1 := FirstRow(rc), LastRow(rc);
      assert 0 <= r0 && r1 < rows && 0 <= c0 && c1 < cols;
      var r := r0;
      while r <= r1
        invariant r0 <= r && (r <= r1 + 1 || r == r0)
        invariant forall i, j :: r0 <= i < r && c0 <= j <= c1 ==> occupied[i, j] == None
        decreases r1 + 1 - r
      {
        var c := c0;
        while c <= c1
          invariant c0 <= c && (c <= c1 + 1 || c == c0)
          invariant forall j :: c0 <= j < c ==> occupied[r, j] == None
          decreases c1 + 1 - c
        {
          if occupied[r, c] != None {
            return false;
          }
          c := c + 1;
        }
        r := r + 1;
      }
      return true;
    }

    method Settle(b: Block)
      requires Valid() && rows >= 1 && cols >= 1
      modifies occupied
      ensures occupied[SettleRow(b.y), SettleCol(b.x)] == Some(b.glyph)
      ensures forall r, c :: 0 <= r < rows && 0 <= c < cols && (r, c) != (SettleRow(b.y), SettleCol(b.x)) ==>
        occupied[r, c] == old(occupied[r, c])
      ensures Cells() == old(Cells())[(SettleRow(b.y), SettleCol(b.x)) := Some(b.glyph)]
    {
      var gridX := (b.x - left) / cell;
      var gridY := (b.y - top) / cell;
      gridX := Max(0, Min(cols - 1, gridX));
      gridY := Max(0, Min(rows - 1, gridY));
      occupied[gridY, gridX] := Some(b.glyph);
    }

    method ReachedTop() returns (reached: bool)
      requires Valid() && (rows >= 1 || cols == 0)
      ensures reached == AtTop()
    {
      var row := if rows < 2 then 0 else 1;
      var c := 0;
      while c < cols
        invariant 0 <= c <= cols
        invariant forall j :: 0 <= j < c ==> occupied[row, j] == None
      {
        if occupied[row, c] != None {
          assert occupied[TopRow(), c] != None;
          return true;
        }
        c := c + 1;
      }
      return false;
    }

    /** Some cell of row `row` between columns c0 and c1 holds a glyph. */
    ghost predicate RowBlocked(row: int, c0: int, c1: int)
      requires Valid() && 0 <= row < rows
      reads occupied
    {
      exists c :: c0 <= c <= c1 && 0 <= c < cols && occupied[row, c] != None
    }

    /** The scan of the row under a falling block, as `update` does it. */
    method ScanRow(row: int, c0: int, c1: int) returns (found: bool)
      requires Valid() && 0 <= row < rows && 0 <= c0 && c1 < cols
      ensures found == RowBlocked(row, c0, c1)
    {
      var c := c0;
      while c <= c1
        invariant c0 <= c && (c <= c1 + 1 || c == c0)
        invariant forall j :: c0 <= j < c ==> occupied[row, j] == None
        decreases c1 + 1 - c
      {
        if occupied[row, c] != None {
          return true;
        }
        c := c + 1;
      }
      return false;
    }

    /** A horizontal move by `dx`: the block's x changes exactly when `canMove`
        accepts the shifted square. */
    method ShiftIfFree(b: Block, dx: int)
      requires Valid()
      modifies b`x
      ensures b.x == if Accepts(Rect(old(b.x) + dx, b.y, b.size, b.size)) then old(b.x) + dx else old(b.x)
    {
      var moved := Rect(b.x + dx, b.y, b.size, b.size);
      var ok := CanMove(moved);
      if ok {
        b.x := moved.left;
      }
    }

    /** Cell row `r` of the table lies wholly inside the pixel area. */
    lemma RowInside(r: int)
      requires Valid() && 0 <= r < rows
      ensures top <= top + r * cell && top + r * cell + cell <= top + height
    {
      assert r * cell + cell == (r + 1) * cell;
      assert (r + 1) * cell <= rows * cell by {
        MulMonotone(r + 1, rows, cell);
      }
      assert rows * cell <= height;
    }

    /** Once `settle` has written the cell of a cell-sized block lying within the walls,
        `canMove` rejects that block's own square. */
    lemma {:induction false} SettledSquareRejected(x: int, y: int)
      requires Valid() && rows >= 1 && cols >= 1
      requires left <= x && x + cell <= left + width && top <= y && y + cell <= top + height
      requires occupied[SettleRow(y), SettleCol(x)] != None
      ensures !Accepts(Rect(x, y, cell, cell))
    {
      var rc := Rect(x, y, cell, cell);
      var gx, gy := (x - left) / cell, (y - top) / cell;
      DivBelowCount(x - left, width, cell);
      DivBelowCount(y - top, height, cell);
      DivMonotone(x - left, x + cell - 1 - left, cell);
      DivMonotone(y - top, y + cell - 1 - top, cell);
      assert SettleCol(x) == gx && FirstCol(rc) == gx && gx <= LastCol(rc);
      assert SettleRow(y) == gy && FirstRow(rc) == gy && gy <= LastRow(rc);
    }
  }

  lemma MulMonotone(a: int, b: int, k: int)
    requires a <= b && k >= 0
    ensures a * k <= b * k
  {
  }

  lemma DivMonotone(a: int, b: int, k: int)
    requires 0 <= a <= b && k > 0
    ensures a / k <= b / k
  {
    var qa, qb := a / k, b / k;
    if qa > qb {
      MulMonotone(qb + 1, qa, k);
      assert false;
    }
  }

  /** A cell-sized span starting at offset `d` that ends inside `extent` starts in a full cell. */
  lemma DivBelowCount(d: int, extent: int, k: int)
    requires 0 <= d && d + k <= extent && k > 0
    ensures 0 <= d / k <= extent / k - 1
  {
    DivMonotone(d + k, extent, k);
    DivUnique(d + k, k, d / k + 1, d % k);
  }

  /** Quotients are unique: `n == q*k + r` with `0 <= r < k` fixes `n / k`. */
  lemma DivUnique(n: int, k: int, q: int, r: int)
    requires k > 0 && 0 <= r < k && n == q * k + r
    ensures n / k == q
  {
    var q' := n / k;
    if q' < q {
      MulMonotone(q' + 1, q, k);
      assert false;
    } else if q < q' {
      MulMonotone(q + 1, q', k);
      assert false;
    }
  }

  /** The completed idiom laid out in a row centred on the playfield: block
      `i` of `n` starts at `groupX + i * size`, and the whole row stays between
      the walls whenever the n blocks fit side by side. */
  lemma RowCentred(left: int, width: int, n: int, size: int, i: int)
    requires size > 0 && 0 <= i < n && n * size <= width
    ensures left <= left + width / 2 - (n * size) / 2 + i * size
    ensures left + width / 2 - (n * size) / 2 + i * size + size <= left + width
  {
    MulMonotone(0, i, size);
    MulMonotone(i + 1, n, size);
    DivMonotone(n * size, width, 2);
  }

  /** Up to four cells fit across a playfield at least four columns wide. */
  lemma FourFit(width: int, cell: int, n: int)
    requires cell > 0 && width >= 0 && width / cell >= 4 && 0 <= n <= 4
    ensures n * cell <= width
  {
    MulMonotone(n, width / cell, cell);
  }
}
