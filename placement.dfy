/** greedy_clustering/placement.py: first-fit strip placement of bins on a PE grid of fixed
  * width. Each bin becomes one rectangle (its anchor), bins are placed in descending order of
  * anchor area at the first free row-major position, the grid grows by whole rows when
  * nothing fits, and all-empty rows are trimmed at the end. */
module Placement {
  import opened Wrappers
  import opened DataStructures
  import opened Lists
  import opened Redistribution

  /** A grid cell: `None` while free, else the name painted on it. */
  type Cell = Option<string>

  type Rows = seq<seq<Cell>>

  /** Every row has `width` cells. */
  predicate Rectangular(g: Rows, width: nat)
  {
    forall r :: 0 <= r < |g| ==> |g[r]| == width
  }

  /** Cell `(i, j)` lies in the `h` x `w` rectangle anchored at `(row, col)`. */
  predicate InRect(i: int, j: int, row: int, col: int, h: int, w: int)
  {
    row <= i < row + h && col <= j < col + w
  }

  /** `can_place_kernel`: the rectangle lies inside the first `height` rows and the `width`
    * columns, and all its cells are free. */
  predicate CanPlace(g: Rows, row: nat, col: nat, h: nat, w: nat, height: nat, width: nat)
    requires Rectangular(g, width) && height <= |g|
  {
    row + h <= height && col + w <= width &&
    forall i, j :: row <= i < row + h && col <= j < col + w ==> g[i][j].None?
  }

  /** The grid after `place_at`: the rectangle's cells hold `name`, all others are unchanged. */
  function Painted(g: Rows, row: nat, col: nat, h: nat, w: nat, name: string): (r: Rows)
  {
    seq(|g|, i requires 0 <= i < |g| =>
      seq(|g[i]|, j requires 0 <= j < |g[i]| => if InRect(i, j, row, col, h, w) then Some(name) else g[i][j]))
  }

  /** `[None] * grid_width` */
  function EmptyRow(width: nat): seq<Cell>
  {
    seq(width, _ => None)
  }

  /** The grid after `n` empty rows are appended. */
  function Grown(g: Rows, n: nat, width: nat): (r: Rows)
    requires Rectangular(g, width)
    ensures Rectangular(r, width) && |r| == |g| + n && r[..|g|] == g
  {
    g + seq(n, _ => EmptyRow(width))
  }

  /** Position `(r1, c1)` comes before `(r2, c2)` in row-major order. */
  predicate Earlier(r1: int, c1: int, r2: int, c2: int)
  {
    r1 < r2 || (r1 == r2 && c1 < c2)
  }

  /** The scan of `place_kernel` from `(row, col)` on: the first row-major position at which
    * the rectangle can be placed. */
  function FitFrom(g: Rows, h: nat, w: nat, width: nat, row: nat, col: nat): Option<(nat, nat)>
    requires Rectangular(g, width)
    decreases |g| - row, width - col
  {
    if row >= |g| then None
    else if col >= width then FitFrom(g, h, w, width, row + 1, 0)
    else if CanPlace(g, row, col, h, w, |g|, width) then Some((row, col))
    else FitFrom(g, h, w, width, row, col + 1)
  }

  function FirstFit(g: Rows, h: nat, w: nat, width: nat): Option<(nat, nat)>
    requires Rectangular(g, width)
  {
    FitFrom(g, h, w, width, 0, 0)
  }

  /** The scan finds a position where the rectangle fits, and no position between the start
    * and the one found fits; when it finds none, no position from the start on fits. */
  lemma {:induction false} FitFromSpec(g: Rows, h: nat, w: nat, width: nat, row: nat, col: nat)
    requires Rectangular(g, width)
    ensures var r := FitFrom(g, h, w, width, row, col);
      r.Some? ==> r.value.0 < |g| && r.value.1 < width && !Earlier(r.value.0, r.value.1, row, col) &&
                  CanPlace(g, r.value.0, r.value.1, h, w, |g|, width)
    ensures var r := FitFrom(g, h, w, width, row, col);
      forall i, j :: (0 <= i < |g| && 0 <= j < width && !Earlier(i, j, row, col) &&
                      (r.Some? ==> Earlier(i, j, r.value.0, r.value.1))) ==> !CanPlace(g, i, j, h, w, |g|, width)
    decreases |g| - row, width - col
  {
    if row >= |g| {
    } else if col >= width {
      FitFromSpec(g, h, w, width, row + 1, 0);
    } else if !CanPlace(g, row, col, h, w, |g|, width) {
      FitFromSpec(g, h, w, width, row, col + 1);
    }
  }

  /** `place_kernel` on grid `g`: the grid it leaves and the position it returns. The
    * rectangle goes at the first fit; failing that, `h` empty rows are appended and the scan
    * retried; failing that too, nothing is painted and `(height, 0)` is returned. */
  function PlaceKernelSpec(g: Rows, name: string, h: nat, w: nat, width: nat): (Rows, (nat, nat))
    requires Rectangular(g, width)
  {
    match FirstFit(g, h, w, width)
    case Some((r, c)) => (Painted(g, r, c, h, w, name), (r, c))
    case None =>
      var g1 := Grown(g, h, width);
      match FirstFit(g1, h, w, width)
      case Some((r, c)) => (Painted(g1, r, c, h, w, name), (r, c))
      case None => (g1, (|g1|, 0))
  }

  /** The grid holds a rectangle no wider than itself. */
  predicate Fits(w: nat, width: nat)
  {
    0 < width && w <= width
  }

  /** The rectangle's cells all hold a name. */
  predicate Filled(g: Rows, row: nat, col: nat, h: nat, w: nat)
  {
    row + h <= |g| && forall i, j :: row <= i < row + h && col <= j < col + w ==> j < |g[i]| && g[i][j].Some?
  }

  /** What `place_kernel` guarantees. The grid stays `width` wide and grows by `h` rows exactly
    * when the rectangle does not fit as it is; no named cell is overwritten; a rectangle that
    * fits the width is painted on cells that were free, and nothing else changes; a rectangle
    * wider than the grid is not painted and its position is the grown height and column 0. */
  lemma PlaceKernelSpecProps(g: Rows, name: string, h: nat, w: nat, width: nat)
    requires Rectangular(g, width)
    ensures var (g1, pos) := PlaceKernelSpec(g, name, h, w, width);
      Rectangular(g1, width) &&
      |g1| == (if FirstFit(g, h, w, width).Some? then |g| else |g| + h) &&
      (forall i, j :: 0 <= i < |g| && 0 <= j < width && g[i][j].Some? ==> g1[i][j] == g[i][j])
    ensures var (g1, pos) := PlaceKernelSpec(g, name, h, w, width);
      Fits(w, width) ==>
        pos.0 + h <= |g1| && pos.1 + w <= width &&
        (forall i, j :: 0 <= i < |g1| && 0 <= j < width ==>
           g1[i][j] == if InRect(i, j, pos.0, pos.1, h, w) then Some(name)
                       else if i < |g| then g[i][j] else None) &&
        (forall i, j :: 0 <= i < |g| && InRect(i, j, pos.0, pos.1, h, w) ==> g[i][j].None?)
    ensures var (g1, pos) := PlaceKernelSpec(g, name, h, w, width);
      !Fits(w, width) ==> g1 == Grown(g, h, width) && pos == (|g| + h, 0)
  {
    var g1 := Grown(g, h, width);
    FitFromSpec(g, h, w, width, 0, 0);
    FitFromSpec(g1, h, w, width, 0, 0);
    if Fits(w, width) && FirstFit(g, h, w, width).None? {
      assert CanPlace(g1, |g|, 0, h, w, |g1|, width);
    }
    if !Fits(w, width) {
      forall i, j | 0 <= i < |g| && 0 <= j < width ensures !CanPlace(g, i, j, h, w, |g|, width) {
      }
    }
  }

  /** The grid `place_kernel` mutates: its rows, each `width` cells wide. */
  class Grid {
    var rows: Rows
    const width: nat

    ghost predicate Valid()
      reads this
    {
      Rectangular(rows, width)
    }

    /** `grid = []` */
    constructor(width: nat)
      ensures this.width == width && rows == [] && Valid()
    {
      this.width := width;
      rows := [];
    }

    /** `place_at`: write `name` into every cell of the rectangle. */
    method PlaceAt(row: nat, col: nat, name: string, h: nat, w: nat)
      requires Valid() && row + h <= |rows| && col + w <= width
      modifies this
      ensures rows == Painted(old(rows), row, col, h, w, name) && Valid()
    {
      var r := row;
      while r < row + h
        invariant row <= r <= row + h && Rectangular(rows, width) && |rows| == |old(rows)|
        invariant forall i, j :: 0 <= i < |rows| && 0 <= j < width ==>
          rows[i][j] == if InRect(i, j, row, col, r - row, w) then Some(name) else old(rows)[i][j]
      {
        var c := col;
        while c < col + w
          invariant col <= c <= col + w && Rectangular(rows, width) && |rows| == |old(rows)|
          invariant forall i, j :: 0 <= i < |rows| && 0 <= j < width ==>
            rows[i][j] == if InRect(i, j, row, col, r - row, w) || (i == r && col <= j < c) then Some(name)
                          else old(rows)[i][j]
        {
          rows := rows[r := rows[r][c := Some(name)]];
          c := c + 1;
        }
        r := r + 1;
      }
      ghost var p := Painted(old(rows), row, col, h, w, name);
      assert |rows| == |p|;
      forall i | 0 <= i < |rows| ensures rows[i] == p[i] {
      }
    }

    /** The two nested `for` loops of `place_kernel` over the current rows. */
    method Scan(h: nat, w: nat) returns (found: bool, row: nat, col: nat)
      requires Valid()
      ensures FirstFit(rows, h, w, width) == if found then Some((row, col)) else None
    {
      row := 0;
      while row < |rows|
        invariant FirstFit(rows, h, w, width) == FitFrom(rows, h, w, width, row, 0)
      {
        col := 0;
        while col < width
          invariant FirstFit(rows, h, w, width) == FitFrom(rows, h, w, width, row, col)
        {
          if CanPlace(rows, row, col, h, w, |rows|, width) {
            return true, row, col;
          }
          col := col + 1;
        }
        row := row + 1;
      }
      return false, 0, 0;
    }

    /** `place_kernel`: place an `h` x `w` rectangle named `name` at the first free position,
      * growing the grid by `h` rows when it does not fit. */
    method PlaceKernel(name: string, h: nat, w: nat) returns (pos: (nat, nat))
      requires Valid()
      modifies this
      ensures (rows, pos) == PlaceKernelSpec(old(rows), name, h, w, width) && Valid()
    {
      var found, row, col := Scan(h, w);
      FitFromSpec(rows, h, w, width, 0, 0);
      if found {
        PlaceAt(row, col, name, h, w);
        return (row, col);
      }
      var target := |rows| + h;
      while |rows| < target
        invariant |old(rows)| <= |rows| <= target && rows == Grown(old(rows), |rows| - |old(rows)|, width)
        decreases target - |rows|
      {
        rows := rows + [EmptyRow(width)];
      }
      found, row, col := Scan(h, w);
      if found {
        FitFromSpec(rows, h, w, width, 0, 0);
        PlaceAt(row, col, name, h, w);
        return (row, col);
      }
      return (|rows|, 0);
    }
  }

  // ---- find_factors ----

  /** The integer square root, standing for `int(math.sqrt(k))`. */
  function ISqrt(k: nat): (r: nat)
    ensures r * r <= k < (r + 1) * (r + 1)
  {
    if k == 0 then 0
    else
      var s := ISqrt(k - 1);
      if (s + 1) * (s + 1) <= k then s + 1 else s
  }

  /** The first divisor of `k` met counting down from `i` to 1. */
  function FactorFrom(k: nat, i: nat): (r: nat)
    requires 1 <= i
    decreases i
    ensures 1 <= r <= i && k % r == 0
    ensures forall d :: r < d <= i ==> k % d != 0
  {
    if k % i == 0 || i == 1 then i else FactorFrom(k, i - 1)
  }

  /** Multiplication by a natural number keeps order. */
  lemma MulMonotone(a: nat, b: nat, c: nat)
    requires a <= b
    ensures a * c <= b * c
  {
    var e: nat := b - a;
    assert b * c == a * c + e * c;
  }

  /** An exact division leaves no remainder to add back. */
  lemma ExactQuotient(k: nat, i: nat)
    requires i > 0 && k % i == 0
    ensures i * (k / i) == k
  {
  }

  /** Multiplication by a positive number keeps strict order. */
  lemma MulStrict(a: nat, b: nat, c: nat)
    requires a < b && 0 < c
    ensures a * c < b * c
  {
    var e: nat := b - a;
    assert b * c == a * c + e * c;
    MulMonotone(1, e, c);
  }

  /** A square number bounds its root: `d * d <= k` puts `d` at or below the integer root. */
  lemma BelowRoot(k: nat, d: nat)
    requires d * d <= k
    ensures d <= ISqrt(k)
  {
    var r := ISqrt(k);
    if d > r {
      MulMonotone(r + 1, d, d);
      MulMonotone(r + 1, d, r + 1);
    }
  }

  /** `find_factors(k)`: the factor pair `(i, k // i)` whose first factor is the largest divisor
    * of `k` not above its square root, so the pair is as close to square as `k` allows. `None`
    * where the source raises (no divisor is found for `k == 0`, the square root of a negative
    * number is an error). */
  function FindFactors(k: int): (r: Option<(nat, nat)>)
    ensures r.None? <==> k < 1
    ensures r.Some? ==> r.value.0 * r.value.1 == k && 1 <= r.value.0 <= r.value.1
    ensures r.Some? ==> r.value.0 * r.value.0 <= k
    ensures r.Some? ==> forall d :: r.value.0 < d && d * d <= k ==> k % d != 0
  {
    if k < 1 then None
    else
      var i := FactorFrom(k, ISqrt(k));
      FactorsClosest(k, i);
      Some((i, k / i))
  }

  /** The facts about the divisor `FindFactors` settles on. */
  lemma FactorsClosest(k: nat, i: nat)
    requires 1 <= k && i == FactorFrom(k, ISqrt(k))
    ensures i * (k / i) == k && i * i <= k && i <= k / i
    ensures forall d :: i < d && d * d <= k ==> k % d != 0
  {
    var r := ISqrt(k);
    MulMonotone(i, r, i);
    MulMonotone(i, r, r);
    assert i * r == r * i;
    var q := k / i;
    ExactQuotient(k, i);
    if q < i {
      MulStrict(q, i, i);
    }
    forall d | i < d && d * d <= k ensures k % d != 0 {
      BelowRoot(k, d);
    }
  }

  // ---- anchors: the loop over a bin's kernels in `place` and `place_to_array_given_count` ----

  /** A bin's anchor: (largest member height, largest member width), and the first members that
    * reach each (`biggest_pers1`, `biggest_pers2`; `None` while no member is taller or wider
    * than 0). */
  datatype Anchor = Anchor(shape: Shape, tallest: Option<string>, widest: Option<string>)

  /** One pass of the loop over the members, for member `k` of shape `p`. */
  function AnchorStep(a: Anchor, k: string, p: Shape): Anchor
  {
    var a1 := if p.rows > a.shape.rows then Anchor(Shape(p.rows, a.shape.cols), Some(k), a.widest) else a;
    if p.cols > a1.shape.cols then Anchor(Shape(a1.shape.rows, p.cols), a1.tallest, Some(k)) else a1
  }

  /** The anchor after the first `n` members. */
  function AnchorUpTo(ks: seq<string>, catalog: Catalog, n: nat): Anchor
    requires Covered(ks, catalog) && n <= |ks|
  {
    if n == 0 then Anchor(Shape(0, 0), None, None)
    else AnchorStep(AnchorUpTo(ks, catalog, n - 1), ks[n - 1], catalog[ks[n - 1]].shape)
  }

  function AnchorOfKernels(ks: seq<string>, catalog: Catalog): Anchor
    requires Covered(ks, catalog)
  {
    AnchorUpTo(ks, catalog, |ks|)
  }

  /** The anchor is the largest height and width among the members; its names are present
    * exactly when the maximum is positive, and name the first member that reaches it. */
  lemma AnchorUpToSpec(ks: seq<string>, catalog: Catalog, n: nat)
    requires Covered(ks, catalog) && n <= |ks|
    ensures var a := AnchorUpTo(ks, catalog, n);
      (forall j :: 0 <= j < n ==> catalog[ks[j]].shape.rows <= a.shape.rows) &&
      (a.tallest.None? <==> a.shape.rows == 0) &&
      (a.tallest.Some? ==>
         exists j :: 0 <= j < n && ks[j] == a.tallest.value &&
                     catalog[ks[j]].shape.rows == a.shape.rows &&
                     forall i :: 0 <= i < j ==> catalog[ks[i]].shape.rows < a.shape.rows)
    ensures var a := AnchorUpTo(ks, catalog, n);
      (forall j :: 0 <= j < n ==> catalog[ks[j]].shape.cols <= a.shape.cols) &&
      (a.widest.None? <==> a.shape.cols == 0) &&
      (a.widest.Some? ==>
         exists j :: 0 <= j < n && ks[j] == a.widest.value &&
                     catalog[ks[j]].shape.cols == a.shape.cols &&
                     forall i :: 0 <= i < j ==> catalog[ks[i]].shape.cols < a.shape.cols)
  {
    AnchorTallest(ks, catalog, n);
    AnchorWidest(ks, catalog, n);
  }

  /** The height half of `AnchorUpToSpec`. */
  lemma {:induction false} AnchorTallest(ks: seq<string>, catalog: Catalog, n: nat)
    requires Covered(ks, catalog) && n <= |ks|
    ensures var a := AnchorUpTo(ks, catalog, n);
      (forall j :: 0 <= j < n ==> catalog[ks[j]].shape.rows <= a.shape.rows) &&
      (a.tallest.None? <==> a.shape.rows == 0) &&
      (a.tallest.Some? ==>
         exists j :: 0 <= j < n && ks[j] == a.tallest.value &&
                     catalog[ks[j]].shape.rows == a.shape.rows &&
                     forall i :: 0 <= i < j ==> catalog[ks[i]].shape.rows < a.shape.rows)
  {
    if n > 0 {
      AnchorTallest(ks, catalog, n - 1);
      var a0, p := AnchorUpTo(ks, catalog, n - 1), catalog[ks[n - 1]].shape;
      var a := AnchorUpTo(ks, catalog, n);
      assert a == AnchorStep(a0, ks[n - 1], p);
      if p.rows > a0.shape.rows {
        assert a.shape.rows == p.rows && a.tallest == Some(ks[n - 1]);
      } else {
        assert a.shape.rows == a0.shape.rows && a.tallest == a0.tallest;
      }
    }
  }

  /** The width half of `AnchorUpToSpec`. */
  lemma {:induction false} AnchorWidest(ks: seq<string>, catalog: Catalog, n: nat)
    requires Covered(ks, catalog) && n <= |ks|
    ensures var a := AnchorUpTo(ks, catalog, n);
      (forall j :: 0 <= j < n ==> catalog[ks[j]].shape.cols <= a.shape.cols) &&
      (a.widest.None? <==> a.shape.cols == 0) &&
      (a.widest.Some? ==>
         exists j :: 0 <= j < n && ks[j] == a.widest.value &&
                     catalog[ks[j]].shape.cols == a.shape.cols &&
                     forall i :: 0 <= i < j ==> catalog[ks[i]].shape.cols < a.shape.cols)
  {
    if n > 0 {
      AnchorWidest(ks, catalog, n - 1);
      var a0, p := AnchorUpTo(ks, catalog, n - 1), catalog[ks[n - 1]].shape;
      var a := AnchorUpTo(ks, catalog, n);
      assert a == AnchorStep(a0, ks[n - 1], p);
      if p.cols > a0.shape.cols {
        assert a.shape.cols == p.cols && a.widest == Some(ks[n - 1]);
      } else {
        assert a.shape.cols == a0.shape.cols && a.widest == a0.widest;
      }
    }
  }

  /** Both names exist: the concatenation `biggest_pers1 + "-" + biggest_pers2` succeeds. */
  predicate Anchored(a: Anchor)
  {
    a.tallest.Some? && a.widest.Some?
  }

  /** The loop over a bin's members that finds its anchor. */
  method AnchorOf(ks: seq<string>, catalog: Catalog) returns (a: Anchor)
    requires Covered(ks, catalog)
    ensures a == AnchorOfKernels(ks, catalog)
  {
    a := Anchor(Shape(0, 0), None, None);
    for i := 0 to |ks|
      invariant a == AnchorUpTo(ks, catalog, i)
    {
      var p := catalog[ks[i]].shape;
      if p.rows > a.shape.rows {
        a := Anchor(Shape(p.rows, a.shape.cols), Some(ks[i]), a.widest);
      }
      if p.cols > a.shape.cols {
        a := Anchor(Shape(a.shape.rows, p.cols), a.tallest, Some(ks[i]));
      }
    }
  }

  // ---- trimming ----

  predicate AllFree(row: seq<Cell>)
  {
    forall j :: 0 <= j < |row| ==> row[j].None?
  }

  /** `[row for row in grid if not all(cell is None for cell in row)]` */
  function Trim(g: Rows): Rows
  {
    if g == [] then [] else Trim(g[..|g| - 1]) + (if AllFree(g[|g| - 1]) then [] else [g[|g| - 1]])
  }

  /** Trimming keeps exactly the rows that hold a name. */
  lemma {:induction false} TrimSpec(g: Rows)
    ensures |Trim(g)| <= |g|
    ensures forall row :: row in Trim(g) <==> row in g && !AllFree(row)
  {
    if g != [] {
      var n := |g| - 1;
      TrimSpec(g[..n]);
      assert g == g[..n] + [g[n]];
    }
  }

  /** The rows that hold no name all come after the rows that hold one. */
  predicate Packed(g: Rows)
  {
    forall i, j :: 0 <= i < j < |g| && AllFree(g[i]) ==> AllFree(g[j])
  }

  /** In a packed grid, trimming keeps every row that holds a name below the trimmed height. */
  lemma {:induction false} PackedTrim(g: Rows)
    requires Packed(g)
    ensures forall i :: 0 <= i < |g| && !AllFree(g[i]) ==> i < |Trim(g)|
  {
    if g != [] {
      var n := |g| - 1;
      assert Packed(g[..n]) by {
        forall i, j | 0 <= i < j < n && AllFree(g[..n][i]) ensures AllFree(g[..n][j]) {
          assert g[..n][i] == g[i] && g[..n][j] == g[j];
        }
      }
      PackedTrim(g[..n]);
      if !AllFree(g[n]) && n > 0 {
        assert !AllFree(g[..n][n - 1]);
      }
    }
  }

  /** Appending empty rows keeps a grid packed. */
  lemma PackedGrown(g: Rows, n: nat, width: nat)
    requires Rectangular(g, width) && Packed(g)
    ensures Packed(Grown(g, n, width))
  {
    var g1 := Grown(g, n, width);
    forall i, j | 0 <= i < j < |g1| && AllFree(g1[i]) ensures AllFree(g1[j]) {
      if j >= |g| {
        assert g1[j] == EmptyRow(width);
      } else {
        assert g1[i] == g[i] && g1[j] == g[j];
      }
    }
  }

  /** Painting a rectangle at the first fit of a packed grid keeps it packed: every row above
    * the first fit already holds a name, or the rectangle would fit higher up. */
  lemma PackedPaint(g: Rows, name: string, h: nat, w: nat, width: nat, r: nat, c: nat)
    requires Rectangular(g, width) && Packed(g) && 0 < h && 0 < w
    requires FirstFit(g, h, w, width) == Some((r, c))
    ensures Packed(Painted(g, r, c, h, w, name))
  {
    FitFromSpec(g, h, w, width, 0, 0);
    var g1 := Painted(g, r, c, h, w, name);
    forall i | 0 <= i < r ensures !AllFree(g[i]) {
      assert !CanPlace(g, i, c, h, w, |g|, width);
      var i', j' :| i <= i' < i + h && c <= j' < c + w && g[i'][j'].Some?;
      assert !AllFree(g[i']);
    }
    forall i, j | 0 <= i < j < |g1| && AllFree(g1[i]) ensures AllFree(g1[j]) {
      assert g1[i][c].None?;
      assert i < r || r + h <= i;
      assert AllFree(g[i]) by {
        forall k | 0 <= k < |g[i]| ensures g[i][k].None? {
          assert g1[i][k] == g[i][k];
        }
      }
      assert AllFree(g[j]);
      forall k | 0 <= k < |g1[j]| ensures g1[j][k].None? {
        assert g1[j][k] == g[j][k];
      }
    }
  }

  /** `place_kernel` keeps a grid packed when the rectangle fits the width. */
  lemma PackedPlace(g: Rows, name: string, h: nat, w: nat, width: nat)
    requires Rectangular(g, width) && Packed(g) && 0 < h && 0 < w && Fits(w, width)
    ensures Packed(PlaceKernelSpec(g, name, h, w, width).0)
  {
    FitFromSpec(g, h, w, width, 0, 0);
    match FirstFit(g, h, w, width)
    case Some((r, c)) =>
      PackedPaint(g, name, h, w, width, r, c);
    case None =>
      var g1 := Grown(g, h, width);
      PackedGrown(g, h, width);
      FitFromSpec(g1, h, w, width, 0, 0);
      assert CanPlace(g1, |g|, 0, h, w, |g1|, width);
      var (r, c) := FirstFit(g1, h, w, width).value;
      PackedPaint(g1, name, h, w, width, r, c);
  }

  // ---- place_to_array_given_count ----

  /** One `[name, shape, IMEM lines]` record of a placed bin's member. */
  datatype Member = Member(name: string, shape: Shape, imemLines: nat)

  /** A placed bin: the coordinate `(row, col, size, anchor shape)` and its members. */
  datatype Location = Location(row: nat, col: nat, size: int, anchor: Shape, members: seq<Member>)

  datatype PlacementError =
    | NoAnchor     // a bin has no member taller or wider than 0: `None + "-"` raises
    | EmptyArray   // no row holds a name after trimming: `grid[0]` raises
    | MissingBins  // two bins share a coordinate, so a record overwrote another
    | OffGrid      // a rectangle reaches outside the trimmed grid: `visualize_placement` raises `IndexError`

  /** The two placed rectangles share no cell. */
  predicate Disjoint(a: Location, b: Location)
  {
    a.row + a.anchor.rows <= b.row || b.row + b.anchor.rows <= a.row ||
    a.col + a.anchor.cols <= b.col || b.col + b.anchor.cols <= a.col
  }

  predicate LocFits(l: Location, width: nat)
  {
    Fits(l.anchor.cols, width)
  }

  /** Every anchor is positive. */
  predicate Positive(locs: seq<Location>)
  {
    forall i :: 0 <= i < |locs| ==> locs[i].anchor.rows > 0 && locs[i].anchor.cols > 0
  }

  /** Every rectangle that fits the width lies inside the grid and its cells hold names. */
  predicate Occupied(g: Rows, locs: seq<Location>, width: nat)
  {
    forall i :: 0 <= i < |locs| && LocFits(locs[i], width) ==>
      locs[i].col + locs[i].anchor.cols <= width &&
      Filled(g, locs[i].row, locs[i].col, locs[i].anchor.rows, locs[i].anchor.cols)
  }

  /** No two rectangles that fit the width share a cell. */
  predicate Separated(locs: seq<Location>, width: nat)
  {
    forall i, j :: 0 <= i < j < |locs| && LocFits(locs[i], width) && LocFits(locs[j], width) ==>
      Disjoint(locs[i], locs[j])
  }

  /** A rectangle wider than the grid sits at column 0 and a row no lower than the grid's
    * height, and the rows of such rectangles strictly increase. */
  predicate Overflowing(g: Rows, locs: seq<Location>, width: nat)
  {
    (forall i :: 0 <= i < |locs| && !LocFits(locs[i], width) ==> locs[i].col == 0 && locs[i].row <= |g|) &&
    (forall i, j :: 0 <= i < j < |locs| && !LocFits(locs[i], width) && !LocFits(locs[j], width) ==>
       locs[i].row < locs[j].row)
  }

  /** While no rectangle fits, the grid holds no name. */
  predicate BlankUntilFit(g: Rows, locs: seq<Location>, width: nat)
  {
    (forall i :: 0 <= i < |locs| ==> !LocFits(locs[i], width)) ==> forall r :: 0 <= r < |g| ==> AllFree(g[r])
  }

  /** What the placement loop keeps about the locations recorded so far and the grid. */
  predicate PlacedWell(g: Rows, locs: seq<Location>, width: nat)
  {
    Positive(locs) && Occupied(g, locs, width) && Separated(locs, width) && Overflowing(g, locs, width) &&
    BlankUntilFit(g, locs, width)
  }

  /** A rectangle painted on free cells shares no cell with a named rectangle. */
  lemma FreeIsDisjoint(g: Rows, width: nat, a: Location, b: Location)
    requires Rectangular(g, width)
    requires a.anchor.rows > 0 && a.anchor.cols > 0 && b.anchor.rows > 0 && b.anchor.cols > 0
    requires a.col + a.anchor.cols <= width && Filled(g, a.row, a.col, a.anchor.rows, a.anchor.cols)
    requires forall i, j :: 0 <= i < |g| && 0 <= j < width && InRect(i, j, b.row, b.col, b.anchor.rows, b.anchor.cols) ==>
               g[i][j].None?
    ensures Disjoint(a, b)
  {
    if !Disjoint(a, b) {
      var i := if a.row < b.row then b.row else a.row;
      var j := if a.col < b.col then b.col else a.col;
      assert a.row <= i < a.row + a.anchor.rows && a.col <= j < a.col + a.anchor.cols;
      assert j < |g[i]| && g[i][j].Some?;
      assert InRect(i, j, b.row, b.col, b.anchor.rows, b.anchor.cols);
    }
  }

  /** The facts `PlaceKernelSpecProps` gives about one `place_kernel` call that turns `g` into
    * `g1` and returns `pos` for an `a`-shaped rectangle. */
  predicate KernelPlaced(g: Rows, g1: Rows, pos: (nat, nat), a: Shape, width: nat)
  {
    Rectangular(g, width) && Rectangular(g1, width) && |g| <= |g1| &&
    (forall i, j :: 0 <= i < |g| && 0 <= j < width && g[i][j].Some? ==> g1[i][j] == g[i][j]) &&
    (Fits(a.cols, width) ==>
       pos.0 + a.rows <= |g1| && pos.1 + a.cols <= width &&
       (forall i, j :: 0 <= i < |g1| && 0 <= j < width && InRect(i, j, pos.0, pos.1, a.rows, a.cols) ==> g1[i][j].Some?) &&
       (forall i, j :: 0 <= i < |g| && 0 <= j < width && InRect(i, j, pos.0, pos.1, a.rows, a.cols) ==> g[i][j].None?)) &&
    (!Fits(a.cols, width) ==> g1 == Grown(g, a.rows, width) && pos == (|g| + a.rows, 0))
  }

  lemma KernelPlacedHolds(g: Rows, name: string, a: Shape, width: nat)
    requires Rectangular(g, width)
    ensures var (g1, pos) := PlaceKernelSpec(g, name, a.rows, a.cols, width); KernelPlaced(g, g1, pos, a, width)
  {
    PlaceKernelSpecProps(g, name, a.rows, a.cols, width);
  }

  lemma OccupiedStep(g: Rows, g1: Rows, pos: (nat, nat), locs: seq<Location>, l: Location, width: nat)
    requires KernelPlaced(g, g1, pos, l.anchor, width) && l.row == pos.0 && l.col == pos.1
    requires Occupied(g, locs, width)
    ensures Occupied(g1, locs + [l], width)
  {
    var u := locs + [l];
    forall i | 0 <= i < |u| && LocFits(u[i], width)
      ensures u[i].col + u[i].anchor.cols <= width && Filled(g1, u[i].row, u[i].col, u[i].anchor.rows, u[i].anchor.cols)
    {
      if i < |locs| {
        assert u[i] == locs[i];
      }
    }
  }

  lemma SeparatedStep(g: Rows, g1: Rows, pos: (nat, nat), locs: seq<Location>, l: Location, width: nat)
    requires KernelPlaced(g, g1, pos, l.anchor, width) && l.row == pos.0 && l.col == pos.1
    requires Positive(locs + [l]) && Occupied(g, locs, width) && Separated(locs, width)
    ensures Separated(locs + [l], width)
  {
    var u := locs + [l];
    if LocFits(l, width) {
      forall i | 0 <= i < |locs| && LocFits(locs[i], width) ensures Disjoint(locs[i], l) {
        assert u[i] == locs[i] && u[|locs|] == l;
        FreeIsDisjoint(g, width, locs[i], l);
      }
    }
    assert forall i :: 0 <= i < |locs| ==> u[i] == locs[i];
  }

  lemma OverflowingStep(g: Rows, g1: Rows, pos: (nat, nat), locs: seq<Location>, l: Location, width: nat)
    requires KernelPlaced(g, g1, pos, l.anchor, width) && l.row == pos.0 && l.col == pos.1 && l.anchor.rows > 0
    requires Overflowing(g, locs, width)
    ensures Overflowing(g1, locs + [l], width)
  {
    var u := locs + [l];
    assert forall i :: 0 <= i < |locs| ==> u[i] == locs[i];
  }

  lemma BlankStep(g: Rows, g1: Rows, pos: (nat, nat), locs: seq<Location>, l: Location, width: nat)
    requires KernelPlaced(g, g1, pos, l.anchor, width) && l.row == pos.0 && l.col == pos.1
    requires BlankUntilFit(g, locs, width)
    ensures BlankUntilFit(g1, locs + [l], width)
  {
    var u := locs + [l];
    if forall i :: 0 <= i < |u| ==> !LocFits(u[i], width) {
      assert u[|locs|] == l;
      forall i | 0 <= i < |locs| ensures !LocFits(locs[i], width) {
        assert u[i] == locs[i];
      }
      forall r | 0 <= r < |g1| ensures AllFree(g1[r]) {
        if r < |g| {
          assert g1[r] == g[r];
        }
      }
    }
  }

  /** Placing one more positive anchor with `place_kernel` keeps `PlacedWell`. */
  lemma PlacedWellStep(g: Rows, g1: Rows, pos: (nat, nat), locs: seq<Location>, l: Location, width: nat)
    requires KernelPlaced(g, g1, pos, l.anchor, width) && l.row == pos.0 && l.col == pos.1
    requires l.anchor.rows > 0 && l.anchor.cols > 0
    requires PlacedWell(g, locs, width)
    ensures PlacedWell(g1, locs + [l], width)
  {
    var u := locs + [l];
    assert forall i :: 0 <= i < |locs| ==> u[i] == locs[i];
    assert Positive(u);
    OccupiedStep(g, g1, pos, locs, l, width);
    SeparatedStep(g, g1, pos, locs, l, width);
    OverflowingStep(g, g1, pos, locs, l, width);
    BlankStep(g, g1, pos, locs, l, width);
  }

  /** Every bin has both anchor names. */
  predicate AllAnchored(bins: seq<Bin>, catalog: Catalog)
    requires forall i :: 0 <= i < |bins| ==> Covered(bins[i].kernels, catalog)
  {
    forall i :: 0 <= i < |bins| ==> Anchored(AnchorOfKernels(bins[i].kernels, catalog))
  }

  /** Some bin's anchor fits the width of the grid. */
  predicate AnyFits(bins: seq<Bin>, catalog: Catalog, width: nat)
    requires forall i :: 0 <= i < |bins| ==> Covered(bins[i].kernels, catalog)
  {
    exists i :: 0 <= i < |bins| && Fits(AnchorOfKernels(bins[i].kernels, catalog).shape.cols, width)
  }

  /** Every bin's anchor fits the width of the grid. */
  predicate AllFit(bins: seq<Bin>, catalog: Catalog, width: nat)
    requires forall i :: 0 <= i < |bins| ==> Covered(bins[i].kernels, catalog)
  {
    forall i :: 0 <= i < |bins| ==> Fits(AnchorOfKernels(bins[i].kernels, catalog).shape.cols, width)
  }

  /** The name `biggest_pers1 + "-" + biggest_pers2` painted for an anchor. */
  function AnchorName(a: Anchor): string
    requires Anchored(a)
  {
    a.tallest.value + "-" + a.widest.value
  }

  /** The top-left corners of placed bins. */
  function Positions(locs: seq<Location>): (r: seq<(nat, nat)>)
    ensures |r| == |locs| && forall i :: 0 <= i < |locs| ==> r[i] == (locs[i].row, locs[i].col)
  {
    seq(|locs|, i requires 0 <= i < |locs| => (locs[i].row, locs[i].col))
  }

  /** The first loop of `place_to_array_given_count` as a fold: `place_kernel` for each bin's
    * anchor in turn, starting from grid `g`; the grid it leaves and each bin's position. */
  function PlaceAllSpec(g: Rows, bins: seq<Bin>, catalog: Catalog, width: nat): (r: (Rows, seq<(nat, nat)>))
    requires Rectangular(g, width)
    requires forall i :: 0 <= i < |bins| ==> Covered(bins[i].kernels, catalog)
    requires AllAnchored(bins, catalog)
    ensures Rectangular(r.0, width) && |g| <= |r.0| && |r.1| == |bins|
    decreases |bins|
  {
    if bins == [] then (g, [])
    else
      var n := |bins| - 1;
      var (g1, ps) := PlaceAllSpec(g, bins[..n], catalog, width);
      var a := AnchorOfKernels(bins[n].kernels, catalog);
      PlaceKernelSpecProps(g1, AnchorName(a), a.shape.rows, a.shape.cols, width);
      var (g2, p) := PlaceKernelSpec(g1, AnchorName(a), a.shape.rows, a.shape.cols, width);
      (g2, ps + [p])
  }

  /** The bins are all anchored, and placing them in order from an empty grid leaves grid `g`
    * with the bins at the corners `locs` records. */
  predicate FoldPlaced(bins: seq<Bin>, catalog: Catalog, width: nat, g: Rows, locs: seq<Location>)
    requires forall i :: 0 <= i < |bins| ==> Covered(bins[i].kernels, catalog)
  {
    AllAnchored(bins, catalog) && PlaceAllSpec([], bins, catalog, width) == (g, Positions(locs))
  }

  /** Placing one more bin extends the fold by one `place_kernel` step. */
  lemma PlaceAllSpecStep(bins: seq<Bin>, i: nat, catalog: Catalog, width: nat, g: Rows, g1: Rows,
                         locs: seq<Location>, l: Location)
    requires i < |bins| && forall k :: 0 <= k < |bins| ==> Covered(bins[k].kernels, catalog)
    requires forall k :: 0 <= k <= i ==> Anchored(AnchorOfKernels(bins[k].kernels, catalog))
    requires FoldPlaced(bins[..i], catalog, width, g, locs)
    requires var a := AnchorOfKernels(bins[i].kernels, catalog);
      (g1, (l.row, l.col)) == PlaceKernelSpec(g, AnchorName(a), a.shape.rows, a.shape.cols, width)
    ensures FoldPlaced(bins[..i + 1], catalog, width, g1, locs + [l])
  {
    assert bins[..i + 1][..i] == bins[..i];
    assert Positions(locs + [l]) == Positions(locs) + [(l.row, l.col)];
  }

  /** When every anchor fits the width, the grid the placement loop leaves is packed. */
  lemma {:induction false} FoldPacked(bins: seq<Bin>, catalog: Catalog, width: nat)
    requires forall i :: 0 <= i < |bins| ==> Covered(bins[i].kernels, catalog)
    requires AllAnchored(bins, catalog) && AllFit(bins, catalog, width)
    ensures Packed(PlaceAllSpec([], bins, catalog, width).0)
    decreases |bins|
  {
    if bins != [] {
      var n := |bins| - 1;
      FoldPacked(bins[..n], catalog, width);
      var a := AnchorOfKernels(bins[n].kernels, catalog);
      AnchorUpToSpec(bins[n].kernels, catalog, |bins[n].kernels|);
      PackedPlace(PlaceAllSpec([], bins[..n], catalog, width).0, AnchorName(a), a.shape.rows, a.shape.cols, width);
    }
  }

  /** One pass of the first loop of `place_to_array_given_count`: find the bin's anchor and
    * place it; `None` when the anchor has no name. */
  method PlaceBin(grid: Grid, b: Bin, catalog: Catalog, ghost locs: seq<Location>) returns (r: Option<Location>)
    requires grid.Valid() && Covered(b.kernels, catalog) && PlacedWell(grid.rows, locs, grid.width)
    modifies grid
    ensures grid.Valid()
    ensures r.None? <==> !Anchored(AnchorOfKernels(b.kernels, catalog))
    ensures r.None? ==> grid.rows == old(grid.rows)
    ensures r.Some? ==> r.value.size == b.size && r.value.anchor == AnchorOfKernels(b.kernels, catalog).shape &&
                        PlacedWell(grid.rows, locs + [r.value], grid.width)
    ensures r.Some? ==> var a := AnchorOfKernels(b.kernels, catalog);
      (grid.rows, (r.value.row, r.value.col)) == PlaceKernelSpec(old(grid.rows), AnchorName(a), a.shape.rows, a.shape.cols, grid.width)
  {
    var a := AnchorOf(b.kernels, catalog);
    if a.tallest.None? || a.widest.None? {
      return None;
    }
    AnchorUpToSpec(b.kernels, catalog, |b.kernels|);
    var name := a.tallest.value + "-" + a.widest.value;
    ghost var g := grid.rows;
    KernelPlacedHolds(g, name, a.shape, grid.width);
    var pos := grid.PlaceKernel(name, a.shape.rows, a.shape.cols);
    var l := Location(pos.0, pos.1, b.size, a.shape, []);
    PlacedWellStep(g, grid.rows, pos, locs, l, grid.width);
    return Some(l);
  }

  /** The first loop of `place_to_array_given_count`: find each bin's anchor and place it. */
  method PlaceBins(grid: Grid, bins: seq<Bin>, catalog: Catalog) returns (r: Result<seq<Location>, PlacementError>)
    requires grid.Valid() && grid.rows == []
    requires forall i :: 0 <= i < |bins| ==> Covered(bins[i].kernels, catalog)
    modifies grid
    ensures grid.Valid()
    ensures r.Err? <==> exists i :: 0 <= i < |bins| && !Anchored(AnchorOfKernels(bins[i].kernels, catalog))
    ensures r.Err? ==> r.error == NoAnchor
    ensures r.Ok? ==> |r.value| == |bins| && PlacedWell(grid.rows, r.value, grid.width)
    ensures r.Ok? ==> forall i :: 0 <= i < |bins| ==>
      r.value[i].size == bins[i].size && r.value[i].anchor == AnchorOfKernels(bins[i].kernels, catalog).shape
    ensures r.Ok? ==> FoldPlaced(bins, catalog, grid.width, grid.rows, r.value)
  {
    var locs: seq<Location> := [];
    for i := 0 to |bins|
      invariant grid.Valid() && |locs| == i && PlacedWell(grid.rows, locs, grid.width)
      invariant forall k :: 0 <= k < i ==>
                  Anchored(AnchorOfKernels(bins[k].kernels, catalog)) &&
                  locs[k].size == bins[k].size && locs[k].anchor == AnchorOfKernels(bins[k].kernels, catalog).shape
      invariant FoldPlaced(bins[..i], catalog, grid.width, grid.rows, locs)
    {
      ghost var before := grid.rows;
      var placed := PlaceBin(grid, bins[i], catalog, locs);
      if placed.None? {
        return Err(NoAnchor);
      }
      PlaceAllSpecStep(bins, i, catalog, grid.width, before, grid.rows, locs, placed.value);
      locs := locs + [placed.value];
    }
    assert bins[..|bins|] == bins;
    return Ok(locs);
  }

  /** The dict key `str((row, col, size, anchor))` of a placed bin. */
  function Coordinate(l: Location): (nat, nat, int, Shape)
  {
    (l.row, l.col, l.size, l.anchor)
  }

  /** The bins get pairwise distinct coordinates: rectangles that fit are disjoint and
    * positive, rectangles wider than the grid lie on increasing rows, and the two kinds
    * differ in anchor width. */
  lemma DistinctCoordinates(g: Rows, locs: seq<Location>, width: nat)
    requires PlacedWell(g, locs, width)
    ensures forall i, j :: 0 <= i < j < |locs| ==> Coordinate(locs[i]) != Coordinate(locs[j])
  {
    forall i, j | 0 <= i < j < |locs| ensures Coordinate(locs[i]) != Coordinate(locs[j]) {
      if LocFits(locs[i], width) && LocFits(locs[j], width) {
        assert Disjoint(locs[i], locs[j]);
      } else if !LocFits(locs[i], width) && !LocFits(locs[j], width) {
        assert locs[i].row < locs[j].row;
      }
    }
  }

  /** `[pers, personality_dict[pers][0], int(personality_dict[pers][1] / 8)]` */
  function MemberOf(k: string, catalog: Catalog): Member
    requires k in catalog
  {
    Member(k, catalog[k].shape, catalog[k].imemBits / 8)
  }

  function Members(ks: seq<string>, catalog: Catalog): seq<Member>
    requires Covered(ks, catalog)
  {
    seq(|ks|, i requires 0 <= i < |ks| => MemberOf(ks[i], catalog))
  }

  /** The inner loop that appends one record per member. */
  method DescribeMembers(ks: seq<string>, catalog: Catalog) returns (ms: seq<Member>)
    requires Covered(ks, catalog)
    ensures ms == Members(ks, catalog)
  {
    ms := [];
    for i := 0 to |ks|
      invariant ms == Members(ks[..i], catalog)
    {
      assert ks[..i + 1] == ks[..i] + [ks[i]];
      ms := ms + [MemberOf(ks[i], catalog)];
    }
    assert ks[..|ks|] == ks;
  }

  /** Where `key` sits among the entries of a dict modelled as a sequence. */
  function KeyIndex(entries: seq<Location>, key: (nat, nat, int, Shape)): (r: Option<nat>)
    ensures r.Some? ==> r.value < |entries| && Coordinate(entries[r.value]) == key
    ensures r.None? ==> forall e :: 0 <= e < |entries| ==> Coordinate(entries[e]) != key
  {
    if entries == [] then None
    else if Coordinate(entries[|entries| - 1]) == key then Some(|entries| - 1)
    else KeyIndex(entries[..|entries| - 1], key)
  }

  /** The second loop of `place_to_array_given_count`: key each placed bin by its coordinate
    * and list its members. A coordinate already present has its record replaced. */
  method Describe(locs: seq<Location>, bins: seq<Bin>, catalog: Catalog) returns (final: seq<Location>)
    requires |locs| == |bins| && forall i :: 0 <= i < |bins| ==> Covered(bins[i].kernels, catalog)
    ensures (forall i, j :: 0 <= i < j < |locs| ==> Coordinate(locs[i]) != Coordinate(locs[j])) ==>
      |final| == |locs| &&
      forall i :: 0 <= i < |locs| ==> final[i] == locs[i].(members := Members(bins[i].kernels, catalog))
  {
    ghost var distinct := forall i, j :: 0 <= i < j < |locs| ==> Coordinate(locs[i]) != Coordinate(locs[j]);
    final := [];
    for i := 0 to |locs|
      invariant distinct ==>
                  |final| == i &&
                  forall k :: 0 <= k < i ==> final[k] == locs[k].(members := Members(bins[k].kernels, catalog))
    {
      var ms := DescribeMembers(bins[i].kernels, catalog);
      var l := locs[i].(members := ms);
      match KeyIndex(final, Coordinate(l))
      case Some(e) =>
        final := final[e := l];
      case None =>
        final := final + [l];
    }
  }

  /** Trimming leaves no row exactly when no rectangle fits the width; the rows it leaves
    * are `width` wide. */
  lemma TrimmedEmpty(g: Rows, locs: seq<Location>, width: nat)
    requires Rectangular(g, width) && PlacedWell(g, locs, width)
    ensures Trim(g) == [] <==> forall i :: 0 <= i < |locs| ==> !LocFits(locs[i], width)
    ensures Trim(g) != [] ==> |Trim(g)[0]| == width
  {
    forall i | 0 <= i < |locs| && LocFits(locs[i], width)
      ensures g[locs[i].row] in g && !AllFree(g[locs[i].row])
    {
      var r, c := locs[i].row, locs[i].col;
      assert r < |g| && c < |g[r]| && g[r][c].Some?;
    }
    TrimSpec(g);
    if Trim(g) != [] {
      assert Trim(g)[0] in g && !AllFree(Trim(g)[0]);
    }
  }

  /** Replacing the member records changes no rectangle. */
  lemma KeepsPlacement(locs: seq<Location>, final: seq<Location>, width: nat)
    requires |final| == |locs| && forall i :: 0 <= i < |locs| ==> final[i] == locs[i].(members := final[i].members)
    requires Separated(locs, width)
    ensures Separated(final, width)
  {
    forall i, j | 0 <= i < j < |final| && LocFits(final[i], width) && LocFits(final[j], width)
      ensures Disjoint(final[i], final[j])
    {
      assert Disjoint(locs[i], locs[j]);
    }
  }

  /** Replacing the member records keeps the positions of the fold. */
  lemma KeepsFold(bins: seq<Bin>, catalog: Catalog, width: nat, g: Rows, locs: seq<Location>, final: seq<Location>)
    requires forall i :: 0 <= i < |bins| ==> Covered(bins[i].kernels, catalog)
    requires |final| == |locs| && forall i :: 0 <= i < |locs| ==> final[i] == locs[i].(members := final[i].members)
    requires FoldPlaced(bins, catalog, width, g, locs)
    ensures FoldPlaced(bins, catalog, width, g, final)
  {
    assert Positions(final) == Positions(locs);
  }

  // ---- the index checks of `visualize_placement` ----

  /** Every cell the drawing loops write for the rectangle at `l` lies inside an image of
    * `size` rows and columns; an empty rectangle writes none. */
  predicate Drawable(l: Location, size: (nat, nat))
  {
    l.anchor.rows == 0 || l.anchor.cols == 0 ||
    (l.row + l.anchor.rows <= size.0 && l.col + l.anchor.cols <= size.1)
  }

  /** The loops of `visualize_placement` over the placed rectangles and their cells, which
    * write `data_3d[row + row_c][col + col_c]` into an image of `size`; `false` where numpy
    * would raise `IndexError`. The drawing itself is not modelled. */
  method CheckDrawable(locs: seq<Location>, size: (nat, nat)) returns (ok: bool)
    ensures ok <==> forall i :: 0 <= i < |locs| ==> Drawable(locs[i], size)
  {
    for i := 0 to |locs|
      invariant forall k :: 0 <= k < i ==> Drawable(locs[k], size)
    {
      var l := locs[i];
      for rowC := 0 to l.anchor.rows
        invariant rowC > 0 && l.anchor.cols > 0 ==> l.row + rowC <= size.0 && l.col + l.anchor.cols <= size.1
      {
        for colC := 0 to l.anchor.cols
          invariant colC > 0 ==> l.row + rowC < size.0 && l.col + colC <= size.1
        {
          if l.row + rowC >= size.0 || l.col + colC >= size.1 {
            return false;
          }
        }
      }
    }
    return true;
  }

  /** With a non-empty trimmed grid, every placed rectangle lies inside the trimmed grid
    * exactly when every anchor fits the width: a packed grid keeps each rectangle's rows
    * below the trimmed height, and a rectangle wider than the grid leaves the image. */
  lemma DrawableExactly(bins: seq<Bin>, catalog: Catalog, width: nat, g: Rows, locs: seq<Location>,
                        final: seq<Location>)
    requires forall i :: 0 <= i < |bins| ==> Covered(bins[i].kernels, catalog)
    requires Rectangular(g, width) && PlacedWell(g, locs, width) && FoldPlaced(bins, catalog, width, g, locs)
    requires |locs| == |bins| && forall i :: 0 <= i < |bins| ==> locs[i].anchor == AnchorOfKernels(bins[i].kernels, catalog).shape
    requires |final| == |locs| && forall i :: 0 <= i < |locs| ==> final[i] == locs[i].(members := final[i].members)
    requires Trim(g) != []
    ensures (forall i :: 0 <= i < |final| ==> Drawable(final[i], (|Trim(g)|, width))) <==> AllFit(bins, catalog, width)
  {
    if AllFit(bins, catalog, width) {
      FoldPacked(bins, catalog, width);
      PackedTrim(g);
      forall i | 0 <= i < |final| ensures Drawable(final[i], (|Trim(g)|, width)) {
        var l := locs[i];
        assert LocFits(l, width);
        assert g[l.row + l.anchor.rows - 1][l.col].Some?;
        assert !AllFree(g[l.row + l.anchor.rows - 1]);
      }
    } else {
      TrimmedWidth(g, width);
      var i :| 0 <= i < |bins| && !Fits(AnchorOfKernels(bins[i].kernels, catalog).shape.cols, width);
      assert !Drawable(final[i], (|Trim(g)|, width));
    }
  }

  /** A grid with a row that holds a name has at least one column. */
  lemma TrimmedWidth(g: Rows, width: nat)
    requires Rectangular(g, width) && Trim(g) != []
    ensures 0 < width
  {
    TrimSpec(g);
    var row0 := Trim(g)[0];
    assert row0 in g && !AllFree(row0);
  }

  /** The bin is placed as `l` describes: its size, its anchor and its members' records. */
  predicate Describes(l: Location, b: Bin, catalog: Catalog)
    requires Covered(b.kernels, catalog)
  {
    l.size == b.size && l.anchor == AnchorOfKernels(b.kernels, catalog).shape && l.members == Members(b.kernels, catalog)
  }

  /** `place_to_array_given_count`: place the bins in the given order on a grid `width` wide,
    * trim the empty rows, describe every placed bin and check that each rectangle can be
    * drawn on the trimmed grid; the result's size is `(rows, width)`. It fails when a bin has
    * no anchor name, when no bin fits the width, or when some but not all of them do (the
    * wider one cannot be drawn); two bins never share a coordinate, so the missing-bins exit
    * is never taken. */
  method PlaceToArrayGivenCount(bins: seq<Bin>, catalog: Catalog, width: nat)
    returns (r: Result<(seq<Location>, (nat, nat)), PlacementError>)
    requires forall i :: 0 <= i < |bins| ==> Covered(bins[i].kernels, catalog)
    ensures r == Err(NoAnchor) <==> !AllAnchored(bins, catalog)
    ensures r == Err(EmptyArray) <==> AllAnchored(bins, catalog) && !AnyFits(bins, catalog, width)
    ensures r == Err(OffGrid) <==> AllAnchored(bins, catalog) && AnyFits(bins, catalog, width) && !AllFit(bins, catalog, width)
    ensures r != Err(MissingBins)
    ensures r.Ok? ==> |r.value.0| == |bins| && forall i :: 0 <= i < |bins| ==> Describes(r.value.0[i], bins[i], catalog)
    ensures r.Ok? ==> 0 < r.value.1.0 && r.value.1.1 == width
    ensures r.Ok? ==> exists g :: FoldPlaced(bins, catalog, width, g, r.value.0) && r.value.1 == (|Trim(g)|, width)
    ensures r.Ok? ==> AllFit(bins, catalog, width) && forall i :: 0 <= i < |bins| ==> Drawable(r.value.0[i], r.value.1)
    ensures r.Ok? ==> Separated(r.value.0, width)
  {
    var grid := new Grid(width);
    var placed := PlaceBins(grid, bins, catalog);
    if placed.Err? {
      return Err(placed.error);
    }
    var locs := placed.value;
    var trimmed := Trim(grid.rows);
    DistinctCoordinates(grid.rows, locs, width);
    var final := Describe(locs, bins, catalog);
    TrimmedEmpty(grid.rows, locs, width);
    if |trimmed| == 0 {
      return Err(EmptyArray);
    }
    DrawableExactly(bins, catalog, width, grid.rows, locs, final);
    var drawable := CheckDrawable(final, (|trimmed|, |trimmed[0]|));
    if !drawable {
      return Err(OffGrid);
    }
    if |final| != |bins| {
      return Err(MissingBins);
    }
    KeepsPlacement(locs, final, width);
    KeepsFold(bins, catalog, width, grid.rows, locs, final);
    return Ok((final, (|trimmed|, |trimmed[0]|)));
  }

  // ---- place ----

  /** `n_PEs`: the number of PEs an anchor covers. */
  function Area(a: Shape): int
  {
    a.rows * a.cols
  }

  function Areas(bins: seq<Bin>, catalog: Catalog): seq<int>
    requires forall i :: 0 <= i < |bins| ==> Covered(bins[i].kernels, catalog)
  {
    seq(|bins|, i requires 0 <= i < |bins| => Area(AnchorOfKernels(bins[i].kernels, catalog).shape))
  }

  /** The first loop of `place`: every bin's anchor area; `None` when an anchor has no name. */
  method AreasOf(bins: seq<Bin>, catalog: Catalog) returns (r: Option<seq<int>>)
    requires forall i :: 0 <= i < |bins| ==> Covered(bins[i].kernels, catalog)
    ensures r.None? <==> exists i :: 0 <= i < |bins| && !Anchored(AnchorOfKernels(bins[i].kernels, catalog))
    ensures r.Some? ==> r.value == Areas(bins, catalog)
  {
    var areas: seq<int> := [];
    for i := 0 to |bins|
      invariant |areas| == i
      invariant forall k :: 0 <= k < i ==>
                  Anchored(AnchorOfKernels(bins[k].kernels, catalog)) && areas[k] == Areas(bins, catalog)[k]
    {
      var a := AnchorOf(bins[i].kernels, catalog);
      if a.tallest.None? || a.widest.None? {
        return None;
      }
      areas := areas + [a.shape.rows * a.shape.cols];
    }
    return Some(areas);
  }

  /** `place` in its default mode: order the bins by descending anchor area, equal areas in
    * input order, and place them in that order; the size is reported as `(cols, rows)`, and
    * the failures are those of `place_to_array_given_count`.
    * Every input bin is described exactly once, and the descriptions come in non-increasing
    * order of anchor area. */
  method Place(bins: seq<Bin>, catalog: Catalog, width: nat)
    returns (r: Result<(seq<Location>, (nat, nat)), PlacementError>)
    requires forall i :: 0 <= i < |bins| ==> Covered(bins[i].kernels, catalog)
    ensures r == Err(NoAnchor) <==> !AllAnchored(bins, catalog)
    ensures r == Err(EmptyArray) <==> AllAnchored(bins, catalog) && !AnyFits(bins, catalog, width)
    ensures r == Err(OffGrid) <==> AllAnchored(bins, catalog) && AnyFits(bins, catalog, width) && !AllFit(bins, catalog, width)
    ensures r != Err(MissingBins)
    ensures r.Ok? ==>
      var order := StableOrderDesc(Areas(bins, catalog));
      IsPermutation(order, |bins|) && |r.value.0| == |bins| &&
      forall k :: 0 <= k < |bins| ==> Describes(r.value.0[k], bins[order[k]], catalog)
    ensures r.Ok? ==> forall k, l :: 0 <= k < l < |r.value.0| ==> Area(r.value.0[k].anchor) >= Area(r.value.0[l].anchor)
    ensures r.Ok? ==> r.value.1.0 == width && 0 < r.value.1.1
    ensures r.Ok? ==> exists g :: FoldPlaced(Pick(bins, StableOrderDesc(Areas(bins, catalog))), catalog, width, g, r.value.0) &&
                                 r.value.1 == (width, |Trim(g)|)
    ensures r.Ok? ==> AllFit(bins, catalog, width) &&
                      forall k :: 0 <= k < |r.value.0| ==> Drawable(r.value.0[k], (r.value.1.1, r.value.1.0))
  {
    var areas := AreasOf(bins, catalog);
    if areas.None? {
      return Err(NoAnchor);
    }
    var order := StableOrderDesc(areas.value);
    assert IsPermutation(order, |bins|) by {
      StableOrderDescCorrect(areas.value);
    }
    var sorted := Pick(bins, order);
    var res := PlaceToArrayGivenCount(sorted, catalog, width);
    SortedSame(bins, order, sorted, catalog, width);
    if res.Err? {
      return Err(res.error);
    }
    InAreaOrder(bins, catalog, res.value.0);
    return Ok((res.value.0, (res.value.1.1, res.value.1.0)));
  }

  /** Descriptions that follow the order of `sorted(..., reverse=True)` by area come in
    * non-increasing order of anchor area. */
  lemma InAreaOrder(bins: seq<Bin>, catalog: Catalog, locs: seq<Location>)
    requires forall i :: 0 <= i < |bins| ==> Covered(bins[i].kernels, catalog)
    requires var order := StableOrderDesc(Areas(bins, catalog));
      |locs| == |bins| && forall k :: 0 <= k < |bins| ==> Describes(locs[k], bins[order[k]], catalog)
    ensures forall k, l :: 0 <= k < l < |locs| ==> Area(locs[k].anchor) >= Area(locs[l].anchor)
  {
    var areas := Areas(bins, catalog);
    var order := StableOrderDesc(areas);
    StableOrderDescCorrect(areas);
    forall k, l | 0 <= k < l < |locs| ensures Area(locs[k].anchor) >= Area(locs[l].anchor) {
      assert areas[order[k]] >= areas[order[l]];
    }
  }

  /** Reordering the bins by a permutation keeps which bins are anchored and which fit. */
  lemma SortedSame(bins: seq<Bin>, order: seq<nat>, sorted: seq<Bin>, catalog: Catalog, width: nat)
    requires forall i :: 0 <= i < |bins| ==> Covered(bins[i].kernels, catalog)
    requires IsPermutation(order, |bins|) && sorted == Pick(bins, order)
    ensures forall k :: 0 <= k < |sorted| ==> Covered(sorted[k].kernels, catalog)
    ensures AllAnchored(bins, catalog) <==> AllAnchored(sorted, catalog)
    ensures AnyFits(bins, catalog, width) <==> AnyFits(sorted, catalog, width)
    ensures AllFit(bins, catalog, width) <==> AllFit(sorted, catalog, width)
  {
    forall i | 0 <= i < |bins| ensures bins[i] in sorted {
      assert i in order;
      var k :| 0 <= k < |order| && order[k] == i;
      assert sorted[k] == bins[i];
    }
    SameBinsSame(bins, sorted, catalog, width);
    SameBinsSame(sorted, bins, catalog, width);
  }

  /** Bins that all occur among `other` are anchored, and fit, when all of `other` are; and
    * one of them that fits is a bin of `other` that fits. */
  lemma SameBinsSame(bins: seq<Bin>, other: seq<Bin>, catalog: Catalog, width: nat)
    requires forall i :: 0 <= i < |bins| ==> Covered(bins[i].kernels, catalog) && bins[i] in other
    requires forall k :: 0 <= k < |other| ==> Covered(other[k].kernels, catalog)
    ensures AllAnchored(other, catalog) ==> AllAnchored(bins, catalog)
    ensures AllFit(other, catalog, width) ==> AllFit(bins, catalog, width)
    ensures AnyFits(bins, catalog, width) ==> AnyFits(other, catalog, width)
  {
    forall i | 0 <= i < |bins| ensures exists k :: 0 <= k < |other| && other[k] == bins[i] {
      var k := PositionOf(other, bins[i]);
    }
  }
}
