/** The Moebius address space: an integer grid whose u edge glues on with a flip of v, whose v axis
    reflects at both ends, and whose w axis is a plain cycle. */
module Mobius {
  import opened Wrappers
  import opened Ordering
  import opened Schema

  datatype GridError = NonPositiveDimension | NegativeDepth

  function Abs(x: int): nat { if x < 0 then -x else x }

  function Norm1(du: int, dv: int, dw: int): nat { Abs(du) + Abs(dv) + Abs(dw) }

  /** Folds an integer into [0, size) by mirroring at 0 and at size - 1. */
  function ReflectAxis(value: int, size: int): (r: int)
    requires size > 0
    ensures 0 <= r < size
  {
    if size <= 1 then 0
    else
      var period := 2 * (size - 1);
      var position := value % period;
      if position >= size then period - position else position
  }

  /** Crossing the u edge an odd number of times turns the strip over. */
  function Flip(wraps: int, v: int, size: int): int {
    if wraps % 2 != 0 then size - 1 - v else v
  }

  datatype Grid = Grid(uSize: int, vSize: int, wSize: int) {
    predicate Valid() { uSize > 0 && vSize > 0 && wSize > 0 }

    static function Create(uSize: int, vSize: int, wSize: int): (r: Result<Grid, GridError>)
      ensures r.Success? <==> uSize > 0 && vSize > 0 && wSize > 0
      ensures r.Success? ==> r.value.Valid() && r.value == Grid(uSize, vSize, wSize)
    {
      if uSize <= 0 || vSize <= 0 || wSize <= 0 then Failure(NonPositiveDimension)
      else Success(Grid(uSize, vSize, wSize))
    }

    predicate InRange(a: Address) {
      0 <= a.iu < uSize && 0 <= a.iv < vSize && 0 <= a.iw < wSize
    }

    function Wrap(iu: int, iv: int, iw: int, region: string): (a: Address)
      requires Valid()
      ensures InRange(a) && a.region == region
    {
      Address(iu % uSize, ReflectAxis(Flip(iu / uSize, iv, vSize), vSize), iw % wSize, region)
    }

    /** The cell reached from `a` by one offset. */
    function Shift(a: Address, du: int, dv: int, dw: int): (b: Address)
      requires Valid()
      ensures InRange(b) && b.region == a.region
    {
      Wrap(a.iu + du, a.iv + dv, a.iw + dw, a.region)
    }

    /** `b` is a depth-`d` neighbour of `a`. */
    ghost predicate Near(a: Address, b: Address, d: int)
      requires Valid()
    {
      exists du: int, dv: int, dw: int :: Norm1(du, dv, dw) <= d && b == Shift(a, du, dv, dw)
    }

    /** Sorted neighbourhood. All members share the region, so the order is decided by coordinates. */
    method Neighbors(address: Address, depth: int) returns (r: Result<seq<Address>, GridError>)
      requires Valid()
      ensures r.Failure? <==> depth < 0
      ensures r.Failure? ==> r.error == NegativeDepth
      ensures r.Success? ==> forall b :: b in r.value <==> Near(address, b, depth)
      ensures r.Success? ==> Ascending(r.value)
    {
      if depth < 0 {
        return Failure(NegativeDepth);
      }
      var items: set<Address> := {};
      for du := -depth to depth + 1
        invariant forall b :: b in items ==> Near(address, b, depth)
        invariant forall p, q, s :: Norm1(p, q, s) <= depth && p < du ==> Shift(address, p, q, s) in items
      {
        for dv := -depth to depth + 1
          invariant forall b :: b in items ==> Near(address, b, depth)
          invariant forall p, q, s :: Norm1(p, q, s) <= depth && (p < du || (p == du && q < dv))
                                      ==> Shift(address, p, q, s) in items
        {
          for dw := -depth to depth + 1
            invariant forall b :: b in items ==> Near(address, b, depth)
            invariant forall p, q, s :: Norm1(p, q, s) <= depth
                                        && (p < du || (p == du && (q < dv || (q == dv && s < dw))))
                                        ==> Shift(address, p, q, s) in items
          {
            if Norm1(du, dv, dw) <= depth {
              items := items + {Shift(address, du, dv, dw)};
            }
          }
        }
      }
      var sorted := SortSet(items, AtOrBefore);
      assert forall i :: 0 <= i < |sorted| ==> sorted[i] in items;
      SortedAscends(sorted, address.region);
      r := Success(sorted);
    }
  }

  /** By u, then v, then w, and none twice. */
  ghost predicate Ascending(cells: seq<Address>) {
    forall i, j :: 0 <= i < j < |cells| ==>
      var b, c := cells[i], cells[j];
      b.iu < c.iu || (b.iu == c.iu && (b.iv < c.iv || (b.iv == c.iv && b.iw < c.iw)))
  }

  lemma SortedAscends(cells: seq<Address>, region: string)
    requires SortedBy(cells, AtOrBefore) && NoDuplicates(cells)
    requires forall i :: 0 <= i < |cells| ==> cells[i].region == region
    ensures Ascending(cells)
  {
    forall i, j | 0 <= i < j < |cells| ensures AtOrBefore(cells[i], cells[j]) && cells[i] != cells[j] {
    }
  }

  predicate AtOrBefore(a: Address, b: Address) {
    a.iu < b.iu || (a.iu == b.iu && (a.iv < b.iv || (a.iv == b.iv && a.iw <= b.iw)))
  }

  // ---- arithmetic of the quotient ----

  lemma DivModUnique(x: int, n: int, q: int, r: int)
    requires n > 0 && x == q * n + r && 0 <= r < n
    ensures x / n == q && x % n == r
  {
    var q', r' := x / n, x % n;
    assert (q - q') * n == r' - r;
    assert q - q' >= 1 ==> (q - q') * n >= n;
    assert q - q' <= -1 ==> (q - q') * n <= -n;
  }

  lemma ReflectPeriodic(x: int, k: int, size: int)
    requires size > 1
    ensures ReflectAxis(x + k * (2 * (size - 1)), size) == ReflectAxis(x, size)
  {
    var p := 2 * (size - 1);
    assert x + k * p == (x / p + k) * p + x % p;
    DivModUnique(x + k * p, p, x / p + k, x % p);
  }

  lemma ReflectEven(x: int, size: int)
    requires size > 1
    ensures ReflectAxis(-x, size) == ReflectAxis(x, size)
  {
    var p := 2 * (size - 1);
    var q, r := x / p, x % p;
    if r == 0 {
      assert -x == (-q) * p + 0;
      DivModUnique(-x, p, -q, 0);
    } else {
      assert -x == (-q - 1) * p + (p - r);
      DivModUnique(-x, p, -q - 1, p - r);
    }
  }

  /** Which way the folded axis runs at `x`: +1 where folding kept the direction, -1 where it mirrored. */
  function FoldSign(x: int, size: int): int {
    if size <= 1 || x % (2 * (size - 1)) < size then 1 else -1
  }

  /** Walking on from a folded position is walking on from the original one, possibly mirrored. */
  lemma ReflectStep(x: int, e: int, size: int)
    requires size > 0
    ensures ReflectAxis(ReflectAxis(x, size) + e, size) == ReflectAxis(x + FoldSign(x, size) * e, size)
  {
    if size > 1 {
      var p := 2 * (size - 1);
      var q, r := x / p, x % p;
      if r < size {
        ReflectPeriodic(r + e, q, size);
        assert r + e + q * p == x + e;
      } else {
        ReflectPeriodic(-(x - e), q + 1, size);
        assert p - r + e == -(x - e) + (q + 1) * p;
        ReflectEven(x - e, size);
      }
    }
  }

  /** Seen from the other end, a folded position is the fold of the position seen from the other end. */
  lemma ReflectTurn(x: int, y: int, k: int, size: int)
    requires size > 1 && (y == x + k * (2 * (size - 1)) || y == -x + k * (2 * (size - 1)))
    ensures ReflectAxis(y, size) == ReflectAxis(x, size)
  {
    if y == x + k * (2 * (size - 1)) {
      ReflectPeriodic(x, k, size);
    } else {
      ReflectPeriodic(-x, k, size);
      ReflectEven(x, size);
    }
  }

  /** Turning the strip over after a step on the folded axis is turning it over after the unfolded step. */
  lemma ReflectMirror(x: int, e: int, size: int)
    requires size > 1
    ensures ReflectAxis(size - 1 - (ReflectAxis(x, size) + e), size)
         == ReflectAxis(size - 1 - (x + FoldSign(x, size) * e), size)
  {
    var p := 2 * (size - 1);
    var q, r := x / p, x % p;
    assert x == q * p + r;
    if r < size {
      ReflectTurn(size - 1 - (x + e), size - 1 - (r + e), q, size);
    } else {
      assert -((size - 1) - (x - e)) + (-q) * p == size - 1 - (p - r + e);
      ReflectTurn(size - 1 - (x - e), size - 1 - (p - r + e), -q, size);
    }
  }

  /** Reflection commutes with the flip of the strip. */
  lemma ReflectFlip(x: int, e: int, wraps: int, size: int)
    requires size > 0
    ensures ReflectAxis(Flip(wraps, ReflectAxis(x, size) + e, size), size)
         == ReflectAxis(Flip(wraps, x + FoldSign(x, size) * e, size), size)
  {
    if wraps % 2 == 0 || size == 1 {
      ReflectStep(x, e, size);
    } else {
      ReflectMirror(x, e, size);
    }
  }

  /** Two runs of wraps compose: the flips add modulo two. */
  lemma FlipCompose(m: int, n: int, v: int, size: int)
    ensures Flip(n, Flip(m, v, size), size) == Flip(m + n, v, size)
  {
  }

  /** The direction in which v runs at the unfolded position (u, v). */
  function Orientation(g: Grid, u: int, v: int): (s: int)
    requires g.Valid()
    ensures s == 1 || s == -1
  {
    var wraps := u / g.uSize;
    FoldSign(Flip(wraps, v, g.vSize), g.vSize) * (if wraps % 2 != 0 then -1 else 1)
  }

  /** Key lemma. An offset taken after wrapping equals an offset taken before it, with dv mirrored
      according to the orientation of the unfolded point. The sign does not depend on the offset. */
  lemma WrapShift(g: Grid, u: int, v: int, w: int, region: string, du: int, dv: int, dw: int)
    requires g.Valid()
    ensures g.Shift(g.Wrap(u, v, w, region), du, dv, dw)
         == g.Wrap(u + du, v + Orientation(g, u, v) * dv, w + dw, region)
  {
    var n := g.uSize;
    var q, q' := u / n, (u % n + du) / n;
    StepAround(u, du, n);
    StepAround(w, dw, g.wSize);
    var y := Flip(q, v, g.vSize);
    ReflectFlip(y, dv, q', g.vSize);
    var z := v + Orientation(g, u, v) * dv;
    FlipStep(q, v, FoldSign(y, g.vSize), dv, g.vSize);
    FlipCompose(q, q', z, g.vSize);
  }

  /** Stepping on a cycle from the wrapped position: same place, and the wraps add up. */
  lemma StepAround(x: int, d: int, n: int)
    requires n > 0
    ensures (x + d) / n == x / n + (x % n + d) / n && (x + d) % n == (x % n + d) % n
  {
    var q, q', r := x / n, (x % n + d) / n, (x % n + d) % n;
    assert x + d == (q + q') * n + r;
    DivModUnique(x + d, n, q + q', r);
  }

  lemma FlipStep(wraps: int, v: int, sign: int, e: int, size: int)
    requires sign == 1 || sign == -1
    ensures Flip(wraps, v, size) + sign * e == Flip(wraps, v + sign * (if wraps % 2 != 0 then -1 else 1) * e, size)
  {
  }

  // ---- the shape of the grid, in coordinates ----

  /** The cell on the other side of the strip. */
  function Mirrored(size: int, a: Address): Address { a.(iv := size - 1 - a.iv) }

  /** A cell keeps its own coordinates. */
  lemma WrapInside(g: Grid, iu: int, iv: int, iw: int, region: string)
    requires g.Valid() && 0 <= iu < g.uSize && 0 <= iv < g.vSize && 0 <= iw < g.wSize
    ensures g.Wrap(iu, iv, iw, region) == Address(iu, iv, iw, region)
  {
    DivModUnique(iu, g.uSize, 0, iu);
    DivModUnique(iw, g.wSize, 0, iw);
    if g.vSize > 1 {
      DivModUnique(iv, 2 * (g.vSize - 1), 0, iv);
    }
  }

  /** Every circuit of u turns v over, wherever it starts. */
  lemma WrapTurns(g: Grid, iu: int, iv: int, iw: int, region: string, k: int)
    requires g.Valid()
    ensures var a := g.Wrap(iu, iv, iw, region);
            g.Wrap(iu + k * g.uSize, iv, iw, region) == if k % 2 == 0 then a else Mirrored(g.vSize, a)
  {
    var q, r, n := iu / g.uSize, iu % g.uSize, g.vSize;
    assert iu + k * g.uSize == (q + k) * g.uSize + r;
    DivModUnique(iu + k * g.uSize, g.uSize, q + k, r);
    var y := Flip(q, iv, n);
    assert Flip(q + k, iv, n) == if k % 2 == 0 then y else n - 1 - y;
    ReflectAround(y, n);
  }

  /** The fold is symmetric about the middle of the axis. */
  lemma ReflectAround(x: int, size: int)
    requires size > 0
    ensures ReflectAxis(size - 1 - x, size) == size - 1 - ReflectAxis(x, size)
  {
    if size > 1 {
      var p := 2 * (size - 1);
      var q, r := x / p, x % p;
      if r < size {
        assert size - 1 - x == (-q) * p + (size - 1 - r);
        DivModUnique(size - 1 - x, p, -q, size - 1 - r);
      } else {
        assert size - 1 - x == (-q - 1) * p + (p + size - 1 - r);
        DivModUnique(size - 1 - x, p, -q - 1, p + size - 1 - r);
      }
    }
  }

  /** The v axis is a mirror at either end: the end cells are not doubled. */
  lemma WrapMirrors(g: Grid, iu: int, iv: int, iw: int, region: string, k: int)
    requires g.Valid() && 0 <= iu < g.uSize
    ensures g.Wrap(iu, -iv, iw, region) == g.Wrap(iu, iv, iw, region)
    ensures g.Wrap(iu, 2 * (g.vSize - 1) - iv, iw, region) == g.Wrap(iu, iv, iw, region)
    ensures g.Wrap(iu, iv + k * (2 * (g.vSize - 1)), iw, region) == g.Wrap(iu, iv, iw, region)
    ensures g.vSize == 1 ==> g.Wrap(iu, iv, iw, region) == g.Wrap(iu, 0, iw, region)
  {
    DivModUnique(iu, g.uSize, 0, iu);
    if g.vSize > 1 {
      ReflectEven(iv, g.vSize);
      ReflectPeriodic(-iv, 1, g.vSize);
      ReflectPeriodic(iv, k, g.vSize);
    }
  }

  lemma WrapCycles(g: Grid, iu: int, iv: int, iw: int, region: string, k: int)
    requires g.Valid()
    ensures g.Wrap(iu, iv, iw + k * g.wSize, region) == g.Wrap(iu, iv, iw, region)
  {
    assert iw + k * g.wSize == (iw / g.wSize + k) * g.wSize + iw % g.wSize;
    DivModUnique(iw + k * g.wSize, g.wSize, iw / g.wSize + k, iw % g.wSize);
  }

  type Folding = (int, int, int) -> Address

  // The properties above, of any folding of the integer lattice.

  ghost predicate KeepsCells(g: Grid, region: string, f: Folding) {
    forall u, v, w :: 0 <= u < g.uSize && 0 <= v < g.vSize && 0 <= w < g.wSize ==>
      f(u, v, w) == Address(u, v, w, region)
  }

  ghost predicate Turns(g: Grid, f: Folding, u: int, v: int, w: int, k: int) {
    f(u + k * g.uSize, v, w) == if k % 2 == 0 then f(u, v, w) else Mirrored(g.vSize, f(u, v, w))
  }

  ghost predicate Cycles(g: Grid, f: Folding, u: int, v: int, w: int, k: int) {
    f(u, v, w + k * g.wSize) == f(u, v, w)
  }

  ghost predicate Mirrors(g: Grid, f: Folding, u: int, v: int, w: int, k: int) {
    && f(u, -v, w) == f(u, v, w) && f(u, v + k * (2 * (g.vSize - 1)), w) == f(u, v, w)
    && (g.vSize == 1 ==> f(u, v, w) == f(u, 0, w))
  }

  ghost predicate FoldsLikeAStrip(g: Grid, region: string, f: Folding) {
    && KeepsCells(g, region, f)
    && (forall u, v, w, k :: Turns(g, f, u, v, w, k)) && (forall u, v, w, k :: Cycles(g, f, u, v, w, k))
    && (forall u, v, w, k :: 0 <= u < g.uSize ==> Mirrors(g, f, u, v, w, k))
  }

  /** They leave no choice: wrapping is the only such folding. */
  lemma WrapIsTheFolding(g: Grid, region: string, f: Folding, iu: int, iv: int, iw: int)
    requires g.Valid() && FoldsLikeAStrip(g, region, f)
    ensures f(iu, iv, iw) == g.Wrap(iu, iv, iw, region)
  {
    var u, w := iu % g.uSize, iw % g.wSize;
    FoldedBack(g, region, f, u, iu / g.uSize, iv, w, iw / g.wSize);
    assert iu == u + (iu / g.uSize) * g.uSize && iw == w + (iw / g.wSize) * g.wSize;
  }

  /** Circuits of u and w are taken back. */
  lemma FoldedBack(g: Grid, region: string, f: Folding, u: int, q: int, iv: int, w: int, s: int)
    requires g.Valid() && FoldsLikeAStrip(g, region, f) && 0 <= u < g.uSize && 0 <= w < g.wSize
    ensures f(u + q * g.uSize, iv, w + s * g.wSize) == g.Wrap(u + q * g.uSize, iv, w + s * g.wSize, region)
  {
    WrapTurns(g, u, iv, w + s * g.wSize, region, q);
    WrapCycles(g, u, iv, w, region, s);
    assert Turns(g, f, u, iv, w + s * g.wSize, q) && Cycles(g, f, u, iv, w, s);
    FoldedColumn(g, region, f, u, iv, w);
  }

  lemma FoldedColumn(g: Grid, region: string, f: Folding, u: int, v: int, w: int)
    requires g.Valid() && KeepsCells(g, region, f) && 0 <= u < g.uSize && 0 <= w < g.wSize
    requires forall v', k :: Mirrors(g, f, u, v', w, k)
    ensures f(u, v, w) == g.Wrap(u, v, w, region)
  {
    if g.vSize == 1 {
      assert Mirrors(g, f, u, v, w, 0);
      WrapMirrors(g, u, v, w, region, 0);
      WrapInside(g, u, 0, w, region);
    } else {
      var p := 2 * (g.vSize - 1);
      var q, r := v / p, v % p;
      assert v == r + q * p;
      assert Mirrors(g, f, u, r, w, q);
      WrapMirrors(g, u, r, w, region, q);
      FoldedPeriod(g, region, f, u, r, w);
    }
  }

  lemma FoldedPeriod(g: Grid, region: string, f: Folding, u: int, r: int, w: int)
    requires g.Valid() && g.vSize > 1 && KeepsCells(g, region, f) && 0 <= u < g.uSize && 0 <= w < g.wSize
    requires 0 <= r < 2 * (g.vSize - 1) && forall v', k :: Mirrors(g, f, u, v', w, k)
    ensures f(u, r, w) == g.Wrap(u, r, w, region)
  {
    if r < g.vSize {
      WrapInside(g, u, r, w, region);
    } else {
      var p := 2 * (g.vSize - 1);
      WrapMirrors(g, u, r, w, region, 0);
      WrapInside(g, u, p - r, w, region);
      assert Mirrors(g, f, u, r, w, 0) && Mirrors(g, f, u, -r, w, 1);
      assert -r + 1 * p == p - r;
    }
  }

  /** A circuit of u mirrors v; only two circuits are the identity, except on the middle row. */
  lemma CircuitMirrors(g: Grid, a: Address, k: int)
    requires g.Valid() && g.InRange(a)
    ensures k % 2 == 0 ==> g.Shift(a, k * g.uSize, 0, 0) == a
    ensures k % 2 != 0 ==> g.Shift(a, k * g.uSize, 0, 0) == Address(a.iu, g.vSize - 1 - a.iv, a.iw, a.region)
    ensures g.Shift(a, k * g.uSize, 0, 0) == a <==> k % 2 == 0 || 2 * a.iv == g.vSize - 1
  {
    WrapInside(g, a.iu, a.iv, a.iw, a.region);
    WrapTurns(g, a.iu, a.iv, a.iw, a.region, k);
  }

  /** Inside the grid an offset is added to the coordinates. */
  lemma ShiftInside(g: Grid, a: Address, du: int, dv: int, dw: int)
    requires g.Valid()
    requires 0 <= a.iu + du < g.uSize && 0 <= a.iv + dv < g.vSize && 0 <= a.iw + dw < g.wSize
    ensures g.Shift(a, du, dv, dw) == Address(a.iu + du, a.iv + dv, a.iw + dw, a.region)
  {
    WrapInside(g, a.iu + du, a.iv + dv, a.iw + dw, a.region);
  }

  /** At depth one there are the cell itself and one step either way on one axis; deeper neighbourhoods are unions of
      these. */
  lemma DepthOne(g: Grid, a: Address, b: Address)
    requires g.Valid() && g.InRange(a)
    ensures g.Near(a, b, 1) <==>
              || b == a || b == g.Shift(a, 1, 0, 0) || b == g.Shift(a, -1, 0, 0) || b == g.Shift(a, 0, 1, 0)
              || b == g.Shift(a, 0, -1, 0) || b == g.Shift(a, 0, 0, 1) || b == g.Shift(a, 0, 0, -1)
  {
    ShiftInside(g, a, 0, 0, 0);
    assert Norm1(0, 0, 0) <= 1 && Norm1(1, 0, 0) <= 1 && Norm1(-1, 0, 0) <= 1;
    assert Norm1(0, 1, 0) <= 1 && Norm1(0, -1, 0) <= 1 && Norm1(0, 0, 1) <= 1 && Norm1(0, 0, -1) <= 1;
  }

  /** Across the u edge: the right neighbour of a cell in the last column is in the first column, mirrored. */
  lemma AcrossTheEdge(g: Grid, a: Address)
    requires g.Valid() && g.InRange(a) && a.iu == g.uSize - 1
    ensures g.Shift(a, 1, 0, 0) == Address(0, g.vSize - 1 - a.iv, a.iw, a.region)
  {
    WrapInside(g, 0, a.iv, a.iw, a.region);
    WrapTurns(g, 0, a.iv, a.iw, a.region, 1);
  }

  lemma WrapFixesInRange(g: Grid, a: Address)
    requires g.Valid() && g.InRange(a)
    ensures g.Shift(a, 0, 0, 0) == a
    ensures Orientation(g, a.iu, a.iv) == 1
  {
    WrapInside(g, a.iu, a.iv, a.iw, a.region);
    DivModUnique(a.iu, g.uSize, 0, a.iu);
    if g.vSize > 1 {
      DivModUnique(a.iv, 2 * (g.vSize - 1), 0, a.iv);
    }
  }

  /** Any offset from `a` can be taken back by an offset of the same size. */
  lemma ShiftBack(g: Grid, a: Address, du: int, dv: int, dw: int) returns (ev: int)
    requires g.Valid() && g.InRange(a)
    ensures Norm1(-du, ev, -dw) == Norm1(du, dv, dw)
    ensures g.Shift(g.Shift(a, du, dv, dw), -du, ev, -dw) == a
  {
    var s := Orientation(g, a.iu + du, a.iv + dv);
    ev := if s == 1 then -dv else dv;
    WrapShift(g, a.iu + du, a.iv + dv, a.iw + dw, a.region, -du, ev, -dw);
    assert s * ev == -dv;
    WrapFixesInRange(g, a);
  }

  /** Neighbourhood is symmetric. */
  lemma NearSymmetric(g: Grid, a: Address, b: Address, d: int)
    requires g.Valid() && g.InRange(a) && g.InRange(b)
    ensures g.Near(a, b, d) <==> g.Near(b, a, d)
  {
    if g.Near(a, b, d) { NearReverses(g, a, b, d); }
    if g.Near(b, a, d) { NearReverses(g, b, a, d); }
  }

  lemma NearReverses(g: Grid, a: Address, b: Address, d: int)
    requires g.Valid() && g.InRange(a) && g.Near(a, b, d)
    ensures g.Near(b, a, d)
  {
    var du, dv, dw :| Norm1(du, dv, dw) <= d && b == g.Shift(a, du, dv, dw);
    var ev := ShiftBack(g, a, du, dv, dw);
  }

  lemma NearCompose(g: Grid, a: Address, b: Address, c: Address, m: int, n: int)
    requires g.Valid() && g.Near(a, b, m) && g.Near(b, c, n)
    ensures g.Near(a, c, m + n)
  {
    var du, dv, dw :| Norm1(du, dv, dw) <= m && b == g.Shift(a, du, dv, dw);
    var eu, ev, ew :| Norm1(eu, ev, ew) <= n && c == g.Shift(b, eu, ev, ew);
    var u, v, w := ComposeOffsets(g, a, du, dv, dw, eu, ev, ew);
  }

  lemma ShiftTwice(g: Grid, a: Address, du: int, dv: int, dw: int, eu: int, ev: int, ew: int) returns (v: int)
    requires g.Valid()
    ensures g.Shift(g.Shift(a, du, dv, dw), eu, ev, ew) == g.Shift(a, du + eu, v, dw + ew)
    ensures v == dv + ev || v == dv - ev
  {
    var s := Orientation(g, a.iu + du, a.iv + dv);
    WrapShift(g, a.iu + du, a.iv + dv, a.iw + dw, a.region, eu, ev, ew);
    v := if s == 1 then dv + ev else dv - ev;
    assert a.iv + dv + s * ev == a.iv + v;
    assert a.iu + du + eu == a.iu + (du + eu) && a.iw + dw + ew == a.iw + (dw + ew);
  }

  lemma ComposeOffsets(g: Grid, a: Address, du: int, dv: int, dw: int, eu: int, ev: int, ew: int)
    returns (u: int, v: int, w: int)
    requires g.Valid()
    ensures g.Shift(g.Shift(a, du, dv, dw), eu, ev, ew) == g.Shift(a, u, v, w)
    ensures Norm1(u, v, w) <= Norm1(du, dv, dw) + Norm1(eu, ev, ew)
  {
    v := ShiftTwice(g, a, du, dv, dw, eu, ev, ew);
    u, w := du + eu, dw + ew;
    Triangle(du, eu);
    Triangle(dv, ev);
    Triangle(dw, ew);
  }

  lemma Triangle(x: int, y: int)
    ensures Abs(x + y) <= Abs(x) + Abs(y) && Abs(x - y) <= Abs(x) + Abs(y)
  {
  }

  /** As much of `x` as a budget of `m` steps covers. */
  function Part(x: int, m: nat): int {
    if Abs(x) <= m then x else if x > 0 then m else 0 - m
  }

  lemma PartSplits(x: int, m: nat)
    ensures Abs(Part(x, m)) <= m && Abs(Part(x, m)) + Abs(x - Part(x, m)) == Abs(x)
    ensures Abs(Part(x, m)) == m || Part(x, m) == x
  {
  }

  /** Splits an offset of size at most m + n into one of size at most m and one of size at most n. */
  lemma SplitOffset(x: int, y: int, z: int, m: nat, n: nat) returns (p: int, q: int, s: int)
    requires Norm1(x, y, z) <= m + n
    ensures Norm1(p, q, s) <= m && Norm1(x - p, y - q, z - s) <= n
  {
    p := Part(x, m);
    PartSplits(x, m);
    var m' := m - Abs(p);
    q := Part(y, m');
    PartSplits(y, m');
    s := Part(z, m' - Abs(q));
    PartSplits(z, m' - Abs(q));
  }

  /** An offset can be completed from any point on the way, with the rest of v mirrored or not. */
  lemma ShiftRest(g: Grid, a: Address, x: int, y: int, z: int, p: int, q: int, s: int) returns (dv: int)
    requires g.Valid()
    ensures g.Shift(g.Shift(a, p, q, s), x - p, dv, z - s) == g.Shift(a, x, y, z)
    ensures dv == y - q || dv == q - y
  {
    var o := Orientation(g, a.iu + p, a.iv + q);
    dv := if o == 1 then y - q else q - y;
    WrapShift(g, a.iu + p, a.iv + q, a.iw + s, a.region, x - p, dv, z - s);
    assert a.iv + q + o * dv == a.iv + y && a.iu + p + (x - p) == a.iu + x && a.iw + s + (z - s) == a.iw + z;
  }

  lemma NearSplit(g: Grid, a: Address, c: Address, m: nat, n: nat) returns (b: Address)
    requires g.Valid() && g.Near(a, c, m + n)
    ensures g.InRange(b) && g.Near(a, b, m) && g.Near(b, c, n)
  {
    var x, y, z :| Norm1(x, y, z) <= m + n && c == g.Shift(a, x, y, z);
    var p, q, s := SplitOffset(x, y, z, m, n);
    b := g.Shift(a, p, q, s);
    var dv := ShiftRest(g, a, x, y, z, p, q, s);
    assert Norm1(x - p, dv, z - s) <= n;
  }

  /** The (m + n)-ball around `a` is the union of the n-balls around the members of its m-ball. */
  lemma BallComposition(g: Grid, a: Address, c: Address, m: nat, n: nat)
    requires g.Valid()
    ensures g.Near(a, c, m + n) <==> exists b :: g.Near(a, b, m) && g.Near(b, c, n)
  {
    if g.Near(a, c, m + n) {
      var b := NearSplit(g, a, c, m, n);
    }
    forall b | g.Near(a, b, m) && g.Near(b, c, n) ensures g.Near(a, c, m + n) {
      NearCompose(g, a, b, c, m, n);
    }
  }

  // ---- the neighbourhoods are the balls of a metric ----

  /** Least depth at which `b` is a neighbour of `a`, searched upward from `k`. */
  ghost function DistanceFrom(g: Grid, a: Address, b: Address, k: nat): (d: nat)
    requires g.Valid() && g.InRange(a) && g.InRange(b) && a.region == b.region
    requires k <= Norm1(b.iu - a.iu, b.iv - a.iv, b.iw - a.iw)
    ensures g.Near(a, b, d) && k <= d
    ensures forall e: nat :: k <= e < d ==> !g.Near(a, b, e)
    decreases Norm1(b.iu - a.iu, b.iv - a.iv, b.iw - a.iw) - k
  {
    var far := Norm1(b.iu - a.iu, b.iv - a.iv, b.iw - a.iw);
    WrapFixesInRange(g, b);
    assert b == g.Shift(a, b.iu - a.iu, b.iv - a.iv, b.iw - a.iw);
    if g.Near(a, b, k) then k else assert k != far; DistanceFrom(g, a, b, k + 1)
  }

  ghost function Distance(g: Grid, a: Address, b: Address): nat
    requires g.Valid() && g.InRange(a) && g.InRange(b) && a.region == b.region
  {
    DistanceFrom(g, a, b, 0)
  }

  lemma BallIsDistanceBall(g: Grid, a: Address, b: Address, d: nat)
    requires g.Valid() && g.InRange(a) && g.InRange(b) && a.region == b.region
    ensures g.Near(a, b, d) <==> Distance(g, a, b) <= d
  {
    var least := Distance(g, a, b);
    if least <= d {
      var du, dv, dw :| Norm1(du, dv, dw) <= least && b == g.Shift(a, du, dv, dw);
      assert Norm1(du, dv, dw) <= d;
    }
  }

  /** The distance whose balls `Neighbors` returns is a metric on each region of the grid. */
  lemma DistanceIsMetric(g: Grid, a: Address, b: Address, c: Address)
    requires g.Valid() && g.InRange(a) && g.InRange(b) && g.InRange(c)
    requires a.region == b.region == c.region
    ensures Distance(g, a, b) == 0 <==> a == b
    ensures Distance(g, a, b) == Distance(g, b, a)
    ensures Distance(g, a, c) <= Distance(g, a, b) + Distance(g, b, c)
  {
    WrapFixesInRange(g, a);
    assert g.Shift(a, 0, 0, 0) == a && Norm1(0, 0, 0) <= 0;
    BallIsDistanceBall(g, a, b, 0);
    if Distance(g, a, b) == 0 {
      var du, dv, dw :| Norm1(du, dv, dw) <= 0 && b == g.Shift(a, du, dv, dw);
      assert du == 0 && dv == 0 && dw == 0;
    }
    var d, e := Distance(g, a, b), Distance(g, b, a);
    NearSymmetric(g, a, b, d);
    NearSymmetric(g, a, b, e);
    BallIsDistanceBall(g, b, a, d);
    BallIsDistanceBall(g, a, b, e);
    NearCompose(g, a, b, c, d, Distance(g, b, c));
    BallIsDistanceBall(g, a, c, d + Distance(g, b, c));
  }

  // ---- bands of the v axis ----

  const REGION_STARTS: map<string, int> :=
    map["episodic" := 0, "semantic" := 2, "procedural" := 4, "decision" := 6,
        "error" := 8, "solution" := 10, "multimodal" := 12]

  function Min(x: int, y: int): int { if x <= y then x else y }

  function BandWidth(vSize: int): (width: int)
    requires vSize > 0
    ensures width >= 1
  {
    if vSize / 8 > 1 then vSize / 8 else 1
  }

  function RegionBand(region: string, byte: nat, vSize: int): (iv: int)
    requires vSize > 0
    ensures 0 <= iv < vSize
  {
    var start := Min(if region in REGION_STARTS then REGION_STARTS[region] else 0, vSize - 1);
    Min(vSize - 1, start + byte % BandWidth(vSize))
  }

  /** Distinct known regions never share a v cell, whatever the digest bytes. */
  ghost predicate BandsDisjoint(vSize: int)
    requires vSize > 0
  {
    forall r, s, x: nat, y: nat ::
      r in REGION_STARTS && s in REGION_STARTS && r != s && x < 256 && y < 256
      ==> RegionBand(r, x, vSize) != RegionBand(s, y, vSize)
  }

  /** The bands are disjoint exactly for grids of 12 to 23 v cells; the default of 16 is one of them. */
  lemma BandsDisjointIff(vSize: int)
    requires vSize > 0
    ensures BandsDisjoint(vSize) <==> 12 <= vSize < 24
  {
    if vSize < 12 || vSize >= 24 {
      BandsClash(vSize);
    } else {
      forall r, s, x: nat, y: nat | r in REGION_STARTS && s in REGION_STARTS && r != s && x < 256 && y < 256
        ensures RegionBand(r, x, vSize) != RegionBand(s, y, vSize)
      {
        BandsDiffer(r, s, x, y, vSize);
      }
    }
  }

  lemma BandsClash(vSize: int)
    requires 0 < vSize < 12 || vSize >= 24
    ensures "solution" in REGION_STARTS && "multimodal" in REGION_STARTS
    ensures "episodic" in REGION_STARTS && "semantic" in REGION_STARTS
    ensures RegionBand("solution", 0, vSize) == RegionBand("multimodal", 0, vSize)
            || RegionBand("episodic", 2, vSize) == RegionBand("semantic", 0, vSize)
  {
    if vSize < 12 {
      assert REGION_STARTS["solution"] == 10 && REGION_STARTS["multimodal"] == 12;
    } else {
      assert REGION_STARTS["episodic"] == 0 && REGION_STARTS["semantic"] == 2;
    }
  }

  lemma BandsDiffer(r: string, s: string, x: nat, y: nat, vSize: int)
    requires r in REGION_STARTS && s in REGION_STARTS && r != s && 12 <= vSize < 24
    ensures RegionBand(r, x, vSize) != RegionBand(s, y, vSize)
  {
    BandCells(r, x, vSize);
    BandCells(s, y, vSize);
    StartsDistinct(r, s);
  }

  lemma StartsDistinct(r: string, s: string)
    requires r in REGION_STARTS && s in REGION_STARTS && r != s
    ensures REGION_STARTS[r] <= REGION_STARTS[s] - 2 || REGION_STARTS[s] <= REGION_STARTS[r] - 2
  {
  }

  lemma BandCells(r: string, x: nat, vSize: int)
    requires r in REGION_STARTS && 12 <= vSize < 24
    ensures var start := Min(REGION_STARTS[r], vSize - 1);
            start <= RegionBand(r, x, vSize) <= start + (if vSize < 16 then 0 else 1)
    ensures 0 <= REGION_STARTS[r] <= 12
  {
    assert vSize / 8 == if vSize < 16 then 1 else 2;
  }

  /** The digest bytes of a region's memories reach exactly its band: an eighth of the axis, at least one cell, from the
      region's start on; beyond the axis it is cut off at the last cell. A region of another name has the first band. */
  lemma BandIsReached(region: string, vSize: int, iv: int)
    requires 0 < vSize <= 2048
    ensures var start := if region in REGION_STARTS then REGION_STARTS[region] else 0;
            var width := if vSize < 16 then 1 else vSize / 8;
            (exists byte: nat :: byte < 256 && RegionBand(region, byte, vSize) == iv)
            <==> Min(start, vSize - 1) <= iv <= Min(Min(start, vSize - 1) + width - 1, vSize - 1)
  {
    var start := Min(if region in REGION_STARTS then REGION_STARTS[region] else 0, vSize - 1);
    var width := BandWidth(vSize);
    assert width == if vSize < 16 then 1 else vSize / 8;
    assert width <= 256;
    if start <= iv <= Min(start + width - 1, vSize - 1) {
      var byte: nat := iv - start;
      DivModUnique(byte, width, 0, byte);
      assert RegionBand(region, byte, vSize) == iv;
    }
  }
}
