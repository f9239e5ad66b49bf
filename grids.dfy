/** Raster maps as the matcher sees them: a rectangular grid of optional
    elevations stored in a circular buffer, and the index arithmetic of the
    grid_map library (modulo wrap, range check, buffer/logical conversion). */
module Grids {
  import opened Wrappers

  /** A (row, col) pair; used both for indices and for offsets. */
  datatype Index = Index(row: int, col: int)

  datatype Size = Size(rows: nat, cols: nat)

  predicate NonEmpty(size: Size) {
    size.rows > 0 && size.cols > 0
  }

  /** `checkIfIndexWithinRange`: both coordinates inside the grid. */
  predicate InRange(idx: Index, size: Size) {
    0 <= idx.row < size.rows && 0 <= idx.col < size.cols
  }

  lemma {:induction false} MulSign(k: int, n: int)
    requires n > 0
    ensures k >= 1 ==> k * n >= n
    ensures k <= -1 ==> k * n <= -n
    decreases if k < 0 then -k else k
  {
    if k > 1 {
      MulSign(k - 1, n);
    } else if k < -1 {
      MulSign(k + 1, n);
    }
  }

  /** Euclidean division is unique. */
  lemma ModUnique(a: int, n: int, q: int, r: int)
    requires n > 0 && 0 <= r < n && a == q * n + r
    ensures a % n == r && a / n == q
  {
    var q', r' := a / n, a % n;
    assert (q - q') * n == r' - r;
    MulSign(q - q', n);
  }

  /** The wrap of one coordinate into `[0, n)`, as `mapIndexWithinRange` does
      for a circular buffer of length n: the result is the unique
      representative of x modulo n. */
  function Wrap(x: int, n: int): (r: int)
    requires n > 0
    ensures 0 <= r < n
    ensures (x - r) % n == 0
    ensures 0 <= x < n ==> r == x
  {
    ModUnique(x - x % n, n, x / n, 0);
    x % n
  }

  /** Wrapping forgets whole turns of the buffer. */
  lemma {:induction false} WrapAddTurns(x: int, k: int, n: int)
    requires n > 0
    ensures Wrap(x + k * n, n) == Wrap(x, n)
  {
    ModUnique(x + k * n, n, x / n + k, x % n);
  }

  /** Wrapping a sum only depends on the wrapped summand. */
  lemma WrapOfWrapped(x: int, y: int, n: int)
    requires n > 0
    ensures Wrap(Wrap(x, n) + y, n) == Wrap(x + y, n)
  {
    ModUnique(x + y, n, x / n + (x % n + y) / n, (x % n + y) % n);
  }

  /** `mapIndexWithinRange`: wrap both coordinates. */
  function WrapIndex(idx: Index, size: Size): (r: Index)
    requires NonEmpty(size)
    ensures InRange(r, size)
    ensures InRange(idx, size) ==> r == idx
  {
    Index(Wrap(idx.row, size.rows), Wrap(idx.col, size.cols))
  }

  function Add(a: Index, b: Index): Index {
    Index(a.row + b.row, a.col + b.col)
  }

  function Sub(a: Index, b: Index): Index {
    Index(a.row - b.row, a.col - b.col)
  }

  /** `getIndexFromBufferIndex`: the logical (spatial) index of a storage
      slot when the buffer starts at `start`. */
  function FromBuffer(buffer: Index, size: Size, start: Index): (r: Index)
    requires NonEmpty(size)
    ensures InRange(r, size)
  {
    WrapIndex(Sub(buffer, start), size)
  }

  /** The inverse conversion: the storage slot of a logical index. */
  function ToBuffer(logical: Index, size: Size, start: Index): (r: Index)
    requires NonEmpty(size)
    ensures InRange(r, size)
  {
    WrapIndex(Add(logical, start), size)
  }

  /** The two conversions are inverse to each other on in-range indices. */
  lemma BufferRoundTrip(idx: Index, size: Size, start: Index)
    requires NonEmpty(size) && InRange(idx, size)
    ensures ToBuffer(FromBuffer(idx, size, start), size, start) == idx
    ensures FromBuffer(ToBuffer(idx, size, start), size, start) == idx
  {
    WrapRoundTrip(idx.row, start.row, size.rows);
    WrapRoundTrip(idx.col, start.col, size.cols);
    var f := FromBuffer(idx, size, start);
    assert f == Index(Wrap(idx.row - start.row, size.rows), Wrap(idx.col - start.col, size.cols));
    assert ToBuffer(f, size, start) == Index(Wrap(f.row + start.row, size.rows), Wrap(f.col + start.col, size.cols));
    var t := ToBuffer(idx, size, start);
    assert t == Index(Wrap(idx.row + start.row, size.rows), Wrap(idx.col + start.col, size.cols));
    assert FromBuffer(t, size, start) == Index(Wrap(t.row - start.row, size.rows), Wrap(t.col - start.col, size.cols));
  }

  /** One coordinate of the round trip: shifting by s and back, wrapping
      after each shift, returns an in-range coordinate. */
  lemma WrapRoundTrip(x: int, s: int, n: int)
    requires 0 <= x < n
    ensures Wrap(Wrap(x - s, n) + s, n) == x
    ensures Wrap(Wrap(x + s, n) - s, n) == x
  {
    WrapOfWrapped(x - s, s, n);
    assert (x - s) + s == x;
    WrapOfWrapped(x + s, -s, n);
    assert (x + s) + -s == x;
    assert Wrap(x, n) == x;
  }

  /** Hence distinct storage slots have distinct logical indices. */
  lemma FromBufferInjective(a: Index, b: Index, size: Size, start: Index)
    requires NonEmpty(size) && InRange(a, size) && InRange(b, size)
    requires FromBuffer(a, size, start) == FromBuffer(b, size, start)
    ensures a == b
  {
    BufferRoundTrip(a, size, start);
    BufferRoundTrip(b, size, start);
  }

  /** One layer of a raster map: `None` marks an undefined (NaN) cell.
      Cells are addressed by buffer index. */
  datatype Grid = Grid(size: Size, cells: seq<seq<Option<real>>>) {

    predicate Valid() {
      |cells| == size.rows && forall r | 0 <= r < |cells| :: |cells[r]| == size.cols
    }

    function At(idx: Index): Option<real>
      requires Valid() && InRange(idx, size)
    {
      cells[idx.row][idx.col]
    }
  }
}
