/**
  The toroidal grid the Daisyworld lives on: Mesa's `MultiGrid(width, height, torus=True)`
  reduced to what the agents rely on — the set of cells, wrap-around of coordinates and the
  Moore neighbourhood of a cell without its centre.
 */
module Grid {

  /** A cell coordinate `(x, y)`. */
  datatype Pos = Pos(x: int, y: int)

  /** Grid dimensions. */
  datatype Dims = Dims(width: nat, height: nat)

  predicate InBounds(g: Dims, p: Pos) {
    0 <= p.x < g.width && 0 <= p.y < g.height
  }

  /** Every cell of the `width x height` grid. */
  function AllCells(g: Dims): set<Pos> {
    set x: int, y: int | 0 <= x < g.width && 0 <= y < g.height :: Pos(x, y)
  }

  /** The cells of column `x` with a row index below `h`. */
  function Column(x: int, h: nat): set<Pos> {
    set y: int | 0 <= y < h :: Pos(x, y)
  }

  lemma AllCellsInBounds(g: Dims, p: Pos)
    ensures p in AllCells(g) <==> InBounds(g, p)
  {
    if InBounds(g, p) {
      assert Pos(p.x, p.y) in AllCells(g);
    }
  }

  lemma AllCellsExactly(g: Dims)
    ensures forall p :: p in AllCells(g) <==> InBounds(g, p)
  {
    forall p ensures p in AllCells(g) <==> InBounds(g, p) {
      AllCellsInBounds(g, p);
    }
  }

  lemma {:induction false} ColumnCount(x: int, h: nat)
    ensures |Column(x, h)| == h
  {
    if h == 0 {
      assert Column(x, h) == {};
    } else {
      ColumnCount(x, h - 1);
      assert Column(x, h) == Column(x, h - 1) + {Pos(x, h - 1)};
    }
  }

  /** A grid of positive width is the grid one column narrower plus its last column. */
  lemma AllCellsSplit(g: Dims)
    requires g.width > 0
    ensures AllCells(g) == AllCells(Dims(g.width - 1, g.height)) + Column(g.width - 1, g.height)
    ensures AllCells(Dims(g.width - 1, g.height)) !! Column(g.width - 1, g.height)
  {
    var smaller := Dims(g.width - 1, g.height);
    forall p | p in AllCells(g)
      ensures p in AllCells(smaller) + Column(g.width - 1, g.height)
    {
      AllCellsInBounds(g, p);
      AllCellsInBounds(smaller, p);
      if p.x == g.width - 1 {
        assert p == Pos(g.width - 1, p.y);
      }
    }
    forall p | p in AllCells(smaller) + Column(g.width - 1, g.height)
      ensures p in AllCells(g)
    {
      AllCellsInBounds(g, p);
      AllCellsInBounds(smaller, p);
    }
  }

  /** The grid holds exactly `width * height` distinct cells. */
  lemma {:induction false} AllCellsCount(g: Dims)
    ensures |AllCells(g)| == g.width * g.height
    decreases g.width
  {
    if g.width == 0 {
      assert AllCells(g) == {};
    } else {
      var smaller := Dims(g.width - 1, g.height);
      var left := AllCells(smaller);
      var column := Column(g.width - 1, g.height);
      AllCellsCount(smaller);
      ColumnCount(g.width - 1, g.height);
      AllCellsSplit(g);
      assert |AllCells(g)| == |left| + |column|;
      MulSucc(g.width - 1, g.height);
    }
  }

  lemma MulSucc(a: nat, b: nat)
    ensures (a + 1) * b == a * b + b
  {
  }

  /** Mesa's `torus_adj` on one coordinate that is at most one step off the grid: adding or
      subtracting `n` once brings it back. `WrapIsPythonMod` shows this is Python's `v % n`. */
  function Wrap(v: int, n: nat): (r: int)
    requires n > 0 && -1 <= v <= n
    ensures 0 <= r < n
  {
    if v < 0 then v + n else if v >= n then v - n else v
  }

  /** The wrap agrees with Python's `v % n`, which for a positive `n` is Dafny's Euclidean `%`. */
  lemma WrapIsPythonMod(v: int, n: nat)
    requires n > 0 && -1 <= v <= n
    ensures Wrap(v, n) == v % n
  {
    if v < 0 {
      assert v == (-1) * n + (v + n);
    } else if v >= n {
      assert v == 1 * n + (v - n);
    } else {
      assert v == 0 * n + v;
    }
  }

  /** The cell at offset `(dx, dy)` from `p`, wrapped around the torus. */
  function Shift(g: Dims, p: Pos, dx: int, dy: int): (q: Pos)
    requires InBounds(g, p) && -1 <= dx <= 1 && -1 <= dy <= 1
    ensures InBounds(g, q)
  {
    Pos(Wrap(p.x + dx, g.width), Wrap(p.y + dy, g.height))
  }

  /** The eight non-zero offsets in the order Mesa enumerates them: `dy` outer, `dx` inner. */
  function RawNeighbors(g: Dims, p: Pos): (s: seq<Pos>)
    requires InBounds(g, p)
    ensures |s| == 8
  {
    [Shift(g, p, -1, -1), Shift(g, p, 0, -1), Shift(g, p, 1, -1),
     Shift(g, p, -1, 0),                      Shift(g, p, 1, 0),
     Shift(g, p, -1, 1),  Shift(g, p, 0, 1),  Shift(g, p, 1, 1)]
  }

  predicate Distinct<T(==)>(s: seq<T>) {
    forall i, j :: 0 <= i < j < |s| ==> s[i] != s[j]
  }

  /** Drops every repeated element, keeping first occurrences in their original order. */
  function Dedup<T(==,!new)>(s: seq<T>): (r: seq<T>)
    ensures forall a :: a in r <==> a in s
    ensures Distinct(r)
    ensures |r| <= |s|
    ensures Distinct(s) ==> r == s
  {
    if |s| == 0 then []
    else
      var init := s[..|s| - 1];
      var last := s[|s| - 1];
      assert s == init + [last];
      var r := Dedup(init);
      if last in r then r else r + [last]
  }

  /** `get_neighborhood(pos, moore=True, include_center=False)` on a torus: the distinct
      wrapped cells around `p`. */
  function Neighborhood(g: Dims, p: Pos): (s: seq<Pos>)
    requires InBounds(g, p)
    ensures 1 <= |s| <= 8
    ensures Distinct(s)
    ensures forall q :: q in s ==> InBounds(g, q)
  {
    Dedup(RawNeighbors(g, p))
  }

  /** Independent reference: `q` is one of the eight Moore offsets of `p`, wrapped. */
  ghost predicate IsMooreNeighbor(g: Dims, p: Pos, q: Pos)
    requires InBounds(g, p)
  {
    exists dx, dy :: -1 <= dx <= 1 && -1 <= dy <= 1 && (dx != 0 || dy != 0) && q == Shift(g, p, dx, dy)
  }

  lemma RawNeighborIsMoore(g: Dims, p: Pos, i: int)
    requires InBounds(g, p) && 0 <= i < 8
    ensures IsMooreNeighbor(g, p, RawNeighbors(g, p)[i])
  {
    var raw := RawNeighbors(g, p);
    if i == 0 { assert raw[i] == Shift(g, p, -1, -1); }
    else if i == 1 { assert raw[i] == Shift(g, p, 0, -1); }
    else if i == 2 { assert raw[i] == Shift(g, p, 1, -1); }
    else if i == 3 { assert raw[i] == Shift(g, p, -1, 0); }
    else if i == 4 { assert raw[i] == Shift(g, p, 1, 0); }
    else if i == 5 { assert raw[i] == Shift(g, p, -1, 1); }
    else if i == 6 { assert raw[i] == Shift(g, p, 0, 1); }
    else { assert raw[i] == Shift(g, p, 1, 1); }
  }

  /** The neighbourhood holds exactly the wrapped Moore neighbours, centre offset excluded. */
  lemma NeighborhoodMembership(g: Dims, p: Pos, q: Pos)
    requires InBounds(g, p)
    ensures q in Neighborhood(g, p) <==> IsMooreNeighbor(g, p, q)
  {
    var raw := RawNeighbors(g, p);
    if q in raw {
      var i :| 0 <= i < 8 && raw[i] == q;
      RawNeighborIsMoore(g, p, i);
    }
    if IsMooreNeighbor(g, p, q) {
      var dx, dy :| -1 <= dx <= 1 && -1 <= dy <= 1 && (dx != 0 || dy != 0) && q == Shift(g, p, dx, dy);
      assert q in raw;
    }
  }

  /** On a grid at least 3 cells wide and high every cell has exactly eight distinct neighbours. */
  lemma NeighborhoodHasEight(g: Dims, p: Pos)
    requires g.width >= 3 && g.height >= 3 && InBounds(g, p)
    ensures |Neighborhood(g, p)| == 8
    ensures Neighborhood(g, p) == RawNeighbors(g, p)
  {
    assert Distinct(RawNeighbors(g, p));
  }

  /** On a grid at least 2 cells wide and high a cell is never its own neighbour. */
  lemma CentreExcluded(g: Dims, p: Pos)
    requires g.width >= 2 && g.height >= 2 && InBounds(g, p)
    ensures p !in Neighborhood(g, p)
  {
  }

}
