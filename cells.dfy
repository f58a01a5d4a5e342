/** Board coordinates and the fixed visiting orders of the grid's static iterators.
    A cell is an (x, y) pair; x runs over columns [0, width), y over rows [0, height). */
module Cells {

  type Cell = (int, int)

  /** The master value of a mine, and the display values of a hidden and a flagged cell. */
  const MINE := 100
  const HIDDEN := -1
  const FLAGGED := -2

  predicate InBounds(w: int, h: int, c: Cell) {
    0 <= c.0 < w && 0 <= c.1 < h
  }

  /** The 8-neighbourhood relation: distinct cells at Chebyshev distance 1. */
  predicate Adjacent(a: Cell, b: Cell) {
    a != b && -1 <= a.0 - b.0 <= 1 && -1 <= a.1 - b.1 <= 1
  }

  /** The 3x3 block centred on a cell, the centre included. */
  predicate InBlock(centre: Cell, c: Cell) {
    -1 <= c.0 - centre.0 <= 1 && -1 <= c.1 - centre.1 <= 1
  }

  /** Orthogonal neighbours. */
  predicate CrossAdjacent(a: Cell, b: Cell) {
    (a.0 == b.0 && (a.1 - b.1 == 1 || b.1 - a.1 == 1)) ||
    (a.1 == b.1 && (a.0 - b.0 == 1 || b.0 - a.0 == 1))
  }

  predicate Distinct<T(==)>(s: seq<T>) {
    forall i, j :: 0 <= i < j < |s| ==> s[i] != s[j]
  }

  /** forEachNeighbor: i from x-1 to x+1 outside, j from y-1 to y+1 inside, centre skipped. */
  function Neighbors(x: int, y: int): (r: seq<Cell>)
    ensures |r| == 8 && Distinct(r)
    ensures forall c :: c in r <==> Adjacent((x, y), c)
  {
    [(x - 1, y - 1), (x - 1, y), (x - 1, y + 1),
     (x, y - 1), (x, y + 1),
     (x + 1, y - 1), (x + 1, y), (x + 1, y + 1)]
  }

  /** forEachInSquare: the same order as Neighbors, centre included. */
  function Square(x: int, y: int): (r: seq<Cell>)
    ensures |r| == 9 && Distinct(r)
    ensures forall c :: c in r <==> InBlock((x, y), c)
  {
    [(x - 1, y - 1), (x - 1, y), (x - 1, y + 1),
     (x, y - 1), (x, y), (x, y + 1),
     (x + 1, y - 1), (x + 1, y), (x + 1, y + 1)]
  }

  /** forEachCrossNeighbor: right, down, left, up. */
  function Cross(x: int, y: int): (r: seq<Cell>)
    ensures |r| == 4 && Distinct(r)
    ensures forall c :: c in r <==> CrossAdjacent((x, y), c)
  {
    [(x + 1, y), (x, y - 1), (x - 1, y), (x, y + 1)]
  }

  /** The orthogonal neighbours in the order the nested loops of isValidConfiguration meet them. */
  function CheckOrder(x: int, y: int): (r: seq<Cell>)
    ensures |r| == 4 && Distinct(r)
    ensures forall c :: c in r <==> CrossAdjacent((x, y), c)
  {
    [(x - 1, y), (x, y - 1), (x, y + 1), (x + 1, y)]
  }

  lemma AdjacentSymmetric(a: Cell, b: Cell)
    ensures Adjacent(a, b) <==> Adjacent(b, a)
    ensures (a in Neighbors(b.0, b.1)) <==> (b in Neighbors(a.0, a.1))
  {
  }

  /** One column of forWholeGrid's inner loop: (x, 0), ..., (x, h - 1). */
  function Column(x: int, h: nat): (r: seq<Cell>)
    ensures |r| == h
    ensures forall j :: 0 <= j < h ==> r[j] == (x, j)
  {
    if h == 0 then [] else Column(x, h - 1) + [(x, h - 1)]
  }

  /** forWholeGrid: x in the outer loop, y in the inner one. */
  function WholeGrid(w: nat, h: nat): (r: seq<Cell>)
    ensures |r| == w * h
  {
    if w == 0 then [] else
      assert (w - 1) * h + h == w * h;
      WholeGrid(w - 1, h) + Column(w - 1, h)
  }

  /** Every in-bounds cell is visited by forWholeGrid exactly once, and nothing else is. */
  lemma {:induction false} WholeGridExact(w: nat, h: nat)
    ensures Distinct(WholeGrid(w, h))
    ensures forall c :: c in WholeGrid(w, h) <==> InBounds(w, h, c)
  {
    if w > 0 {
      WholeGridExact(w - 1, h);
      var a, b := WholeGrid(w - 1, h), Column(w - 1, h);
      assert WholeGrid(w, h) == a + b;
      forall i, j | 0 <= i < j < |a + b| ensures (a + b)[i] != (a + b)[j] {
        if j < |a| {
        } else if i >= |a| {
          assert (a + b)[i] == b[i - |a|] && (a + b)[j] == b[j - |a|];
        } else {
          assert (a + b)[i] in a;
          assert (a + b)[j] == b[j - |a|];
        }
      }
      forall c ensures c in a + b <==> InBounds(w, h, c) {
        if InBounds(w, h, c) && c.0 == w - 1 {
          assert b[c.1] == c;
        }
      }
    }
  }

  /** a comes before b in the scan order of the whole grid, column by column. */
  predicate ScanBefore(a: Cell, b: Cell) {
    a.0 < b.0 || (a.0 == b.0 && a.1 < b.1)
  }

  /** The members of a sequence. */
  function Elems<T>(s: seq<T>): set<T> {
    set x | x in s
  }

  function AllCells(w: nat, h: nat): set<Cell> {
    set x, y | 0 <= x < w && 0 <= y < h :: (x, y)
  }

  /** A sequence without repetitions has as many elements as its set. */
  lemma {:induction false} DistinctCard<T>(s: seq<T>)
    requires Distinct(s)
    ensures |set x | x in s| == |s|
  {
    if s != [] {
      var t := s[..|s| - 1];
      var last := s[|s| - 1];
      DistinctCard(t);
      assert (set x | x in s) == (set x | x in t) + {last};
      assert last !in (set x | x in t);
    }
  }

  /** The board has width * height cells. */
  lemma CellsCard(w: nat, h: nat)
    ensures |AllCells(w, h)| == w * h
  {
    WholeGridExact(w, h);
    var r := WholeGrid(w, h);
    assert (set x | x in r) == AllCells(w, h);
    DistinctCard(r);
  }

  /** The source stores cell (x, y) in row `height - y - 1`; the flip maps [0, h) onto itself
      and is its own inverse, so indexing the model by [x, y] loses nothing. */
  function StorageRow(h: int, y: int): (r: int)
    requires 0 <= y < h
    ensures 0 <= r < h
  {
    h - y - 1
  }

  /** The flip is its own inverse, hence a bijection of [0, h). */
  lemma StorageRowInvolution(h: int, y1: int, y2: int)
    requires 0 <= y1 < h && 0 <= y2 < h
    ensures StorageRow(h, StorageRow(h, y1)) == y1
    ensures StorageRow(h, y1) == StorageRow(h, y2) ==> y1 == y2
  {
  }

  /** The number of cells of l that lie in s. */
  function CountIn(l: seq<Cell>, s: set<Cell>): (r: nat)
    ensures r <= |l|
  {
    if l == [] then 0 else (if l[0] in s then 1 else 0) + CountIn(l[1..], s)
  }

  /** Adding one new cell to s raises the count of a repetition-free list by one exactly
      when the list contains that cell. */
  lemma {:induction false} CountInAdd(l: seq<Cell>, s: set<Cell>, p: Cell)
    requires Distinct(l) && p !in s
    ensures CountIn(l, s + {p}) == CountIn(l, s) + (if p in l then 1 else 0)
  {
    if l != [] {
      assert Distinct(l[1..]) by {
        forall i, j | 0 <= i < j < |l| - 1 ensures l[1..][i] != l[1..][j] {
          assert l[1..][i] == l[i + 1] && l[1..][j] == l[j + 1];
        }
      }
      CountInAdd(l[1..], s, p);
      assert p in l <==> p == l[0] || p in l[1..] by {
        assert l == [l[0]] + l[1..];
      }
      if p == l[0] {
        assert p !in l[1..] by {
          forall i | 0 <= i < |l| - 1 ensures l[1..][i] != p {
            assert l[1..][i] == l[i + 1];
          }
        }
      }
    }
  }

  /** Extending the list by one cell adds one exactly when that cell is in s. */
  lemma {:induction false} CountInSnoc(l: seq<Cell>, s: set<Cell>, k: nat)
    requires k < |l|
    ensures CountIn(l[..k + 1], s) == CountIn(l[..k], s) + (if l[k] in s then 1 else 0)
  {
    if k == 0 {
      assert l[..1] == [l[0]];
      assert l[..0] == [];
    } else {
      assert l[..k + 1][1..] == l[1..][..k];
      assert l[..k][1..] == l[1..][..k - 1];
      CountInSnoc(l[1..], s, k - 1);
    }
  }

  lemma {:induction false} CountInEmpty(l: seq<Cell>)
    ensures CountIn(l, {}) == 0
  {
    if l != [] {
      CountInEmpty(l[1..]);
    }
  }

  /** The count around a cell after a new mine p is placed. */
  lemma MineCount(l: seq<Cell>, s: set<Cell>, p: Cell, bump: bool)
    requires Distinct(l) && p !in s
    requires bump <==> p in l
    ensures CountIn(l, s + {p}) == CountIn(l, s) + (if bump then 1 else 0)
  {
    CountInAdd(l, s, p);
  }

  /** Only the members of s that occur in l matter to the count. */
  lemma {:induction false} CountInSame(l: seq<Cell>, s: set<Cell>, t: set<Cell>)
    requires forall c :: c in l ==> (c in s <==> c in t)
    ensures CountIn(l, s) == CountIn(l, t)
  {
    if l != [] {
      assert forall c :: c in l[1..] ==> c in l;
      CountInSame(l[1..], s, t);
    }
  }

  /** Over a list without repetitions, the count is the number of members of s it holds. */
  lemma {:induction false} CountInDistinct(l: seq<Cell>, s: set<Cell>)
    requires Distinct(l)
    ensures CountIn(l, s) == |s * Elems(l)|
  {
    if l != [] {
      var t := l[1..];
      DistinctTail(l);
      CountInDistinct(t, s);
      ShareHead(s, Elems(t), l[0]);
    }
  }

  /** Adding a new element h to e adds one to its intersection with s exactly when h is in s. */
  lemma ShareHead(s: set<Cell>, e: set<Cell>, h: Cell)
    requires h !in e
    ensures |s * (e + {h})| == |s * e| + (if h in s then 1 else 0)
  {
    if h in s {
      assert s * (e + {h}) == s * e + {h};
    } else {
      assert s * (e + {h}) == s * e;
    }
  }

  /** Dropping the head of a list without repetitions leaves one without repetitions that
      lacks the head. */
  lemma DistinctTail(l: seq<Cell>)
    requires Distinct(l) && l != []
    ensures Distinct(l[1..]) && l[0] !in Elems(l[1..]) && Elems(l) == Elems(l[1..]) + {l[0]}
  {
    var t := l[1..];
    forall i, j | 0 <= i < j < |t| ensures t[i] != t[j] {
      assert t[i] == l[i + 1] && t[j] == l[j + 1];
    }
    forall i | 0 <= i < |t| ensures t[i] != l[0] {
      assert t[i] == l[i + 1];
    }
    assert l == [l[0]] + t;
  }

  /** The whole-grid scan counts every member of s on the board once. */
  lemma GridCount(w: nat, h: nat, s: set<Cell>)
    requires forall c :: c in s ==> InBounds(w, h, c)
    ensures CountIn(WholeGrid(w, h), s) == |s|
  {
    WholeGridExact(w, h);
    CountInDistinct(WholeGrid(w, h), s);
    assert s * Elems(WholeGrid(w, h)) == s;
  }

  /** The whole-grid scan up to (x, y), exclusive: the first x columns, then the first y
      cells of column x. */
  function GridPrefix(x: nat, h: nat, y: nat): (r: seq<Cell>)
    requires y <= h
  {
    WholeGrid(x, h) + Column(x, h)[..y]
  }

  lemma GridPrefixEnds(x: nat, h: nat)
    ensures GridPrefix(x, h, 0) == WholeGrid(x, h)
    ensures GridPrefix(x, h, h) == WholeGrid(x + 1, h)
  {
    assert Column(x, h)[..h] == Column(x, h);
    assert Column(x, h)[..0] == [];
  }

  /** The scan one cell further. */
  lemma GridPrefixStep(x: nat, h: nat, y: nat)
    requires y < h
    ensures GridPrefix(x, h, y + 1) == GridPrefix(x, h, y) + [(x, y)]
  {
    assert Column(x, h)[..y + 1] == Column(x, h)[..y] + [(x, y)];
  }

  /** The members of l that lie in s, in the order of l. */
  /** One step of the scan of the whole grid: the prefix grows by (x, y), its count in s
      by one exactly when (x, y) is in s, and its selection from s by (x, y) then. */
  lemma GridScanStep(x: nat, h: nat, y: nat, s: set<Cell>)
    requires y < h
    ensures CountIn(GridPrefix(x, h, y + 1), s) == CountIn(GridPrefix(x, h, y), s) + (if (x, y) in s then 1 else 0)
    ensures Select(GridPrefix(x, h, y + 1), s) == Select(GridPrefix(x, h, y), s) + (if (x, y) in s then [(x, y)] else [])
  {
    var l := GridPrefix(x, h, y);
    GridPrefixStep(x, h, y);
    CountInSnoc(l + [(x, y)], s, |l|);
    assert (l + [(x, y)])[..|l| + 1] == l + [(x, y)] && (l + [(x, y)])[..|l|] == l;
    SelectSnoc(l, (x, y), s);
  }

  function Select(l: seq<Cell>, s: set<Cell>): (r: seq<Cell>)
    decreases |l|
  {
    if l == [] then []
    else Select(l[..|l| - 1], s) + (if l[|l| - 1] in s then [l[|l| - 1]] else [])
  }

  lemma SelectSnoc(l: seq<Cell>, c: Cell, s: set<Cell>)
    ensures Select(l + [c], s) == Select(l, s) + (if c in s then [c] else [])
  {
    assert (l + [c])[..|l|] == l;
  }

  /** Selecting keeps exactly the members of s, and keeps a list free of repetitions. */
  lemma {:induction false} SelectFacts(l: seq<Cell>, s: set<Cell>)
    ensures Elems(Select(l, s)) == Elems(l) * s
    ensures Distinct(l) ==> Distinct(Select(l, s))
    decreases |l|
  {
    if l != [] {
      var t, c := l[..|l| - 1], l[|l| - 1];
      SelectFacts(t, s);
      assert l == t + [c];
      assert Elems(l) == Elems(t) + {c};
      var r := Select(t, s);
      assert Select(l, s) == r + (if c in s then [c] else []);
      if c in s {
        assert Elems(r + [c]) == Elems(r) + {c};
      } else {
        assert r + [] == r;
      }
      if Distinct(l) {
        assert Distinct(t);
        assert c !in Elems(t) by {
          forall i | 0 <= i < |t| ensures t[i] != c {
            assert t[i] == l[i];
          }
        }
        if c in s {
          forall i, j | 0 <= i < j < |r + [c]| ensures (r + [c])[i] != (r + [c])[j] {
            if j == |r| {
              assert (r + [c])[i] == r[i] && r[i] in Elems(r);
            } else {
              assert (r + [c])[i] == r[i] && (r + [c])[j] == r[j];
            }
          }
        }
      }
    }
  }
}
