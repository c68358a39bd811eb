/**
 The letter grid of an assignment (generate.py:18-32): a height by width
 grid of optional characters in which every assigned word is written into
 the cells of its slot.
 */
module Letters {
  import opened Wrappers
  import opened Puzzle

  /** Rows of cells; None is a cell no word covers. */
  type Grid = seq<seq<Option<char>>>

  /** g has h rows of wd cells each. */
  predicate Shaped(g: Grid, h: nat, wd: nat) {
    |g| == h && forall i :: 0 <= i < h ==> |g[i]| == wd
  }

  /** Cell (i, j) is one of the first n cells of slot v. */
  predicate Hit(v: Variable, n: nat, i: nat, j: nat) {
    if v.direction == Down then j == v.j && v.i <= i < v.i + n
    else i == v.i && v.j <= j < v.j + n
  }

  /** The position of cell (i, j) along slot v. */
  function Offset(v: Variable, i: nat, j: nat): int {
    if v.direction == Down then i - v.i else j - v.j
  }

  /** Hit and Offset describe exactly the cells Row and Col enumerate. */
  lemma HitIsCell(v: Variable, n: nat, i: nat, j: nat)
    ensures Hit(v, n, i, j) <==> 0 <= Offset(v, i, j) < n && Row(v, Offset(v, i, j)) == i && Col(v, Offset(v, i, j)) == j
  {
  }

  lemma CellIsHit(v: Variable, n: nat, k: nat)
    requires k < n
    ensures Hit(v, n, Row(v, k), Col(v, k)) && Offset(v, Row(v, k), Col(v, k)) == k
  {
  }

  /** The first n cells of slot v lie inside an h by wd grid. */
  predicate InGrid(v: Variable, n: nat, h: nat, wd: nat) {
    n == 0 || (Row(v, n - 1) < h && Col(v, n - 1) < wd)
  }

  /** Some word of a on a slot of vs covers cell (i, j). */
  ghost predicate Covered(a: Assignment, vs: set<Variable>, i: nat, j: nat) {
    exists v :: v in vs && v in a && Hit(v, |a[v]|, i, j)
  }

  /** Some word of a on a slot of vs puts ch at cell (i, j). */
  ghost predicate Written(a: Assignment, vs: set<Variable>, i: nat, j: nat, ch: char) {
    exists v :: v in vs && v in a && Hit(v, |a[v]|, i, j) && a[v][Offset(v, i, j)] == ch
  }

  /** Any two words of a that cross a cell put the same character there. */
  ghost predicate Agrees(a: Assignment) {
    forall u, v, i: nat, j: nat :: u in a && v in a && Hit(u, |a[u]|, i, j) && Hit(v, |a[v]|, i, j) ==>
      a[u][Offset(u, i, j)] == a[v][Offset(v, i, j)]
  }

  /** Exactly the cells the slots of vs cover are filled, each with a character one of them writes. */
  ghost predicate Painted(g: Grid, a: Assignment, vs: set<Variable>, h: nat, wd: nat) {
    && Shaped(g, h, wd)
    && (forall i: nat, j: nat :: i < h && j < wd ==> (g[i][j].Some? <==> Covered(a, vs, i, j)))
    && (forall i: nat, j: nat :: i < h && j < wd && g[i][j].Some? ==> Written(a, vs, i, j, g[i][j].value))
  }

  function EmptyGrid(h: nat, wd: nat): (g: Grid)
    ensures Shaped(g, h, wd)
    ensures forall i, j :: 0 <= i < h && 0 <= j < wd ==> g[i][j].None?
  {
    seq(h, _ => seq(wd, _ => None))
  }

  /**
   Writes word w into the cells of slot v (the inner loop of
   generate.py:26-31); every other cell keeps its content.
   */
  method PaintWord(g: Grid, v: Variable, w: string, h: nat, wd: nat) returns (r: Grid)
    requires Shaped(g, h, wd)
    requires InGrid(v, |w|, h, wd)
    ensures Shaped(r, h, wd)
    ensures forall i: nat, j: nat :: i < h && j < wd ==>
      r[i][j] == (if Hit(v, |w|, i, j) then Some(w[Offset(v, i, j)]) else g[i][j])
  {
    r := g;
    var k := 0;
    while k < |w|
      invariant 0 <= k <= |w|
      invariant Shaped(r, h, wd)
      invariant forall i: nat, j: nat :: i < h && j < wd ==>
        r[i][j] == (if Hit(v, k, i, j) then Some(w[Offset(v, i, j)]) else g[i][j])
    {
      var i := Row(v, k);
      var j := Col(v, k);
      r := r[i := r[i][j := Some(w[k])]];
      k := k + 1;
    }
  }

  /** Painting one more slot keeps the grid in step with the painted slots. */
  lemma PaintStep(g: Grid, r: Grid, a: Assignment, vs: set<Variable>, v: Variable, h: nat, wd: nat)
    requires v in a
    requires Painted(g, a, vs, h, wd)
    requires Shaped(r, h, wd)
    requires forall i: nat, j: nat :: i < h && j < wd ==>
      r[i][j] == (if Hit(v, |a[v]|, i, j) then Some(a[v][Offset(v, i, j)]) else g[i][j])
    ensures Painted(r, a, vs + {v}, h, wd)
  {
    forall i: nat, j: nat | i < h && j < wd
      ensures r[i][j].Some? <==> Covered(a, vs + {v}, i, j)
      ensures r[i][j].Some? ==> Written(a, vs + {v}, i, j, r[i][j].value)
    {
      if Hit(v, |a[v]|, i, j) {
        assert Written(a, vs + {v}, i, j, r[i][j].value);
      } else {
        if Covered(a, vs + {v}, i, j) {
          var u :| u in vs + {v} && u in a && Hit(u, |a[u]|, i, j);
          assert Covered(a, vs, i, j);
        }
        if g[i][j].Some? {
          var u :| u in vs && u in a && Hit(u, |a[u]|, i, j) && a[u][Offset(u, i, j)] == g[i][j].value;
          assert u in vs + {v};
        }
      }
    }
  }

  /**
   The letter grid (generate.py:18-32): starting from an empty grid, every
   assigned word is written along its slot, one slot after the other in no
   particular order. A cell stays empty exactly when no word covers it, and
   a filled cell holds a character some covering word puts there; when the
   words agree on their shared cells, every word can be read back from its
   slot.
   */
  method LetterGrid(c: Crossword, a: Assignment) returns (g: Grid)
    requires forall v :: v in a ==> InGrid(v, |a[v]|, c.height, c.width)
    ensures Painted(g, a, a.Keys, c.height, c.width)
    ensures Agrees(a) ==>
      forall v, k: nat :: v in a && k < |a[v]| ==>
        Row(v, k) < c.height && Col(v, k) < c.width && g[Row(v, k)][Col(v, k)] == Some(a[v][k])
  {
    g := EmptyGrid(c.height, c.width);
    var todo := a.Keys;
    while todo != {}
      invariant todo <= a.Keys
      invariant Painted(g, a, a.Keys - todo, c.height, c.width)
      decreases todo
    {
      var v :| v in todo;
      var r := PaintWord(g, v, a[v], c.height, c.width);
      PaintStep(g, r, a, a.Keys - todo, v, c.height, c.width);
      assert a.Keys - todo + {v} == a.Keys - (todo - {v});
      g := r;
      todo := todo - {v};
    }
    if Agrees(a) {
      ReadBack(g, a, c.height, c.width);
    }
  }

  /** In a painted grid of agreeing words, each word sits in its own cells. */
  lemma ReadBack(g: Grid, a: Assignment, h: nat, wd: nat)
    requires Painted(g, a, a.Keys, h, wd)
    requires Agrees(a)
    requires forall v :: v in a ==> InGrid(v, |a[v]|, h, wd)
    ensures forall v, k: nat :: v in a && k < |a[v]| ==>
      Row(v, k) < h && Col(v, k) < wd && g[Row(v, k)][Col(v, k)] == Some(a[v][k])
  {
    forall v, k: nat | v in a && k < |a[v]|
      ensures Row(v, k) < h && Col(v, k) < wd && g[Row(v, k)][Col(v, k)] == Some(a[v][k])
    {
      var i, j := Row(v, k), Col(v, k);
      CellIsHit(v, |a[v]|, k);
      assert Covered(a, a.Keys, i, j);
      var u :| u in a && Hit(u, |a[u]|, i, j) && a[u][Offset(u, i, j)] == g[i][j].value;
    }
  }

  /**
   Two distinct slots through one cell have an overlap entry naming that
   cell (the fifth clause of WellFormed).
   */
  ghost predicate SharedCellsOverlap(c: Crossword) {
    forall x, y, kx: nat, ky: nat ::
      x in c.variables && y in c.variables && x != y && kx < x.length && ky < y.length &&
      Row(x, kx) == Row(y, ky) && Col(x, kx) == Col(y, ky) ==>
        OverlapOf(c, x, y) == Some((kx, ky))
  }

  lemma WellFormedShared(c: Crossword)
    requires WellFormed(c)
    ensures SharedCellsOverlap(c)
  {
  }

  /**
   In a well-formed puzzle a consistent assignment agrees on every shared
   cell, so its letter grid shows every word.
   */
  lemma ConsistentAgrees(c: Crossword, a: Assignment)
    requires SharedCellsOverlap(c)
    requires a.Keys <= c.variables
    requires IsConsistent(c, a)
    ensures Agrees(a)
  {
    forall u, v, i: nat, j: nat | u in a && v in a && Hit(u, |a[u]|, i, j) && Hit(v, |a[v]|, i, j)
      ensures a[u][Offset(u, i, j)] == a[v][Offset(v, i, j)]
    {
      if u != v {
        HitIsCell(u, |a[u]|, i, j);
        HitIsCell(v, |a[v]|, i, j);
        var ku: nat, kv: nat := Offset(u, i, j), Offset(v, i, j);
        assert |a[u]| == u.length && |a[v]| == v.length;
        assert OverlapOf(c, u, v) == Some((ku, kv));
        assert ArcSatisfied(c, a, (u, v));
      }
    }
  }
}
