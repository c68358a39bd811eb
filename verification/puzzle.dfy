/**
 The crossword structure the solver works on. The class that derives slots
 and overlaps from a structure file is not part of this model: a puzzle is
 given abstractly by its slots ("variables"), the overlap relation between
 ordered pairs of slots, and the word list, under the well-formedness
 conditions that derivation guarantees.
 */
module Puzzle {
  import opened Wrappers

  datatype Direction = Across | Down

  /** One slot: start cell (i, j), direction and length. */
  datatype Variable = Variable(i: nat, j: nat, direction: Direction, length: nat)

  /** An ordered pair of slots: the arc from the first to the second. */
  type Arc = (Variable, Variable)

  datatype Crossword = Crossword(
    height: nat,
    width: nat,
    variables: set<Variable>,
    overlaps: map<Arc, Option<(nat, nat)>>,
    words: set<string>)

  /** Candidate words per slot. */
  type Domains = map<Variable, set<string>>

  /** A partial mapping from slots to words. */
  type Assignment = map<Variable, string>

  /** Row of the k-th cell of slot v. */
  function Row(v: Variable, k: nat): nat {
    if v.direction == Down then v.i + k else v.i
  }

  /** Column of the k-th cell of slot v. */
  function Col(v: Variable, k: nat): nat {
    if v.direction == Across then v.j + k else v.j
  }

  /** The overlap entry of arc (x, y), when there is one. */
  function OverlapOf(c: Crossword, x: Variable, y: Variable): Option<(nat, nat)> {
    if (x, y) in c.overlaps then c.overlaps[(x, y)] else None
  }

  /** The slots that share a cell with x. */
  function Neighbors(c: Crossword, x: Variable): (ns: set<Variable>)
    ensures forall y :: y in ns <==> y in c.variables && OverlapOf(c, x, y).Some?
  {
    set y | y in c.variables && OverlapOf(c, x, y).Some?
  }

  /** What the derivation of slots and overlaps from a grid guarantees. */
  ghost predicate WellFormed(c: Crossword) {
    // overlap entries relate two distinct slots of the puzzle
    && (forall a :: a in c.overlaps ==> a.0 in c.variables && a.1 in c.variables && a.0 != a.1)
    // overlap indices lie inside both slots
    && (forall a :: a in c.overlaps && c.overlaps[a].Some? ==>
          c.overlaps[a].value.0 < a.0.length && c.overlaps[a].value.1 < a.1.length)
    // the relation is symmetric in content
    && (forall x, y :: (x, y) in c.overlaps ==>
          (y, x) in c.overlaps && c.overlaps[(y, x)] == Swap(c.overlaps[(x, y)]))
    // every slot lies inside the grid
    && (forall v, k: nat :: v in c.variables && k < v.length ==> Row(v, k) < c.height && Col(v, k) < c.width)
    // two distinct slots through one cell have an overlap entry naming that cell
    && (forall x, y, kx: nat, ky: nat ::
          x in c.variables && y in c.variables && x != y && kx < x.length && ky < y.length &&
          Row(x, kx) == Row(y, ky) && Col(x, kx) == Col(y, ky) ==>
            OverlapOf(c, x, y) == Some((kx, ky)))
  }

  function Swap(o: Option<(nat, nat)>): Option<(nat, nat)> {
    match o
    case None => None
    case Some((m, n)) => Some((n, m))
  }

  lemma NeighborsSymmetric(c: Crossword, x: Variable, y: Variable)
    requires WellFormed(c)
    requires x in c.variables
    ensures y in Neighbors(c, x) <==> x in Neighbors(c, y)
  {
    if (x, y) in c.overlaps {
      assert c.overlaps[(y, x)] == Swap(c.overlaps[(x, y)]);
    }
    if (y, x) in c.overlaps {
      assert c.overlaps[(x, y)] == Swap(c.overlaps[(y, x)]);
    }
  }

  /** The neighbour relation is symmetric. */
  ghost predicate SymmetricNeighbors(c: Crossword) {
    forall x, y :: x in c.variables && y in Neighbors(c, x) ==> x in Neighbors(c, y)
  }

  lemma WellFormedSymmetric(c: Crossword)
    requires WellFormed(c)
    ensures SymmetricNeighbors(c)
  {
    forall x, y | x in c.variables && y in Neighbors(c, x)
      ensures x in Neighbors(c, y)
    {
      NeighborsSymmetric(c, x, y);
    }
  }

  /** Overlap indices lie inside both slots. */
  ghost predicate OverlapsInRange(c: Crossword) {
    forall a :: a in c.overlaps && c.overlaps[a].Some? ==>
      c.overlaps[a].value.0 < a.0.length && c.overlaps[a].value.1 < a.1.length
  }

  lemma WellFormedInRange(c: Crossword)
    requires WellFormed(c)
    ensures OverlapsInRange(c)
  {
  }

  /** Every word of every slot's domain fits that slot's length. */
  ghost predicate NodeConsistent(d: Domains) {
    forall v, w :: v in d && w in d[v] ==> |w| == v.length
  }

  /** The characters of wx and wy at the overlap position o agree. */
  predicate CharsAgree(wx: string, wy: string, o: (nat, nat)) {
    o.0 < |wx| && o.1 < |wy| && wx[o.0] == wy[o.1]
  }

  /** Every assigned word has its slot's length. */
  ghost predicate LengthsFit(a: Assignment) {
    forall v :: v in a ==> |a[v]| == v.length
  }

  /**
   The constraint of one overlap entry: if both ends are assigned and the
   entry names a cell, the words differ and agree on that cell.
   */
  ghost predicate ArcSatisfied(c: Crossword, a: Assignment, arc: Arc)
    requires arc in c.overlaps
  {
    arc.0 in a && arc.1 in a && c.overlaps[arc].Some? ==>
      a[arc.0] != a[arc.1] && CharsAgree(a[arc.0], a[arc.1], c.overlaps[arc].value)
  }

  /** What a consistent assignment is (generate.py:183-209). */
  ghost predicate IsConsistent(c: Crossword, a: Assignment) {
    && LengthsFit(a)
    && forall arc :: arc in c.overlaps ==> ArcSatisfied(c, a, arc)
  }

  /** s agrees with a on every slot a assigns. */
  ghost predicate Extends(s: Assignment, a: Assignment) {
    forall v :: v in a ==> v in s && s[v] == a[v]
  }

  /** Every word s assigns is in its slot's domain. */
  ghost predicate Within(s: Assignment, d: Domains) {
    forall v :: v in s ==> v in d && s[v] in d[v]
  }

  /** A complete, consistent assignment drawing on the domains d. */
  ghost predicate Solution(c: Crossword, d: Domains, s: Assignment) {
    s.Keys == c.variables && IsConsistent(c, s) && Within(s, d)
  }

  /** A complete, consistent assignment using words of the word list. */
  ghost predicate Solves(c: Crossword, s: Assignment) {
    s.Keys == c.variables && IsConsistent(c, s) && forall v :: v in s ==> s[v] in c.words
  }

  /** Dropping slots from a consistent assignment keeps it consistent. */
  lemma ConsistentDownward(c: Crossword, s: Assignment, a: Assignment)
    requires IsConsistent(c, s)
    requires Extends(s, a)
    ensures IsConsistent(c, a)
  {
    forall arc | arc in c.overlaps
      ensures ArcSatisfied(c, a, arc)
    {
      assert ArcSatisfied(c, s, arc);
    }
  }
}
