/**
 Domain initialisation, unary (length) pruning and the arc-consistency loop
 of the crossword generator (generate.py:8-16, 96-162).
 */
module Consistency {
  import opened Wrappers
  import opened Puzzle
  import opened Sets

  /** Every slot starts with the whole word list (generate.py:13-16). */
  function InitialDomains(c: Crossword): (d: Domains)
    ensures d.Keys == c.variables
    ensures forall v :: v in d ==> d[v] == c.words
  {
    map v | v in c.variables :: c.words
  }

  /** The words of ws that have length n. */
  ghost function OfLength(ws: set<string>, n: nat): set<string> {
    set w | w in ws && |w| == n
  }

  /**
   Removes from each domain every word whose length differs from its slot's
   length (generate.py:96-107). Running it on its own output changes nothing.
   */
  method EnforceNodeConsistency(d: Domains) returns (r: Domains)
    ensures r.Keys == d.Keys
    // keeps exactly the words of the right length
    ensures forall v :: v in r ==> r[v] <= d[v]
    ensures NodeConsistent(r)
    ensures forall v, w :: v in r && w in d[v] && |w| == v.length ==> w in r[v]
    ensures NodeConsistent(d) ==> r == d
  {
    r := d;
    var todo := d.Keys;
    while todo != {}
      invariant todo <= d.Keys
      invariant r.Keys == d.Keys
      invariant forall u :: u in r ==> r[u] == (if u in todo then d[u] else OfLength(d[u], u.length))
      decreases todo
    {
      var v :| v in todo;
      todo := todo - {v};
      // iterate over a copy of the domain, removing the misfits
      var pending := r[v];
      while pending != {}
        invariant pending <= d[v]
        invariant r.Keys == d.Keys
        invariant forall u :: u in r && u != v ==> r[u] == (if u in todo then d[u] else OfLength(d[u], u.length))
        invariant r[v] == set w | w in d[v] && (w in pending || |w| == v.length)
        decreases pending
      {
        var w :| w in pending;
        if |w| != v.length {
          r := r[v := r[v] - {w}];
        }
        pending := pending - {w};
      }
    }
    if NodeConsistent(d) {
      forall u | u in d
        ensures r[u] == d[u]
      {
        assert OfLength(d[u], u.length) == d[u];
      }
    }
  }

  /**
   The revision of arc (x, y) as the code performs it (generate.py:109-127):
   a word of x's domain is dropped only when it is the sole member of y's
   domain; the overlap characters are never consulted. The docstring asks for
   the removal of every word of x without a matching word of y, which this
   does not do. The loop also removes from the set it iterates over, which
   Python rejects at run time; the model keeps the intended data effect.
   */
  function Revise(d: Domains, x: Variable, y: Variable): (r: (Domains, bool))
    requires x in d && y in d
    ensures r.0.Keys == d.Keys
    ensures forall v :: v in d && v != x ==> r.0[v] == d[v]
    ensures forall w :: w in r.0[x] <==> w in d[x] && !IsSole(d[y], w)
    ensures r.1 <==> r.0[x] != d[x]
  {
    var kept := set w | w in d[x] && !(w in d[y] && |d[y]| == 1);
    (d[x := kept], kept != d[x])
  }

  /** w is the only word of s. */
  predicate IsSole(s: set<string>, w: string) {
    w in s && |s| == 1
  }

  lemma SoleUnique(s: set<string>, u: string, w: string)
    requires IsSole(s, w) && u in s
    ensures u == w
  {
    if u != w {
      assert {u, w} <= s;
      SubsetSize({u, w}, s);
    }
  }

  /** Revising (x, y) would change nothing: no word of x is the sole word of y. */
  ghost predicate Stable(d: Domains, x: Variable, y: Variable)
    requires x in d && y in d
  {
    forall w :: w in d[x] ==> !IsSole(d[y], w)
  }

  /** Every neighbour arc outside the worklist is stable. */
  ghost predicate StableOutside(c: Crossword, d: Domains, arcs: set<Arc>)
    requires d.Keys == c.variables
  {
    forall x, y :: x in c.variables && y in Neighbors(c, x) && (x, y) !in arcs ==> Stable(d, x, y)
  }

  /**
   No neighbour arc can be revised any further: the fixed point the
   arc-consistency loop reaches with the revision as coded.
   */
  ghost predicate AllStable(c: Crossword, d: Domains)
    requires d.Keys == c.variables
  {
    forall x, y :: x in c.variables && y in Neighbors(c, x) ==> Stable(d, x, y)
  }

  /** Every arc of the worklist joins two neighbouring slots. */
  ghost predicate NeighborArcs(c: Crossword, arcs: set<Arc>) {
    forall a :: a in arcs ==> a.0 in c.variables && a.1 in Neighbors(c, a.0)
  }

  /** All (slot, word) entries of the domains; their number is the total domain size. */
  ghost function Entries(d: Domains): set<(Variable, string)> {
    set v, w | v in d && w in d[v] :: (v, w)
  }

  /** e only shrinks the domains of d. */
  ghost predicate Shrinks(e: Domains, d: Domains) {
    e.Keys == d.Keys && forall v :: v in e ==> e[v] <= d[v]
  }

  lemma EntriesShrink(e: Domains, d: Domains, x: Variable)
    requires Shrinks(e, d)
    requires x in d && e[x] != d[x]
    ensures Entries(e) < Entries(d)
    ensures |Entries(e)| < |Entries(d)|
  {
    var w :| w in d[x] && w !in e[x];
    assert (x, w) in Entries(d) && (x, w) !in Entries(e);
    SubsetSize(Entries(e), Entries(d));
  }

  lemma EntriesMonotone(e: Domains, d: Domains)
    requires Shrinks(e, d)
    ensures Entries(e) <= Entries(d)
    ensures |Entries(e)| <= |Entries(d)|
  {
    SubsetSize(Entries(e), Entries(d));
  }

  /**
   The initial worklist: every arc (x, y) with y a neighbour of x
   (generate.py:138-146).
   */
  method InitialArcs(c: Crossword, d: Domains) returns (arcs: set<Arc>)
    requires d.Keys == c.variables
    ensures forall x, y :: (x, y) in arcs <==> x in c.variables && y in Neighbors(c, x)
  {
    arcs := {};
    var todo := d.Keys;
    while todo != {}
      invariant todo <= c.variables
      invariant forall x, y :: (x, y) in arcs <==> x in c.variables - todo && y in Neighbors(c, x)
      decreases todo
    {
      var x :| x in todo;
      todo := todo - {x};
      var ns := Neighbors(c, x);
      var seen: set<Variable> := {};
      while ns != {}
        invariant ns + seen == Neighbors(c, x)
        invariant forall x', y :: (x', y) in arcs <==> (x' in c.variables - todo - {x} && y in Neighbors(c, x')) || (x' == x && y in seen)
        decreases ns
      {
        var y :| y in ns;
        arcs := arcs + {(x, y)};
        ns := ns - {y};
        seen := seen + {y};
      }
    }
  }

  /** Any solution drawing on d still draws on d after the revision of a neighbour arc. */
  lemma ReviseKeepsSolutions(c: Crossword, d: Domains, x: Variable, y: Variable, s: Assignment)
    requires d.Keys == c.variables
    requires x in c.variables && y in Neighbors(c, x)
    requires s.Keys == c.variables && IsConsistent(c, s) && Within(s, d)
    ensures Within(s, Revise(d, x, y).0)
  {
    var e := Revise(d, x, y).0;
    assert ArcSatisfied(c, s, (x, y));
    if IsSole(d[y], s[x]) {
      SoleUnique(d[y], s[y], s[x]);
    }
    assert s[x] in e[x];
  }

  /**
   After a revision of (x, y) that shrank x's domain, the only neighbour arcs
   that can have lost stability are the arcs (z, x) with z other than y.
   */
  lemma RevisionRestoresStable(c: Crossword, r: Domains, work: set<Arc>, x: Variable, y: Variable, queued: set<Arc>)
    requires SymmetricNeighbors(c)
    requires r.Keys == c.variables
    requires x in c.variables && y in c.variables
    requires StableOutside(c, r, work + {(x, y)})
    requires Revise(r, x, y).1 && Revise(r, x, y).0[x] != {}
    requires forall z :: z in Neighbors(c, x) && z != y ==> (z, x) in queued
    ensures StableOutside(c, Revise(r, x, y).0, work + queued)
  {
    var r' := Revise(r, x, y).0;
    forall a, b | a in c.variables && b in Neighbors(c, a) && (a, b) !in work + queued
      ensures Stable(r', a, b)
    {
      assert b in Neighbors(c, a) ==> a in Neighbors(c, b);
      if b == x && a == y {
        var gone :| gone in r[x] && IsSole(r[y], gone);
        forall w | w in r'[y]
          ensures !IsSole(r'[x], w)
        {
          SoleUnique(r[y], w, gone);
        }
      } else if a == x && (a, b) != (x, y) {
        assert Stable(r, a, b);
      } else if a != x && b != x {
        assert Stable(r, a, b);
      }
    }
  }

  lemma RequeuedAreNeighborArcs(c: Crossword, x: Variable, y: Variable, queued: set<Arc>)
    requires SymmetricNeighbors(c)
    requires x in c.variables
    requires queued == set z | z in Neighbors(c, x) && z != y :: (z, x)
    ensures NeighborArcs(c, queued)
  {
    forall z | z in Neighbors(c, x)
      ensures x in Neighbors(c, z)
    {
      assert z in Neighbors(c, x);
    }
  }

  /** What the arc-consistency loop keeps true of the domains r and the worklist. */
  ghost predicate LoopInv(c: Crossword, d: Domains, r: Domains, work: set<Arc>, stableAtStart: bool, sound: bool) {
    && r.Keys == c.variables
    && Shrinks(r, d)
    && (forall v :: v in r && r[v] != d[v] ==> r[v] != {})
    && (forall a :: a in work ==> a.0 in c.variables && a.1 in c.variables)
    && (stableAtStart ==> StableOutside(c, r, work))
    && (sound ==> NeighborArcs(c, work))
    && (sound ==> forall s :: Solution(c, d, s) ==> Within(s, r))
  }

  /** A productive revision that leaves x's domain non-empty keeps the loop invariant. */
  lemma RevisionStep(c: Crossword, d: Domains, r: Domains, work: set<Arc>, x: Variable, y: Variable,
                   stableAtStart: bool, sound: bool, queued: set<Arc>)
    requires SymmetricNeighbors(c)
    requires LoopInv(c, d, r, work, stableAtStart, sound)
    requires (x, y) in work
    requires Revise(r, x, y).1 && Revise(r, x, y).0[x] != {}
    requires queued == set z | z in Neighbors(c, x) && z != y :: (z, x)
    ensures LoopInv(c, d, Revise(r, x, y).0, work - {(x, y)} + queued, stableAtStart, sound)
  {
    StepShrinks(c, d, r, work, x, y, stableAtStart, sound, queued);
    StepStable(c, d, r, work, x, y, stableAtStart, sound, queued);
    StepSound(c, d, r, work, x, y, stableAtStart, sound, queued);
  }

  lemma StepShrinks(c: Crossword, d: Domains, r: Domains, work: set<Arc>, x: Variable, y: Variable,
                   stableAtStart: bool, sound: bool, queued: set<Arc>)
    requires SymmetricNeighbors(c)
    requires LoopInv(c, d, r, work, stableAtStart, sound)
    requires (x, y) in work
    requires Revise(r, x, y).1 && Revise(r, x, y).0[x] != {}
    requires queued == set z | z in Neighbors(c, x) && z != y :: (z, x)
    ensures Shrinks(Revise(r, x, y).0, d)
    ensures forall v :: v in Revise(r, x, y).0 && Revise(r, x, y).0[v] != d[v] ==> Revise(r, x, y).0[v] != {}
    ensures forall a :: a in work - {(x, y)} + queued ==> a.0 in c.variables && a.1 in c.variables
  {
  }

  lemma StepStable(c: Crossword, d: Domains, r: Domains, work: set<Arc>, x: Variable, y: Variable,
                   stableAtStart: bool, sound: bool, queued: set<Arc>)
    requires SymmetricNeighbors(c)
    requires LoopInv(c, d, r, work, stableAtStart, sound)
    requires (x, y) in work
    requires Revise(r, x, y).1 && Revise(r, x, y).0[x] != {}
    requires queued == set z | z in Neighbors(c, x) && z != y :: (z, x)
    ensures stableAtStart ==> StableOutside(c, Revise(r, x, y).0, work - {(x, y)} + queued)
  {
    if stableAtStart {
      assert work - {(x, y)} + {(x, y)} == work;
      RevisionRestoresStable(c, r, work - {(x, y)}, x, y, queued);
    }
  }

  lemma StepSound(c: Crossword, d: Domains, r: Domains, work: set<Arc>, x: Variable, y: Variable,
                   stableAtStart: bool, sound: bool, queued: set<Arc>)
    requires SymmetricNeighbors(c)
    requires LoopInv(c, d, r, work, stableAtStart, sound)
    requires (x, y) in work
    requires queued == set z | z in Neighbors(c, x) && z != y :: (z, x)
    ensures sound ==> NeighborArcs(c, work - {(x, y)} + queued)
    ensures sound ==> forall s :: Solution(c, d, s) ==> Within(s, Revise(r, x, y).0)
  {
    if sound {
      RequeuedAreNeighborArcs(c, x, y, queued);
      RevisionSound(c, d, r, x, y);
    }
  }

  lemma RevisionSound(c: Crossword, d: Domains, r: Domains, x: Variable, y: Variable)
    requires r.Keys == c.variables
    requires x in c.variables && y in Neighbors(c, x)
    requires forall s :: Solution(c, d, s) ==> Within(s, r)
    ensures forall s :: Solution(c, d, s) ==> Within(s, Revise(r, x, y).0)
  {
    forall s | Solution(c, d, s)
      ensures Within(s, Revise(r, x, y).0)
    {
      ReviseKeepsSolutions(c, r, x, y, s);
    }
  }

  lemma LoopInvInit(c: Crossword, d: Domains, work: set<Arc>, stableAtStart: bool, sound: bool)
    requires d.Keys == c.variables
    requires forall a :: a in work ==> a.0 in c.variables && a.1 in c.variables
    requires stableAtStart == StableOutside(c, d, work)
    requires sound == NeighborArcs(c, work)
    ensures LoopInv(c, d, d, work, stableAtStart, sound)
  {
  }

  /** A revision that changed nothing leaves the arc stable. */
  lemma IdleStep(c: Crossword, d: Domains, r: Domains, work: set<Arc>, x: Variable, y: Variable,
                 stableAtStart: bool, sound: bool)
    requires LoopInv(c, d, r, work, stableAtStart, sound)
    requires (x, y) in work
    requires !Revise(r, x, y).1
    ensures LoopInv(c, d, r, work - {(x, y)}, stableAtStart, sound)
  {
    assert Stable(r, x, y);
  }

  /**
   Arc consistency as the code performs it (generate.py:129-162). With
   `arcs == None` the worklist starts with every neighbour arc. Arcs are
   taken in an arbitrary order; after a revision that leaves x's domain
   non-empty, every arc (z, x) with z a neighbour of x other than y is queued
   (the source writes `arcs.add(z, x)`, which Python rejects; the model queues
   the pair). `shrinks` counts the revisions that removed a word.
   */
  method AC3(c: Crossword, d: Domains, arcs: Option<set<Arc>>) returns (ok: bool, r: Domains, shrinks: nat)
    requires SymmetricNeighbors(c)
    requires d.Keys == c.variables
    requires arcs.Some? ==> forall a :: a in arcs.value ==> a.0 in c.variables && a.1 in c.variables
    // only shrinks
    ensures Shrinks(r, d)
    // False exactly when a revision emptied a domain
    ensures !ok ==> exists v :: v in r && r[v] == {} && d[v] != {}
    ensures ok ==> forall v :: v in r && r[v] != d[v] ==> r[v] != {}
    // every revision that queued more arcs removed at least one word
    ensures shrinks + |Entries(r)| <= |Entries(d)|
    // on success no neighbour arc can be revised any further
    ensures ok && arcs.None? ==> AllStable(c, r)
    ensures ok && arcs.Some? && StableOutside(c, d, arcs.value) ==> AllStable(c, r)
    // pruning is sound: no solution is lost
    ensures arcs.None? || NeighborArcs(c, arcs.value) ==>
      forall s :: Solution(c, d, s) ==> Within(s, r)
  {
    var work: set<Arc>;
    if arcs.None? {
      work := InitialArcs(c, d);
      assert StableOutside(c, d, work);
    } else {
      work := arcs.value;
    }
    ghost var stableAtStart := StableOutside(c, d, work);
    ghost var sound := NeighborArcs(c, work);
    LoopInvInit(c, d, work, stableAtStart, sound);
    ok, r, shrinks := Propagate(c, d, work, stableAtStart, sound);
  }

  /** The worklist loop of the arc-consistency procedure (generate.py:148-162). */
  method Propagate(c: Crossword, d: Domains, work0: set<Arc>, ghost stableAtStart: bool, ghost sound: bool)
    returns (ok: bool, r: Domains, shrinks: nat)
    requires SymmetricNeighbors(c)
    requires LoopInv(c, d, d, work0, stableAtStart, sound)
    ensures shrinks + |Entries(r)| <= |Entries(d)|
    ensures Outcome(c, d, r, ok, stableAtStart, sound)
  {
    var work := work0;
    r := d;
    shrinks := 0;
    while work != {}
      invariant LoopInv(c, d, r, work, stableAtStart, sound)
      invariant shrinks + |Entries(r)| <= |Entries(d)|
      decreases Entries(r), work
    {
      var arc :| arc in work;
      var (x, y) := arc;
      var (r', revised) := Revise(r, x, y);
      if revised {
        EntriesShrink(r', r, x);
        EntriesMonotone(r, d);
        var queued := set z | z in Neighbors(c, x) && z != y :: (z, x);
        if r'[x] == {} {
          StepSound(c, d, r, work, x, y, stableAtStart, sound, queued);
          FailureOutcome(c, d, r, x, y, stableAtStart, sound);
          return false, r', shrinks + 1;
        }
        RevisionStep(c, d, r, work, x, y, stableAtStart, sound, queued);
        r, work, shrinks := r', work - {arc} + queued, shrinks + 1;
      } else {
        IdleStep(c, d, r, work, x, y, stableAtStart, sound);
        work := work - {arc};
      }
    }
    ok := true;
    SuccessOutcome(c, d, r, stableAtStart, sound);
  }

  /** What the worklist loop delivers, on failure and on success. */
  ghost predicate Outcome(c: Crossword, d: Domains, r: Domains, ok: bool, stableAtStart: bool, sound: bool) {
    && r.Keys == c.variables
    && Shrinks(r, d)
    && (!ok ==> exists v :: v in r && r[v] == {} && d[v] != {})
    && (ok ==> forall v :: v in r && r[v] != d[v] ==> r[v] != {})
    && (ok && stableAtStart ==> AllStable(c, r))
    && (sound ==> forall s :: Solution(c, d, s) ==> Within(s, r))
  }

  lemma FailureOutcome(c: Crossword, d: Domains, r: Domains, x: Variable, y: Variable, stableAtStart: bool, sound: bool)
    requires r.Keys == c.variables && x in r && y in r
    requires Shrinks(r, d) && Shrinks(Revise(r, x, y).0, d)
    requires Revise(r, x, y).1 && Revise(r, x, y).0[x] == {}
    requires sound ==> forall s :: Solution(c, d, s) ==> Within(s, Revise(r, x, y).0)
    ensures Outcome(c, d, Revise(r, x, y).0, false, stableAtStart, sound)
  {
    var w :| w in r[x];
    assert w in d[x];
  }

  lemma SuccessOutcome(c: Crossword, d: Domains, r: Domains, stableAtStart: bool, sound: bool)
    requires LoopInv(c, d, r, {}, stableAtStart, sound)
    ensures Outcome(c, d, r, true, stableAtStart, sound)
  {
    if stableAtStart {
      assert StableOutside(c, r, {});
    }
  }
}
