/**
 The backtracking search of the crossword generator: the consistency test
 of a partial assignment, the variable and value ordering heuristics, the
 recursive search and the top-level solve (generate.py:88-94, 166-292).
 */
module Search {
  import opened Wrappers
  import opened Sets
  import opened Puzzle
  import opened Consistency

  /** The source compares sizes only (generate.py:166-174). */
  function AssignmentComplete(c: Crossword, a: Assignment): bool {
    |a| == |c.variables|
  }

  /** For an assignment over the puzzle's slots, equal size means every slot is assigned. */
  lemma CompleteMeansAllAssigned(c: Crossword, a: Assignment)
    requires a.Keys <= c.variables
    ensures AssignmentComplete(c, a) <==> a.Keys == c.variables
  {
    SubsetSize(a.Keys, c.variables);
  }

  /**
   The consistency test (generate.py:176-209): every assigned word has its
   slot's length, and for every overlap entry whose two slots are both
   assigned, the words differ and agree on the shared cell. Only overlapping
   pairs are checked for distinct words.
   */
  method Consistent(c: Crossword, a: Assignment) returns (ok: bool)
    requires OverlapsInRange(c)
    ensures ok <==> IsConsistent(c, a)
  {
    var keys := a.Keys;
    while keys != {}
      invariant keys <= a.Keys
      invariant forall v :: v in a && v !in keys ==> |a[v]| == v.length
      decreases keys
    {
      var v :| v in keys;
      if v.length != |a[v]| {
        return false;
      }
      keys := keys - {v};
    }
    var pairs := c.overlaps.Keys;
    while pairs != {}
      invariant pairs <= c.overlaps.Keys
      invariant forall arc :: arc in c.overlaps && arc !in pairs ==> ArcSatisfied(c, a, arc)
      decreases pairs
    {
      var arc :| arc in pairs;
      pairs := pairs - {arc};
      var (x, y) := arc;
      var overlap := c.overlaps[arc];
      if x !in a || y !in a || overlap.None? {
        continue;
      }
      if a[x] == a[y] {
        return false;
      }
      if a[x][overlap.value.0] != a[y][overlap.value.1] {
        return false;
      }
    }
    return true;
  }

  /** Slot u is at least as good a pick as v: a smaller domain, then at least as many neighbours. */
  ghost predicate Prefer(c: Crossword, d: Domains, u: Variable, v: Variable)
    requires u in d && v in d
  {
    |d[u]| < |d[v]| || (|d[u]| == |d[v]| && |Neighbors(c, u)| >= |Neighbors(c, v)|)
  }

  /**
   Minimum-remaining-values choice with the degree heuristic as tie-break
   (generate.py:242-267); a remaining tie goes to whichever slot the
   iteration meets first.
   */
  method SelectUnassignedVariable(c: Crossword, d: Domains, a: Assignment) returns (r: Option<Variable>)
    ensures r.None? <==> d.Keys <= a.Keys
    ensures r.Some? ==> r.value in d && r.value !in a
    ensures r.Some? ==> forall v :: v in d && v !in a ==> Prefer(c, d, r.value, v)
  {
    r := None;
    var todo := d.Keys;
    while todo != {}
      invariant todo <= d.Keys
      invariant r.None? <==> d.Keys - todo <= a.Keys
      invariant r.Some? ==> r.value in d && r.value !in a
      invariant r.Some? ==> forall v :: v in d && v !in todo && v !in a ==> Prefer(c, d, r.value, v)
      decreases todo
    {
      var v :| v in todo;
      todo := todo - {v};
      if v !in a {
        if r.None? || |d[v]| < |d[r.value]| ||
           (|d[v]| == |d[r.value]| && |Neighbors(c, v)| > |Neighbors(c, r.value)|) {
          r := Some(v);
        }
      }
    }
  }

  /** Words of n's domain that disagree with value where var meets n (generate.py:224-228). */
  function Mismatches(c: Crossword, d: Domains, x: Variable, value: string, n: Variable): nat {
    if n in d && OverlapOf(c, x, n).Some? then
      |set y | y in d[n] && !CharsAgree(value, y, OverlapOf(c, x, n).value)|
    else 0
  }

  /** The extra point for a value still in an unassigned neighbour's domain (generate.py:231-234). */
  function SharedWord(d: Domains, a: Assignment, value: string, n: Variable): nat {
    if n in d && value in d[n] && n !in a then 1 else 0
  }

  /** What choosing value for x rules out at the neighbour n. */
  function NeighborCost(c: Crossword, d: Domains, a: Assignment, x: Variable, value: string, n: Variable): nat {
    Mismatches(c, d, x, value, n) + SharedWord(d, a, value, n)
  }

  ghost function Pick<T>(s: set<T>): (p: T)
    requires s != {}
    ensures p in s
  {
    var p :| p in s; p
  }

  /** The summed cost over the neighbours ns, in no particular order. */
  ghost function RuleOutOver(c: Crossword, d: Domains, a: Assignment, x: Variable, value: string, ns: set<Variable>): nat
    decreases ns
  {
    if ns == {} then 0
    else
      var n := Pick(ns);
      NeighborCost(c, d, a, x, value, n) + RuleOutOver(c, d, a, x, value, ns - {n})
  }

  /** The least-constraining-value key of value for slot x. */
  ghost function RuleOut(c: Crossword, d: Domains, a: Assignment, x: Variable, value: string): nat {
    RuleOutOver(c, d, a, x, value, Neighbors(c, x))
  }

  /** The sum does not depend on which neighbour is taken first. */
  lemma {:induction false} RuleOutRemove(c: Crossword, d: Domains, a: Assignment, x: Variable, value: string,
                                         ns: set<Variable>, n: Variable)
    requires n in ns
    ensures RuleOutOver(c, d, a, x, value, ns) ==
            NeighborCost(c, d, a, x, value, n) + RuleOutOver(c, d, a, x, value, ns - {n})
    decreases ns
  {
    var m := Pick(ns);
    if m != n {
      RuleOutRemove(c, d, a, x, value, ns - {m}, n);
      RuleOutRemove(c, d, a, x, value, ns - {n}, m);
      assert ns - {m} - {n} == ns - {n} - {m};
    }
  }

  /** Sums the neighbour costs of value (the inner loops of generate.py:222-234). */
  method CountRuledOut(c: Crossword, d: Domains, a: Assignment, x: Variable, value: string) returns (count: nat)
    ensures count == RuleOut(c, d, a, x, value)
  {
    count := 0;
    var ns := Neighbors(c, x);
    while ns != {}
      invariant ns <= Neighbors(c, x)
      invariant count + RuleOutOver(c, d, a, x, value, ns) == RuleOut(c, d, a, x, value)
      decreases ns
    {
      var n :| n in ns;
      RuleOutRemove(c, d, a, x, value, ns, n);
      var o := c.overlaps[(x, n)].value;
      if n in d {
        count := count + |set y | y in d[n] && !CharsAgree(value, y, o)|;
        if value in d[n] && n !in a {
          count := count + 1;
        }
      }
      ns := ns - {n};
    }
  }

  /**
   The domain of x ordered by ascending rule-out count (generate.py:212-240).
   Python sorts the scored dictionary stably, so equal counts come out in the
   domain's iteration order, which is arbitrary; here ties come out in any order.
   */
  method OrderDomainValues(c: Crossword, d: Domains, a: Assignment, x: Variable) returns (values: seq<string>)
    requires x in d
    ensures forall w :: w in values <==> w in d[x]
    ensures forall i, j :: 0 <= i < j < |values| ==> values[i] != values[j]
    ensures forall i, j :: 0 <= i < j < |values| ==> RuleOut(c, d, a, x, values[i]) <= RuleOut(c, d, a, x, values[j])
  {
    var score: map<string, int> := map[];
    var todo := d[x];
    while todo != {}
      invariant todo <= d[x]
      invariant score.Keys == d[x] - todo
      invariant forall w :: w in score ==> score[w] == RuleOut(c, d, a, x, w)
      decreases todo
    {
      var value :| value in todo;
      todo := todo - {value};
      var count := CountRuledOut(c, d, a, x, value);
      score := score[value := count];
    }
    values := [];
    var rest := d[x];
    while rest != {}
      invariant rest <= d[x]
      invariant forall w :: w in values <==> w in d[x] && w !in rest
      invariant forall i, j :: 0 <= i < j < |values| ==> values[i] != values[j]
      invariant forall i, j :: 0 <= i < j < |values| ==> score[values[i]] <= score[values[j]]
      invariant forall i, w :: 0 <= i < |values| && w in rest ==> score[values[i]] <= score[w]
      decreases rest
    {
      MinExists(rest, score);
      var w :| w in rest && forall u :: u in rest ==> score[w] <= score[u];
      values := values + [w];
      rest := rest - {w};
    }
  }

  /** No complete solution within d agrees with a on a's slots. */
  ghost predicate NoSolutionExtends(c: Crossword, d: Domains, a: Assignment) {
    forall s :: Solution(c, d, s) ==> !Extends(s, a)
  }

  /**
   What a search from a promises: on success a complete assignment that
   keeps a, takes every new word from its slot's domain, and is consistent
   whenever a is; on failure, that no solution extends a.
   */
  ghost predicate SearchOutcome(c: Crossword, d: Domains, a: Assignment, result: Option<Assignment>) {
    match result
    case Some(s) =>
      s.Keys == c.variables && Extends(s, a) &&
      (forall v :: v in s && v !in a ==> v in d && s[v] in d[v]) &&
      (IsConsistent(c, a) ==> IsConsistent(c, s))
    case None => NoSolutionExtends(c, d, a)
  }

  /**
   Recursive backtracking (generate.py:269-292). The source assigns into the
   caller's dictionary and deletes the entry again when the recursion fails,
   so on failure the caller sees its own assignment unchanged; the model
   passes the extended assignment by value instead.
   */
  method Backtrack(c: Crossword, d: Domains, a: Assignment) returns (result: Option<Assignment>)
    requires OverlapsInRange(c)
    requires d.Keys == c.variables
    requires a.Keys <= c.variables
    ensures SearchOutcome(c, d, a, result)
    decreases |c.variables - a.Keys|, 1, 0
  {
    CompleteMeansAllAssigned(c, a);
    if AssignmentComplete(c, a) {
      CompleteOutcome(c, d, a);
      return Some(a);
    }
    var choice := SelectUnassignedVariable(c, d, a);
    var x := choice.value;
    var values := OrderDomainValues(c, d, a, x);
    CandidatesFromDomain(c, d, a, x, values);
    result := TryValues(c, d, a, x, values);
  }

  /** Every solution extending a gives x one of the candidate words. */
  ghost predicate Covers(c: Crossword, d: Domains, a: Assignment, x: Variable, values: seq<string>) {
    forall s :: Solution(c, d, s) && Extends(s, a) && x in s ==> s[x] in values
  }

  /**
   The loop over the ordered values of x (generate.py:285-292), one value
   per call: try the first value and move on to the rest when it fails.
   */
  method TryValues(c: Crossword, d: Domains, a: Assignment, x: Variable, values: seq<string>)
    returns (result: Option<Assignment>)
    requires OverlapsInRange(c)
    requires d.Keys == c.variables
    requires a.Keys <= c.variables
    requires x in c.variables && x !in a
    requires forall w :: w in values ==> w in d[x]
    requires Covers(c, d, a, x, values)
    ensures SearchOutcome(c, d, a, result)
    decreases |c.variables - a.Keys|, 0, |values| + 1
  {
    if values == [] {
      NothingCovered(c, d, a, x);
      return None;
    }
    result := TryValue(c, d, a, x, values);
    if result.None? {
      result := TryValues(c, d, a, x, values[1..]);
    }
  }

  /**
   One pass of the loop body (generate.py:286-291): assign the first value,
   and when the assignment is consistent search on from it. A failure rules
   the value out for x.
   */
  method TryValue(c: Crossword, d: Domains, a: Assignment, x: Variable, values: seq<string>)
    returns (found: Option<Assignment>)
    requires OverlapsInRange(c)
    requires d.Keys == c.variables
    requires a.Keys <= c.variables
    requires x in c.variables && x !in a
    requires values != [] && values[0] in d[x]
    requires Covers(c, d, a, x, values)
    ensures found.Some? ==> SearchOutcome(c, d, a, found)
    ensures found.None? ==> Covers(c, d, a, x, values[1..])
    decreases |c.variables - a.Keys|, 0, 0
  {
    var value := values[0];
    var ok := Consistent(c, a[x := value]);
    if !ok {
      HeadInconsistent(c, d, a, x, values);
      return None;
    }
    FewerUnassigned(c, a, x, value);
    found := Backtrack(c, d, a[x := value]);
    if found.Some? {
      LiftSuccess(c, d, a, x, value, found.value);
    } else {
      HeadFailed(c, d, a, x, values);
    }
  }

  lemma FewerUnassigned(c: Crossword, a: Assignment, x: Variable, value: string)
    requires a.Keys <= c.variables && x in c.variables && x !in a
    ensures |c.variables - a[x := value].Keys| < |c.variables - a.Keys|
  {
    assert c.variables - a[x := value].Keys < c.variables - a.Keys by {
      assert x in c.variables - a.Keys;
    }
    SubsetSize(c.variables - a[x := value].Keys, c.variables - a.Keys);
  }

  lemma CompleteOutcome(c: Crossword, d: Domains, a: Assignment)
    requires a.Keys == c.variables
    ensures SearchOutcome(c, d, a, Some(a))
  {
  }

  /** The ordered domain covers every solution's word for x. */
  lemma CandidatesFromDomain(c: Crossword, d: Domains, a: Assignment, x: Variable, values: seq<string>)
    requires x in d
    requires forall w :: w in values <==> w in d[x]
    ensures Covers(c, d, a, x, values)
  {
    forall s | Solution(c, d, s) && Extends(s, a) && x in s
      ensures s[x] in values
    {
      assert s[x] in d[x];
    }
  }

  /** With no candidates left, x has no value in any solution extending a. */
  lemma NothingCovered(c: Crossword, d: Domains, a: Assignment, x: Variable)
    requires x in c.variables
    requires Covers(c, d, a, x, [])
    ensures NoSolutionExtends(c, d, a)
  {
    forall s | Solution(c, d, s)
      ensures !Extends(s, a)
    {
      assert x in s;
    }
  }

  /** A successful search below a[x := value] is one for a. */
  lemma LiftSuccess(c: Crossword, d: Domains, a: Assignment, x: Variable, value: string, s: Assignment)
    requires x !in a && x in d && value in d[x]
    requires IsConsistent(c, a[x := value])
    requires SearchOutcome(c, d, a[x := value], Some(s))
    ensures SearchOutcome(c, d, a, Some(s))
  {
    var b := a[x := value];
    assert Extends(s, a) by {
      forall v | v in a
        ensures v in s && s[v] == a[v]
      {
        assert v in b && b[v] == a[v];
      }
    }
    forall v | v in s && v !in a
      ensures v in d && s[v] in d[v]
    {
      if v == x {
        assert x in b && s[x] == b[x];
      }
    }
  }

  /** A failed search below a[x := value] rules value out for x. */
  lemma HeadFailed(c: Crossword, d: Domains, a: Assignment, x: Variable, values: seq<string>)
    requires values != [] && x !in a
    requires Covers(c, d, a, x, values)
    requires NoSolutionExtends(c, d, a[x := values[0]])
    ensures Covers(c, d, a, x, values[1..])
  {
    var b := a[x := values[0]];
    forall s | Solution(c, d, s) && Extends(s, a) && x in s
      ensures s[x] in values[1..]
    {
      assert !Extends(s, b);
      assert s[x] in values;
    }
  }

  /** An inconsistent a[x := value] rules value out for x. */
  lemma HeadInconsistent(c: Crossword, d: Domains, a: Assignment, x: Variable, values: seq<string>)
    requires values != [] && x !in a
    requires Covers(c, d, a, x, values)
    requires !IsConsistent(c, a[x := values[0]])
    ensures Covers(c, d, a, x, values[1..])
  {
    forall s | Solution(c, d, s) && Extends(s, a) && x in s
      ensures s[x] in values[1..]
    {
      var b := a[x := s[x]];
      assert Extends(s, b);
      ConsistentDownward(c, s, b);
      assert s[x] in values;
    }
  }

  /**
   The top-level solve (generate.py:88-94): every slot starts with the whole
   word list, node consistency prunes by length, arc consistency runs, and
   its verdict is ignored: the search then runs on the pruned domains.
   */
  method Solve(c: Crossword) returns (result: Option<Assignment>)
    requires SymmetricNeighbors(c) && OverlapsInRange(c)
    ensures result.Some? ==> Solves(c, result.value)
    ensures result.None? ==> forall s :: !Solves(c, s)
  {
    var d0 := InitialDomains(c);
    var d1 := EnforceNodeConsistency(d0);
    var consistentArcs, d2, shrinks := AC3(c, d1, None);
    SolvesWithin(c, d0, d1, d2);
    result := Backtrack(c, d2, map[]);
    SolveOutcome(c, d2, result);
  }

  /** A solution of the puzzle survives node and arc consistency. */
  ghost predicate KeepsSolutions(c: Crossword, d: Domains) {
    forall s :: Solves(c, s) ==> Solution(c, d, s)
  }

  lemma SolvesWithin(c: Crossword, d0: Domains, d1: Domains, d2: Domains)
    requires d0.Keys == c.variables && forall v :: v in d0 ==> d0[v] == c.words
    requires d1.Keys == d0.Keys
    requires forall v :: v in d1 ==> d1[v] <= d0[v]
    requires forall v, w :: v in d1 && w in d0[v] && |w| == v.length ==> w in d1[v]
    requires Shrinks(d2, d1)
    requires forall s :: Solution(c, d1, s) ==> Within(s, d2)
    ensures KeepsSolutions(c, d2)
    ensures forall v :: v in d2 ==> d2[v] <= c.words
  {
    forall s | Solves(c, s)
      ensures Solution(c, d2, s)
    {
      forall v | v in s
        ensures v in d1 && s[v] in d1[v]
      {
        assert |s[v]| == v.length;
      }
      assert Solution(c, d1, s);
    }
    forall v | v in d2
      ensures d2[v] <= c.words
    {
      forall w | w in d2[v]
        ensures w in c.words
      {
        assert v in d1 && v in d0;
        assert w in d1[v] && w in d0[v];
      }
    }
  }

  lemma SolveOutcome(c: Crossword, d: Domains, result: Option<Assignment>)
    requires KeepsSolutions(c, d)
    requires forall v :: v in d ==> d[v] <= c.words
    requires SearchOutcome(c, d, map[], result)
    ensures result.Some? ==> Solves(c, result.value)
    ensures result.None? ==> forall s :: !Solves(c, s)
  {
    assert IsConsistent(c, map[]);
    if result.Some? {
      var s := result.value;
      var empty: Assignment := map[];
      forall v | v in s
        ensures s[v] in c.words
      {
        assert v !in empty;
      }
    } else {
      forall s | Solves(c, s)
        ensures false
      {
        assert Solution(c, d, s);
        assert Extends(s, map[]);
      }
    }
  }
}
