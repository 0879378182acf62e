/**
 * The constraint-satisfaction notions the crossword solver works with,
 * stated as functions of the domain map and of the assignment: node
 * consistency, supported words and arc consistency, consistency of an
 * assignment, the value-ordering count and the ordering itself. The
 * solver's methods (generate.dfy) are proved against these.
 */
module Csp {
  import opened Optional
  import opened Puzzle

  /** `self.domains`: every variable's candidate words. */
  type DomainMap = map<Variable, set<Word>>

  /** An assignment: some variables, each with its word. */
  type AssignmentMap = map<Variable, Word>

  // ---------------------------------------------------------------------------
  // Node consistency
  // ---------------------------------------------------------------------------

  /** The words of `ws` that fit `v`. */
  function Fitting(v: Variable, ws: set<Word>): set<Word> {
    set w | w in ws && |w| == v.length
  }

  /** The domains after the length filter of `enforce_node_consistency`. */
  function LengthFiltered(dm: DomainMap): DomainMap {
    map v | v in dm :: Fitting(v, dm[v])
  }

  /** Every candidate word has its variable's length. */
  predicate NodeConsistent(dm: DomainMap) {
    forall v, w | v in dm && w in dm[v] :: |w| == v.length
  }

  /** No variable gained a candidate and no variable was added or dropped. */
  predicate Shrunk(before: DomainMap, after: DomainMap) {
    after.Keys == before.Keys && forall v | v in after :: after[v] <= before[v]
  }

  lemma ShrunkTransitive(a: DomainMap, b: DomainMap, c: DomainMap)
    requires Shrunk(a, b) && Shrunk(b, c)
    ensures Shrunk(a, c)
  {
  }

  /**
   * The length filter leaves the domains node-consistent, only removes
   * words, and removes exactly the words of the wrong length.
   */
  lemma LengthFilteredSpec(dm: DomainMap)
    ensures NodeConsistent(LengthFiltered(dm)) && Shrunk(dm, LengthFiltered(dm))
    ensures forall v, w | v in dm && w in dm[v] :: w in LengthFiltered(dm)[v] <==> |w| == v.length
  {
  }

  /** A second run of the filter changes nothing. */
  lemma LengthFilteredIdempotent(dm: DomainMap)
    ensures LengthFiltered(LengthFiltered(dm)) == LengthFiltered(dm)
  {
    LengthFilteredSpec(dm);
    NodeConsistentIsFixed(LengthFiltered(dm));
  }

  /** On node-consistent domains the filter is the identity. */
  lemma NodeConsistentIsFixed(dm: DomainMap)
    requires NodeConsistent(dm)
    ensures LengthFiltered(dm) == dm
  {
    forall v | v in dm ensures Fitting(v, dm[v]) == dm[v] {
    }
  }

  // ---------------------------------------------------------------------------
  // Arc consistency
  // ---------------------------------------------------------------------------

  /** `w` and `u` have the same letter at offsets `o`. */
  predicate Agree(w: Word, u: Word, o: Offsets) {
    o.0 < |w| && o.1 < |u| && w[o.0] == u[o.1]
  }

  /** Some word of `dy` agrees with `w` at offsets `o`. */
  predicate HasSupport(w: Word, dy: set<Word>, o: Offsets) {
    exists u | u in dy :: Agree(w, u, o)
  }

  /** The words `revise` keeps: those of `dx` with support in `dy`. */
  function Supported(dx: set<Word>, dy: set<Word>, o: Offsets): set<Word> {
    set w | w in dx && HasSupport(w, dy, o)
  }

  /** The domains after `revise(x, y)` for the arc `p == (x, y)`: `x` keeps its supported words. */
  function Revised(cw: Crossword, dm: DomainMap, p: Arc): DomainMap
    requires Constrained(cw, p) && p.0 in dm && p.1 in dm
  {
    dm[p.0 := Supported(dm[p.0], dm[p.1], cw.overlaps[p].value)]
  }

  /** Every word left in `x`'s domain has support in `y`'s, for the arc `(x, y)`. */
  predicate ArcConsistent(cw: Crossword, dm: DomainMap, p: Arc)
    requires Constrained(cw, p) && p.0 in dm && p.1 in dm
  {
    forall w | w in dm[p.0] :: HasSupport(w, dm[p.1], cw.overlaps[p].value)
  }

  /** Every constrained arc is arc-consistent. */
  predicate AllArcsConsistent(cw: Crossword, dm: DomainMap)
    requires forall p | p in ConstrainedArcs(cw) :: p.0 in dm && p.1 in dm
  {
    forall p | p in ConstrainedArcs(cw) :: ArcConsistent(cw, dm, p)
  }

  /**
   * `Supported` keeps exactly the supported words, and the result is
   * consistent with `dy`.
   */
  lemma SupportedSpec(dx: set<Word>, dy: set<Word>, o: Offsets)
    ensures Supported(dx, dy, o) <= dx
    ensures forall w | w in dx :: w in Supported(dx, dy, o) <==> HasSupport(w, dy, o)
    ensures Supported(Supported(dx, dy, o), dy, o) == Supported(dx, dy, o)
  {
  }

  /**
   * Revising `x` against `y` keeps the reverse arc `(y, x)` consistent: a
   * word of `x` that supported a word of `y` is itself supported by it.
   */
  lemma ReverseArcKept(dx: set<Word>, dy: set<Word>, o: Offsets)
    requires forall u | u in dy :: HasSupport(u, dx, (o.1, o.0))
    ensures forall u | u in dy :: HasSupport(u, Supported(dx, dy, o), (o.1, o.0))
  {
    forall u | u in dy ensures HasSupport(u, Supported(dx, dy, o), (o.1, o.0)) {
      var w :| w in dx && Agree(u, w, (o.1, o.0));
      assert Agree(w, u, o);
      assert w in Supported(dx, dy, o);
    }
  }

  /** Removing words from `x`'s domain keeps every arc that leaves `x` consistent. */
  lemma FewerWordsStillSupported(dx: set<Word>, dx': set<Word>, dy: set<Word>, o: Offsets)
    requires dx' <= dx && forall w | w in dx :: HasSupport(w, dy, o)
    ensures forall w | w in dx' :: HasSupport(w, dy, o)
  {
  }

  /** The (variable, word) pairs still possible: the measure that makes AC-3 terminate. */
  function Pairs(dm: DomainMap): set<(Variable, Word)> {
    set v, w | v in dm && w in dm[v] :: (v, w)
  }

  /** Removing a word from one domain removes a pair; removing none keeps them all. */
  lemma PairsShrink(dm: DomainMap, x: Variable, s: set<Word>)
    requires x in dm && s <= dm[x]
    ensures Pairs(dm[x := s]) <= Pairs(dm)
    ensures s != dm[x] ==> Pairs(dm[x := s]) < Pairs(dm)
  {
    if s != dm[x] {
      var w :| w in dm[x] && w !in s;
      assert (x, w) in Pairs(dm) && (x, w) !in Pairs(dm[x := s]);
    }
  }

  /** The domain store every solver step keeps: a domain per variable, holding dictionary words only. */
  predicate Covers(cw: Crossword, dm: DomainMap) {
    dm.Keys == cw.variables && forall v | v in dm :: dm[v] <= cw.words
  }

  /** Narrowing one domain keeps the store covering, node-consistent and shrunk from where it started. */
  lemma Narrowed(cw: Crossword, start: DomainMap, dm: DomainMap, x: Variable, s: set<Word>)
    requires Covers(cw, dm) && NodeConsistent(dm) && Shrunk(start, dm)
    requires x in dm && s <= dm[x]
    ensures Covers(cw, dm[x := s]) && NodeConsistent(dm[x := s]) && Shrunk(start, dm[x := s])
  {
  }

  /** AC-3's queue invariant: every constrained arc is still queued or already consistent. */
  predicate Pending(cw: Crossword, dm: DomainMap, q: seq<Arc>) {
    forall p | p in ConstrainedArcs(cw) :: p in q || (p.0 in dm && p.1 in dm && ArcConsistent(cw, dm, p))
  }

  /**
   * One round of AC-3: once `(x, y)` is popped and revised, every constrained
   * arc is queued or consistent again, provided that a revision that removed
   * words re-queued `(n, x)` for every neighbour `n` of `x` other than `y`.
   * The arc `(y, x)` needs no re-queueing: a word of `x` that supported a word
   * of `y` is itself supported and survives.
   */
  lemma ArcStep(cw: Crossword, dm: DomainMap, x: Variable, y: Variable, rest: seq<Arc>, q': seq<Arc>)
    requires Requeued(cw, dm, x, y, rest, q')
    ensures Pending(cw, dm[x := Supported(dm[x], dm[y], cw.overlaps[(x, y)].value)], q')
  {
    var dm' := dm[x := Supported(dm[x], dm[y], cw.overlaps[(x, y)].value)];
    forall p | p in ConstrainedArcs(cw) && p !in q'
      ensures p.0 in dm' && p.1 in dm' && ArcConsistent(cw, dm', p)
    {
      ArcSettled(cw, dm, x, y, rest, q', p);
    }
  }

  /**
   * The state after `(x, y)` was popped from `rest + [(x, y)]`: the arcs
   * then queued or consistent, the rest still queued in `q'`, and, when
   * revising `x` removed words, `(n, x)` queued in `q'` for every
   * neighbour `n` of `x` other than `y`.
   */
  predicate Requeued(cw: Crossword, dm: DomainMap, x: Variable, y: Variable, rest: seq<Arc>, q': seq<Arc>) {
    && WellFormed(cw) && Constrained(cw, (x, y)) && dm.Keys == cw.variables
    && Pending(cw, dm, rest + [(x, y)])
    && (forall p | p in rest :: p in q')
    && (Supported(dm[x], dm[y], cw.overlaps[(x, y)].value) != dm[x] ==>
          forall n | n in Neighbors(cw, x) && n != y :: (n, x) in q')
  }

  /** `ArcStep` for one constrained arc that is not queued afterwards. */
  lemma ArcSettled(cw: Crossword, dm: DomainMap, x: Variable, y: Variable, rest: seq<Arc>, q': seq<Arc>, p: Arc)
    requires Requeued(cw, dm, x, y, rest, q')
    requires p in ConstrainedArcs(cw) && p !in q'
    ensures var dm' := dm[x := Supported(dm[x], dm[y], cw.overlaps[(x, y)].value)];
            p.0 in dm' && p.1 in dm' && ArcConsistent(cw, dm', p)
  {
    if p == (x, y) {
      SupportedSpec(dm[x], dm[y], cw.overlaps[(x, y)].value);
    } else {
      assert p !in rest + [(x, y)];
      if p.1 == x && p.0 != y {
        assert p.0 in Neighbors(cw, x);
      }
      ArcKept(cw, dm, x, y, p);
    }
  }

  /** An arc other than `(x, y)` that was consistent stays so after `x` is revised against `y`, unless it ends in `x` and words went. */
  lemma ArcKept(cw: Crossword, dm: DomainMap, x: Variable, y: Variable, p: Arc)
    requires WellFormed(cw) && Constrained(cw, (x, y)) && dm.Keys == cw.variables
    requires p in ConstrainedArcs(cw) && p != (x, y) && ArcConsistent(cw, dm, p)
    requires p.1 == x && p.0 != y ==> Supported(dm[x], dm[y], cw.overlaps[(x, y)].value) == dm[x]
    ensures ArcConsistent(cw, dm[x := Supported(dm[x], dm[y], cw.overlaps[(x, y)].value)], p)
  {
    var o := cw.overlaps[(x, y)].value;
    var s := Supported(dm[x], dm[y], o);
    assert p.0 != p.1;
    if p.1 == x && p.0 == y {
      assert cw.overlaps[p] == Swap(cw.overlaps[(x, y)]);
      ReverseArcKept(dm[x], dm[y], o);
    } else if p.0 == x {
      SupportedSpec(dm[x], dm[y], o);
      FewerWordsStillSupported(dm[x], s, dm[p.1], cw.overlaps[p].value);
    }
  }

  /**
   * The arcs `ac3` queues once revising `x` against `y` removed words, when
   * `ns` are the neighbours of `x`: `(n, x)` for every `n` of `ns` other
   * than `y`, each once.
   */
  ghost predicate ArcsInto(x: Variable, y: Variable, ns: set<Variable>, added: seq<Arc>) {
    && (forall p :: p in added <==> p.1 == x && p.0 in ns && p.0 != y)
    && forall i, j | 0 <= i < j < |added| :: added[i] != added[j]
  }

  /** `s` gives every variable of the puzzle a word, and crossing words agree on every constrained arc. */
  predicate ArcsAgree(cw: Crossword, s: AssignmentMap) {
    && cw.variables <= s.Keys
    && forall p | p in ConstrainedArcs(cw) :: p.0 in s && p.1 in s && Agree(s[p.0], s[p.1], cw.overlaps[p].value)
  }

  /** Every variable of `dm` has its word of `s` among its candidates. */
  predicate Within(dm: DomainMap, s: AssignmentMap) {
    forall v | v in dm :: v in s && s[v] in dm[v]
  }

  /**
   * Going from `before` to `after` loses no solution: every assignment
   * that agrees on every arc and draws its words from `before` still
   * draws them from `after`.
   */
  ghost predicate KeepsSolutions(cw: Crossword, before: DomainMap, after: DomainMap) {
    forall s | ArcsAgree(cw, s) && Within(before, s) :: Within(after, s)
  }

  lemma KeepsSolutionsTransitive(cw: Crossword, a: DomainMap, b: DomainMap, c: DomainMap)
    requires KeepsSolutions(cw, a, b) && KeepsSolutions(cw, b, c)
    ensures KeepsSolutions(cw, a, c)
  {
  }

  /**
   * Revising `x` against `y` removes only words that no solution uses: the
   * word a solution gives `x` agrees with the word it gives `y`, which is
   * a candidate of `y`, so it has support and stays.
   */
  lemma ReviseKeepsSolutions(cw: Crossword, dm: DomainMap, x: Variable, y: Variable)
    requires Constrained(cw, (x, y)) && x in dm && y in dm
    ensures KeepsSolutions(cw, dm, Revised(cw, dm, (x, y)))
  {
    var o := cw.overlaps[(x, y)].value;
    forall s | ArcsAgree(cw, s) && Within(dm, s) ensures Within(dm[x := Supported(dm[x], dm[y], o)], s) {
      assert (x, y) in ConstrainedArcs(cw);
      assert Agree(s[x], s[y], o) && s[y] in dm[y];
      assert s[x] in Supported(dm[x], dm[y], o);
    }
  }

  // ---------------------------------------------------------------------------
  // Consistency of an assignment
  // ---------------------------------------------------------------------------

  /** No two assigned variables hold the same word. */
  predicate Injective(a: AssignmentMap) {
    forall v, u | v in a && u in a && v != u :: a[v] != a[u]
  }

  /** Two assigned neighbours `v`, `n` have the same letter where they cross. */
  predicate AgreeAt(cw: Crossword, a: AssignmentMap, v: Variable, n: Variable)
    requires v in a && n in a
  {
    Constrained(cw, (v, n)) ==> Agree(a[v], a[n], cw.overlaps[(v, n)].value)
  }

  /**
   * What `consistent` decides: every assigned word has its variable's
   * length, assigned neighbours agree where they cross, and no word is used twice.
   */
  predicate ConsistentAssignment(cw: Crossword, a: AssignmentMap) {
    (forall v | v in a :: Fits(cw, a, v)) && Injective(a)
  }

  /** `v`'s word has its variable's length and agrees with every assigned neighbour's where they cross. */
  predicate Fits(cw: Crossword, a: AssignmentMap, v: Variable)
    requires v in a
  {
    |a[v]| == v.length && forall n | n in a && n in Neighbors(cw, v) :: AgreeAt(cw, a, v, n)
  }

  /** For an assigned neighbour, `AgreeAt` is the letter comparison `consistent` makes. */
  lemma AgreeAtLetters(cw: Crossword, a: AssignmentMap, v: Variable, n: Variable)
    requires WellFormed(cw) && IndexSafe(cw, a) && v in a && n in a && n in Neighbors(cw, v)
    ensures Constrained(cw, (v, n))
    ensures AgreeAt(cw, a, v, n) <==> a[v][cw.overlaps[(v, n)].value.0] == a[n][cw.overlaps[(v, n)].value.1]
  {
    assert cw.overlaps[(v, n)] == Swap(cw.overlaps[(n, v)]);
  }

  /**
   * The test `consistent` makes for a neighbour `n` of `v`: the two cross,
   * `n` is assigned, and their words differ at the crossing. It holds
   * exactly when `n` is assigned and disagrees with `v` at the crossing.
   */
  function Clash(cw: Crossword, a: AssignmentMap, v: Variable, n: Variable): (c: bool)
    requires WellFormed(cw) && IndexSafe(cw, a) && v in a && n in Neighbors(cw, v)
    ensures c <==> n in a && !AgreeAt(cw, a, v, n)
  {
    assert cw.overlaps[(v, n)] == Swap(cw.overlaps[(n, v)]);
    var ol := cw.overlaps[(v, n)];
    if ol.Some? && n in a then
      AgreeAtLetters(cw, a, v, n);
      a[v][ol.value.0] != a[n][ol.value.1]
    else
      false
  }

  /** `big` keeps every entry of `small`. */
  predicate Extends(big: AssignmentMap, small: AssignmentMap) {
    small.Keys <= big.Keys && forall v | v in small :: big[v] == small[v]
  }

  lemma ExtendsTransitive(big: AssignmentMap, mid: AssignmentMap, small: AssignmentMap)
    requires Extends(big, mid) && Extends(mid, small)
    ensures Extends(big, small)
  {
  }

  /** The assignment's words can be indexed at every overlap offset `consistent` reads. */
  predicate IndexSafe(cw: Crossword, a: AssignmentMap) {
    forall v, n | v in a && n in a && Constrained(cw, (v, n)) ::
      cw.overlaps[(v, n)].value.0 < |a[v]| && cw.overlaps[(v, n)].value.1 < |a[n]|
  }

  /** Every assigned variable belongs to the puzzle and holds a dictionary word of its length. */
  predicate WellAssigned(cw: Crossword, a: AssignmentMap) {
    a.Keys <= cw.variables && forall v | v in a :: |a[v]| == v.length && a[v] in cw.words
  }

  lemma WellAssignedIsIndexSafe(cw: Crossword, a: AssignmentMap)
    requires WellFormed(cw) && WellAssigned(cw, a)
    ensures IndexSafe(cw, a)
  {
  }

  /** The words of `a` are those of `a` without `k`, plus `k`'s word. */
  lemma ValuesWithout(a: AssignmentMap, k: Variable)
    requires k in a
    ensures a.Values == (a - {k}).Values + {a[k]}
  {
    var rest := a - {k};
    forall x | x in a.Values ensures x in rest.Values + {a[k]} {
      var q :| q in a && a[q] == x;
      if q != k {
        assert rest[q] == x;
      }
    }
    forall x | x in rest.Values ensures x in a.Values {
      var q :| q in rest && rest[q] == x;
      assert a[q] == x;
    }
  }

  /** A map has no more distinct values than entries. */
  lemma {:induction false} ValuesAtMostKeys(a: AssignmentMap)
    ensures |a.Values| <= |a|
    decreases |a|
  {
    if a != map[] {
      var k :| k in a;
      var rest := a - {k};
      ValuesAtMostKeys(rest);
      ValuesWithout(a, k);
      assert |a| == |rest| + 1;
    }
  }

  /** The uniqueness test of `consistent`: as many distinct words as entries, which holds exactly when no word repeats. */
  function UniqueWords(a: AssignmentMap): (u: bool)
    ensures u <==> Injective(a)
  {
    DistinctWords(a);
    |a| == |a.Values|
  }

  /**
   * The source's uniqueness test compares the number of entries with the
   * number of distinct words: they are equal exactly when no word repeats.
   */
  lemma {:induction false} DistinctWords(a: AssignmentMap)
    ensures Injective(a) <==> |a.Values| == |a|
    decreases |a|
  {
    if a != map[] {
      var k :| k in a;
      var rest := a - {k};
      assert |a| == |rest| + 1;
      if Injective(a) {
        DistinctWords(rest);
        assert a[k] !in rest.Values;
        ValuesWithout(a, k);
      } else {
        var v, u :| v in a && u in a && v != u && a[v] == a[u];
        var rest' := a - {v};
        ValuesWithout(a, v);
        assert a[v] in rest'.Values by {
          assert a[v] == rest'[u];
        }
        ValuesAtMostKeys(rest');
        assert |a| == |rest'| + 1;
      }
    }
  }

  // ---------------------------------------------------------------------------
  // Completeness
  // ---------------------------------------------------------------------------

  /** `assignment_complete`: as many assigned variables as the puzzle has. */
  predicate IsComplete(cw: Crossword, a: AssignmentMap) {
    |a| == |cw.variables|
  }

  /** For an assignment of puzzle variables, counting entries means covering every variable. */
  lemma CompleteCovers(cw: Crossword, a: AssignmentMap)
    requires a.Keys <= cw.variables
    ensures IsComplete(cw, a) <==> a.Keys == cw.variables
  {
    if IsComplete(cw, a) && a.Keys != cw.variables {
      var v :| v in cw.variables && v !in a.Keys;
      SubsetAtMost(a.Keys, cw.variables - {v});
    }
  }

  lemma {:induction false} SubsetAtMost<T>(s: set<T>, t: set<T>)
    requires s <= t
    ensures |s| <= |t|
    decreases t
  {
    if s != {} {
      var x :| x in s;
      SubsetAtMost(s - {x}, t - {x});
    }
  }

  /** A solution: every variable holds a dictionary word and the assignment is consistent. */
  predicate IsSolution(cw: Crossword, a: AssignmentMap) {
    a.Keys == cw.variables && (forall v | v in a :: a[v] in cw.words) && ConsistentAssignment(cw, a)
  }

  // ---------------------------------------------------------------------------
  // Ordering heuristics
  // ---------------------------------------------------------------------------

  /** The unassigned neighbours of `v` whose domain holds `w` itself. */
  function Colliding(cw: Crossword, dm: DomainMap, v: Variable, a: AssignmentMap, w: Word, among: set<Variable>): set<Variable> {
    set n | n in among && n in Neighbors(cw, v) && n !in a && n in dm && w in dm[n]
  }

  /** The count `order_domain_values` sorts by: unassigned neighbours whose domain holds `w` itself. */
  function RuledOut(cw: Crossword, dm: DomainMap, v: Variable, a: AssignmentMap, w: Word): nat {
    |Colliding(cw, dm, v, a, w, Neighbors(cw, v))|
  }

  /** The counts `order_domain_values` sorts by, for the words of `ws`. */
  function Counts(cw: Crossword, dm: DomainMap, v: Variable, a: AssignmentMap, ws: set<Word>): map<Word, nat> {
    map w | w in ws :: RuledOut(cw, dm, v, a, w)
  }

  /** Counting one more word extends the counts by that word's. */
  lemma CountsGrow(cw: Crossword, dm: DomainMap, v: Variable, a: AssignmentMap, ws: set<Word>, w: Word)
    ensures Counts(cw, dm, v, a, ws + {w}) == Counts(cw, dm, v, a, ws)[w := RuledOut(cw, dm, v, a, w)]
  {
  }

  /** Counting one more neighbour adds one exactly when it collides. */
  lemma CollidingStep(cw: Crossword, dm: DomainMap, v: Variable, a: AssignmentMap, w: Word, among: set<Variable>, n: Variable)
    requires n !in among && n in Neighbors(cw, v) && n in dm
    ensures |Colliding(cw, dm, v, a, w, among + {n})| ==
            |Colliding(cw, dm, v, a, w, among)| + if n !in a && w in dm[n] then 1 else 0
  {
    if n !in a && w in dm[n] {
      assert Colliding(cw, dm, v, a, w, among + {n}) == Colliding(cw, dm, v, a, w, among) + {n};
    } else {
      assert Colliding(cw, dm, v, a, w, among + {n}) == Colliding(cw, dm, v, a, w, among);
    }
  }

  /** `v` belongs to `s` and has at least as many neighbours as any variable of `s`. */
  predicate MostNeighbors(cw: Crossword, s: set<Variable>, v: Variable) {
    v in s && forall u | u in s :: |Neighbors(cw, u)| <= |Neighbors(cw, v)|
  }

  /** Some variable of a non-empty set has the highest degree. */
  lemma {:induction false} MostNeighborsExists(cw: Crossword, s: set<Variable>)
    requires s != {}
    ensures exists v :: MostNeighbors(cw, s, v)
    decreases s
  {
    var x :| x in s;
    if s == {x} {
      assert MostNeighbors(cw, s, x);
    } else {
      MostNeighborsExists(cw, s - {x});
      var y :| MostNeighbors(cw, s - {x}, y);
      if |Neighbors(cw, x)| <= |Neighbors(cw, y)| {
        assert MostNeighbors(cw, s, y);
      } else {
        assert MostNeighbors(cw, s, x);
      }
    }
  }

  /** `order` lists the words of `done`, each once. */
  ghost predicate Lists(order: seq<Word>, done: set<Word>) {
    Distinct(order) && forall u :: u in order <==> u in done
  }

  /** No word occurs twice in `s`. */
  predicate Distinct(s: seq<Word>) {
    forall i, j | 0 <= i < j < |s| :: s[i] != s[j]
  }

  /** Appending a word not yet listed keeps a listing distinct and adds that word to what it lists. */
  lemma ListGrows(order: seq<Word>, done: set<Word>, w: Word)
    requires Lists(order, done) && w !in done
    ensures Lists(order + [w], done + {w})
  {
  }

  /** A sequence that holds the words of `s`, each once, is a permutation of `s`. */
  lemma {:induction false} ListsSetOnce(order: seq<Word>, s: set<Word>)
    requires Lists(order, s)
    ensures multiset(order) == multiset(s)
    decreases |order|
  {
    if order == [] {
      assert s == {};
    } else {
      var t, x := order[..|order| - 1], order[|order| - 1];
      assert order == t + [x];
      forall w ensures w in t <==> w in s - {x} {
        if w in t {
          var j :| 0 <= j < |t| && t[j] == w;
          assert order[j] == w;
        }
      }
      ListsSetOnce(t, s - {x});
      assert s == (s - {x}) + {x};
    }
  }

  /** `s` is in non-decreasing order of `key`. */
  predicate SortedBy(s: seq<Word>, key: map<Word, nat>)
    requires forall w | w in s :: w in key
  {
    forall i, j | 0 <= i < j < |s| :: key[s[i]] <= key[s[j]]
  }

  /** Inserts `x` after every element whose key is not larger. */
  function InsertBy(s: seq<Word>, x: Word, key: map<Word, nat>): (r: seq<Word>)
    requires x in key && forall w | w in s :: w in key
    ensures multiset(r) == multiset(s) + multiset{x}
    ensures forall w | w in r :: w == x || w in s
  {
    if s == [] then [x]
    else if key[x] < key[s[0]] then [x] + s
    else
      assert s == [s[0]] + s[1..];
      [s[0]] + InsertBy(s[1..], x, key)
  }

  /** Inserting into a sorted sequence keeps it sorted. */
  lemma {:induction false} InsertBySorted(s: seq<Word>, x: Word, key: map<Word, nat>)
    requires x in key && forall w | w in s :: w in key
    requires SortedBy(s, key)
    ensures forall w | w in InsertBy(s, x, key) :: w in key
    ensures SortedBy(InsertBy(s, x, key), key)
  {
    if s != [] && key[s[0]] <= key[x] {
      var r' := InsertBy(s[1..], x, key);
      InsertBySorted(s[1..], x, key);
      assert InsertBy(s, x, key) == [s[0]] + r';
      forall w | w in r' ensures key[s[0]] <= key[w] {
        if w != x {
          var j :| 0 <= j < |s[1..]| && s[1..][j] == w;
          assert s[j + 1] == w;
        }
      }
    }
  }

  /**
   * `sorted(s, key=key.get)`: a stable sort, as Python's is, written as an
   * insertion sort that places each element after the equal keys before it.
   */
  function SortBy(s: seq<Word>, key: map<Word, nat>): (r: seq<Word>)
    requires forall w | w in s :: w in key
    ensures multiset(r) == multiset(s)
    ensures forall w | w in r :: w in key
    ensures SortedBy(r, key)
  {
    if s == [] then []
    else
      assert s == s[..|s| - 1] + [s[|s| - 1]];
      var sorted := SortBy(s[..|s| - 1], key);
      InsertBySorted(sorted, s[|s| - 1], key);
      InsertBy(sorted, s[|s| - 1], key)
  }
}
