/**
 * The crossword solver of cs50ai/crossword/generate.py: the class
 * `CrosswordCreator`, whose domain store is updated in place by node
 * consistency, `revise` and AC-3, and whose backtracking search writes into
 * an assignment dictionary and rebinds its domain store to a backup.
 *
 * Python dictionaries that the source shares or rebinds are objects here:
 * `Domains` for `self.domains` (and its deep copy `bd`), `Assignment` for
 * the `assignment` argument (and its deep copy `ba`).
 */
module Generate {
  import opened Optional
  import opened Puzzle
  import opened Csp

  /** A dictionary from variables to their candidate word sets. */
  class Domains {
    var m: DomainMap

    /** `deepcopy`: a new dictionary holding the same entries. */
    constructor(m: DomainMap)
      ensures this.m == m
    {
      this.m := m;
    }
  }

  /** A dictionary from variables to the words assigned to them. */
  class Assignment {
    var m: AssignmentMap

    /** `deepcopy` or `dict()`: a new dictionary holding the given entries. */
    constructor(m: AssignmentMap)
      ensures this.m == m
    {
      this.m := m;
    }
  }

  /** One word of `enforce_node_consistency`'s inner loop: kept if it fits, dropped otherwise. */
  lemma FittingStep(d: Variable, all: set<Word>, words: set<Word>, word: Word)
    requires word in words && words <= all
    ensures |word| == d.length ==> words + Fitting(d, all - words) == (words - {word}) + Fitting(d, all - (words - {word}))
    ensures |word| != d.length ==> (words + Fitting(d, all - words)) - {word} == (words - {word}) + Fitting(d, all - (words - {word}))
  {
  }

  /** One word of `revise`'s outer loop: kept if supported, dropped otherwise. */
  lemma ReviseStep(todo: set<Word>, seen: set<Word>, i: Word, dy: set<Word>, o: Offsets)
    requires i in todo && todo !! seen
    ensures HasSupport(i, dy, o) ==> todo + Supported(seen, dy, o) == (todo - {i}) + Supported(seen + {i}, dy, o)
    ensures !HasSupport(i, dy, o) ==> (todo + Supported(seen, dy, o)) - {i} == (todo - {i}) + Supported(seen + {i}, dy, o)
    ensures (Supported(seen + {i}, dy, o) != seen + {i}) <==> (Supported(seen, dy, o) != seen || !HasSupport(i, dy, o))
  {
    if Supported(seen + {i}, dy, o) == seen + {i} {
      assert i in Supported(seen + {i}, dy, o);
      assert Supported(seen, dy, o) == seen by {
        forall w | w in seen ensures w in Supported(seen, dy, o) {
          assert w in Supported(seen + {i}, dy, o);
        }
      }
    }
  }

  class CrosswordCreator {
    const crossword: Crossword
    var domains: Domains

    /** Every variable has a domain, and domains only hold dictionary words. */
    ghost predicate Valid()
      reads this, domains
    {
      WellFormed(crossword) && Covers(crossword, domains.m)
    }

    /** `Valid`, and every candidate word has its variable's length. */
    ghost predicate Ready()
      reads this, domains
    {
      Valid() && NodeConsistent(domains.m)
    }

    /** Every variable of the puzzle has candidates in `d`, each a dictionary word of the variable's length. */
    ghost predicate Candidates(d: Domains)
      reads d
    {
      Covers(crossword, d.m) && NodeConsistent(d.m)
    }

    /** `b` holds dictionary words of the right lengths for puzzle variables, and keeps the entries of `given`. */
    ghost predicate Keeps(b: Assignment, given: AssignmentMap)
      reads b
    {
      WellAssigned(crossword, b.m) && Extends(b.m, given)
    }

    /** `__init__`: every variable starts with its own copy of the whole dictionary. */
    constructor(crossword: Crossword)
      requires WellFormed(crossword)
      ensures this.crossword == crossword && fresh(domains)
      ensures domains.m == map v | v in crossword.variables :: crossword.words
      ensures Valid()
    {
      this.crossword := crossword;
      domains := new Domains(map v | v in crossword.variables :: crossword.words);
    }

    /**
     * `solve()`: node consistency, then `ac3` over every arc with its
     * answer ignored, then a backtracking search from the empty
     * assignment. What it returns is a solution of the puzzle.
     */
    method Solve() returns (r: Option<AssignmentMap>)
      requires Valid()
      modifies this, domains
      ensures r.Some? ==> IsSolution(crossword, r.value)
    {
      EnforceNodeConsistency();
      LengthFilteredSpec(old(domains.m));
      var _ := AC3(None);
      var start := new Assignment(map[]);
      r := Backtrack(start);
      if r.Some? {
        CompleteCovers(crossword, r.value);
      }
    }

    /** `enforce_node_consistency`: drops from each domain the words of the wrong length. */
    method EnforceNodeConsistency()
      modifies domains
      ensures domains.m == LengthFiltered(old(domains.m))
    {
      var dm := domains;
      ghost var start := dm.m;
      var todo := dm.m.Keys;
      while todo != {}
        invariant todo <= start.Keys && dm.m.Keys == start.Keys
        invariant forall v | v in start :: dm.m[v] == if v in todo then start[v] else Fitting(v, start[v])
        decreases todo
      {
        var d :| d in todo;
        var words := dm.m[d];
        while words != {}
          invariant words <= start[d] && dm.m.Keys == start.Keys
          invariant dm.m[d] == words + Fitting(d, start[d] - words)
          invariant forall v | v in start && v != d :: dm.m[v] == if v in todo then start[v] else Fitting(v, start[v])
          decreases words
        {
          var word :| word in words;
          FittingStep(d, start[d], words, word);
          if |word| != d.length {
            dm.m := dm.m[d := dm.m[d] - {word}];
          }
          words := words - {word};
        }
        todo := todo - {d};
      }
      assert dm.m == LengthFiltered(start);
    }

    /**
     * `revise(x, y)`: keeps in `x`'s domain exactly the words some word of
     * `y`'s domain agrees with at the overlap, and reports whether any word
     * went. The source reads `overlaps[x, y]` as a pair and indexes both
     * words with it, so the arc must be constrained and the words long enough.
     */
    method Revise(x: Variable, y: Variable) returns (revised: bool)
      requires Valid() && Constrained(crossword, (x, y))
      requires forall w | w in domains.m[x] :: crossword.overlaps[(x, y)].value.0 < |w|
      requires forall u | u in domains.m[y] :: crossword.overlaps[(x, y)].value.1 < |u|
      modifies domains
      ensures domains.m == old(domains.m)[x := Supported(old(domains.m[x]), old(domains.m[y]), crossword.overlaps[(x, y)].value)]
      ensures revised <==> domains.m[x] != old(domains.m[x])
    {
      var dm := domains;
      var ol := crossword.overlaps[(x, y)].value;
      revised := false;
      ghost var dx := dm.m[x];
      ghost var dy := dm.m[y];
      ghost var seen: set<Word> := {};
      var todo := dm.m[x];
      assert todo + Supported(seen, dy, ol) == dx;
      assert dm.m == old(dm.m)[x := dx];
      while todo != {}
        invariant todo + seen == dx && todo !! seen
        invariant dm.m == old(dm.m)[x := todo + Supported(seen, dy, ol)]
        invariant revised <==> Supported(seen, dy, ol) != seen
        decreases todo
      {
        var i :| i in todo;
        var rc := true;
        var ys := dm.m[y];
        while ys != {}
          invariant ys <= dy
          invariant rc <==> forall u | u in dy && u !in ys :: !Agree(i, u, ol)
          decreases ys
        {
          var j :| j in ys;
          assert Agree(i, j, ol) <==> i[ol.0] == j[ol.1];
          if i[ol.0] == j[ol.1] {
            rc := false;
          }
          ys := ys - {j};
        }
        ReviseStep(todo, seen, i, dy, ol);
        if rc {
          dm.m := dm.m[x := dm.m[x] - {i}];
          revised := true;
        }
        todo := todo - {i};
        seen := seen + {i};
      }
      assert todo + Supported(seen, dy, ol) == Supported(dx, dy, ol);
    }

    /** The queue `ac3` builds when given no arcs: every arc whose variables overlap. */
    method AllArcs() returns (q: seq<Arc>)
      ensures forall p :: p in q <==> p in ConstrainedArcs(crossword)
    {
      q := [];
      var keys := crossword.overlaps.Keys;
      while keys != {}
        invariant keys <= crossword.overlaps.Keys
        invariant forall p :: p in q <==> p in ConstrainedArcs(crossword) && p !in keys
        decreases keys
      {
        var j :| j in keys;
        if crossword.overlaps[j].Some? {
          q := q + [j];
        }
        keys := keys - {j};
      }
    }

    /** After a revision of `x` against `y`: queues `(n, x)` for every other neighbour `n` of `x`, each once. */
    method RequeueNeighbors(q: seq<Arc>, x: Variable, y: Variable) returns (q': seq<Arc>)
      ensures |q| <= |q'| && q'[..|q|] == q
      ensures ArcsInto(x, y, Neighbors(crossword, x), q'[|q|..])
    {
      var added := ArcsFrom(Neighbors(crossword, x), x, y);
      q' := q + added;
      assert q'[|q|..] == added;
    }

    /** The loop of the requeue: `(n, x)` for each `n` of `ns` other than `y`. */
    method ArcsFrom(ns: set<Variable>, x: Variable, y: Variable) returns (added: seq<Arc>)
      ensures ArcsInto(x, y, ns, added)
    {
      added := [];
      var todo := ns;
      ghost var done: set<Variable> := {};
      while todo != {}
        invariant todo + done == ns && todo !! done
        invariant ArcsInto(x, y, done, added)
        decreases todo
      {
        var n :| n in todo;
        if n != y {
          added := added + [(n, x)];
        }
        todo := todo - {n};
        done := done + {n};
      }
    }

    /**
     * One pass of `ac3`'s loop: pops the last arc `(x, y)` and revises `x`
     * against `y`. When words went, it reports an emptied domain of `x`, or
     * else queues `(n, x)` for the other neighbours `n` of `x`.
     */
    method PopAndRevise(q: seq<Arc>) returns (q': seq<Arc>, emptied: bool)
      requires Ready() && q != [] && Constrained(crossword, q[|q| - 1])
      modifies domains
      ensures domains.m == Revised(crossword, old(domains.m), q[|q| - 1])
      ensures emptied <==> domains.m[q[|q| - 1].0] != old(domains.m)[q[|q| - 1].0] && domains.m[q[|q| - 1].0] == {}
      ensures |q| - 1 <= |q'| && q'[..|q| - 1] == q[..|q| - 1]
      ensures emptied || domains.m[q[|q| - 1].0] == old(domains.m)[q[|q| - 1].0] ==> |q'| == |q| - 1
      ensures !emptied && domains.m[q[|q| - 1].0] != old(domains.m)[q[|q| - 1].0] ==>
                ArcsInto(q[|q| - 1].0, q[|q| - 1].1, Neighbors(crossword, q[|q| - 1].0), q'[|q| - 1..])
    {
      var dm := domains;
      var x, y := q[|q| - 1].0, q[|q| - 1].1;
      var rest := q[..|q| - 1];
      q' := rest;
      emptied := false;
      var revised := Revise(x, y);
      if revised {
        if dm.m[x] == {} {
          emptied := true;
        } else {
          q' := RequeueNeighbors(rest, x, y);
        }
      }
      assert |rest| == |q| - 1 && q'[..|rest|] == rest;
    }

    /**
     * `ac3(arcs)`: revises arcs taken from the back of a queue, re-queueing
     * the arcs into a variable whose domain lost words, until the queue is
     * empty or a domain becomes empty. The queue is `arcs` when that is a
     * non-empty list and every constrained arc otherwise, so an empty list
     * behaves like no list. On success every arc is consistent, provided
     * every constrained arc missing from a given queue was consistent to
     * begin with.
     */
    method AC3(arcs: Option<seq<Arc>>) returns (ok: bool)
      requires Ready()
      requires arcs.Some? ==> forall p | p in arcs.value :: Constrained(crossword, p)
      modifies domains
      ensures Ready() && Shrunk(old(domains.m), domains.m)
      ensures KeepsSolutions(crossword, old(domains.m), domains.m)
      ensures !ok ==> exists v | v in domains.m :: domains.m[v] == {} && old(domains.m)[v] != {}
      ensures ok ==> forall v | v in domains.m && domains.m[v] == {} :: old(domains.m)[v] == {}
      ensures ok && (arcs.None? || arcs.value == [] || Pending(crossword, old(domains.m), arcs.value)) ==>
                AllArcsConsistent(crossword, domains.m)
    {
      var dm := domains;
      ghost var start := dm.m;
      ghost var covered := arcs.None? || arcs.value == [] || Pending(crossword, start, arcs.value);
      var q: seq<Arc>;
      if arcs.Some? && arcs.value != [] {
        q := arcs.value;
      } else {
        q := AllArcs();
      }
      while q != []
        invariant dm == domains && Ready() && Shrunk(start, dm.m)
        invariant KeepsSolutions(crossword, start, dm.m)
        invariant forall v | v in dm.m && dm.m[v] == {} :: start[v] == {}
        invariant forall p | p in q :: Constrained(crossword, p)
        invariant covered ==> Pending(crossword, dm.m, q)
        decreases Pairs(dm.m), |q|
      {
        ghost var before, q0 := dm.m, q;
        var emptied;
        q, emptied := PopAndRevise(q);
        RoundStore(crossword, start, before, q0, dm.m, q, emptied);
        if covered && !emptied {
          RoundQueue(crossword, before, q0, dm.m, q);
        }
        if emptied {
          return false;
        }
      }
      ok := true;
    }

    /**
     * `consistent(assignment)`: every assigned word has its variable's
     * length, assigned neighbours agree where they cross, and no word is
     * used twice (the list of values is as long as the set of them). The
     * source indexes the words at the overlap offsets, so they must be
     * long enough to be read there.
     */
    method Consistent(a: AssignmentMap) returns (complete: bool)
      requires WellFormed(crossword) && a.Keys <= crossword.variables && IndexSafe(crossword, a)
      ensures complete == ConsistentAssignment(crossword, a)
    {
      complete := true;
      var todo := a.Keys;
      ghost var done: set<Variable> := {};
      while todo != {}
        invariant todo + done == a.Keys
        invariant complete <==> forall v | v in done :: Fits(crossword, a, v)
        decreases todo
      {
        var v :| v in todo;
        complete := CheckVariable(a, v, complete);
        todo := todo - {v};
        done := done + {v};
      }
      if !UniqueWords(a) {
        complete := false;
      }
    }

    /** One round of `consistent`'s outer loop: `complete` stays true exactly when `v` fits. */
    method CheckVariable(a: AssignmentMap, v: Variable, complete0: bool) returns (complete: bool)
      requires WellFormed(crossword) && a.Keys <= crossword.variables && IndexSafe(crossword, a) && v in a
      ensures complete == (complete0 && Fits(crossword, a, v))
    {
      complete := complete0;
      if |a[v]| != v.length {
        complete := false;
      }
      var ns := Neighbors(crossword, v);
      ghost var seen: set<Variable> := {};
      while ns != {}
        invariant ns + seen == Neighbors(crossword, v)
        invariant complete <==> (complete0 && |a[v]| == v.length &&
          forall n | n in a && n in seen :: AgreeAt(crossword, a, v, n))
        decreases ns
      {
        var n :| n in ns;
        if Clash(crossword, a, v, n) {
          complete := false;
        }
        ns := ns - {n};
        seen := seen + {n};
      }
    }

    /** The count of `order_domain_values` for one word: the unassigned neighbours of `v` whose domain holds it. */
    method RuledOutCount(dm: DomainMap, v: Variable, a: AssignmentMap, val: Word) returns (counter: nat)
      requires Covers(crossword, dm) && v in crossword.variables
      ensures counter == RuledOut(crossword, dm, v, a, val)
    {
      counter := 0;
      var ns := Neighbors(crossword, v);
      ghost var seen: set<Variable> := {};
      while ns != {}
        invariant ns + seen == Neighbors(crossword, v) && ns !! seen
        invariant counter == |Colliding(crossword, dm, v, a, val, seen)|
        decreases ns
      {
        var n :| n in ns;
        CollidingStep(crossword, dm, v, a, val, seen, n);
        if n !in a {
          var c := Occurrences(dm[n], val);
          counter := counter + c;
        }
        ns := ns - {n};
        seen := seen + {n};
      }
    }

    /** The innermost loop of `order_domain_values`: how many words of `ds` equal `val`. */
    method Occurrences(ds: set<Word>, val: Word) returns (c: nat)
      ensures c == if val in ds then 1 else 0
    {
      c := 0;
      var todo := ds;
      while todo != {}
        invariant todo <= ds
        invariant c == if val in ds && val !in todo then 1 else 0
        decreases todo
      {
        var d :| d in todo;
        if val == d {
          c := c + 1;
        }
        todo := todo - {d};
      }
    }

    /**
     * The counting loop of `order_domain_values`: each word of `var`'s
     * domain with its count, and the words in the order they were counted.
     */
    method RuledOutCounts(dm: DomainMap, v: Variable, a: AssignmentMap) returns (temp: map<Word, nat>, order: seq<Word>)
      requires Covers(crossword, dm) && v in crossword.variables
      ensures temp == Counts(crossword, dm, v, a, dm[v]) && Lists(order, dm[v])
    {
      temp := map[];
      order := [];
      var todo := dm[v];
      ghost var done: set<Word> := {};
      assert temp == Counts(crossword, dm, v, a, done);
      while todo != {}
        invariant todo + done == dm[v] && todo !! done
        invariant temp == Counts(crossword, dm, v, a, done) && Lists(order, done)
        decreases todo
      {
        var val :| val in todo;
        var counter := RuledOutCount(dm, v, a, val);
        ListGrows(order, done, val);
        CountsGrow(crossword, dm, v, a, done, val);
        temp := temp[val := counter];
        order := order + [val];
        todo := todo - {val};
        done := done + {val};
      }
      assert done == dm[v];
    }

    /**
     * `order_domain_values(var, assignment)`: the words of `var`'s domain,
     * each once, in non-decreasing order of how many unassigned neighbours
     * hold that same word; the sort is stable over the order the words
     * were counted in.
     */
    method OrderDomainValues(v: Variable, a: AssignmentMap) returns (vals: seq<Word>)
      requires Covers(crossword, domains.m) && v in crossword.variables
      ensures multiset(vals) == multiset(domains.m[v])
      ensures forall i, j | 0 <= i < j < |vals| ::
        RuledOut(crossword, domains.m, v, a, vals[i]) <= RuledOut(crossword, domains.m, v, a, vals[j])
    {
      var temp, order := RuledOutCounts(domains.m, v, a);
      ListsSetOnce(order, domains.m[v]);
      vals := SortBy(order, temp);
      forall w | w in vals ensures temp[w] == RuledOut(crossword, domains.m, v, a, w) {
        assert w in multiset(vals);
        assert w in multiset(order);
      }
    }

    /**
     * `select_unassigned_variable(assignment)`: an unassigned variable with
     * the fewest words left and, among those, the most neighbours. The
     * source takes the head of a list that is empty when every variable is
     * assigned, so some variable must be unassigned.
     */
    method SelectUnassignedVariable(a: AssignmentMap) returns (v: Variable)
      requires Valid() && exists u :: u in crossword.variables && u !in a
      ensures v in crossword.variables && v !in a
      ensures forall u | u in crossword.variables && u !in a :: |domains.m[v]| <= |domains.m[u]|
      ensures forall u | u in crossword.variables && u !in a && |domains.m[u]| == |domains.m[v]| ::
        |Neighbors(crossword, u)| <= |Neighbors(crossword, v)|
    {
      var dm := domains;
      var uv: map<Variable, set<Word>> := map[];
      var keys := dm.m.Keys;
      while keys != {}
        invariant keys <= dm.m.Keys
        invariant forall u :: u in uv <==> u in dm.m && u !in keys && u !in a
        invariant forall u | u in uv :: uv[u] == dm.m[u]
        decreases keys
      {
        var u :| u in keys;
        if u !in a {
          uv := uv[u := dm.m[u]];
        }
        keys := keys - {u};
      }
      // `mdl` starts at infinity, written `None`.
      var mdl: Option<nat> := None;
      var rest := uv.Keys;
      while rest != {}
        invariant rest <= uv.Keys
        invariant mdl.None? ==> rest == uv.Keys
        invariant mdl.Some? ==> exists u | u in uv && u !in rest :: |uv[u]| == mdl.value
        invariant mdl.Some? ==> forall u | u in uv && u !in rest :: mdl.value <= |uv[u]|
        decreases rest
      {
        var u :| u in rest;
        if mdl.None? || |uv[u]| < mdl.value {
          mdl := Some(|uv[u]|);
        }
        rest := rest - {u};
      }
      var u0 :| u0 in crossword.variables && u0 !in a;
      assert u0 in uv;
      var least := mdl.value;
      ghost var all := uv;
      var scan := uv.Keys;
      while scan != {}
        invariant scan <= all.Keys
        invariant forall u :: u in uv <==> u in all && (u in scan || |all[u]| <= least)
        invariant forall u | u in uv :: uv[u] == all[u]
        decreases scan
      {
        var u :| u in scan;
        if |uv[u]| > least {
          uv := uv - {u};
        }
        scan := scan - {u};
      }
      MostNeighborsExists(crossword, uv.Keys);
      v :| MostNeighbors(crossword, uv.Keys, v);
      FewestThenMost(crossword, dm.m, a, all, least, uv, v);
    }

    /**
     * `backtrack(assignment)`. A complete assignment is returned as it is.
     * Otherwise the method snapshots the assignment and the domains once,
     * picks a variable, and tries its ordered words: a word that keeps the
     * assignment consistent and survives `ac3` on the arcs into the variable
     * is searched from recursively, on the same assignment object. A failed
     * check rebinds the assignment and the domains to the snapshots, which
     * later tries then change in place; a failed recursive search restores
     * nothing. A result is always complete, every word in it is a
     * dictionary word of its variable's length, it keeps the entries it
     * was given and, unless it was given complete, it passed `consistent`.
     */
    method Backtrack(assignment: Assignment) returns (r: Option<AssignmentMap>)
      requires Ready() && WellAssigned(crossword, assignment.m)
      modifies this, domains, assignment
      ensures Ready() && (domains == old(domains) || fresh(domains))
      ensures Candidates(old(domains))
      ensures WellAssigned(crossword, assignment.m) && Extends(assignment.m, old(assignment.m))
      ensures IsComplete(crossword, old(assignment.m)) ==> r == Some(old(assignment.m))
      ensures r.Some? ==> IsComplete(crossword, r.value) && WellAssigned(crossword, r.value) && Extends(r.value, old(assignment.m))
      ensures r.Some? && !IsComplete(crossword, old(assignment.m)) ==> ConsistentAssignment(crossword, r.value)
      decreases crossword.variables - assignment.m.Keys, 3
    {
      if IsComplete(crossword, assignment.m) {
        return Some(assignment.m);
      }
      var ba := new Assignment(assignment.m);
      var bd := new Domains(domains.m);
      var x, vals := Choose(assignment.m);
      r := Search(x, vals, assignment, ba, bd, assignment.m);
    }

    /**
     * The loop of `backtrack` over the words for `x`, starting on the
     * caller's assignment object `a`, with the snapshots `ba` and `bd` to
     * fall back on.
     */
    method Search(x: Variable, vals: seq<Word>, a: Assignment, ba: Assignment, bd: Domains, ghost given: AssignmentMap)
      returns (r: Option<AssignmentMap>)
      requires Ready() && Candidates(bd) && Keeps(a, given) && Keeps(ba, given)
      requires x in crossword.variables && x !in given
      requires forall i | 0 <= i < |vals| :: vals[i] in crossword.words && |vals[i]| == x.length
      modifies this, domains, a, ba, bd
      ensures Ready() && (domains == old(domains) || domains == bd || fresh(domains))
      ensures Candidates(old(domains)) && Keeps(a, given)
      ensures r.Some? ==>
        IsComplete(crossword, r.value) && WellAssigned(crossword, r.value) &&
        Extends(r.value, given) && ConsistentAssignment(crossword, r.value)
      decreases crossword.variables - given.Keys, 2
    {
      ghost var d0 := domains;
      var cur := a;
      var i := 0;
      while i < |vals|
        invariant Ready() && (domains == d0 || domains == bd || fresh(domains))
        invariant cur == a || cur == ba
        invariant Candidates(d0) && Candidates(bd)
        invariant Keeps(a, given) && Keeps(ba, given)
        decreases |vals| - i
      {
        var found, fine, inferred;
        cur, found, fine, inferred := Attempt(x, vals[i], cur, ba, bd, given);
        if found.Some? {
          return found;
        }
        i := i + 1;
      }
      return None;
    }

    /**
     * One pass of `backtrack`'s loop: assigns `w` to `x` in `a`, and either
     * finds a result, or hands back the assignment object the next pass
     * works on. `fine` is the answer of `consistent` and `inferred` that of
     * `ac3`; when either is false the next pass works on the snapshot `ba`
     * and the domains become the snapshot `bd`, and otherwise the next pass
     * goes on with `a` as the recursion left it.
     */
    method Attempt(x: Variable, w: Word, a: Assignment, ba: Assignment, bd: Domains, ghost given: AssignmentMap)
      returns (next: Assignment, found: Option<AssignmentMap>, fine: bool, inferred: bool)
      requires Ready() && Candidates(bd)
      requires x in crossword.variables && x !in given && w in crossword.words && |w| == x.length
      requires Keeps(a, given)
      requires Keeps(ba, given)
      modifies this, domains, a
      ensures Ready() && (domains == old(domains) || domains == bd || fresh(domains))
      ensures Candidates(old(domains))
      ensures Candidates(bd)
      ensures Keeps(a, given) && x in a.m && a.m[x] == w
      ensures next == a || (next == ba && domains == bd)
      ensures fine == ConsistentAssignment(crossword, old(a.m)[x := w]) && (inferred ==> fine)
      ensures fine && inferred ==> next == a
      ensures !(fine && inferred) ==> next == ba && domains == bd && found.None?
      ensures found.Some? ==>
        IsComplete(crossword, found.value) && WellAssigned(crossword, found.value) &&
        Extends(found.value, given) && ConsistentAssignment(crossword, found.value)
      decreases crossword.variables - given.Keys, 1
    {
      fine := Place(a, x, w);
      next, found := a, None;
      inferred := false;
      if fine {
        inferred, found := Descend(a, x, given);
      }
      if !inferred {
        next := ba;
        domains := bd;
      }
    }

    /** `assignment[var] = value` followed by `consistent(assignment)`. */
    method Place(a: Assignment, x: Variable, w: Word) returns (fine: bool)
      requires WellFormed(crossword) && WellAssigned(crossword, a.m)
      requires x in crossword.variables && w in crossword.words && |w| == x.length
      modifies a
      ensures a.m == old(a.m)[x := w] && WellAssigned(crossword, a.m)
      ensures fine == ConsistentAssignment(crossword, a.m)
    {
      a.m := a.m[x := w];
      WellAssignedIsIndexSafe(crossword, a.m);
      fine := Consistent(a.m);
    }

    /**
     * What `backtrack` does once `x` is assigned and the assignment passed
     * `consistent`: `ac3` on the arcs into `x`, and, when that leaves no
     * domain empty, the recursive search, whose result counts only when it
     * is a non-empty dictionary.
     */
    method Descend(a: Assignment, x: Variable, ghost given: AssignmentMap) returns (ok: bool, found: Option<AssignmentMap>)
      requires Ready() && WellAssigned(crossword, a.m) && ConsistentAssignment(crossword, a.m)
      requires Extends(a.m, given) && x in a.m && x !in given
      modifies this, domains, a
      ensures Ready() && (domains == old(domains) || fresh(domains))
      ensures Candidates(old(domains))
      ensures Keeps(a, given) && Extends(a.m, old(a.m))
      ensures !ok ==> found.None?
      ensures found.Some? ==>
        IsComplete(crossword, found.value) && WellAssigned(crossword, found.value) &&
        Extends(found.value, given) && ConsistentAssignment(crossword, found.value)
      decreases crossword.variables - given.Keys, 0
    {
      found := None;
      ok := Infer(x);
      if !ok {
        return;
      }
      ghost var checked := a.m;
      assert crossword.variables - a.m.Keys < crossword.variables - given.Keys by {
        assert x in crossword.variables - given.Keys;
      }
      var result := Backtrack(a);
      ExtendsTransitive(a.m, checked, given);
      if result.Some? && result.value != map[] {
        ExtendsTransitive(result.value, checked, given);
        found := result;
      }
    }

    /**
     * The choice `backtrack` makes for an incomplete assignment: the
     * variable `select_unassigned_variable` picks and the words
     * `order_domain_values` lists for it, all of them candidates for it.
     */
    method Choose(a: AssignmentMap) returns (x: Variable, vals: seq<Word>)
      requires Ready() && a.Keys <= crossword.variables && |a| != |crossword.variables|
      ensures x in crossword.variables && x !in a
      ensures forall i | 0 <= i < |vals| :: vals[i] in domains.m[x]
      ensures forall i | 0 <= i < |vals| :: vals[i] in crossword.words && |vals[i]| == x.length
    {
      CompleteCovers(crossword, a);
      x := SelectUnassignedVariable(a);
      vals := OrderDomainValues(x, a);
      forall i | 0 <= i < |vals| ensures vals[i] in domains.m[x] {
        assert vals[i] in multiset(domains.m[x]);
      }
    }

    /** The inference step of `backtrack`: `ac3` on the arcs into the variable just assigned. */
    method Infer(x: Variable) returns (ok: bool)
      requires Ready() && x in crossword.variables
      modifies domains
      ensures Ready() && Shrunk(old(domains.m), domains.m)
      ensures KeepsSolutions(crossword, old(domains.m), domains.m)
      ensures !ok ==> exists v | v in domains.m :: domains.m[v] == {} && old(domains.m)[v] != {}
      ensures ok ==> forall v | v in domains.m && domains.m[v] == {} :: old(domains.m)[v] == {}
    {
      var arcs := NeighborArcs(x);
      ok := AC3(Some(arcs));
    }

    /** The arcs `backtrack` hands to `ac3` after assigning `x`: `(n, x)` for every neighbour `n`. */
    method NeighborArcs(x: Variable) returns (arcs: seq<Arc>)
      ensures forall p :: p in arcs <==> p.1 == x && p.0 in Neighbors(crossword, x)
    {
      arcs := [];
      var ns := Neighbors(crossword, x);
      while ns != {}
        invariant ns <= Neighbors(crossword, x)
        invariant forall p :: p in arcs <==> p.1 == x && p.0 in Neighbors(crossword, x) && p.0 !in ns
        decreases ns
      {
        var n :| n in ns;
        arcs := arcs + [(n, x)];
        ns := ns - {n};
      }
    }
  }

  /**
   * `select_unassigned_variable`'s result: `all` holds the unassigned
   * variables' domains, `least` is the smallest size among them, `uv`
   * keeps those of that size, and `v` has the most neighbours in `uv`.
   */
  lemma FewestThenMost(cw: Crossword, dm: DomainMap, a: AssignmentMap, all: map<Variable, set<Word>>, least: nat,
                       uv: map<Variable, set<Word>>, v: Variable)
    requires dm.Keys == cw.variables
    requires forall u :: u in all <==> u in dm && u !in a
    requires forall u | u in all :: all[u] == dm[u] && least <= |all[u]|
    requires forall u :: u in uv <==> u in all && |all[u]| <= least
    requires MostNeighbors(cw, uv.Keys, v)
    ensures v in cw.variables && v !in a
    ensures forall u | u in cw.variables && u !in a :: |dm[v]| <= |dm[u]|
    ensures forall u | u in cw.variables && u !in a && |dm[u]| == |dm[v]| :: |Neighbors(cw, u)| <= |Neighbors(cw, v)|
  {
  }

  /**
   * What `PopAndRevise` did to the store `before` and the queue `q0`: the
   * store became `after`, `emptied` says that words went and `x`'s domain
   * is empty, and the queue became `q'`, the rest of `q0` followed, when
   * words went and none is empty, by the arcs into `x`.
   */
  ghost predicate Popped(cw: Crossword, before: DomainMap, q0: seq<Arc>, after: DomainMap, q': seq<Arc>, emptied: bool)
    requires q0 != [] && Constrained(cw, q0[|q0| - 1]) && q0[|q0| - 1].0 in before && q0[|q0| - 1].1 in before
  {
    var (x, y) := q0[|q0| - 1];
    && after == Revised(cw, before, (x, y))
    && (emptied <==> after[x] != before[x] && after[x] == {})
    && |q0| - 1 <= |q'| && q'[..|q0| - 1] == q0[..|q0| - 1]
    && (emptied || after[x] == before[x] ==> |q'| == |q0| - 1)
    && (!emptied && after[x] != before[x] ==> ArcsInto(x, y, Neighbors(cw, x), q'[|q0| - 1..]))
  }

  /**
   * What one pass of `ac3`'s loop keeps of the store: it still covers the
   * puzzle, is node-consistent and has only shrunk, it lost no solution
   * it had at the start, a pass reporting `emptied` left empty a domain
   * that was not empty at the start, any other pass empties no domain
   * that was not empty at the start, and the loop's measure went down.
   */
  lemma RoundStore(cw: Crossword, start: DomainMap, before: DomainMap, q0: seq<Arc>, after: DomainMap, q': seq<Arc>,
                   emptied: bool)
    requires Covers(cw, before) && NodeConsistent(before) && Shrunk(start, before)
    requires q0 != [] && q0[|q0| - 1].0 in before && q0[|q0| - 1].1 in before
    requires forall p | p in q0 :: Constrained(cw, p)
    requires Popped(cw, before, q0, after, q', emptied)
    requires KeepsSolutions(cw, start, before)
    ensures Covers(cw, after) && NodeConsistent(after) && Shrunk(start, after)
    ensures KeepsSolutions(cw, start, after)
    ensures emptied ==> exists v | v in after :: after[v] == {} && start[v] != {}
    ensures !emptied && (forall v | v in before && before[v] == {} :: start[v] == {}) ==>
              forall v | v in after && after[v] == {} :: start[v] == {}
    ensures !emptied ==> forall p | p in q' :: Constrained(cw, p)
    ensures Pairs(after) < Pairs(before) || (after == before && |q'| < |q0|)
  {
    var x, y := q0[|q0| - 1].0, q0[|q0| - 1].1;
    ReviseKeepsSolutions(cw, before, x, y);
    KeepsSolutionsTransitive(cw, start, before, after);
    QueueAfter(q0, q', x, y, Neighbors(cw, x), !emptied && after[x] != before[x]);
    RoundKept(cw, start, before, q0, x, y, after, q');
    if emptied {
      assert after[x] == {};
    }
  }

  /** What one pass of `ac3`'s loop keeps of the queue: every constrained arc is queued or consistent. */
  lemma RoundQueue(cw: Crossword, before: DomainMap, q0: seq<Arc>, after: DomainMap, q': seq<Arc>)
    requires WellFormed(cw) && before.Keys == cw.variables
    requires q0 != [] && Constrained(cw, q0[|q0| - 1])
    requires Popped(cw, before, q0, after, q', false)
    requires Pending(cw, before, q0)
    ensures Pending(cw, after, q')
  {
    var x, y := q0[|q0| - 1].0, q0[|q0| - 1].1;
    QueueAfter(q0, q', x, y, Neighbors(cw, x), after[x] != before[x]);
    RoundPending(cw, before, q0, x, y, q');
  }

  /**
   * The queue after a pass that popped `(x, y)` from `q0`: the rest of
   * `q0`, followed, when `requeued`, by the arcs into `x` from `ns`.
   */
  lemma QueueAfter(q0: seq<Arc>, q': seq<Arc>, x: Variable, y: Variable, ns: set<Variable>, requeued: bool)
    requires q0 != [] && |q0| - 1 <= |q'| && q'[..|q0| - 1] == q0[..|q0| - 1]
    requires !requeued ==> |q'| == |q0| - 1
    requires requeued ==> ArcsInto(x, y, ns, q'[|q0| - 1..])
    ensures forall p | p in q0[..|q0| - 1] :: p in q'
    ensures forall p | p in q' :: p in q0 || (p.1 == x && p.0 in ns)
    ensures requeued ==> forall m | m in ns && m != y :: (m, x) in q'
  {
    var n := |q0| - 1;
    assert q' == q'[..n] + q'[n..];
    assert q0 == q0[..n] + [q0[n]];
  }

  /**
   * What one round of `ac3` keeps once `(x, y)` is popped from `q0`, `x` is
   * revised against `y` and the queue becomes `q'`: the store still covers
   * the puzzle, is node-consistent and has only shrunk, it lost a
   * (variable, word) pair unless the revision changed nothing, and every
   * queued arc is constrained.
   */
  lemma RoundKept(cw: Crossword, start: DomainMap, before: DomainMap, q0: seq<Arc>, x: Variable, y: Variable,
                  after: DomainMap, q': seq<Arc>)
    requires Covers(cw, before) && NodeConsistent(before) && Shrunk(start, before)
    requires q0 != [] && q0[|q0| - 1] == (x, y) && x in before && y in before
    requires forall p | p in q0 :: Constrained(cw, p)
    requires Constrained(cw, (x, y))
    requires after == before[x := Supported(before[x], before[y], cw.overlaps[(x, y)].value)]
    requires forall p | p in q' :: p in q0 || (p.1 == x && p.0 in Neighbors(cw, x))
    ensures Covers(cw, after) && NodeConsistent(after) && Shrunk(start, after)
    ensures after[x] == before[x] ==> after == before
    ensures after[x] != before[x] ==> Pairs(after) < Pairs(before)
    ensures forall p | p in q' :: Constrained(cw, p)
  {
    var s := Supported(before[x], before[y], cw.overlaps[(x, y)].value);
    SupportedSpec(before[x], before[y], cw.overlaps[(x, y)].value);
    PairsShrink(before, x, s);
    Narrowed(cw, start, before, x, s);
  }

  /** `ArcStep` for the queue `q0` whose last arc `(x, y)` was popped. */
  lemma RoundPending(cw: Crossword, before: DomainMap, q0: seq<Arc>, x: Variable, y: Variable, q': seq<Arc>)
    requires WellFormed(cw) && before.Keys == cw.variables
    requires q0 != [] && q0[|q0| - 1] == (x, y) && Constrained(cw, (x, y))
    requires forall p | p in q0[..|q0| - 1] :: p in q'
    requires Supported(before[x], before[y], cw.overlaps[(x, y)].value) != before[x] ==>
               forall n | n in Neighbors(cw, x) && n != y :: (n, x) in q'
    requires Pending(cw, before, q0)
    ensures Pending(cw, before[x := Supported(before[x], before[y], cw.overlaps[(x, y)].value)], q')
  {
    assert q0 == q0[..|q0| - 1] + [(x, y)];
    assert Requeued(cw, before, x, y, q0[..|q0| - 1], q');
    ArcStep(cw, before, x, y, q0[..|q0| - 1], q');
  }
}
