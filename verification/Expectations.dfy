// Prerequisites of mock expectations (gmock-spec-builders.cc): what has to be satisfied before an expectation may
// match, and what is retired once it does.
module Expectations {

  class ExpectationBase {
    const immediatePrerequisites: seq<ExpectationBase>
    ghost const rank: nat       // order of creation; prerequisites are named after they exist
    var satisfied: bool         // whether the cardinality accepts the calls made so far
    var callCount: nat
    var retired: bool

    constructor (prerequisites: seq<ExpectationBase>, ghost created: nat)
      ensures immediatePrerequisites == prerequisites && rank == created
      ensures callCount == 0 && !retired && !satisfied
    {
      immediatePrerequisites, rank := prerequisites, created;
      callCount, retired, satisfied := 0, false, false;
    }

    /** Whether all prerequisites, immediate or not, are satisfied. The worklist keeps no record of what it has seen. */
    method AllPrerequisitesAreSatisfied(ghost all: set<ExpectationBase>) returns (r: bool)
      requires Acyclic(all) && this in all
      ensures r <==> AllSatisfied(this, all)
    {
      hide IsPrerequisite, AllSatisfied, SatisfiedFrom;
      var expectations := [this];
      while expectations != []
        invariant forall e :: e in expectations ==> e in all
        invariant AllSatisfied(this, all) <==> forall e :: e in expectations ==> AllSatisfied(e, all)
        decreases TotalWeight(expectations, all)
      {
        var last := |expectations| - 1;
        var exp := expectations[last];
        ghost var before := expectations;
        expectations := expectations[..last];
        assert before == expectations + [exp];
        ghost var rest := expectations;
        SatisfiedUnfolds(exp, all);
        var i := 0;
        while i < |exp.immediatePrerequisites|
          invariant 0 <= i <= |exp.immediatePrerequisites|
          invariant forall e :: e in expectations ==> e in all
          invariant AllSatisfied(this, all)
            <==> (forall e :: e in expectations ==> AllSatisfied(e, all)) && SatisfiedFrom(exp, i, all)
          invariant TotalWeight(expectations, all) <= TotalWeight(rest, all) + FirstWeights(exp, i, all)
        {
          var next := exp.immediatePrerequisites[i];
          SatisfiedFromUnfolds(exp, i, all);
          if !next.satisfied {
            return false;
          }
          ghost var prefix := expectations;
          expectations := expectations + [next];
          assert expectations[..|expectations| - 1] == prefix;
          assert next in expectations && forall e :: e in expectations <==> e in prefix || e == next;
          i := i + 1;
        }
        SatisfiedFromUnfolds(exp, i, all);
      }
      return true;
    }

    /** Retires every prerequisite that is not retired yet, and nothing else. */
    method RetireAllPreRequisites(ghost all: set<ExpectationBase>)
      requires Acyclic(all) && this in all && RetiredClosed(all)
      modifies all`retired
      ensures forall e :: e in all ==> (e.retired <==> old(e.retired) || IsPrerequisite(e, this, all))
      ensures RetiredClosed(all)
    {
      hide IsPrerequisite;
      if retired {
        RetiredAll(this, all);
        return;
      }
      ghost var left := set e | e in all && !e.retired;
      var expectations := [this];
      while expectations != []
        invariant forall e :: e in expectations ==> e in all && (e == this || IsPrerequisite(e, this, all))
        invariant forall e :: e in all ==> (e.retired <==> e !in left)
        invariant forall e :: e in all && old(e.retired) ==> e.retired
        invariant forall e :: e in all && e.retired ==> old(e.retired) || IsPrerequisite(e, this, all)
        invariant forall e :: e in all && (e.retired || e == this) && e !in expectations ==> ImmediateRetired(e)
        decreases |left|, |expectations|
      {
        var last := |expectations| - 1;
        var exp := expectations[last];
        ghost var before, leftBefore := expectations, left;
        expectations := expectations[..last];
        assert before == expectations + [exp];
        var i := 0;
        while i < |exp.immediatePrerequisites|
          invariant 0 <= i <= |exp.immediatePrerequisites|
          invariant forall e :: e in expectations ==> e in all && (e == this || IsPrerequisite(e, this, all))
          invariant forall e :: e in all ==> (e.retired <==> e !in left)
          invariant forall e :: e in all && old(e.retired) ==> e.retired
          invariant forall e :: e in all && e.retired ==> old(e.retired) || IsPrerequisite(e, this, all)
          invariant forall e :: e in all && (e.retired || e == this) && e != exp && e !in expectations ==> ImmediateRetired(e)
          invariant forall j :: 0 <= j < i ==> exp.immediatePrerequisites[j].retired
          invariant |left| < |leftBefore| || (left == leftBefore && |expectations| == last)
        {
          var next := exp.immediatePrerequisites[i];
          if !next.retired {
            Further(next, exp, this, all);
            next.retired := true;
            left := left - {next};
            expectations := expectations + [next];
          }
          i := i + 1;
        }
      }
      RetiredAll(this, all);
    }

    /**
     * Adds to result the unsatisfied prerequisites worth naming: the first ones on each chain of satisfied
     * prerequisites that were never called.
     */
    method FindUnsatisfiedPrerequisites(result: set<ExpectationBase>, ghost all: set<ExpectationBase>)
      returns (found: set<ExpectationBase>)
      requires Acyclic(all) && this in all
      ensures forall p :: p in all ==> (p in found <==> p in result || FirstUnsatisfied(p, this, 0, all))
      ensures forall p :: p in found ==> p in result || p in all
    {
      hide FirstUnsatisfied;
      found := result;
      var expectations := [this];
      while expectations != []
        invariant forall e :: e in expectations ==> e in all
        invariant forall p :: p in found ==> p in result || p in all
        invariant forall p :: p in all ==>
          (p in result || FirstUnsatisfied(p, this, 0, all) <==> p in found || Owed(p, expectations, all))
        decreases TotalWeight(expectations, all)
      {
        var last := |expectations| - 1;
        var exp := expectations[last];
        ghost var before := expectations;
        expectations := expectations[..last];
        assert before == expectations + [exp];
        ghost var rest := expectations;
        var i := 0;
        while i < |exp.immediatePrerequisites|
          invariant 0 <= i <= |exp.immediatePrerequisites|
          invariant forall e :: e in expectations ==> e in all
          invariant forall p :: p in found ==> p in result || p in all
          invariant forall p :: p in all ==>
            (p in result || FirstUnsatisfied(p, this, 0, all)
             <==> p in found || Owed(p, expectations, all) || FirstUnsatisfied(p, exp, i, all))
          invariant TotalWeight(expectations, all) <= TotalWeight(rest, all) + FirstWeights(exp, i, all)
        {
          var next := exp.immediatePrerequisites[i];
          ghost var prefix := expectations;
          FirstUnfolds(exp, i, all);
          if next.satisfied {
            if next.callCount == 0 {
              expectations := expectations + [next];
              assert expectations[..|expectations| - 1] == prefix;
              assert next in expectations && forall e :: e in expectations <==> e in prefix || e == next;
            }
          } else {
            found := found + {next};
          }
          i := i + 1;
        }
        FirstUnfolds(exp, i, all);
      }
    }
  }

  // ---- the graph ----

  /** Closed under prerequisites, which are always older. */
  ghost predicate Acyclic(all: set<ExpectationBase>) {
    forall e, i :: e in all && 0 <= i < |e.immediatePrerequisites| ==>
      e.immediatePrerequisites[i] in all && e.immediatePrerequisites[i].rank < e.rank
  }

  /** p is a prerequisite of e, at any distance. */
  ghost predicate IsPrerequisite(p: ExpectationBase, e: ExpectationBase, all: set<ExpectationBase>)
    requires Acyclic(all) && e in all
    decreases e.rank
  {
    exists i :: 0 <= i < |e.immediatePrerequisites|
      && (p == e.immediatePrerequisites[i] || IsPrerequisite(p, e.immediatePrerequisites[i], all))
  }

  /** Prerequisites of a prerequisite of e are prerequisites of e. */
  lemma {:induction false} Further(p: ExpectationBase, q: ExpectationBase, e: ExpectationBase, all: set<ExpectationBase>)
    requires Acyclic(all) && q in all && e in all && p in q.immediatePrerequisites
    requires q == e || IsPrerequisite(q, e, all)
    ensures IsPrerequisite(p, e, all)
    decreases e.rank
  {
    if q != e {
      var i :| 0 <= i < |e.immediatePrerequisites|
        && (q == e.immediatePrerequisites[i] || IsPrerequisite(q, e.immediatePrerequisites[i], all));
      Further(p, q, e.immediatePrerequisites[i], all);
    }
  }

  // ---- satisfaction ----

  ghost predicate AllSatisfied(e: ExpectationBase, all: set<ExpectationBase>)
    requires Acyclic(all) && e in all
    reads all
  {
    forall p :: p in all && IsPrerequisite(p, e, all) ==> p.satisfied
  }

  /** The prerequisites of e from n on are satisfied, with all of theirs. */
  ghost predicate SatisfiedFrom(e: ExpectationBase, n: nat, all: set<ExpectationBase>)
    requires Acyclic(all) && e in all
    reads all
  {
    forall i :: n <= i < |e.immediatePrerequisites| ==>
      e.immediatePrerequisites[i].satisfied && AllSatisfied(e.immediatePrerequisites[i], all)
  }

  lemma SatisfiedUnfolds(e: ExpectationBase, all: set<ExpectationBase>)
    requires Acyclic(all) && e in all
    ensures AllSatisfied(e, all) <==> SatisfiedFrom(e, 0, all)
  {
  }

  lemma SatisfiedFromUnfolds(e: ExpectationBase, n: nat, all: set<ExpectationBase>)
    requires Acyclic(all) && e in all
    ensures SatisfiedFrom(e, n, all) <==> n < |e.immediatePrerequisites| ==>
      e.immediatePrerequisites[n].satisfied && AllSatisfied(e.immediatePrerequisites[n], all) && SatisfiedFrom(e, n + 1, all)
  {
  }

  // ---- why the worklists end ----

  /** The number of chains of prerequisites below e, which is how often the worklist meets them. */
  ghost function Weight(e: ExpectationBase, all: set<ExpectationBase>): nat
    requires Acyclic(all) && e in all
    decreases e.rank, 1, 0
  {
    1 + FirstWeights(e, |e.immediatePrerequisites|, all)
  }

  ghost function FirstWeights(e: ExpectationBase, n: nat, all: set<ExpectationBase>): nat
    requires Acyclic(all) && e in all && n <= |e.immediatePrerequisites|
    decreases e.rank, 0, n
  {
    if n == 0 then 0 else FirstWeights(e, n - 1, all) + Weight(e.immediatePrerequisites[n - 1], all)
  }

  ghost function TotalWeight(es: seq<ExpectationBase>, all: set<ExpectationBase>): nat
    requires Acyclic(all) && forall e :: e in es ==> e in all
  {
    if es == [] then 0 else TotalWeight(es[..|es| - 1], all) + Weight(es[|es| - 1], all)
  }

  // ---- retirement ----

  ghost predicate ImmediateRetired(e: ExpectationBase)
    reads e.immediatePrerequisites
  {
    forall i :: 0 <= i < |e.immediatePrerequisites| ==> e.immediatePrerequisites[i].retired
  }

  /** What the short-cut relies on: nothing is retired before its prerequisites are. */
  ghost predicate RetiredClosed(all: set<ExpectationBase>)
    requires Acyclic(all)
    reads all
  {
    forall e :: e in all && e.retired ==> ImmediateRetired(e)
  }

  /** Then all prerequisites, at any distance, are. */
  lemma {:induction false} RetiredAll(e: ExpectationBase, all: set<ExpectationBase>)
    requires Acyclic(all) && e in all && RetiredClosed(all) && ImmediateRetired(e)
    ensures forall p :: p in all && IsPrerequisite(p, e, all) ==> p.retired
    decreases e.rank
  {
    forall i | 0 <= i < |e.immediatePrerequisites|
      ensures forall p :: p in all && IsPrerequisite(p, e.immediatePrerequisites[i], all) ==> p.retired
    {
      RetiredAll(e.immediatePrerequisites[i], all);
    }
  }

  // ---- explanation ----

  /** p is unsatisfied, and a chain of satisfied prerequisites without calls leads to it from e, by its prerequisites from n on. */
  ghost predicate FirstUnsatisfied(p: ExpectationBase, e: ExpectationBase, n: nat, all: set<ExpectationBase>)
    requires Acyclic(all) && e in all
    reads all
    decreases e.rank, 0
  {
    exists i :: n <= i < |e.immediatePrerequisites| && Explains(p, e.immediatePrerequisites[i], all)
  }

  ghost predicate Explains(p: ExpectationBase, next: ExpectationBase, all: set<ExpectationBase>)
    requires Acyclic(all) && next in all
    reads all
    decreases next.rank, 1
  {
    if next.satisfied then next.callCount == 0 && FirstUnsatisfied(p, next, 0, all) else p == next
  }

  ghost predicate Owed(p: ExpectationBase, es: seq<ExpectationBase>, all: set<ExpectationBase>)
    requires Acyclic(all) && forall e :: e in es ==> e in all
    reads all
  {
    exists e :: e in es && FirstUnsatisfied(p, e, 0, all)
  }

  lemma FirstUnfolds(e: ExpectationBase, n: nat, all: set<ExpectationBase>)
    requires Acyclic(all) && e in all
    ensures n < |e.immediatePrerequisites| ==> forall p :: p in all ==>
      (FirstUnsatisfied(p, e, n, all) <==> Explains(p, e.immediatePrerequisites[n], all) || FirstUnsatisfied(p, e, n + 1, all))
    ensures n >= |e.immediatePrerequisites| ==> forall p :: p in all ==> !FirstUnsatisfied(p, e, n, all)
  {
  }

  /** What is found is an unsatisfied prerequisite. */
  lemma {:induction false} FoundIsUnsatisfied(p: ExpectationBase, e: ExpectationBase, all: set<ExpectationBase>)
    requires Acyclic(all) && e in all && FirstUnsatisfied(p, e, 0, all)
    ensures p in all && !p.satisfied && IsPrerequisite(p, e, all)
    decreases e.rank
  {
    var i :| 0 <= i < |e.immediatePrerequisites| && Explains(p, e.immediatePrerequisites[i], all);
    if e.immediatePrerequisites[i].satisfied {
      FoundIsUnsatisfied(p, e.immediatePrerequisites[i], all);
    }
  }

  /** A satisfied prerequisite of e that was called, although one of its own prerequisites is not satisfied. */
  ghost predicate CalledTooEarly(q: ExpectationBase, e: ExpectationBase, all: set<ExpectationBase>)
    requires Acyclic(all) && q in all && e in all
    reads all
  {
    IsPrerequisite(q, e, all) && q.satisfied && q.callCount > 0 && !AllSatisfied(q, all)
  }

  /** A failed check of the prerequisites has something to name, unless that is hidden behind a prerequisite called too early. */
  lemma {:induction false} FailureIsExplained(e: ExpectationBase, all: set<ExpectationBase>)
    requires Acyclic(all) && e in all && !AllSatisfied(e, all)
    ensures || (exists p :: p in all && FirstUnsatisfied(p, e, 0, all))
            || (exists q :: q in all && CalledTooEarly(q, e, all))
    decreases e.rank
  {
    SatisfiedUnfolds(e, all);
    var i :| 0 <= i < |e.immediatePrerequisites|
      && !(e.immediatePrerequisites[i].satisfied && AllSatisfied(e.immediatePrerequisites[i], all));
    var next := e.immediatePrerequisites[i];
    if !next.satisfied {
      assert Explains(next, next, all);
    } else if next.callCount == 0 {
      FailureIsExplained(next, all);
      if p :| p in all && FirstUnsatisfied(p, next, 0, all) {
        assert Explains(p, next, all);
      } else {
        var q :| q in all && CalledTooEarly(q, next, all);
        assert CalledTooEarly(q, e, all);
      }
    } else {
      assert CalledTooEarly(next, e, all);
    }
  }

  /** As long as calls respect prerequisites, the check fails exactly when there is something to name. */
  lemma ExplainedIff(e: ExpectationBase, all: set<ExpectationBase>)
    requires Acyclic(all) && e in all
    requires forall q :: q in all ==> !CalledTooEarly(q, e, all)
    ensures AllSatisfied(e, all) <==> forall p :: p in all ==> !FirstUnsatisfied(p, e, 0, all)
  {
    if !AllSatisfied(e, all) {
      FailureIsExplained(e, all);
    }
    forall p | p in all && FirstUnsatisfied(p, e, 0, all) ensures !AllSatisfied(e, all) {
      FoundIsUnsatisfied(p, e, all);
    }
  }
}
