/** Thread names and program counters, shared by the step machines. A thread without an
    entry is idle: it has not called anything. */
module Threads {
  type Tid = nat

  /** The threads whose program counter satisfies p. */
  ghost function Having<Pc>(pcs: map<Tid, Pc>, p: Pc -> bool): set<Tid> {
    set t | t in pcs && p(pcs[t])
  }

  function One(b: bool): nat {
    if b then 1 else 0
  }

  /** Moving one thread moves the number of threads satisfying p by that thread alone. */
  lemma HavingAfterMove<Pc>(pcs: map<Tid, Pc>, t: Tid, pc: Pc, p: Pc -> bool)
    ensures |Having(pcs[t := pc], p)| + One(t in pcs && p(pcs[t])) == |Having(pcs, p)| + One(p(pc))
  {
    var before, after := Having(pcs, p), Having(pcs[t := pc], p);
    var others := before - {t};
    forall u
      ensures u in after <==> (u == t && p(pc)) || u in others
    {
      assert u != t && u in pcs ==> pcs[t := pc][u] == pcs[u];
    }
    assert t in before <==> t in pcs && p(pcs[t]);
    SplitOff(before, others, t);
    SplitOff(after, others, t);
  }

  lemma SplitOff(a: set<Tid>, others: set<Tid>, t: Tid)
    requires t !in others && forall u :: u in a <==> u in others || (u == t && t in a)
    ensures |a| == |others| + One(t in a)
  {
    assert a == if t in a then others + {t} else others;
  }

  lemma HavingNone<Pc>(pcs: map<Tid, Pc>, p: Pc -> bool, t: Tid)
    requires |Having(pcs, p)| == 0 && t in pcs
    ensures !p(pcs[t])
  {
    assert t !in Having(pcs, p);
  }
}
