/**
 * The finite-state automaton of pastel/sys/automaton/automaton.h.
 *
 * States are identified by natural numbers (the graph's vertex handles);
 * a transition is identified by its (from, symbol, to) triple, because the
 * automaton never stores the same triple twice.  The symbol `None` is the
 * empty symbol of an epsilon-transition.  The branch-set of a (state,
 * symbol) pair is the set of states reachable from the state with that
 * symbol; the automaton keeps it in a hash map, the model derives it from
 * the transitions.  Two counters are kept up to date by every operation:
 * the number of epsilon-transitions and the number of ambiguous
 * (non-deterministic) transitions, which is the number of transitions
 * minus the number of non-empty branch-sets.
 */
module Automata {
  import opened Wrappers
  import opened AutomatonMarks

  datatype Transition<Symbol> = Transition(from: nat, symbol: Option<Symbol>, to: nat)

  /** The key of a branch-set: a state and a symbol. */
  datatype Branch<Symbol> = Branch(state: nat, symbol: Option<Symbol>)

  function BranchOf<S>(t: Transition<S>): Branch<S> {
    Branch(t.from, t.symbol)
  }

  /** The branch-set of `b`: the states reached from `b.state` with `b.symbol`. */
  function Targets<S(==)>(ts: set<Transition<S>>, b: Branch<S>): (r: set<nat>)
    ensures forall q :: q in r <==> Transition(b.state, b.symbol, q) in ts
  {
    set t | t in ts && BranchOf(t) == b :: t.to
  }

  /** The keys of the non-empty branch-sets. */
  ghost function Branches<S>(ts: set<Transition<S>>): set<Branch<S>> {
    set t | t in ts :: BranchOf(t)
  }

  function Epsilons<S(==)>(ts: set<Transition<S>>): set<Transition<S>> {
    set t | t in ts && t.symbol.None?
  }

  /** The number of transitions beyond the first of each branch-set. */
  ghost function Ambiguity<S>(ts: set<Transition<S>>): int {
    |ts| - |Branches(ts)|
  }

  /** At most one transition leaves a given state with a given symbol. */
  ghost predicate SingleTargets<S>(ts: set<Transition<S>>) {
    forall t, u :: t in ts && u in ts && BranchOf(t) == BranchOf(u) ==> t == u
  }

  /** Does a transition start or end at state `q`? */
  predicate Touches<S>(t: Transition<S>, q: nat) {
    t.from == q || t.to == q
  }

  lemma InBranches<S>(ts: set<Transition<S>>, b: Branch<S>)
    ensures b in Branches(ts) <==> Targets(ts, b) != {}
  {
    if b in Branches(ts) {
      var u :| u in ts && BranchOf(u) == b;
      assert u.to in Targets(ts, b);
    }
    if Targets(ts, b) != {} {
      var q :| q in Targets(ts, b);
      assert BranchOf(Transition(b.state, b.symbol, q)) == b;
    }
  }

  lemma BranchesAdd<S>(ts: set<Transition<S>>, t: Transition<S>)
    ensures Branches(ts + {t}) == Branches(ts) + {BranchOf(t)}
  {
  }

  /** Adding a transition adds one ambiguous transition exactly when its branch-set was non-empty. */
  lemma AmbiguityAdd<S>(ts: set<Transition<S>>, t: Transition<S>)
    requires t !in ts
    ensures Ambiguity(ts + {t}) == Ambiguity(ts) + (if Targets(ts, BranchOf(t)) != {} then 1 else 0)
  {
    BranchesAdd(ts, t);
    InBranches(ts, BranchOf(t));
  }

  /** Removing a transition removes one ambiguous transition exactly when its branch-set stays non-empty. */
  lemma AmbiguityRemove<S>(ts: set<Transition<S>>, t: Transition<S>)
    requires t in ts
    ensures Ambiguity(ts - {t}) == Ambiguity(ts) - (if Targets(ts - {t}, BranchOf(t)) != {} then 1 else 0)
  {
    assert ts == (ts - {t}) + {t};
    AmbiguityAdd(ts - {t}, t);
  }

  /**
   * There are never more branch-sets than transitions, and as many exactly
   * when every branch-set holds at most one state.
   */
  lemma {:induction false} BranchesBound<S>(ts: set<Transition<S>>)
    ensures |Branches(ts)| <= |ts|
    ensures |Branches(ts)| == |ts| <==> SingleTargets(ts)
  {
    if ts == {} {
      assert Branches(ts) == {};
    } else {
      var t :| t in ts;
      var rest := ts - {t};
      assert ts == rest + {t};
      BranchesBound(rest);
      BranchesAdd(rest, t);
      if BranchOf(t) in Branches(rest) {
        var u :| u in rest && BranchOf(u) == BranchOf(t);
        assert u != t;
      } else {
        assert |Branches(ts)| == |Branches(rest)| + 1;
        if SingleTargets(rest) {
          forall v, w | v in ts && w in ts && BranchOf(v) == BranchOf(w)
            ensures v == w
          {
          }
        }
      }
    }
  }

  lemma EpsilonsAdd<S>(ts: set<Transition<S>>, t: Transition<S>)
    requires t !in ts
    ensures |Epsilons(ts + {t})| == |Epsilons(ts)| + (if t.symbol.None? then 1 else 0)
  {
    if t.symbol.None? {
      assert Epsilons(ts + {t}) == Epsilons(ts) + {t};
    } else {
      assert Epsilons(ts + {t}) == Epsilons(ts);
    }
  }

  lemma EpsilonsRemove<S>(ts: set<Transition<S>>, t: Transition<S>)
    requires t in ts
    ensures |Epsilons(ts - {t})| == |Epsilons(ts)| - (if t.symbol.None? then 1 else 0)
  {
    assert ts == (ts - {t}) + {t};
    EpsilonsAdd(ts - {t}, t);
  }

  /**
   * The transitions of two automata with disjoint states share no
   * branch-set, so their counters add up.
   */
  lemma CountsUnion<S>(ts: set<Transition<S>>, us: set<Transition<S>>, ss: set<nat>, vs: set<nat>)
    requires ss !! vs
    requires forall t :: t in ts ==> t.from in ss
    requires forall u :: u in us ==> u.from in vs
    ensures |Epsilons(ts + us)| == |Epsilons(ts)| + |Epsilons(us)|
    ensures Ambiguity(ts + us) == Ambiguity(ts) + Ambiguity(us)
  {
    assert Epsilons(ts + us) == Epsilons(ts) + Epsilons(us);
    assert Epsilons(ts) !! Epsilons(us);
    assert ts !! us;
    assert Branches(ts + us) == Branches(ts) + Branches(us);
    assert Branches(ts) !! Branches(us) by {
      forall t, u | t in ts && u in us
        ensures BranchOf(t) != BranchOf(u)
      {
      }
    }
  }

  class Automaton<Symbol(==)> {
    var states: set<nat>
    /** A state number no state has used; the graph allocates fresh vertices. */
    var nextState: nat
    var transitions: set<Transition<Symbol>>
    var startSet: seq<nat>
    var finalSet: seq<nat>
    var epsilonCount: int
    var ambiguousCount: int

    /** Transitions join states of this automaton; start and final lists mark states once. */
    ghost predicate Structure()
      reads this
    {
      && (forall q :: q in states ==> q < nextState)
      && (forall t :: t in transitions ==> t.from in states && t.to in states)
      && Marks(startSet, states) && Marks(finalSet, states)
    }

    /** The counters agree with the transitions. */
    ghost predicate Counted()
      reads this
    {
      && epsilonCount == |Epsilons(transitions)|
      && ambiguousCount == Ambiguity(transitions)
    }

    ghost predicate Valid()
      reads this
    {
      Structure() && Counted()
    }

    /** Automaton(): the empty automaton. */
    constructor ()
      ensures Valid()
      ensures states == {} && transitions == {} && startSet == [] && finalSet == []
      ensures epsilonCount == 0 && ambiguousCount == 0
    {
      states, nextState, transitions := {}, 0, {};
      startSet, finalSet := [], [];
      epsilonCount, ambiguousCount := 0, 0;
    }

    /**
     * Automaton(const Automaton&): the same states, transitions, start and
     * final states, rebuilt with addTransition, addStart and addFinal.
     */
    constructor Copy(that: Automaton<Symbol>)
      requires that.Valid()
      ensures Valid()
      ensures states == that.states && transitions == that.transitions
      ensures startSet == that.startSet && finalSet == that.finalSet
      ensures epsilonCount == that.epsilonCount && ambiguousCount == that.ambiguousCount
    {
      states, nextState, transitions := that.states, that.nextState, {};
      startSet, finalSet := [], [];
      epsilonCount, ambiguousCount := 0, 0;
      new;
      CopyTransitions(that.transitions);
      startSet := CopyMarks(that.startSet);
      finalSet := CopyMarks(that.finalSet);
    }

    /** The transition loop of the copy constructor. */
    method CopyTransitions(source: set<Transition<Symbol>>)
      requires Valid() && transitions == {}
      requires forall t :: t in source ==> t.from in states && t.to in states
      modifies this
      ensures Valid() && transitions == source
      ensures states == old(states) && nextState == old(nextState)
      ensures startSet == old(startSet) && finalSet == old(finalSet)
    {
      var rest := source;
      while rest != {}
        invariant Valid() && rest <= source && transitions == source - rest
        invariant states == old(states) && nextState == old(nextState)
        invariant startSet == old(startSet) && finalSet == old(finalSet)
        decreases |rest|
      {
        var t :| t in rest;
        var added := AddTransition(t.from, t.symbol, t.to, true);
        rest := rest - {t};
      }
    }

    /** clear(): removes every state, transition and mark and zeroes the counters. */
    method Clear()
      modifies this
      ensures Valid()
      ensures states == {} && transitions == {} && startSet == [] && finalSet == []
      ensures epsilonCount == 0 && ambiguousCount == 0 && nextState == old(nextState)
    {
      states, transitions := {}, {};
      startSet, finalSet := [], [];
      epsilonCount, ambiguousCount := 0, 0;
    }

    /** clearTransitions(): removes every transition; states and marks stay. */
    method ClearTransitions()
      requires Valid()
      modifies this
      ensures Valid()
      ensures transitions == {} && epsilonCount == 0 && ambiguousCount == 0
      ensures states == old(states) && nextState == old(nextState)
      ensures startSet == old(startSet) && finalSet == old(finalSet)
    {
      transitions := {};
      epsilonCount, ambiguousCount := 0, 0;
      assert Branches(transitions) == {};
    }

    /** clearStart(): unmarks the first start state until none is left. */
    method ClearStart()
      requires Valid()
      modifies this
      ensures Valid() && startSet == []
      ensures states == old(states) && nextState == old(nextState)
      ensures transitions == old(transitions) && finalSet == old(finalSet)
      ensures epsilonCount == old(epsilonCount) && ambiguousCount == old(ambiguousCount)
    {
      while |startSet| > 0
        invariant Valid()
        invariant states == old(states) && nextState == old(nextState)
        invariant transitions == old(transitions) && finalSet == old(finalSet)
        invariant epsilonCount == old(epsilonCount) && ambiguousCount == old(ambiguousCount)
        decreases |startSet|
      {
        RemoveStart(startSet[0]);
      }
    }

    /** clearFinal(): unmarks the first final state until none is left. */
    method ClearFinal()
      requires Valid()
      modifies this
      ensures Valid() && finalSet == []
      ensures states == old(states) && nextState == old(nextState)
      ensures transitions == old(transitions) && startSet == old(startSet)
      ensures epsilonCount == old(epsilonCount) && ambiguousCount == old(ambiguousCount)
    {
      while |finalSet| > 0
        invariant Valid()
        invariant states == old(states) && nextState == old(nextState)
        invariant transitions == old(transitions) && startSet == old(startSet)
        invariant epsilonCount == old(epsilonCount) && ambiguousCount == old(ambiguousCount)
        decreases |finalSet|
      {
        RemoveFinal(finalSet[0]);
      }
    }

    /** swap(): exchanges the whole contents of two automata. */
    method Swap(that: Automaton<Symbol>)
      modifies this, that
      ensures states == old(that.states) && that.states == old(states)
      ensures nextState == old(that.nextState) && that.nextState == old(nextState)
      ensures transitions == old(that.transitions) && that.transitions == old(transitions)
      ensures startSet == old(that.startSet) && that.startSet == old(startSet)
      ensures finalSet == old(that.finalSet) && that.finalSet == old(finalSet)
      ensures epsilonCount == old(that.epsilonCount) && that.epsilonCount == old(epsilonCount)
      ensures ambiguousCount == old(that.ambiguousCount) && that.ambiguousCount == old(ambiguousCount)
    {
      states, that.states := that.states, states;
      nextState, that.nextState := that.nextState, nextState;
      transitions, that.transitions := that.transitions, transitions;
      startSet, that.startSet := that.startSet, startSet;
      finalSet, that.finalSet := that.finalSet, finalSet;
      epsilonCount, that.epsilonCount := that.epsilonCount, epsilonCount;
      ambiguousCount, that.ambiguousCount := that.ambiguousCount, ambiguousCount;
    }

    /** addState(): a new state, with no transitions and no marks. */
    method AddState() returns (q: nat)
      requires Valid()
      modifies this
      ensures Valid()
      ensures q !in old(states) && states == old(states) + {q}
      ensures transitions == old(transitions) && startSet == old(startSet) && finalSet == old(finalSet)
      ensures epsilonCount == old(epsilonCount) && ambiguousCount == old(ambiguousCount)
    {
      q := nextState;
      states := states + {q};
      nextState := nextState + 1;
    }

    /**
     * removeState(): removes the transitions at the state one by one, then
     * its marks, then the state.
     */
    method RemoveState(q: nat)
      requires Valid() && q in states
      modifies this
      ensures Valid()
      ensures states == old(states) - {q} && nextState == old(nextState)
      ensures transitions == set t | t in old(transitions) && !Touches(t, q)
      ensures startSet == Unmarked(old(startSet), q) && finalSet == Unmarked(old(finalSet), q)
    {
      while exists t :: t in transitions && Touches(t, q)
        invariant Valid() && transitions <= old(transitions)
        invariant forall t :: t in old(transitions) && !Touches(t, q) ==> t in transitions
        invariant states == old(states) && nextState == old(nextState)
        invariant startSet == old(startSet) && finalSet == old(finalSet)
        decreases |transitions|
      {
        var t :| t in transitions && Touches(t, q);
        RemoveTransition(t);
      }
      RemoveFinal(q);
      RemoveStart(q);
      states := states - {q};
    }

    /** addStart(): appends the state to the start states unless it is one already. */
    method AddStart(q: nat)
      requires Valid() && q in states
      modifies this
      ensures Valid() && startSet == Marked(old(startSet), q)
      ensures states == old(states) && nextState == old(nextState)
      ensures transitions == old(transitions) && finalSet == old(finalSet)
      ensures epsilonCount == old(epsilonCount) && ambiguousCount == old(ambiguousCount)
    {
      if q in startSet {
        return;
      }
      MarkedDistinct(startSet, q);
      startSet := startSet + [q];
    }

    /** removeStart(): erases the state's start mark, if it has one. */
    method RemoveStart(q: nat)
      requires Valid()
      modifies this
      ensures Valid() && startSet == Unmarked(old(startSet), q)
      ensures states == old(states) && nextState == old(nextState)
      ensures transitions == old(transitions) && finalSet == old(finalSet)
      ensures epsilonCount == old(epsilonCount) && ambiguousCount == old(ambiguousCount)
    {
      if q !in startSet {
        UnmarkedAbsent(startSet, q);
        return;
      }
      UnmarkedDistinct(startSet, q);
      startSet := Unmarked(startSet, q);
    }

    /** addFinal(): appends the state to the final states unless it is one already. */
    method AddFinal(q: nat)
      requires Valid() && q in states
      modifies this
      ensures Valid() && finalSet == Marked(old(finalSet), q)
      ensures states == old(states) && nextState == old(nextState)
      ensures transitions == old(transitions) && startSet == old(startSet)
      ensures epsilonCount == old(epsilonCount) && ambiguousCount == old(ambiguousCount)
    {
      if q in finalSet {
        return;
      }
      MarkedDistinct(finalSet, q);
      finalSet := finalSet + [q];
    }

    /** removeFinal(): erases the state's final mark, if it has one. */
    method RemoveFinal(q: nat)
      requires Valid()
      modifies this
      ensures Valid() && finalSet == Unmarked(old(finalSet), q)
      ensures states == old(states) && nextState == old(nextState)
      ensures transitions == old(transitions) && startSet == old(startSet)
      ensures epsilonCount == old(epsilonCount) && ambiguousCount == old(ambiguousCount)
    {
      if q !in finalSet {
        UnmarkedAbsent(finalSet, q);
        return;
      }
      UnmarkedDistinct(finalSet, q);
      finalSet := Unmarked(finalSet, q);
    }

    /**
     * addTransition(): when the customization allows it (`allowed`), adds
     * the transition, or finds it already present; a new transition whose
     * branch-set was non-empty is ambiguous.
     */
    method AddTransition(from: nat, symbol: Option<Symbol>, to: nat, allowed: bool)
      returns (r: Option<Transition<Symbol>>)
      requires Valid() && from in states && to in states
      modifies this
      ensures Valid()
      ensures r == (if allowed then Some(Transition(from, symbol, to)) else None)
      ensures transitions == if allowed then old(transitions) + {Transition(from, symbol, to)} else old(transitions)
      ensures var added := allowed && Transition(from, symbol, to) !in old(transitions);
        && epsilonCount == old(epsilonCount) + (if added && symbol.None? then 1 else 0)
        && ambiguousCount == old(ambiguousCount)
             + (if added && Targets(old(transitions), Branch(from, symbol)) != {} then 1 else 0)
      ensures states == old(states) && nextState == old(nextState)
      ensures startSet == old(startSet) && finalSet == old(finalSet)
    {
      if !allowed {
        return None;
      }
      var t := Transition(from, symbol, to);
      var ambiguous := false;
      var branch := Targets(transitions, Branch(from, symbol));
      if branch != {} {
        ambiguous := true;
        if to in branch {
          return Some(t);
        }
      }
      AmbiguityAdd(transitions, t);
      EpsilonsAdd(transitions, t);
      transitions := transitions + {t};
      if symbol.None? {
        epsilonCount := epsilonCount + 1;
      }
      if ambiguous {
        ambiguousCount := ambiguousCount + 1;
      }
      r := Some(t);
    }

    /**
     * removeTransition(), corrected: the transition stops being ambiguous
     * whenever its branch-set keeps another state.
     */
    method RemoveTransition(t: Transition<Symbol>)
      requires Valid() && t in transitions
      modifies this
      ensures Valid()
      ensures transitions == old(transitions) - {t}
      ensures epsilonCount == old(epsilonCount) - (if t.symbol.None? then 1 else 0)
      ensures ambiguousCount == old(ambiguousCount)
        - (if Targets(old(transitions) - {t}, BranchOf(t)) != {} then 1 else 0)
      ensures states == old(states) && nextState == old(nextState)
      ensures startSet == old(startSet) && finalSet == old(finalSet)
    {
      AmbiguityRemove(transitions, t);
      EpsilonsRemove(transitions, t);
      if t.symbol.None? {
        epsilonCount := epsilonCount - 1;
      }
      transitions := transitions - {t};
      if Targets(transitions, BranchOf(t)) != {} {
        ambiguousCount := ambiguousCount - 1;
      }
    }

    /**
     * removeTransition() as written: the ambiguous counter goes down only
     * when exactly one state is left in the branch-set.
     */
    method RemoveTransitionAsWritten(t: Transition<Symbol>)
      requires Structure() && t in transitions
      modifies this
      ensures Structure()
      ensures transitions == old(transitions) - {t}
      ensures epsilonCount == old(epsilonCount) - (if t.symbol.None? then 1 else 0)
      ensures ambiguousCount == old(ambiguousCount)
        - (if |Targets(old(transitions) - {t}, BranchOf(t))| == 1 then 1 else 0)
      ensures states == old(states) && nextState == old(nextState)
      ensures startSet == old(startSet) && finalSet == old(finalSet)
    {
      if t.symbol.None? {
        epsilonCount := epsilonCount - 1;
      }
      transitions := transitions - {t};
      if |Targets(transitions, BranchOf(t))| == 1 {
        ambiguousCount := ambiguousCount - 1;
      }
    }

    /**
     * merge(), corrected: moves the states, transitions and marks of
     * `that` into this automaton and moves its counters along.
     */
    method Merge(that: Automaton<Symbol>)
      requires Valid() && that.Valid() && that != this
      requires states !! that.states
      modifies this, that
      ensures Valid() && that.Valid()
      ensures states == old(states) + old(that.states)
      ensures transitions == old(transitions) + old(that.transitions)
      ensures startSet == old(startSet) + old(that.startSet)
      ensures finalSet == old(finalSet) + old(that.finalSet)
      ensures that.states == {} && that.transitions == {} && that.startSet == [] && that.finalSet == []
    {
      CountsUnion(transitions, that.transitions, states, that.states);
      MergeStructure(that, epsilonCount + that.epsilonCount, ambiguousCount + that.ambiguousCount, 0, 0);
      assert that.Counted() by {
        assert Branches(that.transitions) == {};
      }
    }

    /** merge() as written: the counters of `that` are neither added here nor reset there. */
    method MergeAsWritten(that: Automaton<Symbol>)
      requires Valid() && that.Valid() && that != this
      requires states !! that.states
      modifies this, that
      ensures Structure() && that.Structure()
      ensures states == old(states) + old(that.states)
      ensures transitions == old(transitions) + old(that.transitions)
      ensures startSet == old(startSet) + old(that.startSet)
      ensures finalSet == old(finalSet) + old(that.finalSet)
      ensures that.states == {} && that.transitions == {} && that.startSet == [] && that.finalSet == []
      ensures epsilonCount == old(epsilonCount) && ambiguousCount == old(ambiguousCount)
      ensures that.epsilonCount == old(that.epsilonCount) && that.ambiguousCount == old(that.ambiguousCount)
    {
      MergeStructure(that, epsilonCount, ambiguousCount, that.epsilonCount, that.ambiguousCount);
    }

    /**
     * The graph and mark splicing shared by both versions of merge(); they
     * differ in the counters they leave in the two automata.
     */
    method MergeStructure(that: Automaton<Symbol>, epsilons: int, ambiguous: int, thatEpsilons: int, thatAmbiguous: int)
      requires Structure() && that.Structure() && that != this
      requires states !! that.states
      modifies this, that
      ensures Structure() && that.Structure()
      ensures states == old(states) + old(that.states)
      ensures transitions == old(transitions) + old(that.transitions)
      ensures startSet == old(startSet) + old(that.startSet)
      ensures finalSet == old(finalSet) + old(that.finalSet)
      ensures that.states == {} && that.transitions == {} && that.startSet == [] && that.finalSet == []
      ensures that.nextState == old(that.nextState)
      ensures epsilonCount == epsilons && ambiguousCount == ambiguous
      ensures that.epsilonCount == thatEpsilons && that.ambiguousCount == thatAmbiguous
    {
      epsilonCount, ambiguousCount := epsilons, ambiguous;
      that.epsilonCount, that.ambiguousCount := thatEpsilons, thatAmbiguous;
      MarksAppend(startSet, that.startSet, states, that.states);
      MarksAppend(finalSet, that.finalSet, states, that.states);
      states := states + that.states;
      if nextState < that.nextState {
        nextState := that.nextState;
      }
      transitions := transitions + that.transitions;
      startSet := startSet + that.startSet;
      finalSet := finalSet + that.finalSet;
      that.states, that.transitions := {}, {};
      that.startSet, that.finalSet := [], [];
    }

    function StartStates(): nat
      reads this
    {
      |startSet|
    }

    function FinalStates(): nat
      reads this
    {
      |finalSet|
    }

    function States(): nat
      reads this
    {
      |states|
    }

    function Transitions(): nat
      reads this
    {
      |transitions|
    }

    /** epsilonTransitions(): the number of transitions with the empty symbol. */
    function EpsilonTransitions(): (r: int)
      reads this
      requires Valid()
      ensures r == |set t | t in transitions && t.symbol.None?|
    {
      epsilonCount
    }

    /** ambiguousTransitions(): never negative, and zero exactly when no branch-set holds two states. */
    function AmbiguousTransitions(): (r: int)
      reads this
      requires Valid()
      ensures r >= 0
      ensures r == 0 <==> forall t :: t in transitions ==> Targets(transitions, BranchOf(t)) == {t.to}
    {
      BranchesBound(transitions);
      SingleTargetsSizes(transitions);
      ambiguousCount
    }

    /** useful(): there is a start state and a final state. */
    predicate Useful(): (r: bool)
      reads this
      ensures r <==> (exists q :: q in startSet) && (exists q :: q in finalSet)
    {
      assert |startSet| > 0 ==> startSet[0] in startSet;
      assert |finalSet| > 0 ==> finalSet[0] in finalSet;
      StartStates() > 0 && FinalStates() > 0
    }

    /**
     * deterministic(): read off the counters.  With counters that agree
     * with the transitions, it holds exactly when there is at most one
     * start state, no epsilon-transition and at most one transition from a
     * state with a symbol.
     */
    predicate Deterministic(): (r: bool)
      reads this
      ensures r <==> |startSet| <= 1 && epsilonCount == 0 && ambiguousCount == 0
      ensures Valid() ==>
        (r <==> |startSet| <= 1
                && (forall t :: t in transitions ==> t.symbol.Some?)
                && (forall t :: t in transitions ==> Targets(transitions, BranchOf(t)) == {t.to}))
    {
      BranchesBound(transitions);
      SingleTargetsSizes(transitions);
      EpsilonsEmpty(transitions);
      |startSet| <= 1 && epsilonCount == 0 && ambiguousCount == 0
    }

    /** findTransition(from, symbol): some transition of the branch-set, if it is non-empty. */
    method FindTransition(from: nat, symbol: Option<Symbol>) returns (r: Option<Transition<Symbol>>)
      ensures r.None? <==> forall q :: Transition(from, symbol, q) !in transitions
      ensures r.Some? ==> r.value in transitions && BranchOf(r.value) == Branch(from, symbol)
    {
      var branch := Targets(transitions, Branch(from, symbol));
      if branch == {} {
        return None;
      }
      var q :| q in branch;
      return Some(Transition(from, symbol, q));
    }

    /** findTransition(from, symbol, to): the transition, if present. */
    function FindTransitionTo(from: nat, symbol: Option<Symbol>, to: nat): (r: Option<Transition<Symbol>>)
      reads this
      ensures r.Some? <==> Transition(from, symbol, to) in transitions
      ensures r.Some? ==> r.value == Transition(from, symbol, to)
    {
      if to in Targets(transitions, Branch(from, symbol)) then Some(Transition(from, symbol, to)) else None
    }

    /** existsTransition(from, symbol) */
    function ExistsTransition(from: nat, symbol: Option<Symbol>): (r: bool)
      reads this
      ensures r <==> exists q :: Transition(from, symbol, q) in transitions
    {
      var branch := Targets(transitions, Branch(from, symbol));
      if branch == {} then false
      else
        var q :| q in branch;
        true
    }

    /** existsTransition(from, symbol, to) */
    function ExistsTransitionTo(from: nat, symbol: Option<Symbol>, to: nat): (r: bool)
      reads this
      ensures r <==> Transition(from, symbol, to) in transitions
    {
      FindTransitionTo(from, symbol, to).Some?
    }
  }

  /** No two transitions share a branch-set exactly when each transition's branch-set holds only its own target. */
  lemma SingleTargetsSizes<S>(ts: set<Transition<S>>)
    ensures SingleTargets(ts) <==> forall t :: t in ts ==> Targets(ts, BranchOf(t)) == {t.to}
  {
    if forall t :: t in ts ==> Targets(ts, BranchOf(t)) == {t.to} {
      forall t, u | t in ts && u in ts && BranchOf(t) == BranchOf(u)
        ensures t == u
      {
        assert u.to in Targets(ts, BranchOf(t));
      }
    }
  }

  lemma EpsilonsEmpty<S>(ts: set<Transition<S>>)
    ensures |Epsilons(ts)| == 0 <==> forall t :: t in ts ==> t.symbol.Some?
  {
    if exists t :: t in ts && t.symbol.None? {
      var t :| t in ts && t.symbol.None?;
      assert t in Epsilons(ts);
    }
  }

  /**
   * removeTransition() as written leaves the ambiguous counter at 1 after
   * the three transitions of one branch-set are removed, so an automaton
   * with no transitions at all is reported non-deterministic.
   */
  method RemovalsAsWrittenLeaveAmbiguity<Symbol(==)>(symbol: Symbol)
    returns (deterministic: bool, transitionCount: nat, startCount: nat)
    ensures !deterministic && transitionCount == 0 && startCount == 0
  {
    var a, t1, t2, t3 := ThreeWayBranch(symbol);
    var b := BranchOf(t1);
    assert Targets(a.transitions - {t1}, b) == {t2.to, t3.to};
    a.RemoveTransitionAsWritten(t1);
    assert Targets(a.transitions - {t2}, b) == {t3.to};
    a.RemoveTransitionAsWritten(t2);
    assert Targets(a.transitions - {t3}, b) == {};
    a.RemoveTransitionAsWritten(t3);
    deterministic := a.Deterministic();
    transitionCount := |a.transitions|;
    startCount := |a.startSet|;
  }

  /** An automaton with four states and nothing else. */
  method FourStates<Symbol(==)>() returns (a: Automaton<Symbol>, p: nat, q1: nat, q2: nat, q3: nat)
    ensures fresh(a) && a.Valid()
    ensures a.startSet == [] && a.transitions == {} && a.ambiguousCount == 0
    ensures p in a.states && q1 in a.states && q2 in a.states && q3 in a.states
    ensures q1 != q2 && q1 != q3 && q2 != q3
  {
    a := new Automaton<Symbol>();
    p := a.AddState();
    q1 := a.AddState();
    q2 := a.AddState();
    q3 := a.AddState();
  }

  /** An automaton whose only transitions form one branch-set of three states. */
  method ThreeWayBranch<Symbol(==)>(symbol: Symbol)
    returns (a: Automaton<Symbol>, t1: Transition<Symbol>, t2: Transition<Symbol>, t3: Transition<Symbol>)
    ensures fresh(a) && a.Valid() && a.startSet == []
    ensures a.transitions == {t1, t2, t3} && a.ambiguousCount == 2
    ensures BranchOf(t1) == BranchOf(t2) == BranchOf(t3)
    ensures t1.to != t2.to && t1.to != t3.to && t2.to != t3.to
  {
    var p, q1, q2, q3;
    a, p, q1, q2, q3 := FourStates<Symbol>();
    var s := Some(symbol);
    var r1 := a.AddTransition(p, s, q1, true);
    t1 := r1.value;
    assert Targets(a.transitions, Branch(p, s)) == {q1};
    t2 := AddAmbiguous(a, p, s, q2);
    assert Targets(a.transitions, Branch(p, s)) == {q1, q2};
    t3 := AddAmbiguous(a, p, s, q3);
  }

  /** Adds a transition to a non-empty branch-set: one more ambiguous transition. */
  method AddAmbiguous<Symbol(==)>(a: Automaton<Symbol>, p: nat, s: Option<Symbol>, q: nat) returns (t: Transition<Symbol>)
    requires a.Valid() && p in a.states && q in a.states
    requires Targets(a.transitions, Branch(p, s)) != {} && q !in Targets(a.transitions, Branch(p, s))
    modifies a
    ensures a.Valid() && t == Transition(p, s, q)
    ensures a.transitions == old(a.transitions) + {t} && a.ambiguousCount == old(a.ambiguousCount) + 1
    ensures a.states == old(a.states) && a.startSet == old(a.startSet)
  {
    var r := a.AddTransition(p, s, q, true);
    t := r.value;
  }

  /**
   * merge() as written keeps this automaton's epsilon counter at 0 after
   * bringing in an epsilon-transition, so the result is reported
   * deterministic.
   */
  method MergeAsWrittenLosesEpsilon<Symbol(==)>() returns (deterministic: bool, epsilons: nat)
    ensures deterministic && epsilons == 1
  {
    var a := new Automaton<Symbol>();
    var b := new Automaton<Symbol>();
    var q := b.AddState();
    var t := b.AddTransition(q, None, q, true);
    a.MergeAsWritten(b);
    deterministic := a.Deterministic();
    assert Epsilons(a.transitions) == {t.value};
    epsilons := |Epsilons(a.transitions)|;
  }
}
