/**
 * The older finite-state automaton of pastel/sys/automaton.h.
 *
 * Its graph is a multigraph: addTransition always inserts a new edge, so
 * the same (from, symbol, to) triple may occur several times.  The model
 * keeps the transitions as a multiset of such triples; removing a
 * transition removes one occurrence.  There are no counters and no
 * branch-sets.  States, start and final marks are as in the newer
 * automaton.
 */
module AutomataLegacy {
  import opened Wrappers
  import opened AutomatonMarks
  import Automata

  type Transition<Symbol> = Automata.Transition<Symbol>

  /** Every transition starts and ends at one of `states`. */
  ghost predicate Joins<S>(ts: multiset<Transition<S>>, states: set<nat>) {
    forall t :: t in ts ==> t.from in states && t.to in states
  }

  lemma JoinsUnion<S>(ts: multiset<Transition<S>>, us: multiset<Transition<S>>, ss: set<nat>, vs: set<nat>)
    requires Joins(ts, ss) && Joins(us, vs)
    ensures Joins(ts + us, ss + vs)
  {
  }

  class Automaton<Symbol(==)> {
    var states: set<nat>
    /** A state number no state has used; the graph allocates fresh vertices. */
    var nextState: nat
    var transitions: multiset<Transition<Symbol>>
    var startSet: seq<nat>
    var finalSet: seq<nat>

    /** Transitions join states of this automaton; start and final lists mark states once. */
    ghost predicate Valid()
      reads this
    {
      && (forall q :: q in states ==> q < nextState)
      && Joins(transitions, states)
      && Marks(startSet, states) && Marks(finalSet, states)
    }

    /** Automaton(): the empty automaton. */
    constructor ()
      ensures Valid()
      ensures states == {} && transitions == multiset{} && startSet == [] && finalSet == []
    {
      states, nextState, transitions := {}, 0, multiset{};
      startSet, finalSet := [], [];
    }

    /**
     * Automaton(const Automaton&): the same states, transitions, start and
     * final states, rebuilt with addTransition, addStart and addFinal.
     */
    constructor Copy(that: Automaton<Symbol>)
      requires that.Valid()
      ensures Valid()
      ensures states == that.states && transitions == that.transitions
      ensures startSet == that.startSet && finalSet == that.finalSet
    {
      states, nextState, transitions := that.states, that.nextState, multiset{};
      startSet, finalSet := [], [];
      new;
      CopyTransitions(that.transitions);
      startSet := CopyMarks(that.startSet);
      finalSet := CopyMarks(that.finalSet);
    }

    /** The transition loop of the copy constructor. */
    method CopyTransitions(source: multiset<Transition<Symbol>>)
      requires Valid() && transitions == multiset{}
      requires forall t :: t in source ==> t.from in states && t.to in states
      modifies this
      ensures Valid() && transitions == source
      ensures states == old(states) && nextState == old(nextState)
      ensures startSet == old(startSet) && finalSet == old(finalSet)
    {
      var rest := source;
      while rest != multiset{}
        invariant Valid() && rest <= source && transitions + rest == source
        invariant states == old(states) && nextState == old(nextState)
        invariant startSet == old(startSet) && finalSet == old(finalSet)
        decreases |rest|
      {
        var t :| t in rest;
        var added := AddTransition(t.from, t.symbol, t.to, true);
        rest := rest - multiset{t};
      }
    }

    /** clear(): removes every state, transition and mark. */
    method Clear()
      modifies this
      ensures Valid()
      ensures states == {} && transitions == multiset{} && startSet == [] && finalSet == []
      ensures nextState == old(nextState)
    {
      states, transitions := {}, multiset{};
      startSet, finalSet := [], [];
    }

    /** clearTransitions(): removes every transition; states and marks stay. */
    method ClearTransitions()
      requires Valid()
      modifies this
      ensures Valid() && transitions == multiset{}
      ensures states == old(states) && nextState == old(nextState)
      ensures startSet == old(startSet) && finalSet == old(finalSet)
    {
      transitions := multiset{};
    }

    /** clearStart(): unmarks the first start state until none is left. */
    method ClearStart()
      requires Valid()
      modifies this
      ensures Valid() && startSet == []
      ensures states == old(states) && nextState == old(nextState)
      ensures transitions == old(transitions) && finalSet == old(finalSet)
    {
      while |startSet| > 0
        invariant Valid()
        invariant states == old(states) && nextState == old(nextState)
        invariant transitions == old(transitions) && finalSet == old(finalSet)
        decreases |startSet|
      {
        RemoveStart(startSet[0]);
      }
    }

    /** clearFinal(): unmarks the first final state until none is left. */
    method ClearFinal()
      requires Valid()
      modifies this
      ensures Valid() && finalSet == []
      ensures states == old(states) && nextState == old(nextState)
      ensures transitions == old(transitions) && startSet == old(startSet)
    {
      while |finalSet| > 0
        invariant Valid()
        invariant states == old(states) && nextState == old(nextState)
        invariant transitions == old(transitions) && startSet == old(startSet)
        decreases |finalSet|
      {
        RemoveFinal(finalSet[0]);
      }
    }

    /** swap(): exchanges the whole contents of two automata. */
    method Swap(that: Automaton<Symbol>)
      modifies this, that
      ensures states == old(that.states) && that.states == old(states)
      ensures nextState == old(that.nextState) && that.nextState == old(nextState)
      ensures transitions == old(that.transitions) && that.transitions == old(transitions)
      ensures startSet == old(that.startSet) && that.startSet == old(startSet)
      ensures finalSet == old(that.finalSet) && that.finalSet == old(finalSet)
    {
      states, that.states := that.states, states;
      nextState, that.nextState := that.nextState, nextState;
      transitions, that.transitions := that.transitions, transitions;
      startSet, that.startSet := that.startSet, startSet;
      finalSet, that.finalSet := that.finalSet, finalSet;
    }

    /** addState(): a new state, with no transitions and no marks. */
    method AddState() returns (q: nat)
      requires Valid()
      modifies this
      ensures Valid()
      ensures q !in old(states) && states == old(states) + {q}
      ensures transitions == old(transitions) && startSet == old(startSet) && finalSet == old(finalSet)
    {
      q := nextState;
      states := states + {q};
      nextState := nextState + 1;
    }

    /**
     * removeState(): removes the transitions at the state one by one, then
     * its marks, then the state.
     */
    method RemoveState(q: nat)
      requires Valid() && q in states
      modifies this
      ensures Valid()
      ensures states == old(states) - {q} && nextState == old(nextState)
      ensures forall t :: transitions[t] == if Automata.Touches(t, q) then 0 else old(transitions)[t]
      ensures startSet == Unmarked(old(startSet), q) && finalSet == Unmarked(old(finalSet), q)
    {
      while exists t :: t in transitions && Automata.Touches(t, q)
        invariant Valid()
        invariant forall t :: !Automata.Touches(t, q) ==> transitions[t] == old(transitions)[t]
        invariant states == old(states) && nextState == old(nextState)
        invariant startSet == old(startSet) && finalSet == old(finalSet)
        decreases |transitions|
      {
        var t :| t in transitions && Automata.Touches(t, q);
        RemoveTransition(t);
      }
      RemoveFinal(q);
      RemoveStart(q);
      states := states - {q};
    }

    /** addStart(): appends the state to the start states unless it is one already. */
    method AddStart(q: nat)
      requires Valid() && q in states
      modifies this
      ensures Valid() && startSet == Marked(old(startSet), q)
      ensures states == old(states) && nextState == old(nextState)
      ensures transitions == old(transitions) && finalSet == old(finalSet)
    {
      if q in startSet {
        return;
      }
      MarkedDistinct(startSet, q);
      startSet := startSet + [q];
    }

    /** removeStart(): erases the state's start mark, if it has one. */
    method RemoveStart(q: nat)
      requires Valid()
      modifies this
      ensures Valid() && startSet == Unmarked(old(startSet), q)
      ensures states == old(states) && nextState == old(nextState)
      ensures transitions == old(transitions) && finalSet == old(finalSet)
    {
      if q !in startSet {
        UnmarkedAbsent(startSet, q);
        return;
      }
      UnmarkedDistinct(startSet, q);
      startSet := Unmarked(startSet, q);
    }

    /** addFinal(): appends the state to the final states unless it is one already. */
    method AddFinal(q: nat)
      requires Valid() && q in states
      modifies this
      ensures Valid() && finalSet == Marked(old(finalSet), q)
      ensures states == old(states) && nextState == old(nextState)
      ensures transitions == old(transitions) && startSet == old(startSet)
    {
      if q in finalSet {
        return;
      }
      MarkedDistinct(finalSet, q);
      finalSet := finalSet + [q];
    }

    /** removeFinal(): erases the state's final mark, if it has one. */
    method RemoveFinal(q: nat)
      requires Valid()
      modifies this
      ensures Valid() && finalSet == Unmarked(old(finalSet), q)
      ensures states == old(states) && nextState == old(nextState)
      ensures transitions == old(transitions) && startSet == old(startSet)
    {
      if q !in finalSet {
        UnmarkedAbsent(finalSet, q);
        return;
      }
      UnmarkedDistinct(finalSet, q);
      finalSet := Unmarked(finalSet, q);
    }

    /**
     * addTransition(): when the customization allows it (`allowed`), adds
     * one more edge, even if the same transition is already there;
     * otherwise nothing changes and no transition is returned.
     */
    method AddTransition(from: nat, symbol: Option<Symbol>, to: nat, allowed: bool)
      returns (r: Option<Transition<Symbol>>)
      requires Valid() && from in states && to in states
      modifies this
      ensures Valid()
      ensures r == (if allowed then Some(Automata.Transition(from, symbol, to)) else None)
      ensures transitions == if allowed then old(transitions) + multiset{Automata.Transition(from, symbol, to)}
                             else old(transitions)
      ensures states == old(states) && nextState == old(nextState)
      ensures startSet == old(startSet) && finalSet == old(finalSet)
    {
      if !allowed {
        return None;
      }
      var t := Automata.Transition(from, symbol, to);
      transitions := transitions + multiset{t};
      r := Some(t);
    }

    /** removeTransition(): removes one edge carrying the transition. */
    method RemoveTransition(t: Transition<Symbol>)
      requires Valid() && t in transitions
      modifies this
      ensures Valid()
      ensures transitions == old(transitions) - multiset{t}
      ensures states == old(states) && nextState == old(nextState)
      ensures startSet == old(startSet) && finalSet == old(finalSet)
    {
      transitions := transitions - multiset{t};
    }

    /**
     * merge(): moves the states and transitions of `that` into this
     * automaton and appends its start and final lists to these.
     */
    method Merge(that: Automaton<Symbol>)
      requires Valid() && that.Valid() && that != this
      requires states !! that.states
      modifies this, that
      ensures Valid() && that.Valid()
      ensures states == old(states) + old(that.states)
      ensures transitions == old(transitions) + old(that.transitions)
      ensures startSet == old(startSet) + old(that.startSet)
      ensures finalSet == old(finalSet) + old(that.finalSet)
      ensures that.states == {} && that.transitions == multiset{} && that.startSet == [] && that.finalSet == []
    {
      JoinsUnion(transitions, that.transitions, states, that.states);
      MarksAppend(startSet, that.startSet, states, that.states);
      MarksAppend(finalSet, that.finalSet, states, that.states);
      states := states + that.states;
      if nextState < that.nextState {
        nextState := that.nextState;
      }
      transitions := transitions + that.transitions;
      startSet := startSet + that.startSet;
      finalSet := finalSet + that.finalSet;
      that.states, that.transitions := {}, multiset{};
      that.startSet, that.finalSet := [], [];
    }

    function StartStates(): nat
      reads this
    {
      |startSet|
    }

    function FinalStates(): nat
      reads this
    {
      |finalSet|
    }

    function States(): nat
      reads this
    {
      |states|
    }

    function Transitions(): nat
      reads this
    {
      |transitions|
    }
  }
}
