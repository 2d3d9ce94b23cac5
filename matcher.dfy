/**
 * The matcher, after src/matcher.rs: simulation of the automaton on sets of states.  The
 * Rust state pointers are indices into the arena g, pointer equality is index equality, and
 * the `&mut Vec` that find_e_closure extends is passed in and handed back.
 */
module Matcher {
  import opened Results
  import opened NfaBuilder
  import opened NfaProperties
  import opened Runs

  /** No state is listed twice. */
  predicate Distinct(s: seq<nat>)
  {
    forall i, j :: 0 <= i < j < |s| ==> s[i] != s[j]
  }

  /** Every listed state is a state of g. */
  predicate InGraph(g: seq<State>, s: seq<nat>)
  {
    forall i :: 0 <= i < |s| ==> s[i] < |g|
  }

  /** Every epsilon edge out of q leads to a listed state. */
  predicate Expanded(g: seq<State>, s: seq<nat>, q: nat)
    requires q < |g|
  {
    forall x :: x in g[q].eTransitions ==> x in s
  }

  /** The listed states are closed under epsilon edges. */
  predicate EpsClosed(g: seq<State>, s: seq<nat>)
  {
    InGraph(g, s) && forall i :: 0 <= i < |s| ==> Expanded(g, s, s[i])
  }

  /** A list of distinct states of g is no longer than g (so the closure cannot grow forever). */
  lemma {:induction false} DistinctBound(s: seq<nat>, n: nat)
    requires Distinct(s) && forall i :: 0 <= i < |s| ==> s[i] < n
    ensures |s| <= n
    decreases n
  {
    if s != [] {
      assert s[0] < n;
      if k :| 0 <= k < |s| && s[k] == n - 1 {
        var t := s[..k] + s[k + 1..];
        forall i | 0 <= i < |t|
          ensures t[i] < n - 1
        {
          if i < k {
            assert t[i] == s[i];
          } else {
            assert t[i] == s[i + 1];
          }
        }
        forall i, j | 0 <= i < j < |t|
          ensures t[i] != t[j]
        {
          var i' := if i < k then i else i + 1;
          var j' := if j < k then j else j + 1;
          assert t[i] == s[i'] && t[j] == s[j'];
        }
        DistinctBound(t, n - 1);
      } else {
        DistinctBound(s, n - 1);
      }
    }
  }

  /** Extending a list keeps everything listed, and keeps expanded states expanded. */
  lemma Grow(g: seq<State>, s: seq<nat>, t: seq<nat>)
    requires |s| <= |t| && t[..|s|] == s
    ensures forall x :: x in s ==> x in t
    ensures forall q: nat :: q < |g| && Expanded(g, s, q) ==> Expanded(g, t, q)
  {
    forall x | x in s
      ensures x in t
    {
      var i :| 0 <= i < |s| && s[i] == x;
      assert t[i] == x;
    }
  }

  /**
   * The states listed from position lo on are reachable from state by epsilon edges, and all
   * of them but state itself are already expanded.
   */
  ghost predicate Visited(g: seq<State>, state: nat, lo: nat, r: seq<nat>)
    requires InGraph(g, r)
  {
    forall i :: lo <= i < |r| ==> Reaches(g, state, [], r[i]) && (r[i] != state ==> Expanded(g, r, r[i]))
  }

  /** What the recursive visit of e, an epsilon successor of state, leaves behind. */
  lemma AfterVisit(g: seq<State>, state: nat, lo: nat, r0: seq<nat>, e: nat, r: seq<nat>)
    requires state < |g| && e < |g| && Edge(g, state, None, e)
    requires InGraph(g, r0) && lo <= |r0| && Visited(g, state, lo, r0)
    requires InGraph(g, r) && |r0| < |r| && r[..|r0| + 1] == r0 + [e]
    requires forall i :: |r0| < i < |r| ==> Expanded(g, r, r[i]) && Reaches(g, e, [], r[i])
    requires Expanded(g, r, e)
    ensures Visited(g, state, lo, r) && r[..|r0|] == r0
    ensures forall x :: x in r0 ==> x in r
  {
    assert r[..|r0|] == (r0 + [e])[..|r0|] == r0;
    Grow(g, r0, r);
    ReachesEdge(g, state, None, e);
    forall i | lo <= i < |r|
      ensures Reaches(g, state, [], r[i]) && (r[i] != state ==> Expanded(g, r, r[i]))
    {
      if i < |r0| {
        assert r[i] == r0[i];
      } else if i == |r0| {
        assert r[i] == e;
      } else {
        ReachesTrans(g, state, [], e, [], r[i]);
      }
    }
  }

  /** The loop of find_e_closure keeps its invariant across the visit of es[j], an unlisted state. */
  lemma VisitStep(g: seq<State>, state: nat, closure: seq<nat>, es: seq<nat>, j: nat, r0: seq<nat>, r: seq<nat>)
    requires state < |g| && es == g[state].eTransitions && j < |es| && es[j] < |g|
    requires |closure| <= |r0| && r0[..|closure|] == closure && InGraph(g, r0) && state in r0
    requires (forall i :: 0 <= i < j ==> es[i] in r0) && Visited(g, state, |closure|, r0)
    requires |r0 + [es[j]]| <= |r| && r[..|r0 + [es[j]]|] == r0 + [es[j]]
    requires Distinct(r) && InGraph(g, r) && Expanded(g, r, es[j])
    requires forall i :: |r0 + [es[j]]| <= i < |r| ==> Expanded(g, r, r[i]) && Reaches(g, es[j], [], r[i])
    ensures |closure| <= |r| && r[..|closure|] == closure && state in r
    ensures (forall i :: 0 <= i <= j ==> es[i] in r) && Visited(g, state, |closure|, r)
  {
    AfterVisit(g, state, |closure|, r0, es[j], r);
    assert r[..|closure|] == r0[..|closure|];
    assert r[|r0|] == es[j];
  }

  /**
   * find_e_closure: adds state and every state reachable from it by epsilon edges to the
   * closure, depth first, skipping states already listed.
   */
  method FindEClosure(g: seq<State>, state: nat, closure: seq<nat>) returns (r: seq<nat>)
    requires WellFormed(g) && state < |g|
    requires Distinct(closure) && InGraph(g, closure)
    ensures |closure| <= |r| && r[..|closure|] == closure
    ensures Distinct(r) && InGraph(g, r)
    ensures state in r && Expanded(g, r, state)
    ensures forall i :: |closure| <= i < |r| ==> Expanded(g, r, r[i]) && Reaches(g, state, [], r[i])
    decreases |g| - |closure|
  {
    r := closure;
    if state !in r {
      r := r + [state];
      ReachesRefl(g, state);
    }
    var es := g[state].eTransitions;
    assert Confined(g[state], 0, |g|);
    for j := 0 to |es|
      invariant |closure| <= |r| && r[..|closure|] == closure
      invariant Distinct(r) && InGraph(g, r)
      invariant state in r
      invariant forall i :: 0 <= i < j ==> es[i] in r
      invariant Visited(g, state, |closure|, r)
    {
      var e := es[j];
      if e !in r {
        var r0 := r;
        DistinctBound(r0 + [e], |g|);
        r := FindEClosure(g, e, r0 + [e]);
        VisitStep(g, state, closure, es, j, r0, r);
      }
    }
  }

  /** A closed list that holds t holds every state t reaches by epsilon edges. */
  lemma {:induction false} ClosedRun(g: seq<State>, s: seq<nat>, qs: seq<nat>, ls: seq<Option<char>>, k: nat)
    requires EpsClosed(g, s) && IsRun(g, qs, ls) && qs[0] in s && k < |qs|
    requires forall i :: 0 <= i < |ls| ==> ls[i] == None
    ensures qs[k] in s
    decreases k
  {
    if k > 0 {
      ClosedRun(g, s, qs, ls, k - 1);
      var i :| 0 <= i < |s| && s[i] == qs[k - 1];
      assert Edge(g, qs[k - 1], ls[k - 1], qs[k]);
      assert Expanded(g, s, s[i]);
    }
  }

  lemma ClosedReach(g: seq<State>, s: seq<nat>, t: nat, r: nat)
    requires EpsClosed(g, s) && t in s && Reaches(g, t, [], r)
    ensures r in s
  {
    var qs, ls :| IsRun(g, qs, ls) && qs[0] == t && qs[|qs| - 1] == r && Word(ls) == [];
    EmptyWord(ls);
    ClosedRun(g, s, qs, ls, |qs| - 1);
  }

  /** Every listed state is reachable from start reading w. */
  ghost predicate Sound(g: seq<State>, start: nat, w: seq<char>, s: seq<nat>)
  {
    forall i :: 0 <= i < |s| ==> Reaches(g, start, w, s[i])
  }

  /** Every state reachable from start reading w is listed. */
  ghost predicate Complete(g: seq<State>, start: nat, w: seq<char>, s: seq<nat>)
  {
    forall q: nat :: Reaches(g, start, w, q) ==> q in s
  }

  /** The closure of start is exactly the set of states reachable on the empty word. */
  lemma InitialStates(g: seq<State>, start: nat, r: seq<nat>)
    requires start < |g| && InGraph(g, r) && start in r
    requires forall i :: 0 <= i < |r| ==> Expanded(g, r, r[i]) && Reaches(g, start, [], r[i])
    ensures Sound(g, start, [], r) && Complete(g, start, [], r)
  {
    forall q: nat | Reaches(g, start, [], q)
      ensures q in r
    {
      ClosedReach(g, r, start, q);
    }
  }

  /** Adding the closure of the target of one transition on c keeps the next set sound and closed. */
  lemma AddTarget(g: seq<State>, start: nat, w: seq<char>, c: char, st: nat, next0: seq<nat>, next: seq<nat>)
    requires WellFormed(g) && st < |g| && c in g[st].transitions && Reaches(g, start, w, st)
    requires Sound(g, start, w + [c], next0) && EpsClosed(g, next0)
    requires |next0| <= |next| && next[..|next0|] == next0 && InGraph(g, next)
    requires g[st].transitions[c] in next && Expanded(g, next, g[st].transitions[c])
    requires forall i :: |next0| <= i < |next| ==>
      Expanded(g, next, next[i]) && Reaches(g, g[st].transitions[c], [], next[i])
    ensures Sound(g, start, w + [c], next) && EpsClosed(g, next)
    ensures forall x :: x in next0 ==> x in next
  {
    var target := g[st].transitions[c];
    assert Confined(g[st], 0, |g|);
    Grow(g, next0, next);
    ReachesEdge(g, st, Some(c), target);
    ReachesTrans(g, start, w, st, [c], target);
    forall i | 0 <= i < |next|
      ensures Reaches(g, start, w + [c], next[i]) && Expanded(g, next, next[i])
    {
      if i < |next0| {
        assert next[i] == next0[i];
        assert Expanded(g, next0, next0[i]);
      } else {
        ReachesTrans(g, start, w + [c], target, [], next[i]);
      }
    }
  }

  /** A closed set that holds every c-successor of a complete set for w is complete for w + [c]. */
  lemma StepComplete(g: seq<State>, start: nat, w: seq<char>, c: char, current: seq<nat>, next: seq<nat>)
    requires InGraph(g, current) && Complete(g, start, w, current) && EpsClosed(g, next)
    requires forall i :: 0 <= i < |current| && c in g[current[i]].transitions ==>
      g[current[i]].transitions[c] in next
    ensures Complete(g, start, w + [c], next)
  {
    forall q: nat | Reaches(g, start, w + [c], q)
      ensures q in next
    {
      var q0, t := SplitLast(g, start, w, c, q);
      var i :| 0 <= i < |current| && current[i] == q0;
      ClosedReach(g, next, t, q);
    }
  }

  /** With the exact set of reachable states, acceptance is whether one of them accepts. */
  lemma AcceptsCurrent(g: seq<State>, start: nat, w: seq<char>, current: seq<nat>)
    requires InGraph(g, current) && Sound(g, start, w, current) && Complete(g, start, w, current)
    ensures Accepts(g, start, w) <==> exists j :: 0 <= j < |current| && g[current[j]].isAccepting
  {
    if j :| 0 <= j < |current| && g[current[j]].isAccepting {
      assert Reaches(g, start, w, current[j]);
    }
  }

  /**
   * match_regex: the states reachable on the empty word, then one step per input character,
   * and finally whether any current state accepts.
   */
  method MatchRegex(g: seq<State>, start: nat, input: seq<char>) returns (matched: bool)
    requires WellFormed(g) && start < |g|
    ensures matched <==> Accepts(g, start, input)
  {
    var current := FindEClosure(g, start, []);
    InitialStates(g, start, current);
    for k := 0 to |input|
      invariant InGraph(g, current)
      invariant Sound(g, start, input[..k], current) && Complete(g, start, input[..k], current)
    {
      assert input[..k + 1] == input[..k] + [input[k]];
      current := Step(g, current, input[k], start, input[..k]);
    }
    assert input[..|input|] == input;
    matched := AnyAccepting(g, current);
    AcceptsCurrent(g, start, input, current);
  }

  /** `current_states.iter().any(|s| s.borrow().is_accepting())` */
  method AnyAccepting(g: seq<State>, s: seq<nat>) returns (found: bool)
    requires InGraph(g, s)
    ensures found <==> exists j :: 0 <= j < |s| && g[s[j]].isAccepting
  {
    found := false;
    var i := 0;
    while i < |s| && !found
      invariant 0 <= i <= |s|
      invariant found <==> exists j :: 0 <= j < i && g[s[j]].isAccepting
    {
      found := g[s[i]].isAccepting;
      i := i + 1;
    }
  }

  /** A step from the empty set stays empty: no state is reached by a longer word. */
  lemma EmptyStaysEmpty(g: seq<State>, start: nat, w: seq<char>, c: char, next: seq<nat>)
    requires Complete(g, start, w, []) && Sound(g, start, w + [c], next)
    ensures next == []
  {
    if next != [] {
      var q, t := SplitLast(g, start, w, c, next[0]);
      assert false;
    }
  }

  /**
   * Once no state is reachable on w, none is reachable on any extension of w, so no extension
   * is accepted: stopping the loop at an empty set would give the same answer.
   */
  lemma {:induction false} EmptyStaysRejected(g: seq<State>, start: nat, w: seq<char>, u: seq<char>)
    requires Complete(g, start, w, [])
    ensures Complete(g, start, w + u, []) && !Accepts(g, start, w + u)
    decreases |u|
  {
    if u == [] {
      assert w + u == w;
    } else {
      var c := u[0];
      forall q: nat
        ensures !Reaches(g, start, w + [c], q)
      {
        if Reaches(g, start, w + [c], q) {
          var p, t := SplitLast(g, start, w, c, q);
          assert false;
        }
      }
      EmptyStaysRejected(g, start, w + [c], u[1..]);
      assert (w + [c]) + u[1..] == w + u;
    }
  }

  /**
   * One pass of match_regex's loop over the input: for every current state with a transition
   * on c, the epsilon closure of its target is added to the next set.  The ghost parameters
   * name the start state and the input read so far, for the contract only.
   */
  method Step(g: seq<State>, current: seq<nat>, c: char, ghost start: nat, ghost w: seq<char>)
    returns (next: seq<nat>)
    requires WellFormed(g) && InGraph(g, current)
    requires Sound(g, start, w, current) && Complete(g, start, w, current)
    ensures InGraph(g, next)
    ensures Sound(g, start, w + [c], next) && Complete(g, start, w + [c], next)
  {
    next := [];
    for j := 0 to |current|
      invariant Distinct(next) && EpsClosed(g, next) && Sound(g, start, w + [c], next)
      invariant forall i :: 0 <= i < j && c in g[current[i]].transitions ==> g[current[i]].transitions[c] in next
    {
      var st := current[j];
      if c in g[st].transitions {
        assert Confined(g[st], 0, |g|);
        var next0 := next;
        next := FindEClosure(g, g[st].transitions[c], next);
        AddTarget(g, start, w, c, st, next0, next);
      }
    }
    StepComplete(g, start, w, c, current, next);
  }
}
