/**
 * The shape of what Thompson's construction builds: every fragment owns the block of states
 * allocated while it was compiled, its edges stay inside that block, its exit state has no
 * edges, the ids follow the counter, and nothing it allocates is accepting.  Earlier states
 * are never touched.
 */
module NfaProperties {
  import opened Parser
  import opened NfaBuilder

  /** Every edge of st leads into [lo, hi). */
  predicate Confined(st: State, lo: nat, hi: nat)
  {
    (forall j :: 0 <= j < |st.eTransitions| ==> lo <= st.eTransitions[j] < hi)
    && (forall c :: c in st.transitions ==> lo <= st.transitions[c] < hi)
  }

  /** Every state of the block [lo, hi) has its edges inside the block. */
  predicate AllConfined(s: seq<State>, lo: nat, hi: nat)
  {
    hi <= |s| && forall i :: lo <= i < hi ==> Confined(s[i], lo, hi)
  }

  /** The states of [lo, hi) carry the ids id0, id0 + 1, ... in order, and none accepts. */
  predicate Numbered(s: seq<State>, lo: nat, hi: nat, id0: nat)
  {
    hi <= |s| && forall i :: lo <= i < hi ==> s[i].id == id0 + (i - lo) && !s[i].isAccepting
  }

  /** What compiling a node from arena a into arena b with fragment f guarantees. */
  predicate Shape(a: Arena, b: Arena, f: Fragment)
  {
    var lo, hi := |a.states|, |b.states|;
    lo <= f.start < hi && lo <= f.end < hi && f.start != f.end
    && b.states[..lo] == a.states
    && b.states[f.end].transitions == map[] && b.states[f.end].eTransitions == []
    && AllConfined(b.states, lo, hi)
    && Numbered(b.states, lo, hi, a.nextId)
  }

  /** Every edge of the graph leads to a state of the graph. */
  predicate WellFormed(g: seq<State>)
  {
    AllConfined(g, 0, |g|)
  }

  // ---------------------------------------------------------------------------------------
  // Small facts about the arena operations

  lemma KeepPrefix(s: seq<State>, t: seq<State>, lo: nat, m: nat, id0: nat)
    requires m <= |s| <= |t| && t[..|s|] == s
    requires AllConfined(s, lo, m) && Numbered(s, lo, m, id0)
    ensures AllConfined(t, lo, m) && Numbered(t, lo, m, id0)
  {
    forall i | lo <= i < m
      ensures t[i] == s[i]
    {
      assert t[..|s|][i] == t[i];
    }
  }

  lemma JoinBlocks(s: seq<State>, lo: nat, m: nat, hi: nat, id0: nat)
    requires lo <= m <= hi <= |s|
    requires AllConfined(s, lo, m) && AllConfined(s, m, hi)
    requires Numbered(s, lo, m, id0) && Numbered(s, m, hi, id0 + (m - lo))
    ensures AllConfined(s, lo, hi) && Numbered(s, lo, hi, id0)
  {
    forall i | lo <= i < hi
      ensures Confined(s[i], lo, hi)
    {
      if i < m {
        assert Confined(s[i], lo, m);
      } else {
        assert Confined(s[i], m, hi);
      }
    }
  }

  lemma PushKeeps(a: Arena, from: nat, to: nat, lo: nat, hi: nat, id0: nat)
    requires lo <= from < hi && lo <= to < hi
    requires AllConfined(a.states, lo, hi) && Numbered(a.states, lo, hi, id0)
    ensures AllConfined(PushEpsilon(a, from, to).states, lo, hi)
    ensures Numbered(PushEpsilon(a, from, to).states, lo, hi, id0)
    ensures PushEpsilon(a, from, to).states[..lo] == a.states[..lo]
  {
    var t := PushEpsilon(a, from, to).states;
    forall i | lo <= i < hi
      ensures Confined(t[i], lo, hi)
    {
      if i == from {
        assert Confined(a.states[i], lo, hi);
        assert t[i].eTransitions == a.states[i].eTransitions + [to];
      } else {
        assert t[i] == a.states[i];
      }
    }
  }

  lemma PrefixOfPrefix(s: seq<State>, t: seq<State>, u: seq<State>, lo: nat)
    requires lo <= |t| <= |s| && s[..|t|] == t && t[..lo] == u
    ensures s[..lo] == u
  {
    assert s[..lo] == s[..|t|][..lo];
  }

  /** The two states Allocate appends form a block of their own. */
  lemma AllocatePair(a: Arena)
    ensures var b := Allocate(Allocate(a).0).0;
      |b.states| == |a.states| + 2 && b.states[..|a.states|] == a.states
      && Numbered(b.states, |a.states|, |a.states| + 2, a.nextId)
      && b.states[|a.states|].eTransitions == [] && b.states[|a.states|].transitions == map[]
      && b.states[|a.states| + 1].eTransitions == [] && b.states[|a.states| + 1].transitions == map[]
  {
    var b := Allocate(Allocate(a).0).0;
    assert b.states == a.states + [State(a.nextId, map[], [], false), State(a.nextId + 1, map[], [], false)];
  }

  /** Two states allocated after a block [lo, n) extend the block. */
  lemma AllocateKeeps(a: Arena, lo: nat, id0: nat)
    requires lo <= |a.states| && AllConfined(a.states, lo, |a.states|)
    requires Numbered(a.states, lo, |a.states|, id0) && a.nextId == id0 + (|a.states| - lo)
    ensures var b := Allocate(Allocate(a).0).0;
      AllConfined(b.states, lo, |b.states|) && Numbered(b.states, lo, |b.states|, id0)
      && b.states[..lo] == a.states[..lo] && |b.states| == |a.states| + 2
      && b.states[|a.states| + 1].eTransitions == [] && b.states[|a.states| + 1].transitions == map[]
  {
    var b := Allocate(Allocate(a).0).0;
    AllocatePair(a);
    KeepPrefix(a.states, b.states, lo, |a.states|, id0);
    JoinBlocks(b.states, lo, |a.states|, |b.states|, id0);
    PrefixOfPrefix(b.states, a.states, a.states[..lo], lo);
  }

  // ---------------------------------------------------------------------------------------
  // The shape of every compiled fragment

  lemma {:induction false} CompileShape(a: Arena, ast: Ast)
    ensures Shape(a, Compile(a, ast).0, Compile(a, ast).1)
    decreases ast, 1
  {
    match ast
    case Const(_) => ConstShape(a, ast);
    case Concat(_, _) => ConcatShape(a, ast);
    case Alternation(_, _) => AlternationShape(a, ast);
    case Modifier(_, _) => ModifierShape(a, ast);
    case Group(inner) => CompileShape(a, inner);
  }

  lemma {:induction false} ConstShape(a: Arena, ast: Ast)
    requires ast.Const?
    ensures Shape(a, CompileConst(a, ast).0, CompileConst(a, ast).1)
    decreases ast, 0
  {
    var (a2, _) := Allocate(Allocate(a).0);
    var lo := |a.states|;
    AllocatePair(a);
    var b := CompileConst(a, ast).0;
    assert b.states[lo] == a2.states[lo].(transitions := map[ast.c := lo + 1]);
    assert b.states[lo + 1] == a2.states[lo + 1];
    assert b.states[..lo] == a2.states[..lo];
  }

  lemma {:induction false} ConcatShape(a: Arena, ast: Ast)
    requires ast.Concat?
    ensures Shape(a, CompileConcat(a, ast).0, CompileConcat(a, ast).1)
    decreases ast, 0
  {
    var (a1, f1) := Compile(a, ast.left);
    var (a2, f2) := Compile(a1, ast.right);
    CompileShape(a, ast.left);
    CompileShape(a1, ast.right);
    var lo, m, hi := |a.states|, |a1.states|, |a2.states|;
    KeepPrefix(a1.states, a2.states, lo, m, a.nextId);
    JoinBlocks(a2.states, lo, m, hi, a.nextId);
    PushKeeps(a2, f1.end, f2.start, lo, hi, a.nextId);
    PrefixOfPrefix(a2.states, a1.states, a.states, lo);
  }

  lemma {:induction false} AlternationShape(a: Arena, ast: Ast)
    requires ast.Alternation?
    ensures Shape(a, CompileAlternation(a, ast).0, CompileAlternation(a, ast).1)
    decreases ast, 0
  {
    var (a1, f1) := Compile(a, ast.left);
    var (a2, f2) := Compile(a1, ast.right);
    CompileShape(a, ast.left);
    CompileShape(a1, ast.right);
    var lo, m := |a.states|, |a1.states|;
    KeepPrefix(a1.states, a2.states, lo, m, a.nextId);
    JoinBlocks(a2.states, lo, m, |a2.states|, a.nextId);
    JoinAlternativesShape(a2, f1, f2, lo, a.nextId);
    PrefixOfPrefix(a2.states, a1.states, a.states, lo);
  }

  lemma JoinAlternativesShape(a: Arena, f1: Fragment, f2: Fragment, lo: nat, id0: nat)
    requires lo <= f1.start < |a.states| && lo <= f1.end < |a.states|
    requires lo <= f2.start < |a.states| && lo <= f2.end < |a.states|
    requires AllConfined(a.states, lo, |a.states|) && Numbered(a.states, lo, |a.states|, id0)
    requires a.nextId == id0 + (|a.states| - lo)
    ensures var (b, f) := JoinAlternatives(a, f1, f2);
      var hi := |b.states|;
      b.states[..lo] == a.states[..lo] && f == Fragment(hi - 2, hi - 1)
      && AllConfined(b.states, lo, hi) && Numbered(b.states, lo, hi, id0)
      && b.states[hi - 1].transitions == map[] && b.states[hi - 1].eTransitions == []
  {
    var n := |a.states|;
    var a2 := Allocate(Allocate(a).0).0;
    var hi := n + 2;
    AllocateKeeps(a, lo, id0);
    var s, e := n, n + 1;
    var b1 := PushEpsilon(a2, s, f1.start);
    PushKeeps(a2, s, f1.start, lo, hi, id0);
    var b2 := PushEpsilon(b1, s, f2.start);
    PushKeeps(b1, s, f2.start, lo, hi, id0);
    var b3 := PushEpsilon(b2, f1.end, e);
    PushKeeps(b2, f1.end, e, lo, hi, id0);
    PushKeeps(b3, f2.end, e, lo, hi, id0);
    assert JoinAlternatives(a, f1, f2).0 == PushEpsilon(b3, f2.end, e);
  }

  lemma {:induction false} ModifierShape(a: Arena, ast: Ast)
    requires ast.Modifier?
    ensures Shape(a, CompileModifier(a, ast).0, CompileModifier(a, ast).1)
    decreases ast, 0
  {
    var a2 := Allocate(Allocate(a).0).0;
    var (a3, fb) := Compile(a2, ast.base);
    CompileShape(a2, ast.base);
    AllocatePair(a);
    var lo, m, hi := |a.states|, |a2.states|, |a3.states|;
    KeepPrefix(a2.states, a3.states, lo, m, a.nextId);
    JoinBlocks(a3.states, lo, m, hi, a.nextId);
    WireModifierShape(a3, lo, lo + 1, fb, ast.quantifier, lo, a.nextId);
    PrefixOfPrefix(a3.states, a2.states, a.states, lo);
  }

  lemma WireModifierShape(a: Arena, s: nat, e: nat, fb: Fragment, q: Quantifier, lo: nat, id0: nat)
    requires lo <= s < |a.states| && lo <= e < |a.states| && s != e && e != fb.end
    requires lo <= fb.start < |a.states| && lo <= fb.end < |a.states|
    requires AllConfined(a.states, lo, |a.states|) && Numbered(a.states, lo, |a.states|, id0)
    ensures var b := WireModifier(a, s, e, fb, q);
      b.states[..lo] == a.states[..lo] && b.states[e] == a.states[e]
      && AllConfined(b.states, lo, |b.states|) && Numbered(b.states, lo, |b.states|, id0)
  {
    var hi := |a.states|;
    var a1 := PushEpsilon(a, s, fb.start);
    PushKeeps(a, s, fb.start, lo, hi, id0);
    match q {
      case Star =>
        var b1 := PushEpsilon(a1, s, e);
        PushKeeps(a1, s, e, lo, hi, id0);
        var b2 := PushEpsilon(b1, fb.end, fb.start);
        PushKeeps(b1, fb.end, fb.start, lo, hi, id0);
        PushKeeps(b2, fb.end, e, lo, hi, id0);
      case Plus =>
        var b1 := PushEpsilon(a1, fb.end, fb.start);
        PushKeeps(a1, fb.end, fb.start, lo, hi, id0);
        PushKeeps(b1, fb.end, e, lo, hi, id0);
      case Optional =>
        var b1 := PushEpsilon(a1, s, e);
        PushKeeps(a1, s, e, lo, hi, id0);
        PushKeeps(b1, fb.end, e, lo, hi, id0);
    }
  }

  /** A whole compiled pattern is a well-formed graph, and only its exit state accepts. */
  lemma CompileNfaShape(counter: nat, ast: Ast)
    ensures var (b, f) := CompileNfa(Arena([], counter), ast);
      WellFormed(b.states) && f.start < |b.states| && f.end < |b.states|
      && (forall i :: 0 <= i < |b.states| ==> (b.states[i].isAccepting <==> i == f.end))
      && b.states[f.end].transitions == map[] && b.states[f.end].eTransitions == []
  {
    var a := Arena([], counter);
    var (a1, f) := Compile(a, ast);
    CompileShape(a, ast);
    var b := MarkAccepting(a1, f.end);
    forall i | 0 <= i < |b.states|
      ensures Confined(b.states[i], 0, |b.states|)
    {
      assert Confined(a1.states[i], 0, |a1.states|);
    }
  }

  // ---------------------------------------------------------------------------------------
  // Character edges

  /**
   * No state has more than one character edge, and a character edge leads to the state
   * allocated right after its source: the exit of the Const fragment the source is the entry of.
   */
  predicate CharEdges(s: seq<State>)
  {
    (forall i :: 0 <= i < |s| ==> |s[i].transitions| <= 1)
    && (forall i, c :: 0 <= i < |s| && c in s[i].transitions ==> s[i].transitions[c] == i + 1)
  }

  lemma AllocateChars(a: Arena)
    requires CharEdges(a.states)
    ensures CharEdges(Allocate(a).0.states)
  {
    var b := Allocate(a).0.states;
    forall i | 0 <= i < |b|
      ensures |b[i].transitions| <= 1
      ensures forall c :: c in b[i].transitions ==> b[i].transitions[c] == i + 1
    {
      if i < |a.states| {
        assert b[i] == a.states[i];
      }
    }
  }

  lemma PushChars(a: Arena, from: nat, to: nat)
    requires from < |a.states| && CharEdges(a.states)
    ensures CharEdges(PushEpsilon(a, from, to).states)
  {
    var b := PushEpsilon(a, from, to).states;
    forall i | 0 <= i < |b|
      ensures |b[i].transitions| <= 1
      ensures forall c :: c in b[i].transitions ==> b[i].transitions[c] == i + 1
    {
      assert b[i].transitions == a.states[i].transitions;
    }
  }

  lemma WireModifierChars(a: Arena, s: nat, e: nat, fb: Fragment, q: Quantifier)
    requires s < |a.states| && e < |a.states| && fb.end < |a.states| && CharEdges(a.states)
    ensures CharEdges(WireModifier(a, s, e, fb, q).states)
  {
    var a1 := PushEpsilon(a, s, fb.start);
    PushChars(a, s, fb.start);
    match q
    case Star =>
      PushChars(a1, s, e);
      PushChars(PushEpsilon(a1, s, e), fb.end, fb.start);
      PushChars(PushEpsilon(PushEpsilon(a1, s, e), fb.end, fb.start), fb.end, e);
    case Plus =>
      PushChars(a1, fb.end, fb.start);
      PushChars(PushEpsilon(a1, fb.end, fb.start), fb.end, e);
    case Optional =>
      PushChars(a1, s, e);
      PushChars(PushEpsilon(a1, s, e), fb.end, e);
  }

  /**
   * Compiling keeps every state at one character edge at most, leading to the next state:
   * only the entry of a Const fragment gets one, to the exit allocated right after it.
   */
  lemma {:induction false} CompileChars(a: Arena, ast: Ast)
    requires CharEdges(a.states)
    ensures CharEdges(Compile(a, ast).0.states)
    decreases ast
  {
    match ast
    case Const(c) =>
      var (a1, s) := Allocate(a);
      var (a2, e) := Allocate(a1);
      AllocateChars(a);
      AllocateChars(a1);
      var b := InsertTransition(a2, s, c, e).states;
      forall i | 0 <= i < |b|
        ensures |b[i].transitions| <= 1
        ensures forall c' :: c' in b[i].transitions ==> b[i].transitions[c'] == i + 1
      {
        if i == s {
          assert a2.states[s].transitions == map[];
          assert b[i].transitions == map[c := e];
        } else {
          assert b[i] == a2.states[i];
        }
      }
    case Concat(l, r) =>
      var (a1, f1) := Compile(a, l);
      var (a2, f2) := Compile(a1, r);
      CompileChars(a, l);
      CompileChars(a1, r);
      PushChars(a2, f1.end, f2.start);
    case Alternation(l, r) =>
      var (a1, f1) := Compile(a, l);
      var (a2, f2) := Compile(a1, r);
      CompileChars(a, l);
      CompileChars(a1, r);
      var (a3, s) := Allocate(a2);
      var (a4, e) := Allocate(a3);
      AllocateChars(a2);
      AllocateChars(a3);
      var a5 := PushEpsilon(a4, s, f1.start);
      var a6 := PushEpsilon(a5, s, f2.start);
      var a7 := PushEpsilon(a6, f1.end, e);
      PushChars(a4, s, f1.start);
      PushChars(a5, s, f2.start);
      PushChars(a6, f1.end, e);
      PushChars(a7, f2.end, e);
    case Modifier(b, q) =>
      var (a1, s) := Allocate(a);
      var (a2, e) := Allocate(a1);
      AllocateChars(a);
      AllocateChars(a1);
      var (a3, fb) := Compile(a2, b);
      CompileChars(a2, b);
      WireModifierChars(a3, s, e, fb, q);
    case Group(inner) =>
      CompileChars(a, inner);
  }

  /**
   * In the whole automaton every state has at most one character edge, and it leads to the
   * next state.
   */
  lemma CompileNfaChars(counter: nat, ast: Ast)
    ensures CharEdges(CompileNfa(Arena([], counter), ast).0.states)
  {
    var a := Arena([], counter);
    var (a1, f) := Compile(a, ast);
    CompileChars(a, ast);
    var b := MarkAccepting(a1, f.end).states;
    forall i | 0 <= i < |b|
      ensures |b[i].transitions| <= 1
      ensures forall c :: c in b[i].transitions ==> b[i].transitions[c] == i + 1
    {
      assert b[i].transitions == a1.states[i].transitions;
    }
  }
}
