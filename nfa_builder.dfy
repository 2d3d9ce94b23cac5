/**
 * Thompson's construction, after src/nfa_builder.rs.
 *
 * The Rust states are `Rc<RefCell<State>>` nodes that fragments share and that builders
 * mutate through `borrow_mut`; ids come from a thread-local counter.  Here the states live in
 * an arena: edges are indices into it, a fragment (StateMod) is a pair of indices, and the
 * counter is a field of the arena.  Compile and CompileNfa are the specification, as functions
 * from the arena before to the arena after; class Builder holds the same state in fields and
 * its methods, one per Rust function, are proved to follow them.
 */
module NfaBuilder {
  import opened Parser

  /** State: its id, the character edges, the epsilon edges (in push order), the accepting flag. */
  datatype State = State(id: nat, transitions: map<char, nat>, eTransitions: seq<nat>, isAccepting: bool)

  /** StateMod: the entry and exit state of a compiled sub-expression. */
  datatype Fragment = Fragment(start: nat, end: nat)

  /** The states allocated so far, and the STATE_ID counter. */
  datatype Arena = Arena(states: seq<State>, nextId: nat)

  /** new_state: a fresh non-accepting state without edges, numbered from the counter. */
  function Allocate(a: Arena): (Arena, nat)
  {
    (Arena(a.states + [State(a.nextId, map[], [], false)], a.nextId + 1), |a.states|)
  }

  /** `from.borrow_mut().e_transitions.push(to)` */
  function PushEpsilon(a: Arena, from: nat, to: nat): (r: Arena)
    requires from < |a.states|
    ensures |r.states| == |a.states| && r.nextId == a.nextId
  {
    a.(states := a.states[from := a.states[from].(eTransitions := a.states[from].eTransitions + [to])])
  }

  /** `from.borrow_mut().transitions.insert(c, to)` */
  function InsertTransition(a: Arena, from: nat, c: char, to: nat): Arena
    requires from < |a.states|
  {
    a.(states := a.states[from := a.states[from].(transitions := a.states[from].transitions[c := to])])
  }

  /** `end.borrow_mut().is_accepting = true` */
  function MarkAccepting(a: Arena, i: nat): Arena
    requires i < |a.states|
  {
    a.(states := a.states[i := a.states[i].(isAccepting := true)])
  }

  /** How many states compiling a node allocates: two per Const, Alternation and Modifier. */
  function StateCount(ast: Ast): nat
  {
    match ast
    case Const(_) => 2
    case Concat(l, r) => StateCount(l) + StateCount(r)
    case Alternation(l, r) => 2 + StateCount(l) + StateCount(r)
    case Group(e) => StateCount(e)
    case Modifier(b, _) => 2 + StateCount(b)
  }

  /** The arena after grew by n states and n ids, and the fragment lies among the new states. */
  predicate Allocated(a: Arena, res: (Arena, Fragment), n: nat)
  {
    |res.0.states| == |a.states| + n && res.0.nextId == a.nextId + n
    && |a.states| <= res.1.start < |res.0.states| && |a.states| <= res.1.end < |res.0.states|
  }

  /** build_nfa_inner: the arena after compiling ast, and the fragment. */
  function Compile(a: Arena, ast: Ast): (res: (Arena, Fragment))
    ensures Allocated(a, res, StateCount(ast))
    decreases ast, 1
  {
    match ast
    case Const(_) => CompileConst(a, ast)
    case Concat(_, _) => CompileConcat(a, ast)
    case Alternation(_, _) => CompileAlternation(a, ast)
    case Modifier(_, _) => CompileModifier(a, ast)
    case Group(inner) => Compile(a, inner)
  }

  /** build_const_nfa: two new states joined by an edge on the character. */
  function CompileConst(a: Arena, ast: Ast): (res: (Arena, Fragment))
    requires ast.Const?
    ensures Allocated(a, res, StateCount(ast))
    decreases ast, 0
  {
    var (a1, s) := Allocate(a);
    var (a2, e) := Allocate(a1);
    (InsertTransition(a2, s, ast.c, e), Fragment(s, e))
  }

  /** build_concat_nfa: the left fragment's exit gets an epsilon edge to the right one's entry. */
  function CompileConcat(a: Arena, ast: Ast): (res: (Arena, Fragment))
    requires ast.Concat?
    ensures Allocated(a, res, StateCount(ast))
    decreases ast, 0
  {
    var (a1, f1) := Compile(a, ast.left);
    var (a2, f2) := Compile(a1, ast.right);
    (PushEpsilon(a2, f1.end, f2.start), Fragment(f1.start, f2.end))
  }

  /**
   * build_alternation_nfa: both branches first, then a new entry with epsilon edges to both
   * branch entries and a new exit that both branch exits reach by epsilon.
   */
  function CompileAlternation(a: Arena, ast: Ast): (res: (Arena, Fragment))
    requires ast.Alternation?
    ensures Allocated(a, res, StateCount(ast))
    decreases ast, 0
  {
    var (a1, f1) := Compile(a, ast.left);
    var (a2, f2) := Compile(a1, ast.right);
    JoinAlternatives(a2, f1, f2)
  }

  /** The part of build_alternation_nfa after both branches are built. */
  function JoinAlternatives(a: Arena, f1: Fragment, f2: Fragment): (res: (Arena, Fragment))
    requires f1.end < |a.states| && f2.end < |a.states|
    ensures Allocated(a, res, 2)
  {
    var (a1, s) := Allocate(a);
    var (a2, e) := Allocate(a1);
    var a3 := PushEpsilon(PushEpsilon(a2, s, f1.start), s, f2.start);
    (PushEpsilon(PushEpsilon(a3, f1.end, e), f2.end, e), Fragment(s, e))
  }

  /**
   * build_modifier_nfa: a new entry and exit, allocated before the base is compiled; the
   * entry reaches the base by epsilon, and the quantifier decides the other epsilon edges.
   */
  function CompileModifier(a: Arena, ast: Ast): (res: (Arena, Fragment))
    requires ast.Modifier?
    ensures Allocated(a, res, StateCount(ast))
    decreases ast, 0
  {
    var (a1, s) := Allocate(a);
    var (a2, e) := Allocate(a1);
    var (a3, fb) := Compile(a2, ast.base);
    (WireModifier(a3, s, e, fb, ast.quantifier), Fragment(s, e))
  }

  /** The epsilon edges build_modifier_nfa adds once the base is built. */
  function WireModifier(a: Arena, s: nat, e: nat, fb: Fragment, q: Quantifier): (r: Arena)
    requires s < |a.states| && fb.end < |a.states|
    ensures |r.states| == |a.states| && r.nextId == a.nextId
  {
    var a1 := PushEpsilon(a, s, fb.start);
    match q
    case Star => PushEpsilon(PushEpsilon(PushEpsilon(a1, s, e), fb.end, fb.start), fb.end, e)
    case Plus => PushEpsilon(PushEpsilon(a1, fb.end, fb.start), fb.end, e)
    case Optional => PushEpsilon(PushEpsilon(a1, s, e), fb.end, e)
  }

  /** build_nfa: compile, then mark the exit state of the whole pattern accepting. */
  function CompileNfa(a: Arena, ast: Ast): (Arena, Fragment)
  {
    var (a1, f) := Compile(a, ast);
    (MarkAccepting(a1, f.end), f)
  }

  // ---------------------------------------------------------------------------------------
  // The imperative builder

  class Builder {
    var states: seq<State>
    /** The STATE_ID counter: the id the next state gets. */
    var nextId: nat

    function Snapshot(): Arena
      reads this
    {
      Arena(states, nextId)
    }

    /** A builder whose counter stands at `counter` and that has allocated nothing yet. */
    constructor (counter: nat)
      ensures states == [] && nextId == counter
    {
      states, nextId := [], counter;
    }

    method NewState() returns (i: nat)
      modifies this
      ensures (Snapshot(), i) == Allocate(old(Snapshot()))
    {
      i := |states|;
      states := states + [State(nextId, map[], [], false)];
      nextId := nextId + 1;
    }

    method AddEpsilon(from: nat, to: nat)
      requires from < |states|
      modifies this
      ensures Snapshot() == PushEpsilon(old(Snapshot()), from, to)
    {
      states := states[from := states[from].(eTransitions := states[from].eTransitions + [to])];
    }

    method BuildNfa(ast: Ast) returns (f: Fragment)
      modifies this
      ensures (Snapshot(), f) == CompileNfa(old(Snapshot()), ast)
    {
      f := BuildNfaInner(ast);
      states := states[f.end := states[f.end].(isAccepting := true)];
    }

    method BuildNfaInner(ast: Ast) returns (f: Fragment)
      modifies this
      ensures (Snapshot(), f) == Compile(old(Snapshot()), ast)
      decreases ast, 1
    {
      match ast {
        case Const(_) => f := BuildConstNfa(ast);
        case Concat(_, _) => f := BuildConcatNfa(ast);
        case Alternation(_, _) => f := BuildAlternationNfa(ast);
        case Modifier(_, _) => f := BuildModifierNfa(ast);
        case Group(inner) => f := BuildNfaInner(inner);
      }
    }

    method BuildConcatNfa(ast: Ast) returns (f: Fragment)
      requires ast.Concat?
      modifies this
      ensures (Snapshot(), f) == CompileConcat(old(Snapshot()), ast)
      decreases ast, 0
    {
      var nfa1 := BuildNfaInner(ast.left);
      var nfa2 := BuildNfaInner(ast.right);
      AddEpsilon(nfa1.end, nfa2.start);
      f := Fragment(nfa1.start, nfa2.end);
    }

    method BuildAlternationNfa(ast: Ast) returns (f: Fragment)
      requires ast.Alternation?
      modifies this
      ensures (Snapshot(), f) == CompileAlternation(old(Snapshot()), ast)
      decreases ast, 0
    {
      var nfa1 := BuildNfaInner(ast.left);
      var nfa2 := BuildNfaInner(ast.right);
      var start := NewState();
      var end := NewState();
      AddEpsilon(start, nfa1.start);
      AddEpsilon(start, nfa2.start);
      AddEpsilon(nfa1.end, end);
      AddEpsilon(nfa2.end, end);
      f := Fragment(start, end);
    }

    method BuildModifierNfa(ast: Ast) returns (f: Fragment)
      requires ast.Modifier?
      modifies this
      ensures (Snapshot(), f) == CompileModifier(old(Snapshot()), ast)
      decreases ast, 0
    {
      var start := NewState();
      var end := NewState();
      var baseNfa := BuildNfaInner(ast.base);
      AddEpsilon(start, baseNfa.start);
      match ast.quantifier {
        case Star =>
          AddEpsilon(start, end);
          AddEpsilon(baseNfa.end, baseNfa.start);
          AddEpsilon(baseNfa.end, end);
        case Plus =>
          AddEpsilon(baseNfa.end, baseNfa.start);
          AddEpsilon(baseNfa.end, end);
        case Optional =>
          AddEpsilon(start, end);
          AddEpsilon(baseNfa.end, end);
      }
      f := Fragment(start, end);
    }

    method BuildConstNfa(ast: Ast) returns (f: Fragment)
      requires ast.Const?
      modifies this
      ensures (Snapshot(), f) == CompileConst(old(Snapshot()), ast)
      decreases ast, 0
    {
      var start := NewState();
      var end := NewState();
      states := states[start := states[start].(transitions := states[start].transitions[ast.c := end])];
      f := Fragment(start, end);
    }
  }
}
