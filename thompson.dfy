/**
 * Correctness of Thompson's construction: the automaton build_nfa produces for a tree accepts
 * exactly the words of the tree.
 *
 * The proof is by induction on the tree, one fragment at a time.  Parents only ever add edges
 * out of a child's exit state, so a fragment is described by the graph G it ends up in
 * agreeing with the arena right after it was compiled on its own block of states, except at
 * its exit.  For such a G, a word is in the tree's language exactly when some run of G reads
 * it from the fragment's entry to its exit without passing the exit before the end.
 */
module Thompson {
  import opened Results
  import opened Parser
  import opened NfaBuilder
  import opened NfaProperties
  import opened Runs
  import opened Language

  /** G has the edges of s on the block [lo, hi), except possibly at state x. */
  predicate Agrees(G: seq<State>, s: seq<State>, lo: nat, hi: nat, x: nat)
  {
    hi <= |G| && hi <= |s|
    && forall i {:trigger G[i], s[i]} :: lo <= i < hi && i != x ==>
      G[i].transitions == s[i].transitions && G[i].eTransitions == s[i].eTransitions
  }

  /** G agrees with the result of compiling from arena a, except at the fragment's exit. */
  predicate Fits(G: seq<State>, a: Arena, res: (Arena, Fragment))
  {
    Agrees(G, res.0.states, |a.states|, |res.0.states|, res.1.end)
  }

  /** A run from p to x that reaches x only at the end. */
  predicate Path(G: seq<State>, qs: seq<nat>, ls: seq<Option<char>>, p: nat, x: nat)
  {
    IsRun(G, qs, ls) && qs[0] == p && qs[|qs| - 1] == x
    && forall i :: 0 <= i < |qs| - 1 ==> qs[i] != x
  }

  /** A run from the entry of f to its exit that reaches the exit only at the end. */
  predicate FragRun(G: seq<State>, qs: seq<nat>, ls: seq<Option<char>>, f: Fragment)
  {
    Path(G, qs, ls, f.start, f.end)
  }

  /** The block [lo, hi) of a compiled child: its fragment lies inside and its edges stay inside. */
  predicate Inner(c: seq<State>, lo: nat, hi: nat, f: Fragment)
  {
    hi == |c| && lo <= f.start < hi && lo <= f.end < hi && f.start != f.end && AllConfined(c, lo, hi)
  }

  /** Every state of the run lies in [lo, hi). */
  predicate InBlock(qs: seq<nat>, lo: nat, hi: nat)
  {
    forall i :: 0 <= i < |qs| ==> lo <= qs[i] < hi
  }

  // ---------------------------------------------------------------------------------------
  // Agreement and runs inside a block

  lemma AgreesNarrow(G: seq<State>, s: seq<State>, lo: nat, hi: nat, x: nat,
                     c: seq<State>, clo: nat, chi: nat, y: nat)
    requires Agrees(G, s, lo, hi, x) && lo <= clo <= chi <= hi && chi <= |c|
    requires x == y || !(clo <= x < chi)
    requires forall i :: clo <= i < chi && i != y ==> s[i] == c[i]
    ensures Agrees(G, c, clo, chi, y)
  {
  }

  /**
   * A run that starts inside a block whose edges stay inside it, except at x, and that ends
   * outside the block, passes x; up to the first time it does, it stays in the block.
   */
  lemma LeaveBlock(G: seq<State>, c: seq<State>, lo: nat, m: nat, x: nat,
                   qs: seq<nat>, ls: seq<Option<char>>) returns (k: nat)
    requires IsRun(G, qs, ls) && lo <= qs[0] < m && !(lo <= qs[|qs| - 1] < m)
    requires Agrees(G, c, lo, m, x) && AllConfined(c, lo, m)
    ensures k < |qs| - 1 && qs[k] == x
    ensures forall i :: 0 <= i <= k ==> lo <= qs[i] < m
    ensures forall i :: 0 <= i < k ==> qs[i] != x
  {
    k := 0;
    while qs[k] != x
      invariant k < |qs|
      invariant forall i :: 0 <= i <= k ==> lo <= qs[i] < m
      invariant forall i :: 0 <= i < k ==> qs[i] != x
      decreases |qs| - k
    {
      assert Confined(c[qs[k]], lo, m);
      assert Edge(G, qs[k], ls[k], qs[k + 1]);
      k := k + 1;
    }
  }

  /** Two runs linked by one edge. */
  lemma RunLink(G: seq<State>, qs1: seq<nat>, ls1: seq<Option<char>>, l: Option<char>,
                qs2: seq<nat>, ls2: seq<Option<char>>)
    requires IsRun(G, qs1, ls1) && IsRun(G, qs2, ls2) && Edge(G, qs1[|qs1| - 1], l, qs2[0])
    ensures IsRun(G, qs1 + qs2, ls1 + [l] + ls2)
    ensures Word(ls1 + [l] + ls2) == Word(ls1) + Word([l]) + Word(ls2)
  {
    var p := qs1[|qs1| - 1];
    RunEdge(G, p, l, qs2[0]);
    RunJoin(G, qs1, ls1, [p, qs2[0]], [l]);
    assert qs1 + [p, qs2[0]][1..] == qs1 + [qs2[0]];
    RunJoin(G, qs1 + [qs2[0]], ls1 + [l], qs2, ls2);
    assert qs1 + [qs2[0]] + qs2[1..] == qs1 + qs2;
  }

  /** An epsilon label in the middle of a run reads nothing. */
  lemma WordEps(ls: seq<Option<char>>, k: nat)
    requires k < |ls| && ls[k] == None
    ensures Word(ls) == Word(ls[..k]) + Word(ls[k + 1..])
  {
    WordAround(ls, k);
    assert Word([ls[k]]) == [];
    assert Word(ls[..k]) + [] == Word(ls[..k]);
  }

  // ---------------------------------------------------------------------------------------
  // What each construction step leaves behind

  lemma ConstFacts(a: Arena, ast: Ast)
    requires ast.Const?
    ensures var (b, f) := CompileConst(a, ast);
      var lo := |a.states|;
      f == Fragment(lo, lo + 1) && |b.states| == lo + 2
      && b.states[lo].transitions == map[ast.c := lo + 1] && b.states[lo].eTransitions == []
  {
  }

  lemma ConcatFacts(a: Arena, ast: Ast)
    requires ast.Concat?
    ensures var r1 := Compile(a, ast.left);
      var r2 := Compile(r1.0, ast.right);
      var (b, f) := CompileConcat(a, ast);
      Inner(r1.0.states, |a.states|, |r1.0.states|, r1.1) && Inner(r2.0.states, |r1.0.states|, |r2.0.states|, r2.1)
      && f == Fragment(r1.1.start, r2.1.end) && |b.states| == |r2.0.states|
      && (forall i :: |a.states| <= i < |b.states| && i != r1.1.end ==> b.states[i] == r2.0.states[i])
      && (forall i :: |a.states| <= i < |r1.0.states| ==> r2.0.states[i] == r1.0.states[i])
      && b.states[r1.1.end].transitions == map[] && b.states[r1.1.end].eTransitions == [r2.1.start]
  {
    var r1 := Compile(a, ast.left);
    var r2 := Compile(r1.0, ast.right);
    CompileShape(a, ast.left);
    CompileShape(r1.0, ast.right);
    forall i | |a.states| <= i < |r1.0.states|
      ensures r2.0.states[i] == r1.0.states[i]
    {
      assert r2.0.states[..|r1.0.states|][i] == r2.0.states[i];
    }
  }

  lemma AlternationFacts(a: Arena, ast: Ast)
    requires ast.Alternation?
    ensures var r1 := Compile(a, ast.left);
      var r2 := Compile(r1.0, ast.right);
      var (b, f) := CompileAlternation(a, ast);
      var n := |r2.0.states|;
      Inner(r1.0.states, |a.states|, |r1.0.states|, r1.1) && Inner(r2.0.states, |r1.0.states|, |r2.0.states|, r2.1)
      && f == Fragment(n, n + 1) && |b.states| == n + 2
      && (forall i :: |a.states| <= i < n && i != r1.1.end && i != r2.1.end ==> b.states[i] == r2.0.states[i])
      && (forall i :: |a.states| <= i < |r1.0.states| ==> r2.0.states[i] == r1.0.states[i])
      && b.states[n].transitions == map[] && b.states[n].eTransitions == [r1.1.start, r2.1.start]
      && b.states[r1.1.end].transitions == map[] && b.states[r1.1.end].eTransitions == [n + 1]
      && b.states[r2.1.end].transitions == map[] && b.states[r2.1.end].eTransitions == [n + 1]
  {
    var r1 := Compile(a, ast.left);
    var r2 := Compile(r1.0, ast.right);
    CompileShape(a, ast.left);
    CompileShape(r1.0, ast.right);
    forall i | |a.states| <= i < |r1.0.states|
      ensures r2.0.states[i] == r1.0.states[i]
    {
      assert r2.0.states[..|r1.0.states|][i] == r2.0.states[i];
    }
    assert r2.0.states[r1.1.end] == r1.0.states[r1.1.end];
  }

  /** The epsilon edges build_modifier_nfa gives the new entry state. */
  function EntryEdges(q: Quantifier, fb: Fragment, e: nat): seq<nat>
  {
    match q
    case Star => [fb.start, e]
    case Plus => [fb.start]
    case Optional => [fb.start, e]
  }

  /** The epsilon edges build_modifier_nfa gives the base's exit state. */
  function ExitEdges(q: Quantifier, fb: Fragment, e: nat): seq<nat>
  {
    match q
    case Star => [fb.start, e]
    case Plus => [fb.start, e]
    case Optional => [e]
  }

  lemma ModifierFacts(a: Arena, ast: Ast)
    requires ast.Modifier?
    ensures var a2 := Allocate(Allocate(a).0).0;
      var r3 := Compile(a2, ast.base);
      var (b, f) := CompileModifier(a, ast);
      var lo := |a.states|;
      var fb := r3.1;
      |a2.states| == lo + 2 && Inner(r3.0.states, lo + 2, |r3.0.states|, fb)
      && f == Fragment(lo, lo + 1) && |b.states| == |r3.0.states|
      && (forall i :: lo + 2 <= i < |b.states| && i != fb.end ==> b.states[i] == r3.0.states[i])
      && b.states[lo].transitions == map[] && b.states[lo].eTransitions == EntryEdges(ast.quantifier, fb, lo + 1)
      && b.states[fb.end].transitions == map[] && b.states[fb.end].eTransitions == ExitEdges(ast.quantifier, fb, lo + 1)
  {
    var a2 := Allocate(Allocate(a).0).0;
    var r3 := Compile(a2, ast.base);
    CompileShape(a2, ast.base);
    AllocatePair(a);
    var lo := |a.states|;
    assert r3.0.states[lo] == a2.states[lo] by {
      assert r3.0.states[..lo + 2][lo] == r3.0.states[lo];
    }
  }

  /** What a Concat fragment that G fits tells about G: both children fit, and the left exit is linked. */
  lemma ConcatFits(a: Arena, ast: Ast, G: seq<State>)
    requires ast.Concat? && Fits(G, a, CompileConcat(a, ast))
    ensures var r1 := Compile(a, ast.left);
      var r2 := Compile(r1.0, ast.right);
      var (b, f) := CompileConcat(a, ast);
      Fits(G, a, r1) && Fits(G, r1.0, r2)
      && Inner(r1.0.states, |a.states|, |r1.0.states|, r1.1) && Inner(r2.0.states, |r1.0.states|, |r2.0.states|, r2.1)
      && f == Fragment(r1.1.start, r2.1.end) && |b.states| == |r2.0.states|
      && G[r1.1.end].transitions == map[] && G[r1.1.end].eTransitions == [r2.1.start]
  {
    ConcatFacts(a, ast);
    var r1 := Compile(a, ast.left);
    var r2 := Compile(r1.0, ast.right);
    var b := CompileConcat(a, ast).0.states;
    var lo, m, hi := |a.states|, |r1.0.states|, |b|;
    AgreesNarrow(G, b, lo, hi, r2.1.end, r1.0.states, lo, m, r1.1.end);
    AgreesNarrow(G, b, lo, hi, r2.1.end, r2.0.states, m, hi, r2.1.end);
  }

  /** What an Alternation fragment that G fits tells about G. */
  lemma AlternationFits(a: Arena, ast: Ast, G: seq<State>)
    requires ast.Alternation? && Fits(G, a, CompileAlternation(a, ast))
    ensures var r1 := Compile(a, ast.left);
      var r2 := Compile(r1.0, ast.right);
      var (b, f) := CompileAlternation(a, ast);
      var n := |r2.0.states|;
      Fits(G, a, r1) && Fits(G, r1.0, r2)
      && Inner(r1.0.states, |a.states|, |r1.0.states|, r1.1) && Inner(r2.0.states, |r1.0.states|, n, r2.1)
      && f == Fragment(n, n + 1) && |b.states| == n + 2 && n + 2 <= |G|
      && G[n].transitions == map[] && G[n].eTransitions == [r1.1.start, r2.1.start]
      && G[r1.1.end].transitions == map[] && G[r1.1.end].eTransitions == [n + 1]
      && G[r2.1.end].transitions == map[] && G[r2.1.end].eTransitions == [n + 1]
  {
    AlternationFacts(a, ast);
    var r1 := Compile(a, ast.left);
    var r2 := Compile(r1.0, ast.right);
    var b := CompileAlternation(a, ast).0.states;
    var lo, m, n := |a.states|, |r1.0.states|, |r2.0.states|;
    AgreesNarrow(G, b, lo, n + 2, n + 1, r1.0.states, lo, m, r1.1.end);
    AgreesNarrow(G, b, lo, n + 2, n + 1, r2.0.states, m, n, r2.1.end);
  }

  /** What a Modifier fragment that G fits tells about G. */
  lemma ModifierFits(a: Arena, ast: Ast, G: seq<State>)
    requires ast.Modifier? && Fits(G, a, CompileModifier(a, ast))
    ensures var a2 := Allocate(Allocate(a).0).0;
      var r3 := Compile(a2, ast.base);
      var (b, f) := CompileModifier(a, ast);
      var lo := |a.states|;
      var fb := r3.1;
      |a2.states| == lo + 2 && Fits(G, a2, r3) && Inner(r3.0.states, lo + 2, |r3.0.states|, fb)
      && f == Fragment(lo, lo + 1) && |b.states| == |r3.0.states| && |b.states| <= |G|
      && G[lo].transitions == map[] && G[lo].eTransitions == EntryEdges(ast.quantifier, fb, lo + 1)
      && G[fb.end].transitions == map[] && G[fb.end].eTransitions == ExitEdges(ast.quantifier, fb, lo + 1)
  {
    ModifierFacts(a, ast);
    var a2 := Allocate(Allocate(a).0).0;
    var r3 := Compile(a2, ast.base);
    var b := CompileModifier(a, ast).0.states;
    var lo := |a.states|;
    AgreesNarrow(G, b, lo, |b|, lo + 1, r3.0.states, lo + 2, |b|, r3.1.end);
  }

  // ---------------------------------------------------------------------------------------
  // Cutting and linking paths

  /** A path that ends where it starts has no edges. */
  lemma Trivial(G: seq<State>, qs: seq<nat>, ls: seq<Option<char>>, x: nat)
    requires Path(G, qs, ls, x, x)
    ensures ls == [] && Word(ls) == []
  {
  }

  /** The first edge of a path out of a state with only epsilon edges. */
  lemma Head(G: seq<State>, qs: seq<nat>, ls: seq<Option<char>>, p: nat, y: nat)
    requires Path(G, qs, ls, p, y) && p != y && G[p].transitions == map[]
    ensures |qs| > 1 && qs[1] in G[p].eTransitions
    ensures Path(G, qs[1..], ls[1..], qs[1], y) && Word(ls) == Word(ls[1..])
  {
    assert Edge(G, qs[0], ls[0], qs[1]);
    RunSlice(G, qs, ls, 1, |qs| - 1);
    assert qs[1..|qs|] == qs[1..] && ls[1..|qs| - 1] == ls[1..];
    WordEps(ls, 0);
    assert ls[..0] == [] && Word(ls[..0]) == [];
  }

  /**
   * A path that starts at the entry of a child fragment f, whose block [lo, hi) it agrees with,
   * and ends outside that block, first runs through the child and then leaves its exit along an
   * epsilon edge.
   */
  lemma Cut(G: seq<State>, c: seq<State>, lo: nat, hi: nat, f: Fragment,
            qs: seq<nat>, ls: seq<Option<char>>, y: nat) returns (k: nat)
    requires Path(G, qs, ls, f.start, y) && !(lo <= y < hi)
    requires Agrees(G, c, lo, hi, f.end) && Inner(c, lo, hi, f) && G[f.end].transitions == map[]
    ensures k + 1 < |qs| && FragRun(G, qs[..k + 1], ls[..k], f)
    ensures qs[k + 1] in G[f.end].eTransitions
    ensures Path(G, qs[k + 1..], ls[k + 1..], qs[k + 1], y)
    ensures Word(ls) == Word(ls[..k]) + Word(ls[k + 1..])
  {
    k := LeaveBlock(G, c, lo, hi, f.end, qs, ls);
    RunSlice(G, qs, ls, 0, k);
    assert Edge(G, qs[k], ls[k], qs[k + 1]);
    RunSlice(G, qs, ls, k + 1, |qs| - 1);
    assert qs[k + 1..|qs|] == qs[k + 1..] && ls[k + 1..|qs| - 1] == ls[k + 1..];
    WordEps(ls, k);
  }

  /** The path that stays at x. */
  lemma Stop(G: seq<State>, x: nat, lo: nat, hi: nat)
    requires lo <= x < hi <= |G|
    ensures Path(G, [x], [], x, x) && InBlock([x], lo, hi) && Word([]) == []
  {
  }

  /**
   * A run inside [lo1, hi1), one epsilon edge, and a path to x inside [lo, hi) make a path to x
   * inside [lo, hi) when x lies outside [lo1, hi1).
   */
  lemma Link(G: seq<State>, qs1: seq<nat>, ls1: seq<Option<char>>, qs2: seq<nat>, ls2: seq<Option<char>>,
             lo1: nat, hi1: nat, lo: nat, hi: nat, x: nat)
    requires IsRun(G, qs1, ls1) && InBlock(qs1, lo1, hi1) && !(lo1 <= x < hi1) && lo <= lo1 && hi1 <= hi
    requires IsRun(G, qs2, ls2) && Path(G, qs2, ls2, qs2[0], x) && InBlock(qs2, lo, hi)
    requires Edge(G, qs1[|qs1| - 1], None, qs2[0])
    ensures Path(G, qs1 + qs2, ls1 + [None] + ls2, qs1[0], x) && InBlock(qs1 + qs2, lo, hi)
    ensures Word(ls1 + [None] + ls2) == Word(ls1) + Word(ls2)
  {
    RunLink(G, qs1, ls1, None, qs2, ls2);
    assert Word([None]) == [];
    assert Word(ls1) + [] == Word(ls1);
    var qs := qs1 + qs2;
    forall j | 0 <= j < |qs|
      ensures lo <= qs[j] < hi && (j < |qs| - 1 ==> qs[j] != x)
    {
      if j < |qs1| {
        assert qs[j] == qs1[j];
      } else {
        assert qs[j] == qs2[j - |qs1|];
      }
    }
  }

  // ---------------------------------------------------------------------------------------
  // A run through a fragment reads a word of its tree

  lemma {:induction false} CompileSound(a: Arena, ast: Ast, G: seq<State>, qs: seq<nat>, ls: seq<Option<char>>)
    requires Fits(G, a, Compile(a, ast)) && FragRun(G, qs, ls, Compile(a, ast).1)
    ensures InLang(ast, Word(ls))
    decreases ast, 2, 0
  {
    match ast
    case Const(_) => ConstSound(a, ast, G, qs, ls);
    case Concat(_, _) => ConcatSound(a, ast, G, qs, ls);
    case Alternation(_, _) => AlternationSound(a, ast, G, qs, ls);
    case Modifier(_, _) => ModifierSound(a, ast, G, qs, ls);
    case Group(inner) => CompileSound(a, inner, G, qs, ls);
  }

  lemma {:induction false} ConstSound(a: Arena, ast: Ast, G: seq<State>, qs: seq<nat>, ls: seq<Option<char>>)
    requires ast.Const? && Fits(G, a, CompileConst(a, ast)) && FragRun(G, qs, ls, CompileConst(a, ast).1)
    ensures InLang(ast, Word(ls))
    decreases ast, 1, 0
  {
    ConstFacts(a, ast);
    var lo := |a.states|;
    assert G[lo].transitions == map[ast.c := lo + 1] && G[lo].eTransitions == [];
    assert Edge(G, qs[0], ls[0], qs[1]);
    assert |qs| == 2;
    assert ls == [Some(ast.c)];
  }

  lemma {:induction false} ConcatSound(a: Arena, ast: Ast, G: seq<State>, qs: seq<nat>, ls: seq<Option<char>>)
    requires ast.Concat? && Fits(G, a, CompileConcat(a, ast)) && FragRun(G, qs, ls, CompileConcat(a, ast).1)
    ensures InLang(ast, Word(ls))
    decreases ast, 1, 0
  {
    ConcatFits(a, ast, G);
    var r1 := Compile(a, ast.left);
    var r2 := Compile(r1.0, ast.right);
    var k := Cut(G, r1.0.states, |a.states|, |r1.0.states|, r1.1, qs, ls, r2.1.end);
    CompileSound(a, ast.left, G, qs[..k + 1], ls[..k]);
    CompileSound(r1.0, ast.right, G, qs[k + 1..], ls[k + 1..]);
    ConcatIntro(ast.left, ast.right, Word(ls[..k]), Word(ls[k + 1..]));
  }

  lemma {:induction false} AlternationSound(a: Arena, ast: Ast, G: seq<State>, qs: seq<nat>, ls: seq<Option<char>>)
    requires ast.Alternation? && Fits(G, a, CompileAlternation(a, ast))
    requires FragRun(G, qs, ls, CompileAlternation(a, ast).1)
    ensures InLang(ast, Word(ls))
    decreases ast, 1, 0
  {
    AlternationFits(a, ast, G);
    var r1 := Compile(a, ast.left);
    var n := |Compile(r1.0, ast.right).0.states|;
    Head(G, qs, ls, n, n + 1);
    if qs[1] == r1.1.start {
      BranchSound(a, ast.left, G, qs[1..], ls[1..], n + 1);
    } else {
      BranchSound(r1.0, ast.right, G, qs[1..], ls[1..], n + 1);
    }
  }

  /** A path through a child fragment whose exit has its one epsilon edge to y reads a word of the child. */
  lemma {:induction false} BranchSound(a: Arena, t: Ast, G: seq<State>, qs: seq<nat>, ls: seq<Option<char>>, y: nat)
    requires Fits(G, a, Compile(a, t))
    requires Inner(Compile(a, t).0.states, |a.states|, |Compile(a, t).0.states|, Compile(a, t).1)
    requires Path(G, qs, ls, Compile(a, t).1.start, y) && !(|a.states| <= y < |Compile(a, t).0.states|)
    requires G[Compile(a, t).1.end].transitions == map[] && G[Compile(a, t).1.end].eTransitions == [y]
    ensures InLang(t, Word(ls))
    decreases t, 2, 1
  {
    var r := Compile(a, t);
    var k := Cut(G, r.0.states, |a.states|, |r.0.states|, r.1, qs, ls, y);
    Trivial(G, qs[k + 1..], ls[k + 1..], y);
    CompileSound(a, t, G, qs[..k + 1], ls[..k]);
    assert Word(ls[..k]) + [] == Word(ls[..k]);
  }

  lemma {:induction false} ModifierSound(a: Arena, ast: Ast, G: seq<State>, qs: seq<nat>, ls: seq<Option<char>>)
    requires ast.Modifier? && Fits(G, a, CompileModifier(a, ast))
    requires FragRun(G, qs, ls, CompileModifier(a, ast).1)
    ensures InLang(ast, Word(ls))
    decreases ast, 1, 0
  {
    ModifierFits(a, ast, G);
    var e := |a.states| + 1;
    Head(G, qs, ls, |a.states|, e);
    var rq, rl := qs[1..], ls[1..];
    if qs[1] == e {
      Trivial(G, rq, rl, e);
    } else if ast.quantifier.Optional? {
      BranchSound(Allocate(Allocate(a).0).0, ast.base, G, rq, rl, e);
    } else {
      LoopSound(a, ast, G, rq, rl);
      if ast.quantifier.Star? {
        PlusStar(ast.base, Word(rl));
      }
    }
  }

  /**
   * The loop of a starred or plussed base: a path from the base's entry to the modifier's exit
   * reads one or more words of the base.
   */
  lemma {:induction false} LoopSound(a: Arena, ast: Ast, G: seq<State>, qs: seq<nat>, ls: seq<Option<char>>)
    requires ast.Modifier? && !ast.quantifier.Optional? && Fits(G, a, CompileModifier(a, ast))
    requires Path(G, qs, ls, Compile(Allocate(Allocate(a).0).0, ast.base).1.start, |a.states| + 1)
    ensures InPlus(ast.base, Word(ls))
    decreases ast, 0, |qs|
  {
    ModifierFits(a, ast, G);
    var a2 := Allocate(Allocate(a).0).0;
    var r3 := Compile(a2, ast.base);
    var e := |a.states| + 1;
    var k := Cut(G, r3.0.states, |a.states| + 2, |r3.0.states|, r3.1, qs, ls, e);
    CompileSound(a2, ast.base, G, qs[..k + 1], ls[..k]);
    var u, v := Word(ls[..k]), Word(ls[k + 1..]);
    if qs[k + 1] == e {
      Trivial(G, qs[k + 1..], ls[k + 1..], e);
      PlusIntro(ast.base, u, []);
      assert u + [] == u;
    } else {
      LoopSound(a, ast, G, qs[k + 1..], ls[k + 1..]);
      PlusStar(ast.base, v);
      PlusIntro(ast.base, u, v);
    }
  }

  // ---------------------------------------------------------------------------------------
  // Every word of a tree is read by a run through its fragment

  lemma {:induction false} CompileComplete(a: Arena, ast: Ast, G: seq<State>, w: seq<char>)
    returns (qs: seq<nat>, ls: seq<Option<char>>)
    requires Fits(G, a, Compile(a, ast)) && InLang(ast, w)
    ensures FragRun(G, qs, ls, Compile(a, ast).1) && Word(ls) == w
    ensures InBlock(qs, |a.states|, |Compile(a, ast).0.states|)
    decreases ast, 2, 0
  {
    match ast
    case Const(_) => qs, ls := ConstComplete(a, ast, G, w);
    case Concat(_, _) => qs, ls := ConcatComplete(a, ast, G, w);
    case Alternation(_, _) => qs, ls := AlternationComplete(a, ast, G, w);
    case Modifier(_, _) => qs, ls := ModifierComplete(a, ast, G, w);
    case Group(inner) => qs, ls := CompileComplete(a, inner, G, w);
  }

  lemma {:induction false} ConstComplete(a: Arena, ast: Ast, G: seq<State>, w: seq<char>)
    returns (qs: seq<nat>, ls: seq<Option<char>>)
    requires ast.Const? && Fits(G, a, CompileConst(a, ast)) && InLang(ast, w)
    ensures FragRun(G, qs, ls, CompileConst(a, ast).1) && Word(ls) == w
    ensures InBlock(qs, |a.states|, |CompileConst(a, ast).0.states|)
    decreases ast, 1, 0
  {
    ConstFacts(a, ast);
    var lo := |a.states|;
    assert G[lo].transitions == map[ast.c := lo + 1];
    qs, ls := [lo, lo + 1], [Some(ast.c)];
    RunEdge(G, lo, Some(ast.c), lo + 1);
  }

  lemma {:induction false} ConcatComplete(a: Arena, ast: Ast, G: seq<State>, w: seq<char>)
    returns (qs: seq<nat>, ls: seq<Option<char>>)
    requires ast.Concat? && Fits(G, a, CompileConcat(a, ast)) && InLang(ast, w)
    ensures FragRun(G, qs, ls, CompileConcat(a, ast).1) && Word(ls) == w
    ensures InBlock(qs, |a.states|, |CompileConcat(a, ast).0.states|)
    decreases ast, 1, 0
  {
    ConcatFits(a, ast, G);
    var r1 := Compile(a, ast.left);
    var r2 := Compile(r1.0, ast.right);
    var u, v := ConcatSplit(ast.left, ast.right, w);
    var qs1, ls1 := CompileComplete(a, ast.left, G, u);
    var qs2, ls2 := CompileComplete(r1.0, ast.right, G, v);
    Link(G, qs1, ls1, qs2, ls2, |a.states|, |r1.0.states|, |a.states|, |r2.0.states|, r2.1.end);
    qs, ls := qs1 + qs2, ls1 + [None] + ls2;
  }

  lemma {:induction false} AlternationComplete(a: Arena, ast: Ast, G: seq<State>, w: seq<char>)
    returns (qs: seq<nat>, ls: seq<Option<char>>)
    requires ast.Alternation? && Fits(G, a, CompileAlternation(a, ast)) && InLang(ast, w)
    ensures FragRun(G, qs, ls, CompileAlternation(a, ast).1) && Word(ls) == w
    ensures InBlock(qs, |a.states|, |CompileAlternation(a, ast).0.states|)
    decreases ast, 1, 0
  {
    qs, ls := AlternationBranch(a, ast, G, w, InLang(ast.left, w));
  }

  /** A word of the left (or else the right) alternative: the path through that alternative. */
  lemma {:induction false} AlternationBranch(a: Arena, ast: Ast, G: seq<State>, w: seq<char>, left: bool)
    returns (qs: seq<nat>, ls: seq<Option<char>>)
    requires ast.Alternation? && Fits(G, a, CompileAlternation(a, ast))
    requires if left then InLang(ast.left, w) else InLang(ast.right, w)
    ensures FragRun(G, qs, ls, CompileAlternation(a, ast).1) && Word(ls) == w
    ensures InBlock(qs, |a.states|, |CompileAlternation(a, ast).0.states|)
    decreases ast, 0, 0
  {
    AlternationFits(a, ast, G);
    var r1 := Compile(a, ast.left);
    var r2 := Compile(r1.0, ast.right);
    var n := |r2.0.states|;
    var (ca, t, r) := if left then (a, ast.left, r1) else (r1.0, ast.right, r2);
    qs, ls := BranchComplete(ca, t, r, G, w, n, n + 1, |a.states|, n + 2);
  }

  /** A word of a child fragment r entered from p and left towards x, both outside its block. */
  lemma {:induction false} BranchComplete(a: Arena, t: Ast, r: (Arena, Fragment), G: seq<State>, w: seq<char>,
                                          p: nat, x: nat, olo: nat, ohi: nat)
    returns (qs: seq<nat>, ls: seq<Option<char>>)
    requires r == Compile(a, t) && Fits(G, a, r) && InLang(t, w) && Inner(r.0.states, |a.states|, |r.0.states|, r.1)
    requires olo <= |a.states| && |r.0.states| <= ohi <= |G| && olo <= p < ohi && olo <= x < ohi && p != x
    requires !(|a.states| <= p < |r.0.states|) && !(|a.states| <= x < |r.0.states|)
    requires r.1.start in G[p].eTransitions && G[r.1.end].eTransitions == [x]
    ensures Path(G, qs, ls, p, x) && Word(ls) == w && InBlock(qs, olo, ohi)
    decreases t, 2, 1
  {
    var cq, cl := CompileComplete(a, t, G, w);
    qs, ls := Enclose(G, p, cq, cl, x, |a.states|, |r.0.states|, olo, ohi);
  }

  /**
   * A child's path wrapped in the epsilon edges from an entry state p and to an exit state x,
   * both outside the child's block.
   */
  lemma Enclose(G: seq<State>, p: nat, cq: seq<nat>, cl: seq<Option<char>>, x: nat,
                lo: nat, hi: nat, olo: nat, ohi: nat)
    returns (qs: seq<nat>, ls: seq<Option<char>>)
    requires olo <= lo && hi <= ohi && ohi <= |G| && olo <= p < ohi && olo <= x < ohi && p != x
    requires !(lo <= p < hi) && !(lo <= x < hi)
    requires IsRun(G, cq, cl) && InBlock(cq, lo, hi)
    requires Edge(G, p, None, cq[0]) && Edge(G, cq[|cq| - 1], None, x)
    ensures Path(G, qs, ls, p, x) && Word(ls) == Word(cl) && InBlock(qs, olo, ohi)
  {
    Stop(G, x, olo, ohi);
    Link(G, cq, cl, [x], [], lo, hi, olo, ohi, x);
    Stop(G, p, p, p + 1);
    Link(G, [p], [], cq + [x], cl + [None] + [], p, p + 1, olo, ohi, x);
    qs, ls := [p] + (cq + [x]), [] + [None] + (cl + [None] + []);
  }

  lemma {:induction false} ModifierComplete(a: Arena, ast: Ast, G: seq<State>, w: seq<char>)
    returns (qs: seq<nat>, ls: seq<Option<char>>)
    requires ast.Modifier? && Fits(G, a, CompileModifier(a, ast)) && InLang(ast, w)
    ensures FragRun(G, qs, ls, CompileModifier(a, ast).1) && Word(ls) == w
    ensures InBlock(qs, |a.states|, |CompileModifier(a, ast).0.states|)
    decreases ast, 1, 0
  {
    if w == [] && !ast.quantifier.Plus? {
      qs, ls := SkipComplete(a, ast, G);
    } else if ast.quantifier.Optional? {
      qs, ls := OptionalComplete(a, ast, G, w);
    } else {
      var u, v := RepeatSplit(ast.base, ast.quantifier.Star?, w);
      qs, ls := RepeatComplete(a, ast, G, u, v);
    }
  }

  /** A starred or optional base and the empty word: the epsilon edge past the base. */
  lemma SkipComplete(a: Arena, ast: Ast, G: seq<State>) returns (qs: seq<nat>, ls: seq<Option<char>>)
    requires ast.Modifier? && !ast.quantifier.Plus? && Fits(G, a, CompileModifier(a, ast))
    ensures FragRun(G, qs, ls, CompileModifier(a, ast).1) && Word(ls) == []
    ensures InBlock(qs, |a.states|, |CompileModifier(a, ast).0.states|)
  {
    ModifierFits(a, ast, G);
    var lo := |a.states|;
    qs, ls := [lo, lo + 1], [None];
    RunEdge(G, lo, None, lo + 1);
  }

  /** An optional base and a non-empty word: the path through the base. */
  lemma {:induction false} OptionalComplete(a: Arena, ast: Ast, G: seq<State>, w: seq<char>)
    returns (qs: seq<nat>, ls: seq<Option<char>>)
    requires ast.Modifier? && ast.quantifier.Optional? && Fits(G, a, CompileModifier(a, ast))
    requires InLang(ast.base, w)
    ensures FragRun(G, qs, ls, CompileModifier(a, ast).1) && Word(ls) == w
    ensures InBlock(qs, |a.states|, |CompileModifier(a, ast).0.states|)
    decreases ast, 0, 0
  {
    ModifierFits(a, ast, G);
    var a2 := Allocate(Allocate(a).0).0;
    var r3 := Compile(a2, ast.base);
    var lo, hi := |a.states|, |r3.0.states|;
    var cq, cl := CompileComplete(a2, ast.base, G, w);
    qs, ls := Enclose(G, lo, cq, cl, lo + 1, lo + 2, hi, lo, hi);
  }

  /** A word of the base followed by a word of its star: the path around the loop. */
  lemma {:induction false} RepeatComplete(a: Arena, ast: Ast, G: seq<State>, u: seq<char>, v: seq<char>)
    returns (qs: seq<nat>, ls: seq<Option<char>>)
    requires ast.Modifier? && !ast.quantifier.Optional? && Fits(G, a, CompileModifier(a, ast))
    requires InLang(ast.base, u) && InStar(ast.base, v)
    ensures FragRun(G, qs, ls, CompileModifier(a, ast).1) && Word(ls) == u + v
    ensures InBlock(qs, |a.states|, |CompileModifier(a, ast).0.states|)
    decreases ast, 0, |v| + 1
  {
    ModifierFits(a, ast, G);
    var lo := |a.states|;
    var cq, cl := LoopComplete(a, ast, G, u, v);
    Stop(G, lo, lo, lo + 1);
    Link(G, [lo], [], cq, cl, lo, lo + 1, lo, |CompileModifier(a, ast).0.states|, lo + 1);
    qs, ls := [lo] + cq, [] + [None] + cl;
  }

  /**
   * The loop of a starred or plussed base: a word of the base followed by a word of the base's
   * star is read by a path from the base's entry to the modifier's exit.
   */
  lemma {:induction false} LoopComplete(a: Arena, ast: Ast, G: seq<State>, u: seq<char>, v: seq<char>)
    returns (qs: seq<nat>, ls: seq<Option<char>>)
    requires ast.Modifier? && !ast.quantifier.Optional? && Fits(G, a, CompileModifier(a, ast))
    requires InLang(ast.base, u) && InStar(ast.base, v)
    ensures Path(G, qs, ls, Compile(Allocate(Allocate(a).0).0, ast.base).1.start, |a.states| + 1)
    ensures Word(ls) == u + v && InBlock(qs, |a.states| + 1, |CompileModifier(a, ast).0.states|)
    decreases ast, 0, |v|
  {
    ModifierFits(a, ast, G);
    var a2 := Allocate(Allocate(a).0).0;
    var r3 := Compile(a2, ast.base);
    var lo, hi := |a.states|, |r3.0.states|;
    var e := lo + 1;
    var cq, cl := CompileComplete(a2, ast.base, G, u);
    var tq, tl;
    if v == [] {
      tq, tl := [e], [];
      Stop(G, e, lo + 1, hi);
    } else {
      var u2, v2 := StarSplit(ast.base, v);
      tq, tl := LoopComplete(a, ast, G, u2, v2);
    }
    Link(G, cq, cl, tq, tl, lo + 2, hi, lo + 1, hi, e);
    qs, ls := cq + tq, cl + [None] + tl;
  }

  // ---------------------------------------------------------------------------------------
  // The whole automaton

  /** A state with no edges can only be the last state of a run. */
  lemma DeadEnd(G: seq<State>, qs: seq<nat>, ls: seq<Option<char>>, x: nat)
    requires IsRun(G, qs, ls) && x < |G| && G[x].transitions == map[] && G[x].eTransitions == []
    ensures forall i :: 0 <= i < |qs| - 1 ==> qs[i] != x
  {
    forall i | 0 <= i < |qs| - 1
      ensures qs[i] != x
    {
      assert Edge(G, qs[i], ls[i], qs[i + 1]);
    }
  }

  /**
   * Thompson's construction is correct: the automaton build_nfa makes from a tree, run from
   * the fragment's entry, accepts exactly the words of the tree.
   */
  lemma CompileNfaCorrect(counter: nat, ast: Ast, w: seq<char>)
    ensures var (b, f) := CompileNfa(Arena([], counter), ast);
      Accepts(b.states, f.start, w) <==> InLang(ast, w)
  {
    var a := Arena([], counter);
    var (b, f) := CompileNfa(a, ast);
    var G := b.states;
    CompileNfaShape(counter, ast);
    CompileShape(a, ast);
    var res := Compile(a, ast);
    assert Fits(G, a, res);
    if InLang(ast, w) {
      var qs, ls := CompileComplete(a, ast, G, w);
      assert G[f.end].isAccepting;
      assert Reaches(G, f.start, w, f.end);
    }
    if Accepts(G, f.start, w) {
      var q: nat :| q < |G| && Reaches(G, f.start, w, q) && G[q].isAccepting;
      var qs, ls :| IsRun(G, qs, ls) && qs[0] == f.start && qs[|qs| - 1] == q && Word(ls) == w;
      DeadEnd(G, qs, ls, f.end);
      CompileSound(a, ast, G, qs, ls);
    }
  }
}
