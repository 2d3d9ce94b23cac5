/**
 * Runs of the automaton: the reference meaning of a state graph that both the matcher and
 * the construction are proved against.  A run is a sequence of states with a label between
 * each two of them; epsilon edges carry None, character edges Some(c); the word of a run is
 * its characters in order.
 */
module Runs {
  import opened Results
  import opened NfaBuilder

  /** p reaches q in one step labelled l. */
  predicate Edge(g: seq<State>, p: nat, l: Option<char>, q: nat)
    requires p < |g|
  {
    match l
    case None => q in g[p].eTransitions
    case Some(c) => c in g[p].transitions && g[p].transitions[c] == q
  }

  /** qs is a run of g with labels ls. */
  predicate IsRun(g: seq<State>, qs: seq<nat>, ls: seq<Option<char>>)
  {
    |qs| == |ls| + 1
    && (forall i :: 0 <= i < |qs| ==> qs[i] < |g|)
    && (forall i :: 0 <= i < |ls| ==> Edge(g, qs[i], ls[i], qs[i + 1]))
  }

  /** The characters read along a run. */
  function Word(ls: seq<Option<char>>): (w: seq<char>)
    ensures |w| <= |ls|
  {
    if ls == [] then []
    else (if ls[0].Some? then [ls[0].value] else []) + Word(ls[1..])
  }

  /** Some run of g leads from p to q reading w. */
  ghost predicate Reaches(g: seq<State>, p: nat, w: seq<char>, q: nat)
  {
    exists qs, ls :: IsRun(g, qs, ls) && qs[0] == p && qs[|qs| - 1] == q && Word(ls) == w
  }

  /** Reading w from p can end in an accepting state. */
  ghost predicate Accepts(g: seq<State>, p: nat, w: seq<char>)
  {
    exists q: nat :: q < |g| && Reaches(g, p, w, q) && g[q].isAccepting
  }

  // ---------------------------------------------------------------------------------------
  // Words

  lemma {:induction false} WordAppend(l1: seq<Option<char>>, l2: seq<Option<char>>)
    ensures Word(l1 + l2) == Word(l1) + Word(l2)
    decreases |l1|
  {
    if l1 != [] {
      assert (l1 + l2)[1..] == l1[1..] + l2;
      WordAppend(l1[1..], l2);
    } else {
      assert l1 + l2 == l2;
    }
  }

  /** A run whose word is empty takes only epsilon edges. */
  lemma {:induction false} EmptyWord(ls: seq<Option<char>>)
    requires Word(ls) == []
    ensures forall i :: 0 <= i < |ls| ==> ls[i] == None
    decreases |ls|
  {
    if ls != [] {
      EmptyWord(ls[1..]);
      forall i | 0 <= i < |ls|
        ensures ls[i] == None
      {
        if i > 0 {
          assert ls[i] == ls[1..][i - 1];
        }
      }
    }
  }

  /** The word of the labels up to index k, followed by label k. */
  lemma WordSnoc(ls: seq<Option<char>>, k: nat)
    requires k < |ls|
    ensures Word(ls[..k + 1]) == Word(ls[..k]) + Word([ls[k]])
  {
    assert ls[..k + 1] == ls[..k] + [ls[k]];
    WordAppend(ls[..k], [ls[k]]);
  }

  /** A sequence is its part before k followed by its part from k on. */
  lemma SplitAt<T>(s: seq<T>, k: nat)
    requires k <= |s|
    ensures s[..k] + s[k..] == s
  {
  }

  /** The word of a run cut at the label k. */
  lemma WordAround(ls: seq<Option<char>>, k: nat)
    requires k < |ls|
    ensures Word(ls) == Word(ls[..k]) + Word([ls[k]]) + Word(ls[k + 1..])
  {
    WordSnoc(ls, k);
    SplitAt(ls, k + 1);
    WordAppend(ls[..k + 1], ls[k + 1..]);
  }

  // ---------------------------------------------------------------------------------------
  // Cutting and joining runs

  lemma RunSlice(g: seq<State>, qs: seq<nat>, ls: seq<Option<char>>, i: nat, j: nat)
    requires IsRun(g, qs, ls) && i <= j < |qs|
    ensures IsRun(g, qs[i..j + 1], ls[i..j])
  {
    forall k | 0 <= k < j - i
      ensures Edge(g, qs[i..j + 1][k], ls[i..j][k], qs[i..j + 1][k + 1])
    {
      assert qs[i..j + 1][k] == qs[i + k] && qs[i..j + 1][k + 1] == qs[i + k + 1];
    }
  }

  lemma RunJoin(g: seq<State>, qs1: seq<nat>, ls1: seq<Option<char>>, qs2: seq<nat>, ls2: seq<Option<char>>)
    requires IsRun(g, qs1, ls1) && IsRun(g, qs2, ls2) && qs1[|qs1| - 1] == qs2[0]
    ensures IsRun(g, qs1 + qs2[1..], ls1 + ls2)
    ensures Word(ls1 + ls2) == Word(ls1) + Word(ls2)
  {
    var qs, ls := qs1 + qs2[1..], ls1 + ls2;
    forall k | 0 <= k < |ls|
      ensures Edge(g, qs[k], ls[k], qs[k + 1])
    {
      if k < |ls1| {
        assert qs[k] == qs1[k] && qs[k + 1] == qs1[k + 1] && ls[k] == ls1[k];
      } else {
        assert qs[k] == qs2[k - |ls1|] && qs[k + 1] == qs2[k - |ls1| + 1] && ls[k] == ls2[k - |ls1|];
      }
    }
    WordAppend(ls1, ls2);
  }

  /** A run with a single edge. */
  lemma RunEdge(g: seq<State>, p: nat, l: Option<char>, q: nat)
    requires p < |g| && q < |g| && Edge(g, p, l, q)
    ensures IsRun(g, [p, q], [l])
    ensures Word([l]) == if l.Some? then [l.value] else []
  {
  }

  // ---------------------------------------------------------------------------------------
  // Reachability

  lemma ReachesRefl(g: seq<State>, p: nat)
    requires p < |g|
    ensures Reaches(g, p, [], p)
  {
    assert IsRun(g, [p], []);
  }

  lemma ReachesTrans(g: seq<State>, p: nat, u: seq<char>, q: nat, v: seq<char>, r: nat)
    requires Reaches(g, p, u, q) && Reaches(g, q, v, r)
    ensures Reaches(g, p, u + v, r)
  {
    var qs1, ls1 :| IsRun(g, qs1, ls1) && qs1[0] == p && qs1[|qs1| - 1] == q && Word(ls1) == u;
    var qs2, ls2 :| IsRun(g, qs2, ls2) && qs2[0] == q && qs2[|qs2| - 1] == r && Word(ls2) == v;
    RunJoin(g, qs1, ls1, qs2, ls2);
    var qs, ls := qs1 + qs2[1..], ls1 + ls2;
    assert qs[0] == p;
    assert qs[|qs| - 1] == r by {
      if |qs2| == 1 {
        assert qs == qs1;
      } else {
        assert qs[|qs| - 1] == qs2[1..][|qs2| - 2];
      }
    }
    assert IsRun(g, qs, ls) && Word(ls) == u + v;
  }

  lemma ReachesEdge(g: seq<State>, p: nat, l: Option<char>, q: nat)
    requires p < |g| && q < |g| && Edge(g, p, l, q)
    ensures Reaches(g, p, if l.Some? then [l.value] else [], q)
  {
    RunEdge(g, p, l, q);
  }

  /**
   * Splitting off the last character: a run reading w + [c] consists of a run reading w,
   * one edge on c, and epsilon edges.
   */
  lemma {:induction false} SplitLastRun(g: seq<State>, qs: seq<nat>, ls: seq<Option<char>>, w: seq<char>, c: char)
    returns (q: nat, t: nat)
    requires IsRun(g, qs, ls) && Word(ls) == w + [c]
    ensures q < |g| && t < |g| && Edge(g, q, Some(c), t)
    ensures Reaches(g, qs[0], w, q) && Reaches(g, t, [], qs[|qs| - 1])
    decreases |ls|
  {
    var n := |ls|;
    if n == 0 {
      assert false;
    }
    RunSlice(g, qs, ls, 0, n - 1);
    WordSnoc(ls, n - 1);
    assert ls[..n] == ls;
    var last := ls[n - 1];
    assert Edge(g, qs[n - 1], last, qs[n]);
    if last.None? {
      assert Word(ls[..n - 1]) == w + [c];
      q, t := SplitLastRun(g, qs[..n], ls[..n - 1], w, c);
      assert qs[..n][n - 1] == qs[n - 1];
      ReachesEdge(g, qs[n - 1], last, qs[n]);
      ReachesTrans(g, t, [], qs[n - 1], [], qs[n]);
    } else {
      assert Word(ls[..n - 1]) + [last.value] == w + [c];
      assert Word(ls[..n - 1]) == (Word(ls[..n - 1]) + [last.value])[..|w|];
      q, t := qs[n - 1], qs[n];
      ReachesRefl(g, t);
    }
  }

  lemma SplitLast(g: seq<State>, p: nat, w: seq<char>, c: char, r: nat)
    returns (q: nat, t: nat)
    requires Reaches(g, p, w + [c], r)
    ensures q < |g| && t < |g| && Edge(g, q, Some(c), t)
    ensures Reaches(g, p, w, q) && Reaches(g, t, [], r)
  {
    var qs, ls :| IsRun(g, qs, ls) && qs[0] == p && qs[|qs| - 1] == r && Word(ls) == w + [c];
    q, t := SplitLastRun(g, qs, ls, w, c);
  }
}
