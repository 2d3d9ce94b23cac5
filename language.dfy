/**
 * The words a regular-expression tree denotes: the usual semantics of concatenation,
 * alternation, grouping, and the three quantifiers.  This is the reference the automaton
 * built from a tree is proved against.
 */
module Language {
  import opened Parser

  /** w is a word of ast. */
  predicate InLang(ast: Ast, w: seq<char>)
    decreases ast, 0
  {
    match ast
    case Const(c) => w == [c]
    case Concat(l, r) => exists i :: 0 <= i <= |w| && InLang(l, w[..i]) && InLang(r, w[i..])
    case Alternation(l, r) => InLang(l, w) || InLang(r, w)
    case Group(e) => InLang(e, w)
    case Modifier(b, q) =>
      match q
      case Star => InStar(b, w)
      case Plus => InPlus(b, w)
      case Optional => w == [] || InLang(b, w)
  }

  /** w is a sequence of zero or more words of b (each piece non-empty, which loses nothing). */
  predicate InStar(b: Ast, w: seq<char>)
    decreases b, |w| + 1
  {
    w == [] || exists i :: 1 <= i <= |w| && InLang(b, w[..i]) && InStar(b, w[i..])
  }

  /** w is a word of b followed by zero or more words of b. */
  predicate InPlus(b: Ast, w: seq<char>)
    decreases b, |w| + 2
  {
    exists i :: 0 <= i <= |w| && InLang(b, w[..i]) && InStar(b, w[i..])
  }

  lemma ConcatIntro(l: Ast, r: Ast, u: seq<char>, v: seq<char>)
    requires InLang(l, u) && InLang(r, v)
    ensures InLang(Concat(l, r), u + v)
  {
    assert (u + v)[..|u|] == u && (u + v)[|u|..] == v;
  }

  lemma PlusIntro(b: Ast, u: seq<char>, v: seq<char>)
    requires InLang(b, u) && InStar(b, v)
    ensures InPlus(b, u + v)
  {
    assert (u + v)[..|u|] == u && (u + v)[|u|..] == v;
  }

  /** One or more words of b are in particular zero or more. */
  lemma PlusStar(b: Ast, w: seq<char>)
    requires InPlus(b, w)
    ensures InStar(b, w)
  {
    var i :| 0 <= i <= |w| && InLang(b, w[..i]) && InStar(b, w[i..]);
    if i == 0 {
      assert w[i..] == w;
    }
  }

  /** A word of a concatenation splits into a word of each side. */
  lemma ConcatSplit(l: Ast, r: Ast, w: seq<char>) returns (u: seq<char>, v: seq<char>)
    requires InLang(Concat(l, r), w)
    ensures w == u + v && InLang(l, u) && InLang(r, v)
  {
    var i :| 0 <= i <= |w| && InLang(l, w[..i]) && InLang(r, w[i..]);
    u, v := w[..i], w[i..];
  }

  /** A word of b+ is a word of b followed by a word of b*. */
  lemma PlusSplit(b: Ast, w: seq<char>) returns (u: seq<char>, v: seq<char>)
    requires InPlus(b, w)
    ensures w == u + v && InLang(b, u) && InStar(b, v)
  {
    var i :| 0 <= i <= |w| && InLang(b, w[..i]) && InStar(b, w[i..]);
    u, v := w[..i], w[i..];
  }

  /** A non-empty word of b* starts with a non-empty word of b. */
  lemma StarSplit(b: Ast, w: seq<char>) returns (u: seq<char>, v: seq<char>)
    requires InStar(b, w) && w != []
    ensures w == u + v && u != [] && InLang(b, u) && InStar(b, v)
  {
    var i :| 1 <= i <= |w| && InLang(b, w[..i]) && InStar(b, w[i..]);
    u, v := w[..i], w[i..];
  }

  /** A word of b+, or a non-empty word of b*, is a word of b followed by a word of b*. */
  lemma RepeatSplit(b: Ast, star: bool, w: seq<char>) returns (u: seq<char>, v: seq<char>)
    requires if star then InStar(b, w) && w != [] else InPlus(b, w)
    ensures w == u + v && InLang(b, u) && InStar(b, v)
  {
    if star {
      u, v := StarSplit(b, w);
    } else {
      u, v := PlusSplit(b, w);
    }
  }
}
