/**
 * What the parser of src/parser.rs accepts: exactly the token sequences that Unparse prints
 * from the trees of the grammar's shape (IsExpr), and it returns that tree.  Together with
 * the soundness contracts on the Parse functions this makes ParseAst and Unparse inverses.
 */
module ParserProperties {
  import opened Results
  import opened Parser

  // ---------------------------------------------------------------------------------------
  // Soundness: what a successful parse returns has the grammar's shape and prints back to
  // exactly the tokens the cursor moved over

  lemma {:induction false} BaseSound(ts: seq<Token>, pos: nat)
    requires pos <= |ts| && ParseBase(ts, pos).Ok?
    ensures var Parsed(a, p) := ParseBase(ts, pos).value;
            IsBase(a) && ts[pos..p] == Unparse(a)
    decreases |ts| - pos, 1
  {
    if ts[pos] == OpenBracket {
      ExprSound(ts, pos + 1);
      var Parsed(e, p) := ParseExpr(ts, pos + 1).value;
      assert ts[pos..p + 1] == [ts[pos]] + ts[pos + 1..p] + [ts[p]];
    }
  }

  lemma {:induction false} FactorSound(ts: seq<Token>, pos: nat)
    requires pos <= |ts| && ParseFactor(ts, pos).Ok?
    ensures var Parsed(a, p) := ParseFactor(ts, pos).value;
            IsFactor(a) && ts[pos..p] == Unparse(a)
    decreases |ts| - pos, 2
  {
    BaseSound(ts, pos);
    var Parsed(b, p) := ParseBase(ts, pos).value;
    if p < |ts| && ts[p].IsQuantifier() {
      assert ts[pos..p + 1] == ts[pos..p] + [ts[p]];
    }
  }

  lemma {:induction false} TermLoopSound(ts: seq<Token>, left: Ast, pos: nat)
    requires pos <= |ts| && TermLoop(ts, left, pos).Ok?
    ensures var Parsed(a, p) := TermLoop(ts, left, pos).value;
            (IsTerm(left) ==> IsTerm(a)) && Unparse(a) == Unparse(left) + ts[pos..p]
            && (p == |ts| || !ts[p].StartsFactor())
    decreases |ts| - pos, 3
  {
    if pos < |ts| && ts[pos].StartsFactor() {
      FactorSound(ts, pos);
      var Parsed(right, p) := ParseFactor(ts, pos).value;
      TermLoopSound(ts, Concat(left, right), p);
      var q := TermLoop(ts, left, pos).value.pos;
      assert ts[pos..q] == ts[pos..p] + ts[p..q];
    }
  }

  lemma {:induction false} TermSound(ts: seq<Token>, pos: nat)
    requires pos <= |ts| && ParseTerm(ts, pos).Ok?
    ensures var Parsed(a, p) := ParseTerm(ts, pos).value;
            IsTerm(a) && ts[pos..p] == Unparse(a)
    decreases |ts| - pos, 3
  {
    FactorSound(ts, pos);
    var Parsed(first, p) := ParseFactor(ts, pos).value;
    TermLoopSound(ts, first, p);
    var q := ParseTerm(ts, pos).value.pos;
    assert ts[pos..q] == ts[pos..p] + ts[p..q];
  }

  lemma {:induction false} ExprLoopSound(ts: seq<Token>, left: Ast, pos: nat)
    requires pos <= |ts| && ExprLoop(ts, left, pos).Ok?
    ensures var Parsed(a, p) := ExprLoop(ts, left, pos).value;
            (IsExpr(left) ==> IsExpr(a)) && Unparse(a) == Unparse(left) + ts[pos..p]
            && (p == |ts| || ts[p] != Token.Alternation)
    decreases |ts| - pos, 4
  {
    if pos < |ts| && ts[pos] == Token.Alternation {
      TermSound(ts, pos + 1);
      var Parsed(right, p) := ParseTerm(ts, pos + 1).value;
      ExprLoopSound(ts, Ast.Alternation(left, right), p);
      var Parsed(a, q) := ExprLoop(ts, left, pos).value;
      AlternationTokens(ts, left, right, a, pos, p, q);
    }
  }

  /** The tokens of left, then '|' at pos, then those of right up to p, then the rest up to q. */
  lemma AlternationTokens(ts: seq<Token>, left: Ast, right: Ast, a: Ast, pos: nat, p: nat, q: nat)
    requires pos < p <= q <= |ts| && ts[pos] == Token.Alternation && ts[pos + 1..p] == Unparse(right)
    requires Unparse(a) == Unparse(Ast.Alternation(left, right)) + ts[p..q]
    ensures Unparse(a) == Unparse(left) + ts[pos..q]
  {
    ConsSlices(ts, pos, p, q);
    Reassociate(Unparse(left), [Token.Alternation], Unparse(right), ts[p..q]);
  }

  lemma ConsSlices(ts: seq<Token>, i: nat, j: nat, k: nat)
    requires i < j <= k <= |ts|
    ensures ts[i..k] == [ts[i]] + ts[i + 1..j] + ts[j..k]
  {
  }

  lemma Reassociate(w: seq<Token>, x: seq<Token>, y: seq<Token>, z: seq<Token>)
    ensures w + x + y + z == w + (x + y + z)
  {
  }

  lemma {:induction false} ExprSound(ts: seq<Token>, pos: nat)
    requires pos <= |ts| && ParseExpr(ts, pos).Ok?
    ensures var Parsed(a, p) := ParseExpr(ts, pos).value;
            IsExpr(a) && ts[pos..p] == Unparse(a)
    decreases |ts| - pos, 4
  {
    TermSound(ts, pos);
    var Parsed(first, p) := ParseTerm(ts, pos).value;
    ExprLoopSound(ts, first, p);
    var q := ParseExpr(ts, pos).value.pos;
    assert ts[pos..q] == ts[pos..p] + ts[p..q];
  }

  /** build_ast returns a well-shaped tree that prints back to the whole input. */
  lemma ParseAstSound(ts: seq<Token>)
    requires ParseAst(ts).Ok?
    ensures IsExpr(ParseAst(ts).value) && Unparse(ParseAst(ts).value) == ts
  {
    ExprSound(ts, 0);
    assert ts[0..|ts|] == ts;
  }

  // ---------------------------------------------------------------------------------------
  // Completeness: every well-shaped tree is parsed back from its own tokens

  /** Token i (if any) cannot extend the factor that ends before it. */
  predicate EndsFactor(ts: seq<Token>, i: nat)
  {
    i >= |ts| || !ts[i].IsQuantifier()
  }

  /** Token i (if any) cannot extend the term that ends before it. */
  predicate EndsTerm(ts: seq<Token>, i: nat)
  {
    i >= |ts| || !(ts[i].IsQuantifier() || ts[i].StartsFactor())
  }

  /** ts holds the tokens x + y from position i on. */
  lemma SliceSplit(ts: seq<Token>, i: nat, x: seq<Token>, y: seq<Token>)
    requires i + |x| + |y| <= |ts| && ts[i..i + |x| + |y|] == x + y
    ensures ts[i..i + |x|] == x && ts[i + |x|..i + |x| + |y|] == y
  {
    assert ts[i..i + |x|] == ts[i..i + |x| + |y|][..|x|];
    assert ts[i + |x|..i + |x| + |y|] == ts[i..i + |x| + |y|][|x|..];
  }

  lemma {:induction false} BaseComplete(ts: seq<Token>, pos: nat, a: Ast)
    requires IsBase(a) && pos + |Unparse(a)| <= |ts| && ts[pos..pos + |Unparse(a)|] == Unparse(a)
    ensures ParseBase(ts, pos) == Ok(Parsed(a, pos + |Unparse(a)|))
    decreases a, 0
  {
    assert ts[pos] == Unparse(a)[0];
    match a
    case Const(c) =>
    case Group(e) =>
      var q := GroupSlices(ts, pos, a);
      ExprComplete(ts, pos + 1, e);
      assert ParseExpr(ts, pos + 1) == Ok(Parsed(e, q));
  }

  /** Where the brackets and the inner expression of a Group node lie in ts. */
  lemma GroupSlices(ts: seq<Token>, pos: nat, a: Ast) returns (q: nat)
    requires a.Group? && pos + |Unparse(a)| <= |ts| && ts[pos..pos + |Unparse(a)|] == Unparse(a)
    ensures q == pos + 1 + |Unparse(a.inner)| && q + 1 == pos + |Unparse(a)|
    ensures ts[pos] == Token.OpenBracket && ts[pos + 1..q] == Unparse(a.inner)
    ensures ts[q] == Token.CloseBracket && EndsTerm(ts, q)
  {
    var inner := Unparse(a.inner);
    q := pos + 1 + |inner|;
    SliceSplit(ts, pos, [Token.OpenBracket] + inner, [Token.CloseBracket]);
    SliceSplit(ts, pos, [Token.OpenBracket], inner);
    assert ts[q] == ts[q..q + 1][0];
    assert ts[pos] == ts[pos..pos + 1][0];
  }

  lemma {:induction false} FactorComplete(ts: seq<Token>, pos: nat, a: Ast)
    requires IsFactor(a) && pos + |Unparse(a)| <= |ts| && ts[pos..pos + |Unparse(a)|] == Unparse(a)
    requires EndsFactor(ts, pos + |Unparse(a)|)
    ensures ParseFactor(ts, pos) == Ok(Parsed(a, pos + |Unparse(a)|))
    decreases a, 1
  {
    if IsBase(a) {
      BaseComplete(ts, pos, a);
    } else {
      var b, qt := a.base, QuantifierToken(a.quantifier);
      SliceSplit(ts, pos, Unparse(b), [qt]);
      BaseComplete(ts, pos, b);
      var p := pos + |Unparse(b)|;
      assert ts[p] == ts[p..p + 1][0];
      assert ParseQuantifier(ts, p) == Ok((a.quantifier, p + 1));
    }
  }

  lemma {:induction false} TermComplete(ts: seq<Token>, pos: nat, a: Ast)
    requires IsTerm(a) && pos + |Unparse(a)| <= |ts| && ts[pos..pos + |Unparse(a)|] == Unparse(a)
    requires EndsFactor(ts, pos + |Unparse(a)|)
    ensures ParseTerm(ts, pos) == TermLoop(ts, a, pos + |Unparse(a)|)
    decreases a, 2
  {
    if IsFactor(a) {
      FactorComplete(ts, pos, a);
      TermStart(ts, pos, a, pos + |Unparse(a)|);
    } else {
      ConcatComplete(ts, pos, a);
    }
  }

  /** The Concat case of TermComplete: the left term, then the right factor. */
  lemma {:induction false} ConcatComplete(ts: seq<Token>, pos: nat, a: Ast)
    requires IsTerm(a) && !IsFactor(a) && pos + |Unparse(a)| <= |ts| && ts[pos..pos + |Unparse(a)|] == Unparse(a)
    requires EndsFactor(ts, pos + |Unparse(a)|)
    ensures ParseTerm(ts, pos) == TermLoop(ts, a, pos + |Unparse(a)|)
    decreases a, 1
  {
    var l, r := a.left, a.right;
    var q, q' := ConcatSlices(ts, pos, a);
    TermComplete(ts, pos, l);
    FactorComplete(ts, q, r);
    ConcatStep(ts, l, r, q, q');
  }

  /** Where the two operands of a Concat node lie in ts. */
  lemma ConcatSlices(ts: seq<Token>, pos: nat, a: Ast) returns (q: nat, q': nat)
    requires a.Concat? && pos + |Unparse(a)| <= |ts| && ts[pos..pos + |Unparse(a)|] == Unparse(a)
    ensures q == pos + |Unparse(a.left)| && q' == q + |Unparse(a.right)| == pos + |Unparse(a)|
    ensures ts[pos..q] == Unparse(a.left) && ts[q..q'] == Unparse(a.right)
    ensures ts[q].StartsFactor()
  {
    var ul, ur := Unparse(a.left), Unparse(a.right);
    q, q' := pos + |ul|, pos + |ul| + |ur|;
    SliceSplit(ts, pos, ul, ur);
    assert ts[q] == ts[q..q'][0];
  }

  lemma TermStart(ts: seq<Token>, pos: nat, a: Ast, q: nat)
    requires pos <= |ts| && ParseFactor(ts, pos) == Ok(Parsed(a, q))
    ensures ParseTerm(ts, pos) == TermLoop(ts, a, q)
  {
  }

  lemma ConcatStep(ts: seq<Token>, l: Ast, r: Ast, q: nat, q': nat)
    requires q < q' <= |ts| && ts[q].StartsFactor() && ParseFactor(ts, q) == Ok(Parsed(r, q'))
    ensures TermLoop(ts, l, q) == TermLoop(ts, Ast.Concat(l, r), q')
  {
  }

  lemma {:induction false} ExprComplete(ts: seq<Token>, pos: nat, a: Ast)
    requires IsExpr(a) && pos + |Unparse(a)| <= |ts| && ts[pos..pos + |Unparse(a)|] == Unparse(a)
    requires EndsTerm(ts, pos + |Unparse(a)|)
    ensures ParseExpr(ts, pos) == ExprLoop(ts, a, pos + |Unparse(a)|)
    decreases a, 3
  {
    if IsTerm(a) {
      var q := pos + |Unparse(a)|;
      TermComplete(ts, pos, a);
      TermLoopStops(ts, a, q);
      ExprStart(ts, pos, a, q);
    } else {
      AlternationComplete(ts, pos, a);
    }
  }

  /** The Alternation case of ExprComplete: the left expression, the '|', then the right term. */
  lemma {:induction false} AlternationComplete(ts: seq<Token>, pos: nat, a: Ast)
    requires IsExpr(a) && !IsTerm(a) && pos + |Unparse(a)| <= |ts| && ts[pos..pos + |Unparse(a)|] == Unparse(a)
    requires EndsTerm(ts, pos + |Unparse(a)|)
    ensures ParseExpr(ts, pos) == ExprLoop(ts, a, pos + |Unparse(a)|)
    decreases a, 2
  {
    var l, r := a.left, a.right;
    assert a == Ast.Alternation(l, r) && IsExpr(l) && IsTerm(r);
    var q, q' := AlternationSlices(ts, pos, a);
    ExprComplete(ts, pos, l);
    TermComplete(ts, q + 1, r);
    assert EndsTerm(ts, q');
    AlternationStep(ts, l, r, q, q');
  }

  /** Where the two operands and the '|' of an Alternation node lie in ts. */
  lemma AlternationSlices(ts: seq<Token>, pos: nat, a: Ast) returns (q: nat, q': nat)
    requires a.Alternation? && pos + |Unparse(a)| <= |ts| && ts[pos..pos + |Unparse(a)|] == Unparse(a)
    ensures q == pos + |Unparse(a.left)| && q' == q + 1 + |Unparse(a.right)| == pos + |Unparse(a)|
    ensures ts[pos..q] == Unparse(a.left) && ts[q] == Token.Alternation
    ensures ts[q + 1..q'] == Unparse(a.right)
  {
    var ul, ur := Unparse(a.left), Unparse(a.right);
    q, q' := pos + |ul|, pos + |ul| + 1 + |ur|;
    SliceSplit(ts, pos, ul + [Token.Alternation], ur);
    SliceSplit(ts, pos, ul, [Token.Alternation]);
    assert ts[q] == ts[q..q + 1][0];
  }

  lemma ExprStart(ts: seq<Token>, pos: nat, a: Ast, q: nat)
    requires pos <= |ts| && ParseTerm(ts, pos) == Ok(Parsed(a, q))
    ensures ParseExpr(ts, pos) == ExprLoop(ts, a, q)
  {
  }

  /** The term loop stops before a token that cannot start a factor. */
  lemma TermLoopStops(ts: seq<Token>, a: Ast, q: nat)
    requires q <= |ts| && EndsTerm(ts, q)
    ensures TermLoop(ts, a, q) == Ok(Parsed(a, q))
  {
  }

  lemma AlternationStep(ts: seq<Token>, l: Ast, r: Ast, q: nat, q': nat)
    requires q < q' <= |ts| && ts[q] == Token.Alternation && EndsTerm(ts, q')
    requires ParseTerm(ts, q + 1) == TermLoop(ts, r, q')
    ensures ExprLoop(ts, l, q) == ExprLoop(ts, Ast.Alternation(l, r), q')
  {
    TermLoopStops(ts, r, q');
  }

  /** Every tree of the grammar's shape is parsed back from its own tokens. */
  lemma ParseUnparse(a: Ast)
    requires IsExpr(a)
    ensures ParseAst(Unparse(a)) == Ok(a)
  {
    var ts := Unparse(a);
    assert ts[0..|ts|] == ts;
    ExprComplete(ts, 0, a);
  }

  /** build_ast succeeds on exactly the printed forms of well-shaped trees. */
  lemma ParseAstCharacterization(ts: seq<Token>, a: Ast)
    ensures ParseAst(ts) == Ok(a) <==> IsExpr(a) && Unparse(a) == ts
  {
    if IsExpr(a) && Unparse(a) == ts {
      ParseUnparse(a);
    }
    if ParseAst(ts) == Ok(a) {
      ParseAstSound(ts);
    }
  }

  /** The grammar is unambiguous: two well-shaped trees with the same tokens are equal. */
  lemma UnparseInjective(a: Ast, b: Ast)
    requires IsExpr(a) && IsExpr(b) && Unparse(a) == Unparse(b)
    ensures a == b
  {
    ParseUnparse(a);
    ParseUnparse(b);
  }

  /** The characters of the Const tokens, in order. */
  function ConstChars(ts: seq<Token>): seq<char>
  {
    if ts == [] then []
    else (if ts[0].Const? then [ts[0].c] else []) + ConstChars(ts[1..])
  }

  /** The Const leaves of a tree, left to right. */
  function Leaves(a: Ast): seq<char>
  {
    match a
    case Const(c) => [c]
    case Concat(l, r) => Leaves(l) + Leaves(r)
    case Alternation(l, r) => Leaves(l) + Leaves(r)
    case Group(e) => Leaves(e)
    case Modifier(b, _) => Leaves(b)
  }

  lemma {:induction false} ConstCharsAppend(s: seq<Token>, t: seq<Token>)
    ensures ConstChars(s + t) == ConstChars(s) + ConstChars(t)
    decreases |s|
  {
    if s == [] {
      assert s + t == t;
    } else {
      assert (s + t)[0] == s[0];
      assert (s + t)[1..] == s[1..] + t;
      ConstCharsAppend(s[1..], t);
    }
  }

  lemma {:induction false} LeavesUnparse(a: Ast)
    ensures ConstChars(Unparse(a)) == Leaves(a)
  {
    match a
    case Const(c) =>
    case Concat(l, r) =>
      LeavesUnparse(l); LeavesUnparse(r);
      ConstCharsAppend(Unparse(l), Unparse(r));
    case Alternation(l, r) =>
      LeavesUnparse(l); LeavesUnparse(r);
      ConstCharsAppend(Unparse(l), [Token.Alternation]);
      ConstCharsAppend(Unparse(l) + [Token.Alternation], Unparse(r));
    case Group(e) =>
      LeavesUnparse(e);
      ConstCharsAppend([Token.OpenBracket], Unparse(e));
      ConstCharsAppend([Token.OpenBracket] + Unparse(e), [Token.CloseBracket]);
    case Modifier(b, q) =>
      LeavesUnparse(b);
      ConstCharsAppend(Unparse(b), [QuantifierToken(q)]);
  }

  /** Reading the tree's Const leaves left to right gives the input's Const tokens in order. */
  lemma ParseAstKeepsLiterals(ts: seq<Token>)
    requires ParseAst(ts).Ok?
    ensures Leaves(ParseAst(ts).value) == ConstChars(ts)
  {
    ParseAstSound(ts);
    LeavesUnparse(ParseAst(ts).value);
  }
}
