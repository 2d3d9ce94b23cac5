/**
 * The recursive-descent parser of src/parser.rs.
 *
 * Grammar, lowest precedence first:
 *   Expr       := Term ('|' Term)*
 *   Term       := Factor+
 *   Factor     := Base Quantifier?
 *   Base       := Const | '(' Expr ')'
 *   Quantifier := '*' | '+' | '?'
 *
 * The Rust functions thread a cursor `pos: &mut usize` through mutually recursive calls and
 * panic on malformed input.  Here the pure functions ParseExpr .. ParseAst are the
 * specification (the `while` loops become the tail-recursive ExprLoop and TermLoop), the
 * methods BuildExpr .. BuildAst are the cursor-advancing implementation proved equal to
 * them, and every panic is an Err value.
 */
module Parser {
  import opened Results

  /** RegexToken. */
  datatype Token = Const(c: char) | Alternation | Star | Plus | Optional | OpenBracket | CloseBracket
  {
    predicate IsQuantifier() { Star? || Plus? || Optional? }

    /** The tokens that let the concatenation loop of build_term take another factor. */
    predicate StartsFactor() { Const? || OpenBracket? }
  }

  /** RegexASTModifier. */
  datatype Quantifier = Star | Plus | Optional

  /** RegexAST: each node owns its children. */
  datatype Ast =
    | Const(c: char)
    | Concat(left: Ast, right: Ast)
    | Alternation(left: Ast, right: Ast)
    | Group(inner: Ast)
    | Modifier(base: Ast, quantifier: Quantifier)

  /** A parsed node together with the cursor position after it. */
  datatype Parsed = Parsed(ast: Ast, pos: nat)

  /** The parser's panics, each with the cursor position where it happens. */
  datatype ParseError =
    | UnexpectedEnd(pos: nat)    // tokens[pos] read past the end (this covers the empty pattern)
    | UnexpectedToken(pos: nat)  // an operator or ')' where a base is expected
    | UnclosedGroup(pos: nat)    // "Closing bracket not found": no ')' at pos after a group
    | TrailingInput(pos: nat)    // "Unable to parse expression": tokens left after the top-level Expr

  // ---------------------------------------------------------------------------------------
  // The shapes the grammar produces

  predicate IsBase(a: Ast)
    decreases a, 0
  {
    match a
    case Const(_) => true
    case Group(e) => IsExpr(e)
    case _ => false
  }

  /** A Modifier's child is a Const or a Group: at most one quantifier per factor. */
  predicate IsFactor(a: Ast)
    decreases a, 1
  {
    IsBase(a) || (a.Modifier? && IsBase(a.base))
  }

  /** Concatenation folds to the left: a Concat's right child is a factor. */
  predicate IsTerm(a: Ast)
    decreases a, 2
  {
    IsFactor(a) || (a.Concat? && IsTerm(a.left) && IsFactor(a.right))
  }

  /** Alternation folds to the left: an Alternation's right child is a term. */
  predicate IsExpr(a: Ast)
    decreases a, 3
  {
    IsTerm(a) || (a.Alternation? && IsExpr(a.left) && IsTerm(a.right))
  }

  function QuantifierToken(q: Quantifier): Token
  {
    match q
    case Star => Token.Star
    case Plus => Token.Plus
    case Optional => Token.Optional
  }

  /** The token sequence a node is parsed from: the inverse of the parser. */
  function Unparse(a: Ast): (ts: seq<Token>)
    ensures |ts| > 0 && ts[0].StartsFactor()
  {
    match a
    case Const(c) => [Token.Const(c)]
    case Concat(l, r) => Unparse(l) + Unparse(r)
    case Alternation(l, r) => Unparse(l) + [Token.Alternation] + Unparse(r)
    case Group(e) => [OpenBracket] + Unparse(e) + [CloseBracket]
    case Modifier(b, q) => Unparse(b) + [QuantifierToken(q)]
  }

  // ---------------------------------------------------------------------------------------
  // Specification of the parser, one function per Rust function (loops as tail recursion)

  /** build_quantifier */
  function ParseQuantifier(ts: seq<Token>, pos: nat): (r: Result<(Quantifier, nat), ParseError>)
    ensures r.Ok? <==> pos < |ts| && ts[pos].IsQuantifier()
    ensures r.Ok? ==> r.value.1 == pos + 1 && ts[pos] == QuantifierToken(r.value.0)
  {
    if pos >= |ts| then Err(UnexpectedEnd(pos))
    else match ts[pos]
      case Star => Ok((Quantifier.Star, pos + 1))
      case Plus => Ok((Quantifier.Plus, pos + 1))
      case Optional => Ok((Quantifier.Optional, pos + 1))
      case _ => Err(UnexpectedToken(pos))
  }

  /** build_base */
  function ParseBase(ts: seq<Token>, pos: nat): (r: Result<Parsed, ParseError>)
    requires pos <= |ts|
    ensures r.Ok? ==> pos < r.value.pos <= |ts|
    decreases |ts| - pos, 1
  {
    if pos >= |ts| then Err(UnexpectedEnd(pos))
    else if ts[pos] == OpenBracket then
      match ParseExpr(ts, pos + 1)
      case Err(e) => Err(e)
      case Ok(Parsed(inner, p)) =>
        if p >= |ts| || ts[p] != CloseBracket then Err(UnclosedGroup(p))
        else Ok(Parsed(Group(inner), p + 1))
    else match ts[pos]
      case Const(c) => Ok(Parsed(Ast.Const(c), pos + 1))
      case _ => Err(UnexpectedToken(pos))
  }

  /** build_factor */
  function ParseFactor(ts: seq<Token>, pos: nat): (r: Result<Parsed, ParseError>)
    requires pos <= |ts|
    ensures r.Ok? ==> pos < r.value.pos <= |ts|
    decreases |ts| - pos, 2
  {
    match ParseBase(ts, pos)
    case Err(e) => Err(e)
    case Ok(Parsed(base, p)) =>
      if p < |ts| && ts[p].IsQuantifier() then
        match ParseQuantifier(ts, p)
        case Err(e) => Err(e)
        case Ok((q, p')) => Ok(Parsed(Modifier(base, q), p'))
      else Ok(Parsed(base, p))
  }

  /** The concatenation loop of build_term, entered with the node built so far. */
  function TermLoop(ts: seq<Token>, left: Ast, pos: nat): (r: Result<Parsed, ParseError>)
    requires pos <= |ts|
    ensures r.Ok? ==> pos <= r.value.pos <= |ts|
    decreases |ts| - pos, 3
  {
    if pos < |ts| && ts[pos].StartsFactor() then
      match ParseFactor(ts, pos)
      case Err(e) => Err(e)
      case Ok(Parsed(right, p)) => TermLoop(ts, Concat(left, right), p)
    else Ok(Parsed(left, pos))
  }

  /** build_term */
  function ParseTerm(ts: seq<Token>, pos: nat): (r: Result<Parsed, ParseError>)
    requires pos <= |ts|
    ensures r.Ok? ==> pos < r.value.pos <= |ts|
    decreases |ts| - pos, 3
  {
    match ParseFactor(ts, pos)
    case Err(e) => Err(e)
    case Ok(Parsed(first, p)) => TermLoop(ts, first, p)
  }

  /** The alternation loop of build_expr, entered with the node built so far. */
  function ExprLoop(ts: seq<Token>, left: Ast, pos: nat): (r: Result<Parsed, ParseError>)
    requires pos <= |ts|
    ensures r.Ok? ==> pos <= r.value.pos <= |ts|
    decreases |ts| - pos, 4
  {
    if pos < |ts| && ts[pos] == Token.Alternation then
      match ParseTerm(ts, pos + 1)
      case Err(e) => Err(e)
      case Ok(Parsed(right, p)) => ExprLoop(ts, Ast.Alternation(left, right), p)
    else Ok(Parsed(left, pos))
  }

  /** build_expr */
  function ParseExpr(ts: seq<Token>, pos: nat): (r: Result<Parsed, ParseError>)
    requires pos <= |ts|
    ensures r.Ok? ==> pos < r.value.pos <= |ts|
    decreases |ts| - pos, 4
  {
    match ParseTerm(ts, pos)
    case Err(e) => Err(e)
    case Ok(Parsed(first, p)) => ExprLoop(ts, first, p)
  }

  /** build_ast: one Expr that must end exactly at the end of the tokens. */
  function ParseAst(ts: seq<Token>): Result<Ast, ParseError>
  {
    match ParseExpr(ts, 0)
    case Err(e) => Err(e)
    case Ok(Parsed(a, p)) => if p != |ts| then Err(TrailingInput(p)) else Ok(a)
  }

  // ---------------------------------------------------------------------------------------
  // The cursor-advancing implementation

  method BuildQuantifier(tokens: seq<Token>, pos: nat) returns (r: Result<(Quantifier, nat), ParseError>)
    ensures r == ParseQuantifier(tokens, pos)
  {
    if pos >= |tokens| {
      return Err(UnexpectedEnd(pos));
    }
    var q: Quantifier;
    match tokens[pos] {
      case Star => q := Quantifier.Star;
      case Plus => q := Quantifier.Plus;
      case Optional => q := Quantifier.Optional;
      case _ => return Err(UnexpectedToken(pos));
    }
    return Ok((q, pos + 1));
  }

  method BuildBase(tokens: seq<Token>, pos: nat) returns (r: Result<Parsed, ParseError>)
    requires pos <= |tokens|
    ensures r == ParseBase(tokens, pos)
    decreases |tokens| - pos, 1
  {
    if pos >= |tokens| {
      return Err(UnexpectedEnd(pos));
    }
    var token := tokens[pos];
    if token == OpenBracket {
      var expr := BuildExpr(tokens, pos + 1);
      if expr.Err? {
        return Err(expr.error);
      }
      var p := expr.value.pos;
      if p >= |tokens| || tokens[p] != CloseBracket {
        return Err(UnclosedGroup(p));
      }
      return Ok(Parsed(Group(expr.value.ast), p + 1));
    }
    match token {
      case Const(c) => return Ok(Parsed(Ast.Const(c), pos + 1));
      case _ => return Err(UnexpectedToken(pos));
    }
  }

  method BuildFactor(tokens: seq<Token>, pos: nat) returns (r: Result<Parsed, ParseError>)
    requires pos <= |tokens|
    ensures r == ParseFactor(tokens, pos)
    decreases |tokens| - pos, 2
  {
    r := BuildBase(tokens, pos);
    if r.Err? {
      return;
    }
    var base, p := r.value.ast, r.value.pos;
    if p < |tokens| && tokens[p].IsQuantifier() {
      // the quantifier token was just seen, so build_quantifier cannot fail here
      var q := BuildQuantifier(tokens, p);
      r := Ok(Parsed(Modifier(base, q.value.0), q.value.1));
    }
  }

  method BuildTerm(tokens: seq<Token>, pos: nat) returns (r: Result<Parsed, ParseError>)
    requires pos <= |tokens|
    ensures r == ParseTerm(tokens, pos)
    decreases |tokens| - pos, 3
  {
    var first := BuildFactor(tokens, pos);
    if first.Err? {
      return first;
    }
    var left, p := first.value.ast, first.value.pos;
    while p < |tokens| && tokens[p].StartsFactor()
      invariant pos < p <= |tokens|
      invariant ParseTerm(tokens, pos) == TermLoop(tokens, left, p)
      decreases |tokens| - p
    {
      var right := BuildFactor(tokens, p);
      if right.Err? {
        return right;
      }
      left, p := Concat(left, right.value.ast), right.value.pos;
    }
    return Ok(Parsed(left, p));
  }

  method BuildExpr(tokens: seq<Token>, pos: nat) returns (r: Result<Parsed, ParseError>)
    requires pos <= |tokens|
    ensures r == ParseExpr(tokens, pos)
    decreases |tokens| - pos, 4
  {
    var first := BuildTerm(tokens, pos);
    if first.Err? {
      return first;
    }
    var left, p := first.value.ast, first.value.pos;
    while p < |tokens| && tokens[p] == Token.Alternation
      invariant pos < p <= |tokens|
      invariant ParseExpr(tokens, pos) == ExprLoop(tokens, left, p)
      decreases |tokens| - p
    {
      var right := BuildTerm(tokens, p + 1);
      if right.Err? {
        return right;
      }
      left, p := Ast.Alternation(left, right.value.ast), right.value.pos;
    }
    return Ok(Parsed(left, p));
  }

  method BuildAst(tokens: seq<Token>) returns (r: Result<Ast, ParseError>)
    ensures r == ParseAst(tokens)
  {
    var expr := BuildExpr(tokens, 0);
    if expr.Err? {
      return Err(expr.error);
    }
    if expr.value.pos != |tokens| {
      return Err(TrailingInput(expr.value.pos));
    }
    return Ok(expr.value.ast);
  }
}
