/**
 * The program of src/main.rs: tokenize a pattern, parse it, build its automaton once, and
 * run the matcher on each input.  The Rust program panics on a pattern it cannot read; here
 * that is an error value saying which stage refused the pattern and why.
 */
module Pipeline {
  import opened Results
  import opened Parser
  import opened ParserProperties
  import opened Lexer
  import opened NfaBuilder
  import opened NfaProperties
  import opened Runs
  import opened Language
  import opened Thompson
  import opened Matcher

  /** Why a pattern is refused: the stage that would panic, and its error. */
  datatype PatternError = LexFailed(lex: LexError) | ParseFailed(parse: ParseError)

  /**
   * The tree a pattern denotes, or why it has none.  A pattern that is accepted is exactly
   * the printed form of its tree.
   */
  function PatternAst(pattern: string): (r: Result<Ast, PatternError>)
    ensures r.Ok? ==> IsExpr(r.value) && Detokenize(Unparse(r.value)) == pattern
    ensures r.Ok? <==> Tokenize(pattern).Ok? && ParseAst(Tokenize(pattern).value).Ok?
  {
    match Tokenize(pattern)
    case Err(e) => Err(LexFailed(e))
    case Ok(ts) =>
      match ParseAst(ts)
      case Err(e) => Err(ParseFailed(e))
      case Ok(a) =>
        ParseAstCharacterization(ts, a);
        DetokenizeTokenize(pattern);
        Ok(a)
  }

  /**
   * tokenize_regex, build_ast and build_nfa in turn, with the state counter starting at
   * counter.  An accepted pattern gives a well-formed graph whose start state accepts exactly
   * the words of the pattern's tree.
   */
  method CompilePattern(pattern: string, counter: nat) returns (r: Result<(seq<State>, Fragment), PatternError>)
    ensures r.Err? <==> PatternAst(pattern).Err?
    ensures r.Err? ==> r.error == PatternAst(pattern).error
    ensures r.Ok? ==> WellFormed(r.value.0) && r.value.1.start < |r.value.0|
    ensures r.Ok? ==> forall w :: Accepts(r.value.0, r.value.1.start, w) <==> InLang(PatternAst(pattern).value, w)
  {
    var tokens := TokenizeRegex(pattern);
    if tokens.Err? {
      return Err(LexFailed(tokens.error));
    }
    var ast := BuildAst(tokens.value);
    if ast.Err? {
      return Err(ParseFailed(ast.error));
    }
    var builder := new Builder(counter);
    var f := builder.BuildNfa(ast.value);
    CompileNfaShape(counter, ast.value);
    forall w
      ensures Accepts(builder.states, f.start, w) <==> InLang(ast.value, w)
    {
      CompileNfaCorrect(counter, ast.value, w);
    }
    r := Ok((builder.states, f));
  }

  /**
   * The body of main: one automaton for the pattern, and one match_regex result per input,
   * true exactly for the inputs that are words of the pattern.
   */
  method MatchAll(pattern: string, inputs: seq<string>, counter: nat) returns (r: Result<seq<bool>, PatternError>)
    ensures r.Err? <==> PatternAst(pattern).Err?
    ensures r.Err? ==> r.error == PatternAst(pattern).error
    ensures r.Ok? ==> |r.value| == |inputs|
    ensures r.Ok? ==> forall i :: 0 <= i < |inputs| ==> (r.value[i] <==> InLang(PatternAst(pattern).value, inputs[i]))
  {
    var nfa := CompilePattern(pattern, counter);
    if nfa.Err? {
      return Err(nfa.error);
    }
    var (g, f) := nfa.value;
    var results: seq<bool> := [];
    for k := 0 to |inputs|
      invariant |results| == k
      invariant forall i :: 0 <= i < k ==> (results[i] <==> InLang(PatternAst(pattern).value, inputs[i]))
    {
      var matched := MatchRegex(g, f.start, inputs[k]);
      results := results + [matched];
    }
    return Ok(results);
  }

  // ---------------------------------------------------------------------------------------
  // The pattern and inputs of src/main.rs

  const MainPattern: string := "(a|b)*c?d+"
  const MainInputs: seq<string> := ["aacd", "bddd", "d", "abb", "ab", "ac"]

  /** The tree of (a|b)*c?d+: factors concatenated to the left. */
  function MainAst(): Ast
  {
    Ast.Concat(Ast.Concat(Ast.Modifier(Ast.Group(Ast.Alternation(Ast.Const('a'), Ast.Const('b'))), Quantifier.Star),
                  Ast.Modifier(Ast.Const('c'), Quantifier.Optional)),
           Ast.Modifier(Ast.Const('d'), Quantifier.Plus))
  }

  /** The tokens of (a|b)*c?d+. */
  const MainTokens: seq<Token> := [Token.OpenBracket, Token.Const('a'), Token.Alternation, Token.Const('b'),
    Token.CloseBracket, Token.Star, Token.Const('c'), Token.Optional, Token.Const('d'), Token.Plus]

  /** The tokens of the group (a|b). */
  lemma GroupTokenize()
    ensures Tokenize("(a|b)") == Ok(MainTokens[..5])
  {
    assert Detokenize([Token.OpenBracket, Token.Const('a'), Token.Alternation, Token.Const('b'), Token.CloseBracket]) == "(a|b)";
    TokenizeDetokenize([Token.OpenBracket, Token.Const('a'), Token.Alternation, Token.Const('b'), Token.CloseBracket]);
    assert MainTokens[..5] == [Token.OpenBracket, Token.Const('a'), Token.Alternation, Token.Const('b'), Token.CloseBracket];
  }

  /** The tokens of *c?d+. */
  lemma QuantifiersTokenize()
    ensures Tokenize("*c?d+") == Ok(MainTokens[5..])
  {
    assert Detokenize([Token.Star, Token.Const('c'), Token.Optional, Token.Const('d'), Token.Plus]) == "*c?d+";
    TokenizeDetokenize([Token.Star, Token.Const('c'), Token.Optional, Token.Const('d'), Token.Plus]);
    assert MainTokens[5..] == [Token.Star, Token.Const('c'), Token.Optional, Token.Const('d'), Token.Plus];
  }

  lemma MainTokenize()
    ensures Tokenize(MainPattern) == Ok(MainTokens)
  {
    GroupTokenize();
    QuantifiersTokenize();
    MainHalves();
    TokenizeAppend("(a|b)", "*c?d+");
  }

  lemma MainHalves()
    ensures "(a|b)" + "*c?d+" == MainPattern && MainTokens[..5] + MainTokens[5..] == MainTokens
  {
  }

  lemma MainUnparse()
    ensures IsExpr(MainAst()) && Unparse(MainAst()) == MainTokens
  {
    var g := Ast.Group(Ast.Alternation(Ast.Const('a'), Ast.Const('b')));
    assert Unparse(g) == MainTokens[..5];
    assert IsExpr(g.inner);
  }

  lemma MainPatternAst()
    ensures PatternAst(MainPattern) == Ok(MainAst())
  {
    MainTokenize();
    MainUnparse();
    ParseUnparse(MainAst());
  }

  /** Every word of c* is made of c only. */
  lemma {:induction false} StarOfChar(c: char, w: seq<char>)
    requires InStar(Ast.Const(c), w)
    ensures forall i :: 0 <= i < |w| ==> w[i] == c
    decreases |w|
  {
    if w != [] {
      var u, v := StarSplit(Ast.Const(c), w);
      StarOfChar(c, v);
      assert u == [c];
      forall i | 0 <= i < |w|
        ensures w[i] == c
      {
        if i > 0 {
          assert w[i] == v[i - 1];
        }
      }
    }
  }

  /** Every word of c+ is non-empty and made of c only. */
  lemma PlusOfChar(c: char, w: seq<char>)
    requires InPlus(Ast.Const(c), w)
    ensures w != [] && forall i :: 0 <= i < |w| ==> w[i] == c
  {
    var u, v := PlusSplit(Ast.Const(c), w);
    StarOfChar(c, v);
    assert u == [c];
    forall i | 0 <= i < |w|
      ensures w[i] == c
    {
      if i > 0 {
        assert w[i] == v[i - 1];
      }
    }
  }

  /** Every word of (a|b)*c?d+ ends in d. */
  lemma MainEndsInD(w: seq<char>)
    requires InLang(MainAst(), w)
    ensures w != [] && w[|w| - 1] == 'd'
  {
    var x, y := ConcatSplit(MainAst().left, MainAst().right, w);
    PlusOfChar('d', y);
    assert w[|w| - 1] == y[|y| - 1];
  }

  /** aa, b and the empty word are words of (a|b)*. */
  lemma MainStarWords()
    ensures InLang(MainAst().left.left, "aa") && InLang(MainAst().left.left, "b")
    ensures InLang(MainAst().left.left, [])
  {
    var g := Ast.Group(Ast.Alternation(Ast.Const('a'), Ast.Const('b')));
    assert InLang(g, "a") && InLang(g, "b");
    assert InStar(g, []);
    assert InStar(g, "a") by {
      assert "a"[..1] == "a" && "a"[1..] == [];
    }
    assert InStar(g, "aa") by {
      assert "aa"[..1] == "a" && "aa"[1..] == "a";
    }
    assert InStar(g, "b") by {
      assert "b"[..1] == "b" && "b"[1..] == [];
    }
  }

  /** d and ddd are words of d+. */
  lemma MainPlusWords()
    ensures InLang(MainAst().right, "d") && InLang(MainAst().right, "ddd")
  {
    var d := Ast.Const('d');
    assert InStar(d, []);
    assert InStar(d, "d") by {
      assert "d"[..1] == "d" && "d"[1..] == [];
    }
    assert InStar(d, "dd") by {
      assert "dd"[..1] == "d" && "dd"[1..] == "d";
    }
    PlusIntro(d, "d", []);
    PlusIntro(d, "d", "dd");
    assert "d" + [] == "d" && "d" + "dd" == "ddd";
  }

  lemma Spelling()
    ensures "aa" + "c" == "aac" && "b" + [] == "b" && "" + "" == ""
    ensures "aac" + "d" == "aacd" && "b" + "ddd" == "bddd" && "" + "d" == "d"
  {
  }

  /** aacd, bddd and d are words of (a|b)*c?d+. */
  lemma MainAccepted()
    ensures InLang(MainAst(), "aacd") && InLang(MainAst(), "bddd") && InLang(MainAst(), "d")
  {
    var m := MainAst();
    var star, opt := m.left.left, m.left.right;
    MainStarWords();
    MainPlusWords();
    assert InLang(opt, "c") && InLang(opt, []);
    ConcatIntro(star, opt, "aa", "c");
    ConcatIntro(star, opt, "b", []);
    ConcatIntro(star, opt, [], []);
    Spelling();
    ConcatIntro(m.left, m.right, "aac", "d");
    ConcatIntro(m.left, m.right, "b", "ddd");
    ConcatIntro(m.left, m.right, [], "d");
  }

  /** abb, ab and ac are not words of (a|b)*c?d+. */
  lemma MainRejected()
    ensures !InLang(MainAst(), "abb") && !InLang(MainAst(), "ab") && !InLang(MainAst(), "ac")
  {
    var w1, w2, w3 := "abb", "ab", "ac";
    if InLang(MainAst(), w1) {
      MainEndsInD(w1);
    }
    if InLang(MainAst(), w2) {
      MainEndsInD(w2);
    }
    if InLang(MainAst(), w3) {
      MainEndsInD(w3);
    }
  }

  lemma MainInputsAt()
    ensures |MainInputs| == 6
    ensures MainInputs[0] == "aacd" && MainInputs[1] == "bddd" && MainInputs[2] == "d"
    ensures MainInputs[3] == "abb" && MainInputs[4] == "ab" && MainInputs[5] == "ac"
  {
  }

  lemma MainVerdicts(s: seq<bool>)
    requires |s| == 6 && s[0] && s[1] && s[2] && !s[3] && !s[4] && !s[5]
    ensures s == [true, true, true, false, false, false]
  {
  }

  /**
   * main run on its own pattern and inputs prints true for aacd, bddd and d, and false for
   * abb, ab and ac.
   */
  method MainExamples(counter: nat) returns (r: Result<seq<bool>, PatternError>)
    ensures r == Ok([true, true, true, false, false, false])
  {
    r := MatchAll(MainPattern, MainInputs, counter);
    MainPatternAst();
    MainAccepted();
    MainRejected();
    MainInputsAt();
    assert r.Ok? && |r.value| == 6;
    assert r.value[0] && r.value[1] && r.value[2];
    assert !r.value[3] && !r.value[4] && !r.value[5];
    MainVerdicts(r.value);
  }

  /** Patterns the Rust program refuses, and the error each one gets. */
  lemma RefusedUnclosed()
    ensures PatternAst("(a") == Err(ParseFailed(UnclosedGroup(2)))
  {
  }

  /** Alternatives group to the left: a|b|c is (a|b)|c. */
  lemma AlternationFoldsLeft()
    ensures PatternAst("a|b|c")
         == Ok(Ast.Alternation(Ast.Alternation(Ast.Const('a'), Ast.Const('b')), Ast.Const('c')))
  {
    var a := Ast.Alternation(Ast.Alternation(Ast.Const('a'), Ast.Const('b')), Ast.Const('c'));
    assert Detokenize([Token.Const('a'), Token.Alternation, Token.Const('b'), Token.Alternation, Token.Const('c')]) == "a|b|c";
    TokenizeDetokenize([Token.Const('a'), Token.Alternation, Token.Const('b'), Token.Alternation, Token.Const('c')]);
    assert Unparse(a) == [Token.Const('a'), Token.Alternation, Token.Const('b'), Token.Alternation, Token.Const('c')];
    assert IsExpr(a);
    ParseUnparse(a);
  }

  /** Concatenations group to the left as well: abc is (ab)c. */
  lemma ConcatFoldsLeft()
    ensures PatternAst("abc") == Ok(Ast.Concat(Ast.Concat(Ast.Const('a'), Ast.Const('b')), Ast.Const('c')))
  {
    var a := Ast.Concat(Ast.Concat(Ast.Const('a'), Ast.Const('b')), Ast.Const('c'));
    assert Detokenize([Token.Const('a'), Token.Const('b'), Token.Const('c')]) == "abc";
    TokenizeDetokenize([Token.Const('a'), Token.Const('b'), Token.Const('c')]);
    assert Unparse(a) == [Token.Const('a'), Token.Const('b'), Token.Const('c')];
    assert IsExpr(a);
    ParseUnparse(a);
  }

  lemma RefusedTrailing()
    ensures PatternAst("a)") == Err(ParseFailed(TrailingInput(1)))
  {
  }

  lemma RefusedDoubleQuantifier()
    ensures PatternAst("a**") == Err(ParseFailed(TrailingInput(2)))
  {
  }

  lemma RefusedOperator()
    ensures PatternAst("*a") == Err(ParseFailed(UnexpectedToken(0)))
  {
  }

  lemma RefusedEnd()
    ensures PatternAst("a|") == Err(ParseFailed(UnexpectedEnd(2)))
    ensures PatternAst("") == Err(ParseFailed(UnexpectedEnd(0)))
  {
  }

  lemma RefusedCharacter()
    ensures PatternAst("a#b") == Err(LexFailed(UnsupportedCharacter('#', 1)))
  {
  }
}
