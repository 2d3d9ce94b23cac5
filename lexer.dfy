/**
 * The lexer of src/lexer.rs: one token per pattern character, in order.  The Rust
 * function panics on the first character it does not support; here that is an Err value
 * naming the character and its position.
 */
module Lexer {
  import opened Results
  import opened Parser

  datatype LexError = UnsupportedCharacter(c: char, pos: nat)

  /** char::is_alphanumeric, restricted to the ASCII letters and digits. */
  predicate IsAlphanumeric(c: char)
  {
    'a' <= c <= 'z' || 'A' <= c <= 'Z' || '0' <= c <= '9'
  }

  /** The pattern character a token is read from. */
  function CharOf(t: Token): char
  {
    match t
    case Const(c) => c
    case Alternation => '|'
    case Star => '*'
    case Plus => '+'
    case Optional => '?'
    case OpenBracket => '('
    case CloseBracket => ')'
  }

  /** The `match c` of tokenize_regex: the token for one character, or None where it panics. */
  function TokenOf(c: char): (r: Option<Token>)
    ensures r.Some? ==> CharOf(r.value) == c
    ensures r.Some? ==> (r.value.Const? <==> IsAlphanumeric(c))
    ensures r.None? <==> !IsAlphanumeric(c) && c !in "|*+?()"
  {
    match c
    case '|' => Some(Token.Alternation)
    case '*' => Some(Token.Star)
    case '+' => Some(Token.Plus)
    case '?' => Some(Token.Optional)
    case '(' => Some(Token.OpenBracket)
    case ')' => Some(Token.CloseBracket)
    case _ => if IsAlphanumeric(c) then Some(Token.Const(c)) else None
  }

  /** tokenize_regex, as a function of the pattern. */
  function Tokenize(s: string): (r: Result<seq<Token>, LexError>)
    ensures r.Ok? ==> |r.value| == |s|
    ensures r.Err? ==> r.error.pos < |s| && s[r.error.pos] == r.error.c && TokenOf(r.error.c).None?
    decreases |s|
  {
    if s == [] then Ok([])
    else match TokenOf(s[0])
      case None => Err(UnsupportedCharacter(s[0], 0))
      case Some(t) =>
        match Tokenize(s[1..])
        case Err(UnsupportedCharacter(c, i)) => Err(UnsupportedCharacter(c, i + 1))
        case Ok(ts) => Ok([t] + ts)
  }

  /** tokenize_regex: the loop that pushes one token per character. */
  method TokenizeRegex(regex: string) returns (r: Result<seq<Token>, LexError>)
    ensures r == Tokenize(regex)
  {
    var result: seq<Token> := [];
    for i := 0 to |regex|
      invariant Tokenize(regex[..i]) == Ok(result)
    {
      var token := TokenOf(regex[i]);
      assert regex[..i + 1] == regex[..i] + [regex[i]];
      if token.None? {
        r := Err(UnsupportedCharacter(regex[i], i));
        TokenizeOne(regex[i]);
        TokenizeAppendFailsRight(regex[..i], [regex[i]]);
        TokenizeAppendFailsLeft(regex[..i + 1], regex[i + 1..]);
        assert regex == regex[..i + 1] + regex[i + 1..];
        return;
      }
      TokenizeOne(regex[i]);
      TokenizeAppend(regex[..i], [regex[i]]);
      result := result + [token.value];
    }
    r := Ok(result);
    assert regex[..|regex|] == regex;
  }

  lemma TokenizeOne(c: char)
    ensures Tokenize([c]) == if TokenOf(c).Some? then Ok([TokenOf(c).value])
                             else Err(UnsupportedCharacter(c, 0))
  {
    assert [c][0] == c && [c][1..] == [];
    assert Tokenize([c][1..]) == Ok([]);
    if TokenOf(c).Some? {
      assert [TokenOf(c).value] + [] == [TokenOf(c).value];
    }
  }

  /** Which patterns tokenize, to what, and where the first unsupported character is. */
  lemma {:induction false} TokenizeCharacterization(s: string)
    ensures Tokenize(s).Ok? <==> forall i :: 0 <= i < |s| ==> TokenOf(s[i]).Some?
    ensures Tokenize(s).Ok? ==> forall i :: 0 <= i < |s| ==> TokenOf(s[i]) == Some(Tokenize(s).value[i])
    ensures Tokenize(s).Err? ==> forall j :: 0 <= j < Tokenize(s).error.pos ==> TokenOf(s[j]).Some?
    decreases |s|
  {
    if s != [] {
      TokenizeCharacterization(s[1..]);
      assert forall i :: 1 <= i < |s| ==> s[i] == s[1..][i - 1];
    }
  }

  /** The pattern a token sequence is read from. */
  function Detokenize(ts: seq<Token>): (s: string)
    ensures |s| == |ts|
  {
    if ts == [] then [] else [CharOf(ts[0])] + Detokenize(ts[1..])
  }

  /** Reading the tokens back gives the pattern. */
  lemma {:induction false} DetokenizeTokenize(s: string)
    requires Tokenize(s).Ok?
    ensures Detokenize(Tokenize(s).value) == s
    decreases |s|
  {
    if s != [] {
      DetokenizeTokenize(s[1..]);
    }
  }

  /** Every token sequence whose literals are alphanumeric is what its pattern tokenizes to. */
  lemma {:induction false} TokenizeDetokenize(ts: seq<Token>)
    requires forall i :: 0 <= i < |ts| && ts[i].Const? ==> IsAlphanumeric(ts[i].c)
    ensures Tokenize(Detokenize(ts)) == Ok(ts)
    decreases |ts|
  {
    if ts != [] {
      TokenizeDetokenize(ts[1..]);
      var s := Detokenize(ts);
      assert s[0] == CharOf(ts[0]) && s[1..] == Detokenize(ts[1..]);
      assert TokenOf(s[0]) == Some(ts[0]) by {
        assert ts[0].Const? ==> IsAlphanumeric(ts[0].c);
      }
      assert ts == [ts[0]] + ts[1..];
    }
  }

  /** Tokenizing a concatenation of two patterns that both tokenize concatenates their tokens. */
  lemma {:induction false} TokenizeAppend(s: string, t: string)
    requires Tokenize(s).Ok? && Tokenize(t).Ok?
    ensures Tokenize(s + t) == Ok(Tokenize(s).value + Tokenize(t).value)
    decreases |s|
  {
    if s == [] {
      assert s + t == t && Tokenize(s).value == [];
      assert Tokenize(s).value + Tokenize(t).value == Tokenize(t).value;
    } else {
      var t0, us, ut := TokenOf(s[0]).value, Tokenize(s[1..]).value, Tokenize(t).value;
      assert (s + t)[0] == s[0] && (s + t)[1..] == s[1..] + t;
      TokenizeAppend(s[1..], t);
      assert Tokenize(s + t) == Ok([t0] + (us + ut));
      assert [t0] + (us + ut) == ([t0] + us) + ut;
    }
  }

  /** A failure in the first part is the failure of the whole. */
  lemma {:induction false} TokenizeAppendFailsLeft(s: string, t: string)
    requires Tokenize(s).Err?
    ensures Tokenize(s + t) == Tokenize(s)
    decreases |s|
  {
    assert (s + t)[0] == s[0] && (s + t)[1..] == s[1..] + t;
    if TokenOf(s[0]).Some? {
      TokenizeAppendFailsLeft(s[1..], t);
    }
  }

  /** A failure only in the second part is reported at its position in the whole. */
  lemma {:induction false} TokenizeAppendFailsRight(s: string, t: string)
    requires Tokenize(s).Ok? && Tokenize(t).Err?
    ensures Tokenize(s + t) == Err(UnsupportedCharacter(Tokenize(t).error.c, |s| + Tokenize(t).error.pos))
    decreases |s|
  {
    if s == [] {
      assert s + t == t;
    } else {
      assert (s + t)[0] == s[0] && (s + t)[1..] == s[1..] + t;
      TokenizeAppendFailsRight(s[1..], t);
    }
  }
}
