# A regular-expression matcher built by Thompson's construction, in Dafny

This project models the four stages of the Rust matcher and proves properties of each one.

- **Lexer** (`src/lexer.rs`): maps each pattern character to a token.
- **Parser** (`src/parser.rs`): a recursive-descent parser that turns the tokens into a `RegexAST`.
- **NFA builder** (`src/nfa_builder.rs`): Thompson's construction over the tree.
- **Matcher** (`src/matcher.rs`): simulates the automaton on sets of states, using epsilon closures.

The main result is `Thompson.CompileNfaCorrect`. The automaton built for a tree accepts a word exactly when the word belongs to the tree's language, as the `Language` module defines it. `Matcher.MatchRegex` answers exactly `Accepts`. Together they give the driver of `src/main.rs` its meaning: `Pipeline.MatchAll` is true for an input exactly when the input is a word of the pattern. `Pipeline.MainExamples` works this out for the driver's own pattern and inputs.

Modules, one file each:

| file | module | what it holds |
|---|---|---|
| `results.dfy` | `Results` | `Option` and `Result` |
| `lexer.dfy` | `Lexer` | `tokenize_regex`: the function `Tokenize`, the loop method `TokenizeRegex`, and its inverse `Detokenize` |
| `parser.dfy` | `Parser` | the tokens, the tree and the quantifier types; the grammar predicates `IsExpr`/`IsTerm`/`IsFactor`/`IsBase`; the printer `Unparse`; the parse functions `Parse*` (the specification); the cursor-advancing methods `Build*` (the implementation) |
| `parser_properties.dfy` | `ParserProperties` | parsing is sound and complete with respect to `Unparse`, and keeps the literals in order |
| `nfa_builder.dfy` | `NfaBuilder` | the states in an arena; the functions `Compile*` (the specification); class `Builder`, whose methods, one per Rust function, update its `states` and `nextId` fields |
| `nfa_properties.dfy` | `NfaProperties` | the shape of every fragment: fresh states, numbering, edges confined to the fragment's block, an exit without edges, one accepting state, at most one character edge per state |
| `runs.dfy` | `Runs` | runs of the automaton, `Reaches` and `Accepts` |
| `language.dfy` | `Language` | the words a tree denotes |
| `thompson.dfy` | `Thompson` | the runs of the compiled fragment spell exactly the words of the tree |
| `matcher.dfy` | `Matcher` | `find_e_closure` and `match_regex` as methods proved against `Reaches`/`Accepts` |
| `pipeline.dfy` | `Pipeline` | the whole pipeline, the driver's examples, and the patterns each stage refuses |

Each panic of the Rust code is an error value here:

- The lexer returns `UnsupportedCharacter(c, pos)`.
- The parser returns one of:
  - `UnexpectedEnd(pos)` for `tokens[pos]` read past the end;
  - `UnexpectedToken(pos)` for "Unidentified token";
  - `UnclosedGroup(pos)` for "Closing bracket not found";
  - `TrailingInput(pos)` for "Unable to parse expression".

The Rust states are shared `Rc<RefCell<State>>` nodes. Here they live in an arena:

- an edge is an index into the arena;
- `Rc::ptr_eq` is equality of indices;
- a fragment (`StateMod`) is a pair of indices;
- the thread-local `STATE_ID` counter is the field `nextId`.

Three behaviours of the code are worth naming:

- A `)` in base position, as in `()` or `a|)`, is reported as `UnexpectedToken`, because `build_base` panics with "Unidentified token" there (`src/parser.rs:97`). An open group without its `)` is `UnclosedGroup` (`src/parser.rs:84-86`).
- The empty pattern is refused with `UnexpectedEnd(0)`, because `build_base` reads `tokens[0]` (`src/parser.rs:78`). There is no separate "empty expression" error; `()` is refused as above.
- The matcher does not stop early when the set of states becomes empty (`src/matcher.rs:23-35`). `Matcher.EmptyStaysEmpty` shows that the next set is empty too, and `Matcher.EmptyStaysRejected` that no extension of the input read so far is accepted, so stopping would give the same answer.

## Model

| member | source | states |
|---|---|---|
| Lexer.TokenOf | src/lexer.rs:7-16 | `CharOf` is its inverse: the six operator characters map to their tokens and back. A character becomes `Const` of that same character exactly when it is alphanumeric. There is no token exactly when the character is neither alphanumeric nor an operator. |
| Lexer.Tokenize | src/lexer.rs:3-22 | On success there is one token per character. On failure, the reported position holds the reported character, and that character has no token. |
| Lexer.TokenizeRegex | src/lexer.rs:3-22 | The `for` loop that pushes one token per character returns exactly `Tokenize` of the pattern. That includes the failure at the first unsupported character. |
| Lexer.TokenizeOne | src/lexer.rs:7-18 | A one-character pattern gives the token of its character, or the error at position 0. |
| Lexer.TokenizeCharacterization | src/lexer.rs:6-19 | Tokenizing succeeds if and only if every character has a token. Token i is the token of character i. Every character before the reported error position has a token, so the error names the first unsupported character. |
| Lexer.Detokenize | src/lexer.rs:8-14 | The pattern a token list is read from has one character per token. |
| Lexer.DetokenizeTokenize | src/lexer.rs:6-19 | Reading the tokens of a pattern back gives the pattern. |
| Lexer.TokenizeDetokenize | src/lexer.rs:6-19 | Every token list whose literals are alphanumeric is what its pattern tokenizes to. |
| Lexer.TokenizeAppend | src/lexer.rs:6-19 | When both halves tokenize, tokenizing s + t gives the tokens of s followed by the tokens of t. |
| Lexer.TokenizeAppendFailsLeft | src/lexer.rs:15 | A failure in the first half is the failure of the whole pattern. |
| Lexer.TokenizeAppendFailsRight | src/lexer.rs:15 | A failure only in the second half is reported at its position shifted by the length of the first half. |
| Parser.Unparse | src/parser.rs:12-18 | Printing a tree back to tokens gives a non-empty list that starts with a `Const` or `(`. This is the partner of the parse functions. |
| Parser.ParseQuantifier | src/parser.rs:101-111 | Succeeds exactly when the token at the cursor is `*`, `+` or `?`. It then advances the cursor by one, and the quantifier's token is that token. |
| Parser.ParseBase | src/parser.rs:77-99 | A successful base advances the cursor by at least one, and the cursor stays within the tokens. |
| Parser.ParseFactor | src/parser.rs:60-75 | A successful factor advances the cursor by at least one, within the tokens. |
| Parser.TermLoop | src/parser.rs:46-55 | The concatenation loop never moves the cursor back or past the end. |
| Parser.ParseTerm | src/parser.rs:43-58 | A successful term advances the cursor by at least one, within the tokens. |
| Parser.ExprLoop | src/parser.rs:29-38 | The alternation loop never moves the cursor back or past the end. |
| Parser.ParseExpr | src/parser.rs:26-41 | A successful expression advances the cursor by at least one, within the tokens. |
| Parser.BuildQuantifier | src/parser.rs:101-111 | The cursor-advancing `build_quantifier` returns exactly `ParseQuantifier`. |
| Parser.BuildBase | src/parser.rs:77-99 | `build_base`, with the group case and the three panics, returns exactly `ParseBase`. |
| Parser.BuildFactor | src/parser.rs:60-75 | `build_factor` returns exactly `ParseFactor`. |
| Parser.BuildTerm | src/parser.rs:43-58 | `build_term`, whose `while` loop folds `Concat` to the left, returns exactly `ParseTerm`. |
| Parser.BuildExpr | src/parser.rs:26-41 | `build_expr`, whose `while` loop folds `Alternation` to the left, returns exactly `ParseExpr`. |
| Parser.BuildAst | src/parser.rs:113-122 | `build_ast` returns exactly `ParseAst`. `ParseAst` succeeds only when the cursor ends at the end of the token list (`|tokens|`), and reports `TrailingInput` otherwise. |
| ParserProperties.BaseSound | src/parser.rs:77-99 | A parsed base is a `Const` or a group around an expression, and it prints back to exactly the tokens consumed. |
| ParserProperties.FactorSound | src/parser.rs:60-75 | A parsed factor is a base or a base with one quantifier, and it prints back to the tokens consumed. |
| ParserProperties.TermLoopSound | src/parser.rs:46-55 | The concatenation loop keeps a left-folded term. The tokens it consumes are those it appends to the tree. It stops at the end, or at a token that cannot start a factor. |
| ParserProperties.TermSound | src/parser.rs:43-58 | A parsed term is left-folded: a `Concat`'s right child is a factor. It prints back to the tokens consumed. |
| ParserProperties.ExprLoopSound | src/parser.rs:29-38 | The alternation loop keeps a left-folded expression and stops at the end or at a token other than the alternation bar. |
| ParserProperties.ExprSound | src/parser.rs:26-41 | A parsed expression is left-folded: an `Alternation`'s right child is a term. It prints back to the tokens consumed. |
| ParserProperties.ParseAstSound | src/parser.rs:113-122 | A tree `build_ast` accepts satisfies the grammar and prints back to the whole token list. |
| ParserProperties.BaseComplete | src/parser.rs:77-99 | A base's printed tokens parse back to it, ending right after them. |
| ParserProperties.GroupSlices | src/parser.rs:80-89 | A group's tokens are `(`, the inner expression's tokens and `)`, and that `)` ends the inner expression. |
| ParserProperties.FactorComplete | src/parser.rs:60-75 | A factor's printed tokens parse back to it, given that no quantifier follows them. |
| ParserProperties.TermComplete | src/parser.rs:43-58 | Parsing a term's printed tokens reaches the loop state holding that term, right after its tokens. |
| ParserProperties.ConcatComplete | src/parser.rs:43-58 | The same for a `Concat`: its left term is parsed first, then the loop takes its right factor. |
| ParserProperties.ConcatSlices | src/parser.rs:46-52 | A `Concat`'s tokens split into its left term's tokens and its right factor's tokens, and the right ones start a factor. |
| ParserProperties.TermStart | src/parser.rs:43-46 | Parsing a term starts the concatenation loop with its first factor. |
| ParserProperties.ConcatStep | src/parser.rs:46-52 | One pass of the concatenation loop over a factor's tokens folds it into the left tree. |
| ParserProperties.ExprComplete | src/parser.rs:26-41 | Parsing an expression's printed tokens reaches the alternation loop holding that expression, right after its tokens. |
| ParserProperties.AlternationComplete | src/parser.rs:26-41 | The same for an `Alternation`: its left expression first, then the bar and its right term. |
| ParserProperties.AlternationTokens | src/parser.rs:31-34 | An `Alternation`'s tokens are its left operand's tokens followed by the tokens the loop consumed for the bar and the right term. |
| ParserProperties.AlternationSlices | src/parser.rs:31-34 | An `Alternation`'s tokens split into its left expression's tokens, the bar, and its right term's tokens. |
| ParserProperties.ExprStart | src/parser.rs:26-29 | Parsing an expression starts the alternation loop with its first term. |
| ParserProperties.TermLoopStops | src/parser.rs:46-53 | The concatenation loop stops at once at the end of the tokens or before any token that neither starts a factor nor is a quantifier. |
| ParserProperties.AlternationStep | src/parser.rs:29-35 | One pass of the alternation loop over a bar and a term folds it into the left tree. |
| ParserProperties.ParseUnparse | src/parser.rs:113-122 | Every tree that satisfies the grammar is what `build_ast` returns for its printed tokens. |
| ParserProperties.ParseAstCharacterization | src/parser.rs:113-122 | `build_ast` returns a tree if and only if the tree satisfies the grammar and prints to exactly the token list. |
| ParserProperties.UnparseInjective | src/parser.rs:12-18 | Two grammatical trees with the same tokens are equal, so the grammar is unambiguous. |
| ParserProperties.ConstCharsAppend | src/parser.rs:48-51 | The literals of a concatenation of token lists are the literals of the parts, in order. |
| ParserProperties.LeavesUnparse | src/parser.rs:12-18 | The `Const` leaves of a tree, read left to right, are the literals of its printed tokens. |
| ParserProperties.ParseAstKeepsLiterals | src/parser.rs:92-95 | The `Const` leaves of the tree `build_ast` returns are the `Const` tokens of the input, in order. |
| NfaBuilder.PushEpsilon | src/nfa_builder.rs:92 | Pushing an epsilon edge changes neither the number of states nor the counter. |
| NfaBuilder.Compile | src/nfa_builder.rs:77-85 | Compiling a tree allocates exactly `StateCount` states: two per `Const`, `Alternation` and `Modifier`, none per `Concat` and `Group`. The counter grows by the same amount, and the fragment lies among the new states. |
| NfaBuilder.CompileConst | src/nfa_builder.rs:152-163 | A `Const` allocates two states and ids, and its fragment lies among them. |
| NfaBuilder.CompileConcat | src/nfa_builder.rs:87-101 | A `Concat` allocates exactly its children's states. |
| NfaBuilder.CompileAlternation | src/nfa_builder.rs:103-119 | An `Alternation` allocates its children's states and two more. |
| NfaBuilder.JoinAlternatives | src/nfa_builder.rs:107-115 | Joining two alternatives allocates exactly two states, the new entry and the new exit. |
| NfaBuilder.CompileModifier | src/nfa_builder.rs:121-150 | A `Modifier` allocates its base's states and two more. |
| NfaBuilder.WireModifier | src/nfa_builder.rs:128-144 | Wiring the quantifier's edges changes neither the number of states nor the counter. |
| NfaBuilder.Builder.constructor | src/nfa_builder.rs:53-55 | A builder starts with no states and the counter at the given value. |
| NfaBuilder.Builder.NewState | src/nfa_builder.rs:57-65 | `new_state` appends a fresh state that has the counter's value as its id, no edges, and is not accepting. It increments the counter and returns the new state's index. |
| NfaBuilder.Builder.AddEpsilon | src/nfa_builder.rs:92 | `e_transitions.push` appends one edge to one state and changes nothing else. |
| NfaBuilder.Builder.BuildNfa | src/nfa_builder.rs:71-75 | `build_nfa` leaves the builder in the state `CompileNfa` describes, with the same fragment. |
| NfaBuilder.Builder.BuildNfaInner | src/nfa_builder.rs:77-85 | `build_nfa_inner`, dispatching on the node kind, follows `Compile`. |
| NfaBuilder.Builder.BuildConcatNfa | src/nfa_builder.rs:87-101 | `build_concat_nfa` follows `CompileConcat`. |
| NfaBuilder.Builder.BuildAlternationNfa | src/nfa_builder.rs:103-119 | `build_alternation_nfa` follows `CompileAlternation`. |
| NfaBuilder.Builder.BuildModifierNfa | src/nfa_builder.rs:121-150 | `build_modifier_nfa`, in all three quantifier branches, follows `CompileModifier`. |
| NfaBuilder.Builder.BuildConstNfa | src/nfa_builder.rs:152-163 | `build_const_nfa` follows `CompileConst`. |
| NfaProperties.CompileShape | src/nfa_builder.rs:77-85 | Every fragment satisfies `Shape`. Its start and end differ and lie among the new states. The older states are left alone. Its exit has no edges. Every new state's edges stay within the new states. The new states carry consecutive ids from the counter, and none accepts. |
| NfaProperties.ConstShape | src/nfa_builder.rs:152-163 | A `Const` fragment satisfies `Shape`. |
| NfaProperties.ConcatShape | src/nfa_builder.rs:87-101 | A `Concat` fragment satisfies `Shape`: its entry and exit are distinct states of a fresh block after the prefix, the prefix is untouched, the exit has no edges, edges stay inside the block, and ids are consecutive from the counter. Which edge it adds is stated by `Thompson.ConcatFacts`. |
| NfaProperties.AlternationShape | src/nfa_builder.rs:103-119 | An `Alternation` fragment satisfies `Shape`. |
| NfaProperties.JoinAlternativesShape | src/nfa_builder.rs:107-115 | The two new states and the four new edges keep both children's blocks confined and numbered, and the new exit has no edges. |
| NfaProperties.ModifierShape | src/nfa_builder.rs:121-150 | A `Modifier` fragment satisfies `Shape`. |
| NfaProperties.WireModifierShape | src/nfa_builder.rs:128-144 | The quantifier's edges stay within the modifier's block and keep its numbering. |
| NfaProperties.PushKeeps | src/nfa_builder.rs:92 | An epsilon edge pushed inside a block keeps the block confined and numbered, and leaves the states before it alone. |
| NfaProperties.AllocatePair | src/nfa_builder.rs:57-65 | Two calls to `new_state` give two consecutive ids from the counter and two states without edges. |
| NfaProperties.CompileNfaShape | src/nfa_builder.rs:71-75 | After `build_nfa` the graph is well formed and the start state is in it. A state accepts exactly when it is the top fragment's exit, so exactly one state accepts. That exit has no outgoing edges. |
| NfaProperties.AllocateChars | src/nfa_builder.rs:14-21 | A new state has no character edge, so `CharEdges` is kept: at most one character edge per state, leading to the next state. |
| NfaProperties.PushChars | src/nfa_builder.rs:92 | Pushing an epsilon edge keeps `CharEdges`. |
| NfaProperties.WireModifierChars | src/nfa_builder.rs:128-144 | The quantifier's epsilon edges keep `CharEdges`. |
| NfaProperties.CompileChars | src/nfa_builder.rs:152-159 | Compiling keeps every state at one character edge at most, and every character edge leads from a state to the one allocated right after it. The only insertion is on a `Const`'s fresh entry, pointing to its own exit, allocated next. |
| NfaProperties.CompileNfaChars | src/nfa_builder.rs:71-75 | In the finished automaton every state has at most one character edge, and it leads to the state allocated right after it, as from a `Const`'s entry to its exit. |
| Thompson.ConstFacts | src/nfa_builder.rs:152-159 | A `Const`'s entry has exactly one edge, on its character, to its exit. |
| Thompson.ConcatFacts | src/nfa_builder.rs:87-97 | The `Concat` fragment runs from the left entry to the right exit. The left exit has exactly one edge, an epsilon edge to the right entry. Every other state is as its child left it. |
| Thompson.AlternationFacts | src/nfa_builder.rs:103-115 | The new entry has epsilon edges to both child entries, in that order. Both child exits have one epsilon edge to the new exit. Nothing else changes. |
| Thompson.ModifierFacts | src/nfa_builder.rs:121-146 | The new entry's edges are: for `*`, base entry then exit; for `+`, base entry only; for `?`, base entry then exit. The base exit's edges are: for `*` and `+`, base entry then exit; for `?`, exit only. |
| Thompson.CompileSound | src/nfa_builder.rs:77-85 | Every run through a compiled fragment, from its entry to its first visit of its exit, spells a word of the tree. |
| Thompson.ConstSound | src/nfa_builder.rs:152-163 | The same, for `Const`. |
| Thompson.ConcatSound | src/nfa_builder.rs:87-101 | The same, for `Concat`. |
| Thompson.AlternationSound | src/nfa_builder.rs:103-119 | The same, for `Alternation`. |
| Thompson.BranchSound | src/nfa_builder.rs:110-113 | A run through one alternative spells a word of that alternative. |
| Thompson.ModifierSound | src/nfa_builder.rs:121-150 | The same, for the three quantifiers. |
| Thompson.LoopSound | src/nfa_builder.rs:131-139 | A run from the base entry to the modifier's exit, through the loop-back edge, spells one or more words of the base. |
| Thompson.CompileComplete | src/nfa_builder.rs:77-85 | Every word of the tree is spelled by a run from the fragment's entry to its exit that stays within the fragment's block. |
| Thompson.ConstComplete | src/nfa_builder.rs:152-163 | The same, for `Const`. |
| Thompson.ConcatComplete | src/nfa_builder.rs:87-101 | The same, for `Concat`. |
| Thompson.AlternationComplete | src/nfa_builder.rs:103-119 | The same, for `Alternation`. |
| Thompson.AlternationBranch | src/nfa_builder.rs:110-113 | A word of either alternative is spelled by a run through that branch. |
| Thompson.BranchComplete | src/nfa_builder.rs:110-113 | A word of a child is spelled by a run from the state before the child's entry to the state after its exit. |
| Thompson.ModifierComplete | src/nfa_builder.rs:121-150 | The same, for the three quantifiers. The empty word goes through the bypass, the others through the base and the loop-back. |
| Thompson.SkipComplete | src/nfa_builder.rs:132 | `*` and `?` accept the empty word through the entry's edge to the exit. |
| Thompson.OptionalComplete | src/nfa_builder.rs:140-143 | `?` accepts each word of its base by one pass through it. |
| Thompson.RepeatComplete | src/nfa_builder.rs:131-139 | `*` and `+` accept one or more words of the base in sequence. |
| Thompson.LoopComplete | src/nfa_builder.rs:133-138 | Repeated passes through the base, joined by the loop-back edge, spell any sequence of its words. |
| Thompson.CompileNfaCorrect | src/nfa_builder.rs:71-85 | The automaton `build_nfa` returns accepts a word from its start state if and only if the word belongs to the tree's language. |
| Runs.ReachesTrans | src/matcher.rs:23-34 | A run on u followed by a run on v is a run on u + v. |
| Runs.SplitLast | src/matcher.rs:26-31 | A run on w + [c] is a run on w, then one edge on c, then epsilon edges. |
| Matcher.DistinctBound | src/matcher.rs:11-13 | A closure without repeats has at most as many entries as the graph has states. This is the measure that makes `find_e_closure` stop on cyclic graphs. |
| Matcher.Grow | src/matcher.rs:7-12 | Appending to the closure keeps every earlier entry. |
| Matcher.AfterVisit | src/matcher.rs:11-14 | After the recursive call on a new state, the states added are reached from it by epsilon edges, and the older entries are kept. |
| Matcher.VisitStep | src/matcher.rs:10-15 | One iteration of the loop over the epsilon edges keeps the loop invariant: every edge visited so far is in the closure. |
| Matcher.FindEClosure | src/matcher.rs:5-18 | The argument's entries are kept and states are only appended. No state appears twice. The result contains the state it was called with, and all of its epsilon successors. Every state added is reached from that state by epsilon edges and has all of its own epsilon successors in the result. |
| Matcher.ClosedRun | src/matcher.rs:10-14 | A set closed under epsilon edges contains every state of an epsilon-only run that starts in it. |
| Matcher.ClosedReach | src/matcher.rs:10-14 | A set closed under epsilon edges contains every state reached from it on the empty word. |
| Matcher.InitialStates | src/matcher.rs:21 | The closure of the start state is exactly the set of states reached on the empty word. |
| Matcher.AddTarget | src/matcher.rs:29-30 | Adding the closure of a c-target keeps the next set sound for the input so far plus c, and closed under epsilon edges. |
| Matcher.StepComplete | src/matcher.rs:26-32 | When the next set holds every c-target of the current set and is closed under epsilon edges, it holds every state reached on the input so far plus c. |
| Matcher.EmptyStaysEmpty | src/matcher.rs:23-34 | When the current set is empty and complete, a sound next set is empty too. |
| Matcher.EmptyStaysRejected | src/matcher.rs:23-37 | When no state is reachable on the input read so far, none is reachable on any extension of it, and no extension is accepted. |
| Matcher.Step | src/matcher.rs:24-32 | One pass of the loop over the input: given the states reached on w, it builds exactly the states reached on w + [c]. |
| Matcher.AcceptsCurrent | src/matcher.rs:37 | When the current set is exactly the states reached on w, the automaton accepts w if and only if some state of the set accepts. |
| Matcher.AnyAccepting | src/matcher.rs:37 | `any(is_accepting)` is true exactly when some state of the set accepts. |
| Matcher.MatchRegex | src/matcher.rs:20-38 | `match_regex` returns true if and only if the automaton accepts the input from the start state. |
| Pipeline.PatternAst | src/main.rs:13-14 | A pattern gives a tree exactly when it tokenizes and its tokens parse. That tree satisfies the grammar and prints back to the pattern. |
| Pipeline.CompilePattern | src/main.rs:13-15 | The three stages refuse a pattern exactly when `PatternAst` does, with the same error. Otherwise they give a well-formed automaton that accepts exactly the words of the pattern's tree. |
| Pipeline.MatchAll | src/main.rs:11-30 | The driver gives one answer per input, and an answer is true exactly when the input is a word of the pattern. |
| Pipeline.GroupTokenize | src/main.rs:12 | The group "a or b" in brackets tokenizes to the first five tokens of the driver's pattern. |
| Pipeline.QuantifiersTokenize | src/main.rs:12 | `*c?d+` tokenizes to the last five. |
| Pipeline.MainTokenize | src/main.rs:12-13 | The tokens of the driver's pattern, the ten characters in order. |
| Pipeline.MainUnparse | src/main.rs:12-14 | The tree `Concat(Concat(Modifier(Group(Alternation(a, b)), Star), Modifier(c, Optional)), Modifier(d, Plus))` satisfies the grammar and prints to those tokens. |
| Pipeline.MainPatternAst | src/main.rs:12-14 | `build_ast` gives that tree for the driver's pattern. |
| Pipeline.AlternationFoldsLeft | src/parser.rs:29-38 | The three-way alternation of a, b and c parses as `Alternation(Alternation(a, b), c)`. |
| Pipeline.ConcatFoldsLeft | src/parser.rs:46-55 | `abc` parses as `Concat(Concat(a, b), c)`. |
| Pipeline.StarOfChar | src/main.rs:12 | Every word of `c*` consists of c only. |
| Pipeline.PlusOfChar | src/main.rs:12 | Every word of `c+` is non-empty and consists of c only. |
| Pipeline.MainEndsInD | src/main.rs:12 | Every word of the driver's pattern ends in `d`. |
| Pipeline.MainStarWords | src/main.rs:18-20 | `aa`, `b` and the empty word are words of the starred group. |
| Pipeline.MainPlusWords | src/main.rs:18-20 | `d` and `ddd` are words of `d+`. |
| Pipeline.MainAccepted | src/main.rs:18-20 | `aacd`, `bddd` and `d` are words of the pattern. |
| Pipeline.MainRejected | src/main.rs:21-23 | `abb`, `ab` and `ac` are not. |
| Pipeline.MainInputsAt | src/main.rs:17-24 | The driver's six inputs, in order. |
| Pipeline.MainExamples | src/main.rs:11-30 | The driver's verdicts are true, true, true, false, false, false, as its comments say. |
| Pipeline.RefusedUnclosed | src/parser.rs:84-86 | `(a` is refused: no closing bracket at position 2. |
| Pipeline.RefusedTrailing | src/parser.rs:117-119 | `a)` is refused with input left at position 1. |
| Pipeline.RefusedDoubleQuantifier | src/parser.rs:60-75 | `a**` is refused with input left at position 2: a factor takes at most one quantifier. |
| Pipeline.RefusedOperator | src/parser.rs:92-98 | `*a` is refused: an operator in base position. |
| Pipeline.RefusedEnd | src/parser.rs:78 | A trailing bar after `a`, and the empty pattern, are refused: no token at positions 2 and 0. |
| Pipeline.RefusedCharacter | src/lexer.rs:15 | `a#b` is refused by the lexer, naming `#` at position 1. |

## Left out

- Lexer.TokenOf: `char::is_alphanumeric` is Unicode-aware; the model accepts only the ASCII letters and digits. Other alphabetic or numeric characters are refused here but are literals in Rust.
- Panic messages and their formatting: each panic is an error value carrying the position instead, and nothing aborts.
- `Rc<RefCell<State>>` sharing and `Rc::ptr_eq`: states are arena entries and pointer identity is index equality. Aliasing beyond that, such as two builds sharing states, does not arise in the code.
- Thread-local storage of `STATE_ID`: the counter is a field of the builder, and its value at the start of a build is a parameter. Every property is proved for any starting value, which covers the counter persisting from earlier builds.
- Fixed-width arithmetic: `usize` overflow of the cursor and of `STATE_ID` is not modelled, because integers are unbounded here.
- `HashMap<char, StatePtr>` is a `map<char, nat>`. Hashing and iteration order are not observable in the code, which only calls `get` and `insert`.
- `build_factor`'s `*pos <= tokens.len() - 1` is modelled as `pos < |tokens|`. The subtraction cannot underflow there, because the base before it consumed at least one token.
- `build_quantifier`'s panic on a non-quantifier is an error value, but `build_factor` only calls it after checking the token. Likewise, the builders' "Expected a … AST" panics cannot happen from `build_nfa_inner`, so `BuildConcatNfa` and its siblings require the matching node kind.
- NfaBuilder.Builder: the states are a `seq` field, and each method reassigns it with one state replaced or one state appended. In-place mutation through individual `RefCell`s is not modelled separately.
- Matcher.FindEClosure: Rust returns the same `&mut Vec` it was given. The model takes the vector's contents in and returns its new contents.
- The order of states within the closure vectors is kept, but only set membership is specified. The cost of the linear `any` scans is not modelled.
- `src/main.rs`'s printing of `input: bool` is not modelled. `Pipeline.MatchAll` returns the list of booleans instead.
