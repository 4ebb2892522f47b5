# textpp: a verified model of the directive interpreter

textpp is a line-oriented text preprocessor. This project models the interpreter in `src/main.rs` and states what that code guarantees.

The interpreter reads an input file line by line, and only lines whose first character is `#` can be directives:

- `#include`: splice in another file.
- `#ifdef`, `#ifndef`, `#if`: open a conditional region.
- `#else`: flip the region's branch.
- `#endif`: close the region.

Every other line is content. When the current region is active, each `$$name$$` span in it is replaced by the name's value and the line is written out. Include paths get the same treatment with `##name##` spans. In both forms a span whose name is not an identifier, or is not defined, is deleted, because `get_value` of an undefined key is the empty string. `#if` takes a small boolean language of identifiers, strings, numbers, `==`, `!=`, `!`, `&&`, the double-bar disjunction and parentheses. A hand-written tokenizer and a recursive-descent parser evaluate it.

The model has one module per part of the program:

| module | file | what it holds |
|---|---|---|
| `Definitions` | definitions.dfy | the `Defs` store, a class over two maps |
| `Chars` | chars.dfy | ASCII character classes, `is_ident`, trimming, upper-casing |
| `Errors` | errors.dfy | the error kinds and the exact message each one prints |
| `Substitution` | substitution.dfy | the `$$`/`##` scanners, and `Expand`, the function they are proved against |
| `Directives` | directives.dfy | classifying a `#` line by keyword prefix, and `parse_include_path` |
| `Conditions` | conditions.dfy | the `CondFrame` stack and the `current_active` flag, with their invariant |
| `Lexer`, `LexerProps` | lexer.dfy, lexer_props.dfy | `tokenize` as a loop method, its specification `Lex`, and its properties |
| `Evaluator`, `EvaluatorProps` | evaluator.dfy, evaluator_props.dfy | the `Parser` class, its specification functions, and its meaning with respect to an expression tree |
| `Interpreter`, `InterpreterProps` | interpreter.dfy, interpreter_props.dfy | `process_file` as a loop method, its specification `Process`/`Lines`, and whole-file properties |
| `CommandLine` | command_line.dfy | the `-DKEY[=VALUE]` fold and the exit behaviour of `main` |

The main loops and updates of the source are imperative in the model:

- `Defs.SetDefined` updates the class's maps.
- `Parser` methods advance its `pos` field.
- `ProcessFile`, `Tokenize`, `ReplaceHashVars`/`ReplaceDollarVars` and `ParseArgs` are `while` loops with invariants.

Each of these methods is proved equal to a specification function, and the properties are proved about that function.

Two small loops are modelled as recursive functions instead:

- the character loop of `is_ident` (src/main.rs:281-286) is `Chars.AllIdentChars`;
- the `retain` call that drops quotes from an include path (src/main.rs:195) is `Directives.Unquote`.

The file system is a value. It maps each readable path to its lines, and `parent` and `join` are given functions. A path missing from the map is a file that cannot be read.

Two behaviours of `process_file` to note:

- **Errors in included files.** An error inside an included file does not propagate. `process_file` discards the result of the recursive call, so the included file's partial output stays and the parent goes on.
- **Include cycles.** Nothing guards against an include cycle, and the model adds no cycle detection. Recursion is bounded by a fuel parameter instead.

## Model

| member | source | states |
|---|---|---|
| `Definitions.Defs.constructor` | src/main.rs:13-18 | a new store is empty: no key is defined and every value is `""` |
| `Definitions.Defs.SetDefined` | src/main.rs:20-31 | `Some(v)` stores `v` and marks the key defined; `None` removes the value and marks the key undefined; afterwards `is_defined` and `get_value` report exactly that for the key, and no other key changes |
| `Definitions.Defs.IsDefined` | src/main.rs:33-35 | `is_defined` is true exactly when the key is present in the `defined` map and marked `true` there |
| `Definitions.Defs.GetValue` | src/main.rs:37-43 | an undefined key reads as `""` |
| `Definitions.StoredIffDefined` | src/main.rs:33-43 | in a consistent store, a key is defined exactly when a value is stored for it, and `get_value` then returns that value |
| `Chars.IsIdent` | src/main.rs:275-287 | `is_ident` accepts exactly a non-empty string starting with a letter or `_` whose every later character is a letter, digit or `_` |
| `Chars.AllIdentCharsIff` | src/main.rs:281-286 | the `for c in chars` loop of `is_ident` accepts exactly when every remaining character is alphanumeric or `_` |
| `Chars.ToAsciiUpper` | src/main.rs:293 | each lower-case letter becomes its own capital (32 code points lower); every other character is unchanged |
| `Chars.Upper` | src/main.rs:293 | `to_ascii_uppercase` keeps the length and upper-cases each character in place |
| `Chars.TrimStart` | src/main.rs:108 | the result is a suffix; everything dropped is white space; the result does not start with white space |
| `Chars.TrimEnd` | src/main.rs:119 | the result is a prefix; everything dropped is white space; the result does not end with white space |
| `Chars.Trim` | src/main.rs:191 | a non-empty result has no white space at either end |
| `Errors.NatToString` | src/main.rs:316 | the position in the trailing-token message is written as `format!` writes it: decimal digits, no leading zero unless the number is 0, and the digits read back as the number |
| `Errors.Message` | src/main.rs:155-486 | an expression error's message starts with `invalid expression: ` and a structural error's with `invalid directive structure: `, each exactly for its class |
| `Substitution.FindClose` | src/main.rs:229-238 | a found index is at or after `start` and a doubled sigil stands there |
| `Substitution.FindCloseFirst` | src/main.rs:229-238 | the found pair is the first one from `start`; when none is found there is no pair from `start` on |
| `Substitution.FindDoubleHashEnd` | src/main.rs:229-238 | the `while` loop returns exactly the first `##` at or after `start` |
| `Substitution.FindDoubleDollarEnd` | src/main.rs:264-273 | the `while` loop returns exactly the first `$$` at or after `start` |
| `Substitution.Resolve` | src/main.rs:211-250 | an invalid or undefined name resolves to `""`; a valid defined name resolves to its stored value |
| `Substitution.ExpandFrom` | src/main.rs:205-273 | the substituted text of the input from index `i` on: a doubled sigil with a closing pair becomes the resolved name, any other character is copied |
| `Substitution.Expand` | src/main.rs:205-273 | the substituted text of the whole input, the specification both scanners are proved against |
| `Substitution.ReplaceHashVars` | src/main.rs:205-227 | the scan returns `Expand(Hash, defs, input)` |
| `Substitution.HashStep` | src/main.rs:209-222 | one pass of the loop strictly advances `i`, stays within the input, and keeps the invariant `Expand(input) == out + ExpandFrom(input, i)` |
| `Substitution.ReplaceDollarVars` | src/main.rs:240-262 | the scan returns `Expand(Dollar, defs, input)` |
| `Substitution.DollarStep` | src/main.rs:244-257 | one pass of the loop strictly advances `i`, stays within the input, and keeps the loop invariant |
| `Substitution.SpanStep` | src/main.rs:210-217 | a `name` span with its closing pair is replaced by the resolved name, and the scan resumes after the closing pair |
| `Substitution.CopyStep` | src/main.rs:220-221 | a character that starts no closed span is copied |
| `Substitution.NoPairCopied` | src/main.rs:209-225 | with no doubled sigil ahead, the rest of the input is copied verbatim |
| `Substitution.NoPairUnchanged` | src/main.rs:205-262 | input containing no `$$` (respectively `##`) comes back unchanged |
| `Substitution.UnclosedCopied` | src/main.rs:209-225 | an opening pair with no closing pair is copied, and so is everything after it |
| `Substitution.SpanReplaced` | src/main.rs:210-217 | a closed span becomes `Resolve(name)`, which deletes an invalid or undefined name, and scanning continues after it |
| `Substitution.NoMarkNoPair` | src/main.rs:209-210 | text without the sigil holds no doubled sigil, even with one sigil appended |
| `Substitution.CopyOne` | src/main.rs:220-221 | a character that starts no doubled sigil is copied |
| `Substitution.PrefixCopied` | src/main.rs:209-222 | a stretch in which no doubled sigil starts is copied character by character |
| `Substitution.FindCloseAt` | src/main.rs:228-237 | `find_double_*_end` returns the first pair at or after its start |
| `Substitution.HeadCopied` | src/main.rs:209-222 | a head of the input with no doubled sigil in it is copied, up to its last character |
| `Substitution.TailCopied` | src/main.rs:209-225 | a tail of the input with no doubled sigil in it is copied to the end |
| `Substitution.NameSpan` | src/main.rs:210-217 | a pair, a name without the sigil, and a pair form one span that becomes the resolved name |
| `Substitution.SpanExpanded` | src/main.rs:205-227 | `a##n##b`, with no doubled sigil in `a` or `b` and `a` not ending in the sigil, becomes `a`, then what `n` resolves to, then `b` |
| `Directives.Classify` | src/main.rs:107-174 | a line that does not start with `#` is text; an include keeps the text from its keyword on |
| `Directives.Keyword` | src/main.rs:109-173 | `include` is tried first and keeps the whole text for `parse_include_path` |
| `Directives.KeywordInclude` | src/main.rs:108-116 | every text starting with `include` is an include, whatever follows |
| `Directives.KeywordIfdef` | src/main.rs:117-118 | every text starting with `ifdef` is `#ifdef` with the trimmed rest as its name |
| `Directives.ClassifyDirective` | src/main.rs:106-107 | a `#` followed at once by non-blank text hands that text to the keyword dispatch |
| `Directives.IfdefLine` | src/main.rs:106-118 | `#ifdef NAME` is `#ifdef` of `NAME` |
| `Directives.KeywordText` | src/main.rs:107-176 | a `#` line is text exactly when it starts with none of `include`, `if`, `else`, `endif`; `ifdef` and `ifndef` are covered by `if` |
| `Directives.KeywordClosing` | src/main.rs:154-173 | once `include` and `if` are ruled out, `else` is tried before `endif` and anything else is text |
| `Directives.KeywordIf` | src/main.rs:142-143 | a line starting with `if` but with neither `ifdef` nor `ifndef` is `#if` with the trimmed rest as its expression |
| `Directives.KeywordElse` | src/main.rs:154 | any text starting with `else` is `#else` |
| `Directives.KeywordIfndef` | src/main.rs:130-131 | text starting with `ifndef` is `#ifndef` with the trimmed rest as its name |
| `Directives.IffyIsIf` | src/main.rs:142-143 | `#iffy` is `#if fy`, because keywords are matched as prefixes |
| `Directives.ElsewhereIsElse` | src/main.rs:154 | `#elsewhere` is `#else` |
| `Directives.IfndefIsNotIfdef` | src/main.rs:118-131 | `#ifndef X` is `#ifndef` with name `X` |
| `Directives.UnknownDirectiveIsText` | src/main.rs:107-176 | a `#` word that is no keyword leaves the line as content |
| `Directives.Unquote` | src/main.rs:195-196 | `retain` removes every `"` and keeps every other character with its multiplicity; quote-free text is unchanged |
| `Directives.UnquoteQuoted` | src/main.rs:195-196 | unquoting `"p"` gives `p` back |
| `Directives.UnquoteAppend` | src/main.rs:196 | removing quotes distributes over concatenation |
| `Directives.IncludePath` | src/main.rs:190-203 | a path found is non-empty; an argument that trims to nothing gives no path |
| `Directives.ParseIncludePath` | src/main.rs:190-203 | the method, which runs the `replace_hash_vars` scanner, returns `IncludePath` |
| `Directives.ArgumentAfterKeyword` | src/main.rs:191 | after `include` and a space, an argument with no white space at either end is taken whole |
| `Directives.QuotedPathVerbatim` | src/main.rs:190-203 | `#include "p"` with no quote or `##` inside `p` names exactly `p` |
| `Directives.QuotedPathExpanded` | src/main.rs:190-203 | `#include "p"` with no quote inside `p` names `p` with its `##name##` spans substituted, and nothing when that is empty |
| `Directives.IncludeSpan` | src/main.rs:190-226 | in `#include "a##n##b"`, a defined identifier `n` is replaced by its value and any other `n` is deleted with its span; an empty result names no file |
| `Directives.IncludeSuffixExample` | tests/textpp.rs:51-67 | `#include "inc/part_##SUF##.txt"` with `SUF` set to `x` names `inc/part_x.txt` |
| `Conditions.Push` | src/main.rs:118-151 | an opening directive pushes one frame |
| `Conditions.Toggle` | src/main.rs:154-165 | `#else` fails exactly on an empty stack, with the `#else` structure error; otherwise the stack keeps its height; the first `#else` of a frame negates its branch, marks it seen and sets the flag to `parent_active` and the negated branch; a later `#else` changes nothing |
| `Conditions.Pop` | src/main.rs:166-172 | `#endif` fails exactly on an empty stack, with the `#endif` structure error; otherwise the stack shrinks by one and the flag becomes the popped frame's `parent_active` |
| `Conditions.InitialConsistent` | src/main.rs:103-104 | the empty stack with the flag on satisfies the stack/flag invariant |
| `Conditions.PushConsistent` | src/main.rs:121-127 | a push keeps the invariant, and the new frame records the flag as it was just before the push |
| `Conditions.ToggleConsistent` | src/main.rs:159-163 | `#else` keeps the invariant |
| `Conditions.PopConsistent` | src/main.rs:167-171 | `#endif` keeps the invariant |
| `Conditions.PopPush` | src/main.rs:122-171 | `#endif` right after an opening directive restores the state before it |
| `Conditions.TogglePush` | src/main.rs:146-163 | `#else` right after an opening directive takes the other branch under the same outer flag |
| `Conditions.ToggleOnce` | src/main.rs:159-164 | a second `#else` in a frame leaves stack and flag unchanged and is not an error |
| `Conditions.PopToggle` | src/main.rs:159-171 | `#endif` after `#else` still restores the flag from before the frame was opened |
| `Conditions.RecordedIffBelowTaken` | src/main.rs:121-127 | in a chained stack, a frame recorded the flag on exactly when every frame below it takes its branch |
| `Conditions.ActiveIffAllTaken` | src/main.rs:103-173 | under the invariant, lines are active exactly when every open frame takes its branch |
| `Lexer.DigitEnd` | src/main.rs:400-403 | the digit loop stops within the input, at a character that is not a digit |
| `Lexer.IdentEnd` | src/main.rs:410-413 | the identifier loop stops within the input, at a character that cannot continue an identifier |
| `Lexer.StrScan` | src/main.rs:376-392 | a string that closes does so at a `"` within the input |
| `Lexer.ScanToken` | src/main.rs:326-417 | a pass that succeeds advances the index, stays within the input, and yields at most one token |
| `Lexer.LexAcc` | src/main.rs:325-419 | the tokens of the input from index `i` on, one `ScanToken` pass at a time, after the tokens already read; the first error stops it, and a success keeps the earlier tokens in front |
| `Lexer.Lex` | src/main.rs:321-420 | the tokens of the whole expression, or the first lexing error |
| `Lexer.Tokenize` | src/main.rs:321-420 | the loop method returns `Lex(expr)` |
| `Lexer.ScanOne` | src/main.rs:326-417 | one pass of the loop body is `ScanToken` |
| `Lexer.ScanString` | src/main.rs:373-395 | the string loop returns the unescaped body and the closing quote exactly when `StrScan` finds one |
| `Lexer.ScanDigits` | src/main.rs:396-405 | the digit run is the maximal run starting at the first digit |
| `Lexer.ScanIdent` | src/main.rs:406-415 | the identifier is the maximal run starting at the first letter or `_` |
| `LexerProps.EscapeScan` | src/main.rs:381-388 | inside a string, `\x` yields `x` with the backslash dropped, whatever follows |
| `LexerProps.EscStep` | src/main.rs:381-388 | one character of a string body as written, escaped when it is `"` or a backslash, is read back and appended |
| `LexerProps.IdentEndAt` | src/main.rs:410-413 | an identifier run ended by a non-identifier character ends there |
| `LexerProps.DigitEndAt` | src/main.rs:400-403 | a digit run ended by a non-digit ends there |
| `LexerProps.IdentEndRun` | src/main.rs:410-413 | every character up to `IdentEnd` continues an identifier, so the run is maximal |
| `LexerProps.DigitEndRun` | src/main.rs:400-403 | every character up to `DigitEnd` is a digit, so the run is maximal |
| `LexerProps.IdentScans` | src/main.rs:406-415 | an identifier followed by a space is read as that identifier |
| `LexerProps.NumScans` | src/main.rs:396-405 | a digit run followed by a space is read as that number |
| `LexerProps.StrScans` | src/main.rs:373-395 | an escaped string literal is read back as its body |
| `LexerProps.OperatorScans` | src/main.rs:332-372 | each operator and parenthesis is read as its token |
| `LexerProps.TokenScans` | src/main.rs:331-415 | every well-formed token written out and followed by a space is read back |
| `LexerProps.LexStep` | src/main.rs:325-418 | the tokens of the input are those of one pass followed by the rest |
| `LexerProps.RenderedPrefix` | src/main.rs:321-420 | a written-out token list at the front of an input is read back as that list |
| `LexerProps.RoundTrip` | src/main.rs:321-420 | tokenizing the written-out form of any well-formed token list gives the list back |
| `LexerProps.LoneOperator` | src/main.rs:332-355 | a lone ampersand, bar or `=` is the matching "single" error |
| `LexerProps.BangEquals` | src/main.rs:356-359 | `!` followed by `=` is one `Ne` token |
| `LexerProps.BangAlone` | src/main.rs:360-363 | `!` not followed by `=` is a `Not` token |
| `LexerProps.UnknownChar` | src/main.rs:416 | a character that starts no token is an error naming it |
| `LexerProps.EscapedUnclosed` | src/main.rs:376-391 | a body running to the end of input, or to a final lone backslash, never closes |
| `LexerProps.UnclosedAfter` | src/main.rs:390-391 | such a string after any tokens is the unterminated-string error |
| `LexerProps.Unterminated` | src/main.rs:373-392 | a `"` with no closing quote, including one ending in a trailing backslash, is the unterminated-string error |
| `LexerProps.ScanWellFormed` | src/main.rs:396-415 | one pass yields only well-formed tokens: identifiers are identifiers and numbers are non-empty digit runs |
| `LexerProps.LexWellFormed` | src/main.rs:321-420 | `tokenize` yields only well-formed tokens and keeps earlier tokens in front |
| `Evaluator.ValueOf` | src/main.rs:477-480 | an undefined identifier's value is `""` |
| `Evaluator.ValueAt` | src/main.rs:475-487 | `parse_value` succeeds exactly on a value token, moving one place; it fails with "unexpected end" exactly at the end of the tokens |
| `Evaluator.CmpAt` | src/main.rs:455-473 | `parse_cmp` succeeds only by consuming at least one token, within the list |
| `Evaluator.CmpRest` | src/main.rs:464-472 | after the first value, the rest of `parse_cmp` never moves backwards and stays within the list |
| `Evaluator.NotAt` | src/main.rs:447-453 | `parse_not` succeeds only by consuming at least one token |
| `Evaluator.AndAt` | src/main.rs:438-445 | `parse_and` succeeds only by consuming at least one token |
| `Evaluator.AndRest` | src/main.rs:440-443 | the `&&` loop never moves backwards and stays within the list |
| `Evaluator.OrAt` | src/main.rs:429-436 | `parse_or` succeeds only by consuming at least one token |
| `Evaluator.OrRest` | src/main.rs:431-434 | the loop over `Or` tokens never moves backwards and stays within the list |
| `Evaluator.Parser.constructor` | src/main.rs:313 | a parser starts at position 0 over the given tokens and store |
| `Evaluator.Parser.MatchToken` | src/main.rs:489-500 | the parser steps over the next token exactly when it is the one asked for |
| `Evaluator.Parser.ParseOr` | src/main.rs:429-436 | the method's result and final position are those of `OrAt`, and the position stays within the tokens |
| `Evaluator.Parser.ParseAnd` | src/main.rs:438-445 | the method's result and final position are those of `AndAt` |
| `Evaluator.Parser.ParseNot` | src/main.rs:447-453 | the method's result and final position are those of `NotAt` |
| `Evaluator.Parser.ParseCmp` | src/main.rs:455-473 | the method's result and final position are those of `CmpAt` |
| `Evaluator.Parser.ParseValue` | src/main.rs:475-487 | the method's result and final position are those of `ValueAt` |
| `Evaluator.Truthy` | src/main.rs:289-295 | a value is true unless it is empty or upper-cases to `0`, `F`, `FALSE` or `NO` |
| `Evaluator.EvalTokens` | src/main.rs:313-318 | `parse_or` from position 0, failing with the trailing-token error at the position it stopped if tokens are left over |
| `Evaluator.Evaluate` | src/main.rs:311-319 | `eval_expr`: a lexing error, or the evaluation of the tokens |
| `Evaluator.EvalExpr` | src/main.rs:311-319 | `eval_expr` returns `Evaluate(expr, defs)`, which tokenizes, parses, and refuses leftover tokens |
| `EvaluatorProps.AndLone` | src/main.rs:438-445 | an operand not followed by `&&` is all that `parse_and` reads |
| `EvaluatorProps.Lone` | src/main.rs:429-445 | an operand followed by neither an `And` nor an `Or` token is all that `parse_or` reads |
| `EvaluatorProps.Parenthesised` | src/main.rs:456-461 | `( e )` has the value of `e` |
| `EvaluatorProps.OrOfOne` | src/main.rs:429-436 | one `parse_and` operand not followed by an `Or` token is the whole disjunction |
| `EvaluatorProps.AndOfTwo` | src/main.rs:438-445 | `a && b` is the conjunction of the operands' values |
| `EvaluatorProps.OrOfTwo` | src/main.rs:429-436 | `a` `Or` `b` is the disjunction of the operands' values |
| `EvaluatorProps.ConjParsed` | src/main.rs:438-461 | a parenthesised `a && b` is the conjunction |
| `EvaluatorProps.DisjParsed` | src/main.rs:429-461 | a parenthesised `a` `Or` `b` is the disjunction |
| `EvaluatorProps.NegParsed` | src/main.rs:448-450 | `!` negates the operand after it |
| `EvaluatorProps.AtomPrinted` | src/main.rs:463-472 | a bare value not followed by a comparison is its truthiness |
| `EvaluatorProps.ComparePrinted` | src/main.rs:463-470 | `a == b` and `a != b` compare the resolved strings exactly |
| `EvaluatorProps.NotPrinted` | src/main.rs:447-473 | the tokens of any expression are read by `parse_not` as the expression's meaning |
| `EvaluatorProps.NegPrinted` | src/main.rs:447-451 | a printed negation means the negated operand |
| `EvaluatorProps.ConjPrinted` | src/main.rs:438-461 | a printed conjunction means the conjunction of its operands |
| `EvaluatorProps.DisjPrinted` | src/main.rs:429-461 | a printed disjunction means the disjunction of its operands |
| `EvaluatorProps.OrPrinted` | src/main.rs:429-473 | `parse_or` reads the tokens of any expression, up to a token that continues nothing, as its meaning |
| `EvaluatorProps.EvalPrinted` | src/main.rs:313-318 | evaluating exactly the tokens of an expression gives its meaning |
| `EvaluatorProps.PrintWellFormed` | src/main.rs:297-309 | the tokens of an expression are ones the tokenizer can produce |
| `EvaluatorProps.EvaluateRendered` | src/main.rs:311-319 | `eval_expr` on the written-out text of any expression, every conjunction and disjunction in brackets, gives its meaning |
| `EvaluatorProps.OrBelowAnd` | src/main.rs:429-445 | unbracketed `a` `Or` `b` `And` `c` means `a` or (`b` and `c`): `And` binds tighter than `Or` |
| `EvaluatorProps.AndAboveOr` | src/main.rs:429-445 | unbracketed `a` `And` `b` `Or` `c` means (`a` and `b`) or `c` |
| `EvaluatorProps.AndChain` | src/main.rs:438-445 | `a` `And` `b` `And` `c` is the conjunction of all three operands |
| `EvaluatorProps.NotAboveAnd` | src/main.rs:438-453 | `!a` `And` `b` means (not `a`) and `b`: `!` binds tighter than `And` |
| `EvaluatorProps.CompareAboveNot` | src/main.rs:447-473 | `!a == b` means not (`a == b`): a comparison binds tighter than `!` |
| `EvaluatorProps.MissingParen` | src/main.rs:456-459 | `(` before a complete expression with no `)` is the missing-`)` error |
| `EvaluatorProps.Unclosed` | src/main.rs:456-459 | `(` whose contents run to the end of the tokens is the missing-`)` error |
| `EvaluatorProps.Trailing` | src/main.rs:315-316 | a token left over after a complete expression is an error naming its position |
| `EvaluatorProps.DanglingOperator` | src/main.rs:475-486 | an `And` or `Or` token with nothing after it is "unexpected end"; followed by a non-value it is "expected value" |
| `EvaluatorProps.EmptyExpression` | src/main.rs:486 | the empty expression is "unexpected end" |
| `EvaluatorProps.UpperMatches` | src/main.rs:293-294 | upper-casing a value gives an upper-case word exactly when, character by character, the two are equal or are the same ASCII letter in either case |
| `EvaluatorProps.TruthyIff` | src/main.rs:289-295 | a value is false exactly when it is empty or, ignoring case (defined character by character, independently of upper-casing), `0`, `F`, `FALSE` or `NO` |
| `EvaluatorProps.FalseSpellings` | src/main.rs:289-295 | `no`, `No`, `nO`, `false`, `False` and `f` are false; `yes`, `1`, `nope` and `off` are true |
| `Interpreter.Meaning` | src/main.rs:107-180 | what a line asks for: content is written substituted; an include splices `parse_include_path`; `#ifdef`/`#ifndef` open on `is_defined`; `#if` opens on the expression's value or error; `#else` flips; `#endif` closes |
| `Interpreter.Acts` | src/main.rs:106 | one action per line, in order |
| `Interpreter.Process` | src/main.rs:97-104 | a file that cannot be read gives success and no text; otherwise its lines are run from the empty stack with the flag on |
| `Interpreter.Lines` | src/main.rs:106-187 | the lines from `i` on, run from state `c`: text written and the first error, which stops processing; at the end, an open frame is the missing-`#endif` error |
| `Interpreter.ActsAt` | src/main.rs:106 | the action at position `k` is that of line `k` |
| `Interpreter.ProcessFile` | src/main.rs:97-188 | the method returns `Process(...).result` and appends exactly `Process(...).text` to the output, so the old output is a prefix |
| `Interpreter.ProcessLine` | src/main.rs:106-181 | one pass of the line loop keeps the stack/flag invariant, and either stops with an error or resumes `Lines` at the next line with the text written so far |
| `Interpreter.DirectiveLine` | src/main.rs:107-174 | a `#` line matching no keyword is left to content handling; otherwise it is handled as `Lines` says, keeping the invariant |
| `Interpreter.OpeningLine` | src/main.rs:118-153 | `#ifdef`/`#ifndef`/`#if` push a frame and keep the invariant, or stop with the expression error whether or not lines are active |
| `Interpreter.PushFrame` | src/main.rs:121-127 | pushing keeps the invariant and continues `Lines` from the pushed state |
| `Interpreter.ClosingLine` | src/main.rs:154-173 | `#else` and `#endif` are handled as `Lines` says, keeping the invariant |
| `Interpreter.ElseLine` | src/main.rs:154-165 | `#else` fails on an empty stack and otherwise continues in the toggled state |
| `Interpreter.EndifLine` | src/main.rs:166-172 | `#endif` fails on an empty stack and otherwise continues in the popped state |
| `Interpreter.IncludeLine` | src/main.rs:109-116 | an include line writes what `Lines` says, the included file's output whatever its result, and leaves the state unchanged |
| `Interpreter.TextLine` | src/main.rs:176-180 | a content line writes its substituted text and a newline exactly when active |
| `Interpreter.HashLine` | src/main.rs:107-108 | a `#` line is classified by its text after `#` and white space |
| `Interpreter.SpliceTaken` | src/main.rs:110-114 | an active include with a path and fuel writes the included file's text, drops its result, and continues |
| `Interpreter.SpliceSkipped` | src/main.rs:109-116 | any other include line writes nothing |
| `Interpreter.WriteStep` | src/main.rs:176-180 | a text line writes its text only when active |
| `Interpreter.OpenStep` | src/main.rs:118-153 | an opening directive continues from the pushed state |
| `Interpreter.FlipStep` | src/main.rs:154-165 | `#else` in a frame continues from the toggled state |
| `Interpreter.CloseStep` | src/main.rs:166-172 | `#endif` in a frame continues from the popped state |
| `InterpreterProps.ActAt` | src/main.rs:107-180 | content is written as `replace_dollar_vars(line) + "\n"`; an include uses `parse_include_path`; `#ifdef`/`#ifndef` test `is_defined`; `#if` evaluates its expression; `#else` flips and `#endif` closes |
| `InterpreterProps.TextActs` | src/main.rs:176-180 | a run of content lines writes each line substituted |
| `InterpreterProps.QuietActs` | src/main.rs:109-116 | content and include lines never touch the conditions |
| `InterpreterProps.TextRun` | src/main.rs:176-180 | a run of content lines in an active state writes them all, in order, and leaves the state as it is |
| `InterpreterProps.EmittedVerbatim` | src/main.rs:240-262 | content lines with no `$$` are written verbatim |
| `InterpreterProps.DirectiveFreeFile` | src/main.rs:97-188 | a file with no directive writes all its lines substituted and succeeds |
| `InterpreterProps.VerbatimFile` | src/main.rs:97-188 | a file with no directive and no `$$` comes out as it went in, a newline after every line |
| `InterpreterProps.MissingFile` | src/main.rs:98-101 | a file that cannot be read is no error and writes nothing |
| `InterpreterProps.SkippedRegion` | src/main.rs:110-176 | in an inactive state, content and include lines write nothing and change nothing |
| `InterpreterProps.IncludeFollowed` | src/main.rs:110-114 | an active include of a usable path writes the included file's output, and the parent's result is unaffected by the included file's error |
| `InterpreterProps.IncludeIgnored` | src/main.rs:109-116 | an inactive include, or one whose argument names no file, writes nothing and changes nothing |
| `InterpreterProps.BadCondition` | src/main.rs:142-144 | a malformed `#if` expression stops processing with its expression error |
| `InterpreterProps.Unopened` | src/main.rs:154-170 | `#else` or `#endif` with no open frame stops with the structure error |
| `InterpreterProps.StrayClose` | src/main.rs:154-170 | a file ending with a stray `#else` or `#endif` fails, after writing the lines before it |
| `InterpreterProps.UnclosedIfdef` | src/main.rs:183-185 | an `#ifdef` never closed fails with "missing #endif" after writing its body when defined |
| `InterpreterProps.IfdefElse` | src/main.rs:118-172 | `#ifdef X … #else … #endif` writes exactly the first branch when `X` is defined and the second otherwise |
| `InterpreterProps.IfdefElseBody` | src/main.rs:118-172 | after `#ifdef` pushes a frame, the first branch, `#else` and the second branch up to `#endif` write the branch the condition picks |
| `InterpreterProps.ElseBranch` | src/main.rs:154-172 | after `#else`, the lines up to `#endif` are written exactly when the flipped branch is taken, and `#endif` restores the initial state |
| `InterpreterProps.BadConditionWhileSkipping` | src/main.rs:142-144 | a malformed `#if` inside a skipped region still fails the file, and nothing is written |
| `CommandLine.FindEq` | src/main.rs:62 | `split_once('=')` splits at the first `=`; when there is none, no `=` occurs |
| `CommandLine.FindFirstEq` | src/main.rs:62 | in `key=tail` with no `=` in `key`, the split is right after `key` |
| `CommandLine.Setting` | src/main.rs:58-70 | an argument sets something exactly when it is `-D` followed by more text; a value passed on is never empty |
| `CommandLine.InputArg` | src/main.rs:71-73 | the input is an argument that is not an option, and there is none exactly when every argument is an option |
| `CommandLine.InputStep` | src/main.rs:71-73 | the first non-option argument is kept, and later ones are ignored |
| `CommandLine.ParseArgs` | src/main.rs:57-74 | the loop picks `InputArg(args)` and leaves every key's entry as `After(args, key, ...)`, the left fold of the options over its old entry |
| `CommandLine.DefineOption` | src/main.rs:58-70 | one option changes every key's entry as `Apply` says, and keeps the store consistent |
| `CommandLine.AfterStep` | src/main.rs:57-74 | options are applied one at a time, in order |
| `CommandLine.LastSettingWins` | src/main.rs:57-70 | the last option setting a key decides its entry |
| `CommandLine.UnsetKeyUnchanged` | src/main.rs:57-74 | a key that no option sets keeps its entry |
| `CommandLine.EmptyValueUndefines` | src/main.rs:63-64 | `-DKEY=` leaves `KEY` undefined with value `""`, even after an earlier `-DKEY=VALUE` |
| `CommandLine.BareKeyIsTrue` | src/main.rs:68-69 | `-DKEY` defines `KEY` as `TRUE` |
| `CommandLine.ValueKeepsLaterEq` | src/main.rs:62-66 | in `-DKEY=VALUE`, `VALUE` may contain `=` and is kept whole |
| `CommandLine.Run` | src/main.rs:53-95 | with no input file, status 2 and the usage line on standard error; otherwise status 0 with the whole output on success, or status 1 with only the error message on failure |

## Left out

- Reading files and printing. `fs::read_to_string`, `print!` and `eprintln!` are abstracted. A file is the sequence of its lines, held in a map, and a missing path stands for any read failure. What `main` prints is returned in an `Exit` value, and the process does not actually exit.
- Line splitting. The CRLF handling of `content.lines()` is not modelled, because files are given already split into lines.
- `Path::parent`, `Path::join` and `PathBuf`. They are given functions of the `FileSystem` value, with no properties assumed.
- Non-ASCII input. The scanners push `bytes[i] as char`, which splits multi-byte UTF-8 characters, and `trim`/`is_whitespace` recognise Unicode white space. The model works on characters, with the ASCII white-space set only.
- `Interpreter.ProcessFile`: include recursion is bounded by `fuel`, and an active include met with no fuel left is skipped. The source recurses without bound, so a self-including file exhausts its stack, and the model does not capture that.
- `Errors.Message`: errors are values of an `Error` datatype, not `String`s. `Message` gives the printed text, and its contract states only which class's prefix each message carries.
- `Definitions.Defs.GetValue`: the `"TRUE"` fallback for a key marked defined with no stored value is modelled in the body. Its contract only states the undefined case, and `StoredIffDefined` shows that in a consistent store the fallback is never reached.
- `Directives.Classify`: the contract states only the text and include cases. The dispatch order is stated by `KeywordInclude`, `KeywordIfdef`, `KeywordIfndef`, `KeywordIf`, `KeywordElse`, `KeywordClosing` and `KeywordText`.
