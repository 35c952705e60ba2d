# Proofs about DuckDB's extensions

A Dafny model of the stateful algorithms in DuckDB's core extensions, with proofs that each one computes
what a plain specification says. Where the C++ code updates objects in place, so do the methods here; every
such method is tied to a function or predicate on values, and the lemmas are about those.

| module | what it models |
|---|---|
| `LambdaFunctions` | `list_filter` and `list_transform`: lists are gathered into batches, the lambda runs on each batch, and a cursor scatters the results |
| `MatcherGraph`, `ParseResults`, `Matching`, `MatchTermination`, `Interpreters` | the PEG matcher graph and the two backtracking interpreters over it |
| `ParseRules`, `MatchRules`, `Suggestions` | what the interpreters compute, by one rule for each kind of matcher; what a suggestion round offers |
| `Recognizers`, `PegRecognition` | what parsing expressions recognise, and that compiled rules recognise what their bodies say |
| `PegTranslation`, `PegSyntax`, `PegShapes`, `PegAcceptance`, `PegCompiler`, `CompilerQuirks` | the compiler from PEG rules to matcher graphs: a stack machine that rewrites lists in place and shares matchers |
| `Lexer`, `Tokenizer`, `TokenCoverage`, `Lexemes`, `Literals` | the SQL tokenizer, what it covers, where tokens begin and end, and what literals decode to |
| `UnicodeSpaces` | the clean-up pass that replaces Unicode spaces |
| `Timestamps`, `Calendars`, `TimeBuckets`, `Ranges` | ICU timestamp arithmetic, time buckets, and timestamp ranges, streamed and as lists |
| `Records` | the exporters of the extension tables and their parser |
| `Wrappers`, `Sequences` | optional values, results and list entries; facts about slices |

How the pieces fit:

- **Batches.** `ExecuteLambda` gathers list elements into batches of any size, so a batch may end in the
  middle of a list. The specification, `RowResults`, filters or maps each row on its own and joins the
  results; it does not mention batches, so the result is the same for any two batch sizes. List entries are
  arbitrary (offset, length) pairs into the child vector. The result is also described element by element, on the
  fields of the input alone: which values the lambda is called on, and where its result, or the element, is found.
- **Compiler.** `After` replays the compiler's stack on trees, and `Represents` says that a matcher in the
  shared, mutable graph stands for a tree. The methods of `MatcherFactory` keep the two in step; `PegSyntax`
  shows that, for rules that are not poisoned (see below), the stack computes a recursive left-to-right reading
  of the rule and rejects exactly the rules that have none. For all rules, poisoned ones included, the compiler
  succeeds exactly when the shapes of its stack end closed and all that the rules use can be compiled
  (`PegAcceptance`, `PegCompiler.MatcherFactory.CompileGrammar`). Every rule with a reading is accepted, but not
  every accepted rule has one.
- **Grammar to matching.** `PegRecognition` reads a rule body as a parsing expression, with `?`, `*`, `+`, `/` and
  sequence defined on token indices only. The matcher that the compiler makes of a rule recognises exactly what
  the body says, given what the matchers of the rules that it refers to recognise.
- **Interpreters.** Graphs may be cyclic, so the meanings carry a fuel that bounds the depth of the
  recursion. More fuel never changes an answer, and in a graph without left recursion and without empty
  repetitions there is always enough. `ParseRules` and `MatchRules` have one rule for each kind of matcher, which
  says by token indices how it ends; what can be derived by the rules is exactly what the interpreters compute.
- **Tokenizer.** `Lexer` finds each lexeme by scanning for its end. The machine's loop, whose index also
  moves backwards, is shown to produce the same tokens, and the coverage results are about `Lexer`. `Lexemes` describes each kind of
  token by its characters and shows that there is only one way to cut a text into them.
- **Calendars.** The calendar counts whole milliseconds, in UTC; what adding months means is a parameter.

Things the proofs brought to light, each with the members that show it:

- The table function's `empty_range` is set for a row whose start is past its end and never cleared, so every
  later row yields nothing, in later chunks of input too (`Ranges.StreamRows`, `Ranges.ChunksCompose`). A zero
  step is an error for the table function and an empty list for the list function. Streaming equals listing
  exactly when neither matters (`Ranges.StreamIsList`, examples in `Ranges.StreamsThatAreNoLists`).
- The difference of two timestamps is a millisecond too long when the later one lies within the first
  millisecond of 1970 and the earlier one before 1970 and further into its own millisecond; otherwise it is
  exact (`Calendars.CalendarSub`, `Calendars.DifferenceLeadsBack`, example in `Calendars.DifferenceAcrossZero`).
  The comment in the source says that borrowing a millisecond always works.
- The difference of two timestamps in range may be one that cannot be added back, because its microseconds
  lead out of range before its days lead back (`Calendars.DifferenceCannotBeAdded`).
- A day bucket counted from an origin that is not a whole millisecond may begin after its timestamp;
  `TimeBuckets.DayBucketContains` says exactly when, and `TimeBuckets.BucketAfterItsTimestamp` is an example.
  With the default origin it never does (`TimeBuckets.WholeMillisecondOrigin`).
- A time bucket of width zero is an error, except when the width is a constant and the timestamp infinite
  (`TimeBuckets.ConstantWidth`).
- Rules are looked up without regard to case, but their matchers are cached by spelling, so a rule that is
  referred to in two spellings gets two matchers (`CompilerQuirks.SpellingsAreTwoMatchers`).
- Two uses of `/` make the compiler change matchers in ways the grammar does not say; such rules are called
  poisoned, and the compiler accepts them. A `/` right after a parameter whose argument is a choice extends the
  argument's own matcher, which others may share (`CompilerQuirks.SlashAfterParameter`). A rule set that is
  accepted and does so is `r <- f(a / b)`, `f(p) <- p / c` (`CompilerQuirks.ExtendingIsAccepted`); token by token,
  the argument `a / b` becomes `a / b / c` (`CompilerQuirks.ChoiceOfTwo`, `CompilerQuirks.ArgumentIsExtended`).
  A `)` right after `/` closes the choice instead of the bracket, and puts it into the list below a second time:
  the rule `a / )` is no rule body at all, but is accepted (`CompilerQuirks.UnfinishedIsAccepted`,
  `CompilerQuirks.UnfinishedPasses`), and its list holds the choice twice (`CompilerQuirks.UnfinishedIsCompiled`).
- In a list that holds the same optional matcher twice, the second one counts as mandatory, so that what may follow
  it is not suggested (`Suggestions.OptionalTwiceHidesRest`).
- A literal that is not closed at the end of the input loses its first character in the last token
  (`TokenCoverage.OpenLiteralsLoseTheirStart`).
- Tokens are recorded in the wrong place by a dollar-quoted string, and by an operator right after a `$` that
  stands alone, and by nothing else (`TokenCoverage.NothingIsLost`, examples in `TokenCoverage.DollarMovesOffsets`).
- Some Unicode spaces in plain text are not replaced: those in the last two bytes (`UnicodeSpaces.LastSpaceIsMissed`),
  and those that follow a `$` and otherwise only tag characters, since their bytes count as tag characters too
  (`UnicodeSpaces.MistakenTagHidesSpace`). After an empty dollar-quoted string, whose closing `$$` is taken for the
  opening of another one, the rest counts as quoted (`UnicodeSpaces.EmptyDollarStringHidesSpace`).
- Block comments are no comments to the clean-up pass: spaces in them are replaced, and an apostrophe in one
  makes it take what follows for quoted (`UnicodeSpaces.BlockCommentsAreRegular`).

## Model

| member | source | states |
|---|---|---|
| LambdaFunctions.ExecuteLambda | extension/core_functions/lambda_functions.cpp:271-356 | for every batch size, layout of lists and three-valued predicate: element k of a transformed row is the lambda's value for that element, its position k + 1 and the row's own captured values; a filtered row holds exactly the elements for which that value is true, in order; the rows' pieces make up the child vector in order and without a gap; NULL rows stay NULL, and have an empty entry in a filter |
| LambdaFunctions.RowsAreRight | extension/core_functions/lambda_functions.cpp:297-351 | what the specification gives a row is what its elements say one by one, on the fields of the input |
| LambdaFunctions.AllRowsTile | extension/core_functions/lambda_functions.cpp:104-159 | the entries cut the child vector into consecutive pieces, which leave nothing over |
| LambdaFunctions.AppendFiltered | extension/core_functions/lambda_functions.cpp:104-159 | one batch of predicate results, which may begin and end in the middle of lists, moves the cursor over exactly these calls and keeps exactly the elements whose predicate is true |
| LambdaFunctions.ConsumeElement | extension/core_functions/lambda_functions.cpp:125-144 | one element moves the cursor by one call, and a list's entry is written when its last element has been seen |
| LambdaFunctions.SkipEmptyLists | extension/core_functions/lambda_functions.cpp:118-123 | empty and NULL rows get entries of length 0 at the current offset, and the cursor comes to rest on a row that has elements left |
| LambdaFunctions.StandingStep | extension/core_functions/lambda_functions.cpp:125-144 | the cursor's invariant, an account of all calls seen so far, survives a step |
| LambdaFunctions.ResultsOfCalls | extension/core_functions/lambda_functions.cpp:297-351 | filtering or mapping the calls of all rows at once gives the rows' results one after the other |
| LambdaFunctions.EntriesAreSlices | extension/core_functions/lambda_functions.cpp:104-159 | each row's entry, whose offset is the sum of the lengths before it, cuts exactly that row's result out of the child vector |
| LambdaFunctions.CursorIsAtEnd | extension/core_functions/lambda_functions.cpp:146-152 | once all calls have been seen the cursor is past the last row, and every row has its entry |
| LambdaFunctions.GatherElement | extension/core_functions/lambda_functions.cpp:331-343 | each element enters the batch with its 1-based position in its list and with its own row's captured columns |
| LambdaFunctions.ExecuteExpression | extension/core_functions/lambda_functions.cpp:183-217 | the lambda is called on exactly the gathered elements, indices and captured values, in order |
| LambdaFunctions.BeginRow | extension/core_functions/lambda_functions.cpp:300-316 | a NULL list sets the row invalid; a transform's entry is set at once, a filter's list length is noted |
| ParseResults.ParseAccounts | extension/autocomplete/matcher.cpp:151-169 | a tree that was parsed from token a to token b derives from the matcher, and its leaves from left to right are the offsets of exactly the tokens a to b-1 |
| ParseResults.FuelIsEnough | extension/autocomplete/matcher.cpp:63-75 | more fuel never changes an answer of `MatchParseResult` |
| ParseResults.OnlyNullableStays | extension/autocomplete/matcher.cpp:218-232 | a success never moves the token index back, and only matchers that can succeed on nothing leave it where it was |
| ParseResults.ParseTerminates | extension/autocomplete/matcher.cpp:349-387 | without left recursion and without repeated elements that consume nothing, `MatchParseResult` ends on every input |
| ParseRules.ParseIsDerivation | extension/autocomplete/matcher.cpp:63-387 | `MatchParseResult` ends with a tree, without one, or with an exception exactly when that can be derived: a repeat goes on until its element fails or no token is left, a choice takes its first alternative that does not fail, an optional is empty only if its child fails, a list fails only where one of its parts does |
| ParseRules.EndsByRule | extension/autocomplete/matcher.cpp:63-387 | how a matcher ends follows, in both directions, from how the matchers that it refers to end |
| ParseRules.EndsOnce | extension/autocomplete/matcher.cpp:63-387 | there is one way to end |
| Matching.InterpretersAgree | extension/autocomplete/matcher.cpp:119-149 | on every run in which no list runs out of tokens, `Match` and `MatchParseResult` have the same verdict and the same final token index, for every graph |
| Matching.HintedRunsMayDisagree | extension/autocomplete/matcher.cpp:124-138 | a graph and an input on which a list runs out of tokens, and the two verdicts differ |
| Matching.ReadsStayInRange | extension/autocomplete/matcher.cpp:525-527 | from a list, or with a token left, no terminal that does not check for the end ever reads past it |
| MatchTermination.RunMoves | extension/autocomplete/matcher.cpp:318-346 | a success of `Match` never moves back, and before the end of the input only nullable matchers stay |
| MatchTermination.RunFuelIsEnough | extension/autocomplete/matcher.cpp:206-215 | more fuel never changes an answer of `Match`, its suggestions included |
| MatchTermination.MatchTerminates | extension/autocomplete/matcher.cpp:318-346 | without left recursion and without repeated elements that consume nothing, `Match` ends on every input, whatever it suggests |
| MatchRules.MatchIsDerivation | extension/autocomplete/matcher.cpp:52-346 | `Match` ends as can be derived by its rules, and in no other way: with the caller's token index and suggested matchers, the list that runs out of tokens and the repeat that suggests its element included |
| Suggestions.SuggestVisits | extension/autocomplete/matcher.cpp:23-30 | a matcher met before is mandatory and offers nothing new; an optional is not mandatory; a list is if one of its matchers is, and offers none behind that one; everything else is mandatory |
| Suggestions.OnlySkippableIsNotMandatory | extension/autocomplete/matcher.cpp:171-181 | what is not mandatory can be left out by the graph alone: it is an optional, or a list of what can be left out |
| Suggestions.SuggestedIsOffered | extension/autocomplete/matcher.cpp:171-181 | a round suggests only matchers that may come first: those that stand before them can be left out |
| Suggestions.OptionalTwiceHidesRest | extension/autocomplete/matcher.cpp:23-30 | a list with the same optional twice, where what may follow is not suggested |
| Interpreters.AddSuggestion | extension/autocomplete/matcher.cpp:23-30 | a suggestion round ends on every graph, visits a matcher once, and reports whether it met a mandatory one |
| Interpreters.MatchList | extension/autocomplete/matcher.cpp:119-149 | the list of `Match` on mutable states, with its branch for exhausted tokens, has the stated verdict, token index and suggested matchers |
| Interpreters.MatchRepeat | extension/autocomplete/matcher.cpp:318-346 | the same for the repeat loop |
| Interpreters.MatchChoice | extension/autocomplete/matcher.cpp:257-268 | the same for ordered choice, where each alternative starts from a fresh copy of the state |
| Interpreters.MatchParseResult | extension/autocomplete/matcher.cpp:151-169 | parsing on mutable states has the stated tree or verdict; a failure leaves the caller's token index as it was |
| Interpreters.ListParseResult | extension/autocomplete/matcher.cpp:151-169 | the children's trees are collected in order, and the index moves only when all children parse |
| Interpreters.RepeatParseResult | extension/autocomplete/matcher.cpp:349-387 | the loop collects one tree for each repetition, as many as parse |
| PegSyntax.BodyIsTranslated | extension/autocomplete/matcher.cpp:1207-1328 | the stack machine gives every rule body its recursive left-to-right meaning: postfix operators wrap the last item, `/` extends one flat choice, brackets nest |
| PegSyntax.AcceptsExactlyBodies | extension/autocomplete/matcher.cpp:1207-1328 | the machine on trees, which stops at poison, accepts a token sequence exactly when it is a well-formed body that has a meaning; on rules that are not poisoned the compiler follows it |
| PegSyntax.GoingReads | extension/autocomplete/matcher.cpp:1228-1312 | as long as the machine goes on, what it has read is a sequence of open brackets, one for each frame of its stack |
| PegSyntax.PostfixTrees | extension/autocomplete/matcher.cpp:1235-1271 | `x?` becomes an optional, `x*` an optional repeat, `x+` a repeat of the last item; `!` changes nothing |
| PegSyntax.AlternativeTrees | extension/autocomplete/matcher.cpp:1272-1297 | alternatives become one flat choice |
| PegSyntax.BracketTrees | extension/autocomplete/matcher.cpp:1137-1166 | a bracket becomes a list, even of one item; an argument of one item is that item itself, shared by the parameter |
| Recognizers.OptionalRecognizes | extension/autocomplete/matcher.cpp:218-232 | an optional matcher recognises `x?` |
| Recognizers.RepeatRecognizes | extension/autocomplete/matcher.cpp:349-387 | a repeat matcher recognises `x+` |
| Recognizers.ListRecognizes | extension/autocomplete/matcher.cpp:151-169 | a list matcher recognises the sequence of its parts |
| Recognizers.ChoiceRecognizes | extension/autocomplete/matcher.cpp:270-286 | a choice matcher recognises the first of its alternatives that does not fail |
| Recognizers.PostfixFailures | extension/autocomplete/matcher.cpp:1247-1251 | `x?` and `x*` never fail, and `x+` fails exactly where `x` does |
| Recognizers.StarIsMaybePlus | extension/autocomplete/matcher.cpp:1247-1251 | `x*`, repeating until `x` fails, is `(x+)?` |
| PegRecognition.CompiledRulesRecognize | extension/autocomplete/matcher.cpp:1174-1331 | the matcher of every rule that the compiler adds recognises exactly what the rule's body says as a parsing expression, on all tokens and for all answers of the terminals, given what the matchers of the rules that it refers to recognise |
| PegRecognition.MatcherMeansTree | extension/autocomplete/matcher.cpp:1174-1331 | a matcher that represents a tree recognises what the tree does |
| PegRecognition.BodyMeansTrees | extension/autocomplete/matcher.cpp:1207-1325 | the trees of a body recognise what its items say, calls of parameterised rules included |
| PegTranslation.WholesomeIsNotPoisoned | extension/autocomplete/matcher.cpp:1272-1307 | a check of neighbouring tokens, in a rule and in the rules it calls, that rules out poison |
| PegShapes.ItemAdded | extension/autocomplete/matcher.cpp:1104-1111 | appending a matcher to the open list in place keeps every finished matcher's tree, and adds the new tree to the open frame |
| PegShapes.AlternativeAdded | extension/autocomplete/matcher.cpp:1112-1119 | a matcher after `/` becomes the last alternative of the open choice, and the choice is closed |
| PegShapes.RepresentsLater | extension/autocomplete/matcher.cpp:1154-1164 | a finished matcher stands for the same tree after any later change of the graph |
| PegAcceptance.TreesHaveShapes | extension/autocomplete/matcher.cpp:1207-1325 | wherever the machine on trees goes on, the machine on shapes does, in the shape of the frames |
| PegAcceptance.ReadingEndsClosed | extension/autocomplete/matcher.cpp:1326-1328 | a rule that has a reading closes all that it opens, so that it is not rejected for its stack |
| PegAcceptance.PopsIntoPasses | extension/autocomplete/matcher.cpp:1137-1148 | closing an entry of the stack, whatever it is, has the effect on its shape that the machine on shapes says |
| PegAcceptance.NoItemStops | extension/autocomplete/matcher.cpp:1235-1281 | a postfix operator or `/` without an item on top is an exception, also for the machine on shapes |
| PegAcceptance.UsedAll | extension/autocomplete/matcher.cpp:1160-1164 | once all brackets are closed, every function that the rule names has been called and compiled |
| PegCompiler.MatcherFactory.CreateMatcher | extension/autocomplete/matcher.cpp:1174-1331 | compiling ends on every rule set whose parameterised rules are acyclic; each name has one matcher, cached before its body is compiled; on rules that are not poisoned, and reach none that is, each new matcher represents its rule's tree, and compiling fails only if a rule it uses has none; poisoned or not, a success means that all newly compiled rules are acceptable, and a failure that they are not |
| PegCompiler.MatcherFactory.CompileGrammar | extension/autocomplete/matcher.cpp:1333-1380 | compiling succeeds exactly when there is a set of rules with the root in it whose brackets and choices close and which use only each other; if none of them is poisoned, each name has one matcher, which represents its tree; rules out of the root's reach do not matter |
| PegCompiler.MatcherFactory.constructor | extension/autocomplete/matcher.cpp:1333-1376 | each keyword override and each terminal rule gets the matcher of its first spelling, and nothing else is in the graph |
| PegCompiler.MatcherFactory.ApplyOperator | extension/autocomplete/matcher.cpp:1231-1317 | each operator changes the stack and the graph as it changes the frames of trees |
| PegCompiler.MatcherFactory.CloseBracket | extension/autocomplete/matcher.cpp:1137-1166 | a closing bracket hands its list to the one below, or calls the parameterised rule it belongs to |
| PegCompiler.MatcherFactory.AddMatcher | extension/autocomplete/matcher.cpp:1104-1123 | a matcher becomes the next item, or completes the choice that `/` opened |
| CompilerQuirks.SlashAfterParameter | extension/autocomplete/matcher.cpp:1284-1285 | an alternative after a parameter that stands for a choice goes into the argument's own matcher, which no longer represents the argument |
| CompilerQuirks.ExtendingIsAccepted | extension/autocomplete/matcher.cpp:1272-1297 | a rule set that is accepted, although its root is poisoned: a choice is passed to a function that puts `/` after its parameter |
| CompilerQuirks.ChoiceOfTwo | extension/autocomplete/matcher.cpp:1226-1297 | compiling the tokens of that argument yields a choice of its two keywords |
| CompilerQuirks.ArgumentIsExtended | extension/autocomplete/matcher.cpp:1214-1220 | compiling the tokens of the function adds a third alternative to that very choice |
| CompilerQuirks.UnfinishedIsAccepted | extension/autocomplete/matcher.cpp:1207-1328 | the rule `a / )` closes all that it opens and is accepted, although it is poisoned and is not how any body is written |
| CompilerQuirks.UnfinishedIsCompiled | extension/autocomplete/matcher.cpp:1137-1148 | its tokens leave one entry on the stack, a list that holds the choice of `a` twice |
| CompilerQuirks.UnfinishedPasses | extension/autocomplete/matcher.cpp:1326-1330 | the compiler returns a matcher for this rule |
| CompilerQuirks.SpellingsAreTwoMatchers | extension/autocomplete/matcher.cpp:1174-1194 | a grammar that refers to one rule in two spellings is compiled with two matchers for it |
| Tokenizer.ParserTokenizer.TokenizeInput | extension/autocomplete/tokenizer.cpp:185-475 | the eight-state loop ends on every input although its index moves back, produces exactly the lexer's tokens and statements, and says no to completion exactly in a comment or a dollar-quoted string |
| Tokenizer.ParserTokenizer.StepNumeric | extension/autocomplete/tokenizer.cpp:300-336 | the index goes back to behind the last digit or point of the number, and never to its first character |
| Tokenizer.ParserTokenizer.PushOperator | extension/autocomplete/tokenizer.cpp:337-366 | trailing plus signs are split off one by one, unless the operator holds a character that allows them |
| TokenCoverage.NothingIsLost | extension/autocomplete/tokenizer.cpp:155-161 | for every input: each token is the slice at its offset, tokens are in order, and only white space, comments and statement ends lie between them, exactly when the text closes every string literal and block comment, opens no dollar-quoted string, and has no single-character or special operator right after a `$` that stands alone |
| TokenCoverage.OnlyTheEndIsLost | extension/autocomplete/tokenizer.cpp:459-475 | without `$`, that condition fails exactly when the tokenizer ends inside a string literal or a block comment |
| TokenCoverage.OpenLiteralsLoseTheirStart | extension/autocomplete/tokenizer.cpp:459-475 | an unclosed literal with and without prefix, whose first character is in no token |
| TokenCoverage.CoveringTokensAreOrdered | extension/autocomplete/tokenizer.cpp:155-161 | such tokens are non-empty, disjoint and strictly increasing |
| TokenCoverage.StatementsAreOrdered | extension/autocomplete/autocomplete_extension.cpp:762-765 | each statement's tokens lie between the semicolon before it and its own |
| TokenCoverage.DollarMovesOffsets | extension/autocomplete/tokenizer.cpp:447 | with `$`, recorded offsets may be wrong: two inputs that show it |
| TokenCoverage.ParameterKeepsItsPlace | extension/autocomplete/tokenizer.cpp:209-220 | a parameter such as `$1` is covered, although it has a `$` |
| Lexemes.TokensAreLexemes | extension/autocomplete/tokenizer.cpp:185-475 | for every input, each token is a lexeme of a kind described by its characters and by what stands behind it: a quoted text, a word, a number, an operator of any length, a single sign; or it comes from a dollar-quoted string; the last one may be an open literal; a comment or dollar-quoted string in which the input ends is open |
| Lexemes.TokensAreTheCut | extension/autocomplete/tokenizer.cpp:185-475 | without `$`, and with all literals and block comments closed, the tokens of all statements are lexemes at their own places with only blanks between them |
| Lexemes.CutIsUnique | extension/autocomplete/tokenizer.cpp:185-475 | there is at most one way to cut a text into lexemes |
| Lexemes.LexemeEnds | extension/autocomplete/tokenizer.cpp:300-413 | where a lexeme ends is determined by where it starts |
| Lexemes.PlainLexemes | extension/autocomplete/tokenizer.cpp:129-153 | no token but a literal or a quoted identifier holds white space, a quote or a semicolon |
| Lexemes.TagEndIs | extension/autocomplete/tokenizer.cpp:222-246 | a `$` opens a dollar-quoted string exactly when another one follows behind letters, digits and underscores only |
| Lexemes.LineEndIs | extension/autocomplete/tokenizer.cpp:401-406 | a `--` comment ends at the first newline |
| Lexemes.CommentEndIs | extension/autocomplete/tokenizer.cpp:407-413 | a block comment ends at the first of its closing signs |
| Literals.LiteralRoundTrip | extension/autocomplete/tokenizer.cpp:377-388 | a value quoted anywhere in the text, with any literal prefix and not followed by a quote, is one token at its place, and decodes to the value |
| Literals.LiteralAlone | extension/autocomplete/tokenizer.cpp:377-388 | a text that is just a literal is one token, which decodes to the value |
| Literals.ClosedLiteralDecodes | extension/autocomplete/matcher.cpp:638-690 | every closed literal decodes, to the one value whose quoting stands in the text |
| Literals.UndoubleDouble | extension/autocomplete/matcher.cpp:662-664 | undoubling quotes undoes doubling them |
| Literals.DollarRoundTrip | extension/autocomplete/tokenizer.cpp:414-452 | a value between two markers decodes to itself exactly when the closing marker is the first one from the value's start on |
| UnicodeSpaces.StripUnicodeSpaces | extension/autocomplete/autocomplete_extension.cpp:490-597 | the machine of labelled loops ends, and replaces exactly the spaces that a byte-by-byte scan finds, on every input |
| UnicodeSpaces.SpacesAreFound | extension/autocomplete/autocomplete_extension.cpp:500-594 | for every text, exactly the Unicode spaces are found that are outside quotes, `--` comments and what the scan takes for dollar-quoted strings, that do not follow a `$` and only tag characters which no `$` ends, and that do not begin in the last two bytes |
| UnicodeSpaces.SpacesAreEncoded | extension/autocomplete/autocomplete_extension.cpp:501-536 | the byte patterns stand for the UTF-8 encodings of U+00A0, U+2000 to U+200B, U+202F, U+205F, U+2060, U+3000 and U+FEFF, and of nothing else |
| UnicodeSpaces.SpacesAreOutside | extension/autocomplete/autocomplete_extension.cpp:500-594 | the spaces found are those at which the byte scan is outside everything that it skips, but for the last two bytes |
| UnicodeSpaces.MistakenTagIs | extension/autocomplete/autocomplete_extension.cpp:541-558 | the scan skips a byte as part of a tag that is none exactly when it follows a `$` outside and only tag characters, which no `$` ends |
| UnicodeSpaces.MistakenTagHidesSpace | extension/autocomplete/autocomplete_extension.cpp:553-556 | `$a`, a no-break space, ` +1`: the space is not found |
| UnicodeSpaces.BlockCommentsAreRegular | extension/autocomplete/autocomplete_extension.cpp:537-562 | a space inside a block comment is found, and one after a block comment with an apostrophe is not |
| UnicodeSpaces.EmptyDollarStringHidesSpace | extension/autocomplete/autocomplete_extension.cpp:577-586 | after an empty dollar-quoted string a space in plain text is not found |
| UnicodeSpaces.LastSpaceIsMissed | extension/autocomplete/autocomplete_extension.cpp:500-508 | a text that is just a no-break space, which is not found |
| UnicodeSpaces.SpacesAreDisjoint | extension/autocomplete/autocomplete_extension.cpp:500-540 | the spaces found are strictly increasing and disjoint |
| UnicodeSpaces.ReplacingCleans | extension/autocomplete/autocomplete_extension.cpp:462-475 | replacing the spaces found keeps every other byte in order |
| UnicodeSpaces.ReplaceUnicodeSpaces | extension/autocomplete/autocomplete_extension.cpp:462-475 | the loop over the spaces yields the text with each of them replaced by one space; nothing when there are none |
| UnicodeSpaces.SecondPassFindsNothing | extension/autocomplete/autocomplete_extension.cpp:490-597 | for every text, a second pass finds nothing to replace |
| Calendars.AddOneKindIsExact | extension/icu/icu-dateadd.cpp:68-132 | adding microseconds, or days in UTC, is exact addition, and fails exactly when the sum is out of range |
| Calendars.AddIsExact | extension/icu/icu-dateadd.cpp:68-132 | the same for days and microseconds together, with the two intermediate values that may be out of range |
| Calendars.CalendarAdd | extension/icu/icu-dateadd.cpp:68-132 | for every interval, months included, the carried and split additions on the calendar amount to the stated one, whose order of units `MonthsThenDaysThenTime` and `TimeThenMonthsThenDays` say |
| Calendars.MonthsAlone | extension/icu/icu-dateadd.cpp:68-132 | months alone are added once, to the millisecond at or before the timestamp, and its microseconds are kept; an error exactly when one of the three times is out of range |
| Calendars.MonthsThenDaysThenTime | extension/icu/icu-dateadd.cpp:111-130 | when no part is negative: months, then days, then time; with the conditions of the error |
| Calendars.TimeThenMonthsThenDays | extension/icu/icu-dateadd.cpp:103-119 | when a part is negative: time, then months, then days; with the conditions of the error |
| Calendars.CalendarSubInterval | extension/icu/icu-dateadd.cpp:141-144 | taking an interval away is adding the one with all its parts negated |
| Calendars.Calendar.AddHours | extension/icu/icu-dateadd.cpp:47-65 | adding hours in steps of 32 bits adds exactly these hours |
| Calendars.Calendar.SetTime | extension/icu/icu-datefunc.cpp:134-149 | the calendar is set to the millisecond at or before the timestamp, also before 1970, and the rest is returned |
| Calendars.Calendar.GetTime | extension/icu/icu-datefunc.cpp:102-132 | the timestamp is read back, or an error is raised exactly when it is out of range |
| Calendars.SubUndoesAdd | extension/icu/icu-dateadd.cpp:141-144 | adding an interval of one kind whose sum is in range, and taking it away again, leads back |
| Calendars.CalendarSub | extension/icu/icu-dateadd.cpp:146-184 | the difference of two timestamps, split into whole days and a rest of less than a day, is exact but for one millisecond in the case where it is borrowed across zero; an infinite timestamp is an error |
| Calendars.DifferenceLeadsBack | extension/icu/icu-dateadd.cpp:146-184 | for every two timestamps, adding their difference leads from one to the other exactly when no millisecond was borrowed across zero and the addition stays in range |
| Calendars.DifferenceCannotBeAdded | extension/icu/icu-dateadd.cpp:68-132 | from the first timestamp to one in range, a difference of a day less a microsecond, which cannot be added back |
| Calendars.DifferenceAcrossZero | extension/icu/icu-dateadd.cpp:158-166 | from one microsecond before 1970 to five after it, the difference comes to 1006 microseconds |
| Calendars.BorrowIsExact | extension/icu/icu-dateadd.cpp:158-166 | borrowing a millisecond, with unsigned comparison and wrap-around, keeps the difference but for that case |
| Calendars.RangeOfTimestamps | extension/icu/icu-datefunc.cpp:128-131 | the values that pass the range check are those from the first representable midnight up to infinity |
| TimeBuckets.TimeBucketContains | extension/icu/icu-timebucket.cpp:159-177 | the bucket of a finite timestamp is the one that contains it, a whole number of widths from the default origin, whenever that bucket can be represented; an error otherwise, and for every width that is not days alone or microseconds alone |
| TimeBuckets.TimeBucketsAreMonotone | extension/icu/icu-timebucket.cpp:63-99 | later timestamps have no earlier buckets, and have one if an earlier timestamp has |
| TimeBuckets.TimeBucketIsIdempotent | extension/icu/icu-timebucket.cpp:63-99 | the start of a bucket, of microseconds or of days, is in that bucket |
| TimeBuckets.WeeksBeginOnMonday | extension/icu/icu-timebucket.cpp:19-24 | buckets of any number of weeks begin on a Monday at midnight |
| TimeBuckets.WeekOf1970 | extension/icu/icu-timebucket.cpp:79-99 | the week that holds the first day of 1970 began on 29 December 1969 |
| TimeBuckets.DayBucketSucceeds | extension/icu/icu-timebucket.cpp:79-99 | from a whole-millisecond origin after 1970, a day bucket is found exactly when it is in range |
| TimeBuckets.MicrosBucketIsIdempotent | extension/icu/icu-timebucket.cpp:63-77 | the start of a microsecond bucket, counted from any origin, is in that bucket, when it is in range |
| TimeBuckets.WidthConvertibleToMicros | extension/icu/icu-timebucket.cpp:63-77 | division toward zero and the correction below the origin round down |
| TimeBuckets.WidthConvertibleToDays | extension/icu/icu-timebucket.cpp:79-99 | the day bucket, its guess, its correction and its errors |
| TimeBuckets.DayBucketContains | extension/icu/icu-timebucket.cpp:79-99 | for any origin, the day bucket contains its timestamp exactly when the next bucket does not begin within the same millisecond before 1970; otherwise it is that next bucket; an error exactly when the guess or this bucket is out of range |
| TimeBuckets.WholeMillisecondOrigin | extension/icu/icu-timebucket.cpp:169-177 | with a whole-millisecond origin, as the default is, that case cannot occur |
| TimeBuckets.BucketAfterItsTimestamp | extension/icu/icu-timebucket.cpp:79-99 | an origin and a timestamp whose day bucket begins after the timestamp |
| TimeBuckets.ConstantWidth | extension/icu/icu-timebucket.cpp:366-409 | a constant width gives the results that the row-by-row operator gives, but for the empty width |
| TimeBuckets.BinaryOperator | extension/icu/icu-timebucket.cpp:189-205 | the row-by-row operator, with the errors for widths that mix units or are not positive |
| Ranges.RangeIsComplete | extension/icu/icu-table-range.cpp:184-230 | a range starts at its start, each value is the one before plus the step, all move strictly one way, none is past the end, and after the last one the end is passed |
| Ranges.ICURangeLocalState.TableRange | extension/icu/icu-table-range.cpp:184-230 | one call writes the next values of the stream, raises only where the stream ends in that error, and asks for more input only when the stream has ended |
| Ranges.ICURangeLocalState.GenerateParameters | extension/icu/icu-table-range.cpp:112-153 | the parameters or the error of a row; the flag for empty ranges is only ever set |
| Ranges.StreamRows | extension/icu/icu-table-range.cpp:184-230 | for every chunk capacity, the chunks one after the other are the stream, and the flag for empty ranges is left set exactly if it was or a row is backwards |
| Ranges.ChunksCompose | extension/icu/icu-table-range.cpp:184-230 | two chunks of input yield what one chunk of all their rows yields, with the flag handed on |
| Ranges.ListRange | extension/icu/icu-list-range.cpp:126-181 | counting and filling give each valid row its list, one after the other, with its slice as entry; NULL rows get an empty one; or the first row's error |
| Ranges.ListLength | extension/icu/icu-list-range.cpp:79-121 | counting a range ends, and gives its length, or the first of its errors, the size limit included |
| Ranges.FillPass | extension/icu/icu-list-range.cpp:160-175 | the second pass writes exactly the lists that the first pass counted |
| Ranges.StreamIsList | extension/icu/icu-table-range.cpp:145-150 | for rows whose lists can be made, what is streamed equals what is listed exactly when no row with values comes after a row whose start is past its end, and no valid row has a zero step |
| Ranges.SeriesIncludesEnd | extension/icu/icu-list-range.cpp:79-121 | `range` never yields its end; `generate_series` yields the same values, and then the end exactly when the next step, or the start, is the end |
| Ranges.FirstErrorAgrees | extension/icu/icu-table-range.cpp:128-146 | where listing raises first, streaming raises the same, exactly unless the row counts as empty and it was an addition that raised; before a zero step, at which it raises; and except for the size limit, which only lists have |
| Ranges.StreamsThatAreNoLists | extension/icu/icu-table-range.cpp:206-212 | rows whose stream is not their list: after a backwards row, and with a zero step |
| Ranges.CalendarAdditionIsMonotone | extension/icu/icu-dateadd.cpp:68-132 | the calendar's addition moves in the direction of a same-sign step, as the ranges require |
| Records.RoundTrip | scripts/generate_extensions_function.py:101-138 | parsing an exported table gives back the same fields in the same order exactly when the table has lines and every field is trimmed and not empty |
| Records.ParseOfTable | scripts/generate_extensions_function.py:663-692 | what is read back of any printable table: its trimmed fields without the blank ones; of a table without lines, one empty record |
| Records.ParseRecords | scripts/generate_extensions_function.py:101-138 | the loop over the characters computes the parser's run |
| Records.Export | scripts/generate_extensions_function.py:663-676 | the exporters print one line for each entry between the table's braces |

## Left out

- PegCompiler.MatcherFactory.CreateMatcher: says nothing about the trees of poisoned rules, because there the
  code changes matchers that it should leave alone, as `CompilerQuirks` shows step by step; that compiling ends,
  which rules are accepted, and the one matcher per name, hold for them too.
- PegCompiler.MatcherFactory.CompileGrammar: the same; and all parameterised rules of the grammar must be acyclic,
  also those that the root does not reach.
- PegSyntax.AcceptsExactlyBodies: leaves out poisoned rules, of which some that are no bodies are accepted
  (`CompilerQuirks.UnfinishedIsAccepted`).
- PegSyntax.BodyIsTranslated: the bodies of parameterised rules are covered for one parameter, the most that the code allows.
- PegRecognition.CompiledRulesRecognize: is about `MatchParseResult`, and about rules that are not poisoned; `Match`
  has the same verdicts where `Matching.InterpretersAgree` says so.
- Matching.InterpretersAgree: `Match` is compared where no list runs out of tokens; in that branch it gathers
  suggestions and differs on purpose.
- Calendars.CalendarAdd: the calendar is UTC with integer milliseconds; time zones, daylight saving, other
  calendars, and the rounding of very large times to doubles are not modelled, and a month is a parameter.
- Calendars.CalendarSubInterval: an interval part that is the smallest integer of its width, whose negation overflows, is excluded.
- TimeBuckets.ConstantWidth: month buckets are a parameter; buckets with an offset or a time zone are not modelled.
- Ranges.StreamRows: the loop that calls the table function belongs to the engine and stands for any such caller.
- Timestamps: the one 64-bit value below minus infinity is no timestamp here.
- The terminals' answers: which texts a keyword, identifier, number or operator matcher accepts, and the
  keyword tables, are a parameter of the matcher graph; string literals are modelled in `Literals`.
- Texts and ranking of suggestions, candidate scores, matcher names and the furthest token index are not modelled.
- The parser of PEG rule text and the transformer from parse trees to statements are not modelled.
- Vector encodings, constant and dictionary vectors, binding, serialisation and registration of functions are not modelled.
- The sorting of entries before export, and everything the script does with files and processes, is not modelled.
- `ICUCalendarAge`, date parts, truncation and string conversion of timestamps are not modelled.
