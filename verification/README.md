# Verification of mysql2pg

mysql2pg translates MySQL SQL text into PostgreSQL SQL text and serves it over the MySQL protocol. This project models
its hand-written parts in Dafny and proves what they keep:

- the character scanners of the translator (`Fragments`, `Literals`, `Csv`, `Calls`, `Booleans`, `Masking`) as loops,
  each against a specification, and all of them against one specification lexer (`Lexer`, `Dialects`, `OneLexer`);
- what these passes mean: the values PostgreSQL reads back from normalised literals (`LiteralMeaning`,
  `LiteralStability`, `PrePass`), the token-tree transform that the call rewriter refines (`Forests`,
  `ForestReading`), the escape sequences (`EscapeTable`), the value of the SUBSTRING_INDEX rendering
  (`SubstringIndex`, `SubstringIndexText`) and of nested expressions before and after the function rewrites
  (`Expressions`, `ExpressionForests`, `ExpressionRewriting`, `FunctionValues`, `FunctionMeaning`), the mask of
  PostgreSQL text (`MaskingPostgres`), and when scanners that know MySQL's backslash read PostgreSQL text rightly
  (`PostgresQuoting`);
- the placeholder protocol of prepared statements (`Placeholders`, `Markers`) and its conservation through the
  hand-written passes (`SqlFunctions`, `NeutralMarks`, `Renderings`, `Conservation`, `ParameterCount`,
  `PlaceholderOrder`, `Passes`, `Printing`);
- the connections and what they share (`SessionText`, `Session`), the protocol library in front of them (`Wire`),
  their runs in any interleaving (`SessionRuns`), what ends them and what chooses their database (`SessionEffects`),
  what they answer and store (`SessionAnswers`), also for statements as clients write them (`KillText`, `Settings`,
  `DatabaseText`), and prepared statements against queries (`PreparedQueries`);
- binary temporal parameters as text (`Decimal`, `Temporal`, `TemporalPayloads`);
- CREATE TABLE: the translation (`CreateTable`), PostgreSQL's reading of the emitted text (`PostgresDdl`,
  `TableReading`) and the rows that the table then accepts (`RowAcceptance`).

Text is a sequence of characters; letters, digits, blanks and the characters of identifiers are written out one by one
(`Text`, `Decimal`). Code that loops or updates fields is a method or a class, specified by functions about which the
properties are proved. Integer widths are explicit where they matter. MySQL literals are read by section 11.1.1 of the
MySQL 8.4 Reference Manual, but for escaped pairs that it does not list, where the code differs; functions and integer
domains are those of sections 14.5, 14.8 and 11.1.2; PostgreSQL text is read by section 4.1 of its documentation, and
its functions by sections 9.4 and 9.18.

`dafny verify dfyconfig.toml` checks the whole project.

What calls out of the modelled code becomes a parameter: renderings of calls, rejection patterns, what PostgreSQL
makes of a bare word, and, for a command, whether the library pattern for system variables matched, the translation,
the result columns, and the outcome of the executor with the length of each row.

Where code and expectation differ, the code is kept, the exact condition is proved, and an input shows the failure:

- Touching literals change their meaning (`LiteralMeaning.MeaningPreserved`, `LiteralMeaning.AbuttingLiteralsMerge`).
- Backslashes in values may not survive a second normalisation (`LiteralStability.NormalizingIsIdempotent`,
  `LiteralStability.EscapedBackslashChanges`) nor the pre-pass (`PrePass.PrePassKeepsReading`,
  `PrePass.BackslashIsLost`).
- Escaped pairs that MySQL does not list keep their backslash, which MySQL ignores
  (`EscapeTable.ReadsAsManualExactly`, `EscapeTable.OtherPairIsKept`).
- Arguments of a rewritten call are not searched again: IF, INSTR or SUBSTRING_INDEX inside a call of the same
  function is left to PostgreSQL, which has none of them (`FunctionMeaning.CallsLeftExactly`,
  `FunctionMeaning.NestedIsAnError`, `FunctionMeaning.NestedIfIsAnError`).
- IF with a number as condition becomes a CASE that PostgreSQL refuses (`FunctionMeaning.IfIsRightExactly`).
- A text that holds a marker itself is not restored (`Markers.MarkerRoundTrip`, `Markers.MarkerTextIsLost`).
- INSTR swaps its arguments, and with them their placeholders (`PlaceholderOrder.InstrOrderOfText`,
  `PlaceholderOrder.InstrKeepsNumbers`, `PlaceholderOrder.InstrSwapsParameters`).
- SUBSTRING_INDEX is right for the counts 1 and -1 only, and wrong for these with an empty delimiter
  (`SubstringIndex.SubstringIndexValue`, `SubstringIndexText.RenderingIsRight`, `SubstringIndex.OtherCountsDiffer`).
- The masker, the call rewriter and the numbering of placeholders read backslashes by MySQL rules in text that already
  is PostgreSQL's: the placeholder in `'\', ?` gets no number, and a call inside a literal is rewritten
  (`Masking.MaskAgreesWithPostgres`, `MaskingPostgres.ShieldedContentsMatter`, `PostgresQuoting.AgreesWithPostgres`,
  `PostgresQuoting.PlaceholderIsMissed`, `PostgresQuoting.LiteralIsRewritten`, `Printing.MisledExactly`,
  `Printing.PrintingHidesPlaceholder`).
- The hour count of a TIME wraps around beyond 32 bits in a release build, as the Dockerfile makes it
  (`Temporal.TimeRoundTrip`, `Temporal.HoursWrapAround`).
- A CHECK repeats the column name as it was written: an upper-case bare name makes PostgreSQL reject the table
  (`RowAcceptance.CreatedExactly`, `RowAcceptance.RejectedTables`), and an ENUM with a bare name such as `user`, which
  means the current user there, is created and accepts no row unless that user is one of its members
  (`RowAcceptance.NoRowIsLost`, `RowAcceptance.UserLosesRows`).
- The replacement of backticks breaks a column name that holds one (`TableReading.ColumnNameIsReadBack`,
  `RowAcceptance.BacktickInNameIsLost`).
- Backticks inside ENUM members become double quotes, BIGINT UNSIGNED gets no CHECK although README.md:29 of the
  repository promises range CHECKs for unsigned types, and signed TINYINT and MEDIUMINT columns accept values beyond
  their MySQL range (`RowAcceptance.NoRowIsLost`, `RowAcceptance.NoRowIsAdded`, `RowAcceptance.LostAndAddedRows`).
- README.md:218 of the repository says that a failing PostgreSQL statement does not drop the connection; a failing
  CREATE or DROP DATABASE does, and no other failing statement (`SessionEffects.BrokenExactly`,
  `SessionEffects.CreateDatabaseBreaks`).
- A result drops the connection when a row does not fit the columns announced for it: after a prepare that stored
  other columns than the result has, and for several SELECTs in one query (`SessionEffects.BrokenExactly`,
  `SessionEffects.StaleColumnsExactly`, `SessionEffects.StaleColumnsBreak`, `SessionEffects.TwoSelectsBreak`).
- CREATE DATABASE and DROP DATABASE with keywords in mixed case, and prepared ones in any case, are acknowledged
  without an effect (`DatabaseText.CreateSelects`, `DatabaseText.DropForgets`,
  `PreparedQueries.PreparedSchemaIsIdle`).
- README.md:219 of the repository says that `USE name` is acknowledged; COM_INIT_DB is, but USE sent as query text
  goes to PostgreSQL, which has no such statement, and chooses no database (`SessionEffects.UseIsAQuery`,
  `SessionEffects.DatabaseChangesExactly`).

## Model

| member | source | states |
|---|---|---|
| Dialects.DialectsAgree | src/translator.rs:2185-2239 | on text without backslashes and comment openers, the quote rules of any two scanners put every position on the same side of the quotes, although they treat doubled quotes in three ways; scanners that know no backtick need text without one |
| OneLexer.ScannersAgree | src/translator.rs:2425-2452 | on such text any two scanners read the same characters as code |
| OneLexer.NormalizerFollowsLexer | src/translator.rs:1194-1242 | on every text, the plain characters that the literal normaliser reads are those the specification lexer reads in code |
| OneLexer.SplitterFollowsLexer | src/translator.rs:1089-1158 | on every text, the quote state of the splitter is the state of the specification lexer |
| OneLexer.SkippedIsQuoted | src/translator.rs:2425-2452 | on every text, skipping whole quoted fragments passes over exactly the positions that the specification lexer reads in quotes |
| OneLexer.RewriterFollowsLexer | src/translator.rs:2367-2423 | on every text, the fragments of the token tree that the call rewriter works on, at all levels, are position by position what the specification lexer reads in quotes |
| OneLexer.PrePassFollowsLexer | src/translator.rs:142-207 | on every text, the pre-pass works stretch by stretch, and the stretches that are fragments are position by position what the specification lexer reads in quotes |
| Fragments.CopyQuotedFragment | src/translator.rs:2425-2452 | appends exactly the fragment that starts at the index and leaves the index behind it; the index grows, so the caller terminates |
| Fragments.FragmentInLexer | src/translator.rs:2425-2452 | the copied fragment ends where the specification lexer first stands in code with no further quote of the same kind ahead, or at the end of the text |
| Fragments.BodyEnds | src/translator.rs:2425-2452 | reading a fragment ends in code exactly if the fragment is closed |
| Literals.ReadLiteral | src/translator.rs:1203-1236 | value and end of a literal by escape sequences, which `EscapeTable` pins, and doubled quotes, unterminated literals included |
| Literals.NormalizeStringLiterals | src/translator.rs:1194-1242 | the loop writes the tokens of the MySQL reading in PostgreSQL form, for every text |
| Literals.NormalizeDoubleQuoted | src/translator.rs:142-207 | the pre-pass rewrites double-quoted literals and copies single-quoted and backquoted fragments, for every text |
| EscapeTable.SpelledIsReadBack | src/translator.rs:1203-1230 | any value, spelled with the escape sequences that section 11.1.1 of the MySQL manual lists by code point, is read back from either kind of quotes |
| EscapeTable.SpelledTokens | src/translator.rs:1194-1242 | such a literal by itself is read as the one token with that value |
| EscapeTable.ReadsAsManualExactly | src/translator.rs:1205-1217 | every other escaped pair keeps its backslash; so a literal is read as the manual says exactly if it has no pair that the manual does not list |
| EscapeTable.OtherPairIsKept | src/translator.rs:1205-1217 | a literal with a backslash before an x, which the manual reads as x |
| LiteralMeaning.MeaningUpToMerging | src/translator.rs:1194-1246 | for every text, PostgreSQL reads in the output the token sequence that MySQL rules read in the input, with touching literals joined by a quote |
| LiteralMeaning.MeaningPreserved | src/translator.rs:1194-1246 | PostgreSQL reads the same plain text and literal values exactly if no literal of the input touches another |
| LiteralMeaning.AbuttingLiteralsMerge | src/translator.rs:1194-1246 | a text with two touching literals whose meaning changes |
| LiteralMeaning.DoubleQuotesAreInside | src/translator.rs:1194-1246 | for every text, a double quote left in the output has an odd number of single quotes before it, so it lies in a literal and opens no name |
| LiteralStability.EncodingsJoin | src/translator.rs:1244-1246 | adjacent encoded literals are one encoding of their values joined by a quote |
| LiteralStability.NormalizingIsIdempotent | src/translator.rs:1194-1242 | a second run changes nothing exactly if every backslash in a literal value stands before a character that needs no escape |
| LiteralStability.NormalizingIsIdempotentWithoutBackslash | src/translator.rs:1194-1242 | a second run changes nothing on text without backslashes |
| LiteralStability.EscapedBackslashChanges | src/translator.rs:1194-1242 | a literal with an escaped backslash before an n, which a second run changes |
| PrePass.PrePassKeepsReading | src/translator.rs:142-207 | on text without backticks, a MySQL reader sees after the pre-pass what it sees before it, with touching literals joined, exactly if the value of every double-quoted literal survives a second reading |
| PrePass.PrePassIsAbsorbedIfTame | src/translator.rs:142-207 | normalising after the pre-pass then equals normalising alone, backslashes or not |
| PrePass.BackslashIsLost | src/translator.rs:142-207 | a double-quoted literal that holds just a backslash, whose reading changes |
| LiteralStability.TokensAfterPrePass | src/translator.rs:142-207 | on text without backslashes and backticks, the normaliser reads after the pre-pass what it reads before it, with touching literals joined |
| LiteralStability.PrePassIsAbsorbed | src/translator.rs:142-207 | on text without backslashes and backticks, normalising after the pre-pass equals normalising alone |
| LiteralStability.PrePassIsIdempotent | src/translator.rs:142-207 | a second pre-pass changes nothing on text without backslashes |
| Csv.SplitSqlCsv | src/translator.rs:1089-1158 | the scan returns the trimmed pieces between top-level commas, or an error for a blank piece, with its own error for the last |
| Csv.PiecesAreUnique | src/translator.rs:1089-1158 | the pieces are the only way to write the text as comma-joined stretches of which none holds a top-level comma and all but the last end outside quotes and parentheses |
| Csv.SplitCoversText | src/translator.rs:1089-1158 | the untrimmed pieces joined by commas are the text, and a successful split trims exactly those |
| Csv.SplitAfterJoin | src/translator.rs:1089-1158 | splitting the parts of a successful split, joined by comma and blank, gives the parts again, whatever the nesting, escapes, stray parentheses or unclosed quote |
| Csv.SplitOfPart | src/translator.rs:1089-1158 | splitting any single part gives just that part |
| Calls.FindMatchingParen | src/translator.rs:2454-2480 | finds the parenthesis that closes the one at the index, not counting those in quoted fragments |
| Calls.RewriteFunctionCalls | src/translator.rs:2367-2423 | the loop terminates and computes the call rewriting of every text; unchanged means that the output is the input |
| Calls.ScanWord | src/translator.rs:2385-2394 | the end of the word and of the blanks behind it |
| Calls.TryCall | src/translator.rs:2396-2412 | the replacement of the call a word makes and the index behind it, if it has a matching parenthesis and its arguments split and render |
| Calls.SpellingDoesNotMatter | src/translator.rs:2380-2399 | a word, blanks and a parenthesis make a call exactly if the word is the name in any case and the name with the parenthesis makes one; the rewritten texts are then the same |
| Forests.RewriterOnForest | src/translator.rs:2367-2480 | on the print of a well-formed token tree: the tree with exactly the outermost renderable calls replaced, no rescan inside a replacement and descent into calls that are not rendered |
| Forests.ParseAllIsFaithful | src/translator.rs:2367-2480 | every text, balanced or not, is the print of a well-formed token tree |
| Forests.RewriterOnText | src/translator.rs:2367-2480 | hence the tree transform describes the rewriter on every text |
| Forests.CloseBehind | src/translator.rs:2454-2480 | inside a group the parenthesis matcher stops behind the print of the group |
| Forests.CallInForest | src/translator.rs:2378-2415 | at a word, the text loop finds a call exactly where the tree shows one, with the same replacement and the same length |
| ForestReading.ParseAllOfPrint | src/translator.rs:2367-2480 | parsing undoes printing: texts and well-formed token trees correspond one to one |
| ForestReading.SplitFollowsForest | src/translator.rs:1089-1158 | the text split of an argument list cuts exactly at the commas at the top level of its tree, without backslashes inside backticks |
| ForestReading.CallArguments | src/translator.rs:2396-2412 | a call is rendered from the trimmed top-level argument trees, and not at all if one is blank |
| SqlFunctions.RewriteMySqlFunctions | src/translator.rs:2263-2314 | the three call passes in their order, with a flag for each that changed something |
| ParameterCount.OrderKept | src/translator.rs:2278-2314 | on comment-free text with closed quotes and no backslash inside backticks, the IF and SUBSTRING_INDEX rewrites keep every placeholder outside quotes, in order |
| ParameterCount.NumberKept | src/translator.rs:2263-2276 | on such text the INSTR rewrite keeps the multiset of placeholders |
| ParameterCount.InstrOrder | src/translator.rs:2263-2272 | the INSTR rendering keeps the order of distinguishable placeholders exactly if one of its arguments has none, because the arguments change places |
| PlaceholderOrder.InstrOrderOfText | src/translator.rs:2263-2276 | the INSTR rewrite of a whole clean text keeps the order of symbols that can be told apart exactly if every outermost INSTR that it renders has an argument without any |
| PlaceholderOrder.InstrNumbers | src/translator.rs:2263-2272 | in a rendered INSTR the placeholders of the second argument get the lower numbers, and those of the first argument the numbers behind them |
| PlaceholderOrder.InstrKeepsNumbers | src/translator.rs:2263-2272 | all placeholders of both arguments keep the numbers they have in the source exactly if one argument has none |
| PlaceholderOrder.InstrSwapsParameters | src/translator.rs:2263-2272 | INSTR with a placeholder in each argument: the first parameter becomes the needle, which is the second argument in the source |
| ParameterCount.PlaceholderCountIsConserved | src/translator.rs:2263-2314 | on such text the three rewrites together keep the placeholder count |
| Passes.PrePassKeeps | src/translator.rs:142-207 | on such text the pre-pass keeps the placeholders in order and leaves no double quote outside single-quoted literals |
| Passes.BackticksKeep | src/translator.rs:138-140 | replacing backticks then keeps the placeholders in order and turns names in backticks into names in double quotes |
| Passes.CaseKeeps | src/translator.rs:2185-2239 | texts that differ in case only hold the same placeholders in order |
| Printing.PrePassStaysPrintable | src/translator.rs:142-207 | if no single-quoted value of a clean text has an unpaired backslash before a quote or at its end, this holds after the pre-pass too, touching literals included |
| Printing.PrintingKeeps | src/translator.rs:64-104 | writing such literals from their values then keeps the placeholders in order, for scanners that read backslashes by MySQL rules |
| Printing.MisledExactly | src/translator.rs:64-104 | the passes behind the printer read some position on another side of the quotes than PostgreSQL exactly if a literal of the parsed text has a value with an unpaired backslash before a quote or at its end |
| Printing.PassesKeepCount | src/translator.rs:20-104 | the pre-pass, parsing and printing of literals, the replacement of backticks, the boolean pass and the function rewrites one after the other keep the placeholder count of a clean text whose double-quoted values survive a second reading, whose names in backticks hold no double quote, and whose single-quoted values have no such backslash |
| Printing.PrintingHidesPlaceholder | src/translator.rs:64-104 | a text with one placeholder behind an escaped backslash, of which none is counted once its literal is printed |
| Conservation.ArgumentsKeepMarks | src/translator.rs:1089-1158 | splitting a clean argument text keeps it clean and keeps its placeholders in order |
| Placeholders.ScanPlaceholders | src/mysql_server.rs:1259-1377 | the loop with five flags and one character of lookahead substitutes and counts as the specification lexer says, on every text |
| Placeholders.SubstitutedAt | src/mysql_server.rs:1259-1377 | at every position of every text: the k-th question mark outside quotes and comments becomes the replacement for k, counted from 1, and any other character stays in its place |
| Placeholders.CountAt | src/mysql_server.rs:1236-1243 | a question mark counts exactly if it stands outside quotes and comments |
| Placeholders.SubstitutingItself | src/mysql_server.rs:1236-1243 | the scan that counts is the identity on the text |
| Placeholders.RewritePlaceholders | src/mysql_server.rs:1245-1257 | numbering never takes its error branch |
| Placeholders.FirstNumberAppears | src/mysql_server.rs:1251-1255 | a text with placeholders comes out with the first number in it |
| Placeholders.NumberingIsComplete | src/mysql_server.rs:1245-1257 | the numbered text has no placeholder left, and numbering changes nothing exactly if there was none |
| Markers.ReplaceParams | src/mysql_server.rs:1205-1219 | every question mark, quoted or not, becomes the marker literal with the next number |
| Markers.RestoreMarkers | src/mysql_server.rs:1221-1230 | restores the markers one after the other, as many as the text is counted to hold, quoted form first |
| Markers.MarkersCounted | src/mysql_server.rs:1221-1224 | the marked text is counted to hold one marker for each question mark and what the text held before, so that the range looked for can be told from the text |
| Markers.MarkerRoundTrip | src/mysql_server.rs:1205-1234 | restoring undoes marking exactly if the text does not itself hold one of the markers from 1 to the number of its question marks and marker beginnings; any number of question marks, adjacent, quoted, of several digits |
| Markers.MarkerRoundTripWithoutCore | src/mysql_server.rs:1205-1234 | in particular on every text without the fixed part of the markers |
| Markers.MarkerTextIsLost | src/mysql_server.rs:1221-1230 | a text that does hold a marker and is not restored |
| SubstringIndex.SubstringIndexValue | src/translator.rs:2278-2294 | for every source, delimiter and count but 0, the rewritten expression has the value of SUBSTRING_INDEX exactly if the source is empty, the count is 1 or -1 with a delimiter, or it is another count without one |
| SubstringIndex.OtherCountsDiffer | src/translator.rs:2278-2294 | inputs with the counts 2 and -2, and with an empty delimiter, whose values differ |
| SubstringIndexText.RenderingEvaluates | src/translator.rs:2278-2294 | the text rendered for constant arguments, evaluated by PostgreSQL functions, has the value compared above, and is an error for the count 0 and for counts beyond 32 bits |
| SubstringIndexText.RenderingIsRight | src/translator.rs:2278-2294 | the rendered text has the value of SUBSTRING_INDEX exactly if the count is within 32 bits, and the source is empty, or the count is 1 or -1 with a delimiter, or it is another count without one |
| Expressions.ShowEvaluates | src/translator.rs:2263-2314 | the text of any nested expression of constants, columns, comparisons, CASE, POSITION, CAST, reverse and split_part, read by a PostgreSQL evaluator of texts, has the value of the expression for every row, and is an error exactly where the expression has none |
| FunctionValues.PassOnExpr | src/translator.rs:2263-2314 | a call pass over the text of any nested expression gives the text of the expression with the outermost calls of its function replaced, by POSITION with the arguments changed over, by split_part or by CASE |
| FunctionMeaning.IfOnText | src/translator.rs:2300-2314 | the text of any IF, rewritten and evaluated, has for every row the value of its second argument if the first is true, and of its third if that is false or NULL |
| FunctionMeaning.IfIsRightExactly | src/translator.rs:2300-2314 | it has the value of MySQL exactly if the condition is boolean or NULL and the branches are of one kind; a number as condition is an error |
| FunctionMeaning.InstrOnText | src/translator.rs:2263-2276 | the text of any INSTR, rewritten and evaluated, is one more than the least index at which the second argument occurs in the first, or 0 |
| FunctionMeaning.PassesOnExpr | src/translator.rs:2263-2314 | the three passes over the text of any nested expression give the text of the expression after the three replacements |
| FunctionMeaning.CallsLeftExactly | src/translator.rs:2367-2423 | after the three passes a call of a function is left exactly if one stood inside an argument of another call of the same function |
| FunctionMeaning.NestedIsAnError | src/translator.rs:2367-2423 | then PostgreSQL cannot evaluate the text, whatever the row |
| FunctionMeaning.NestedIfIsAnError | src/translator.rs:2300-2314 | an IF in an IF, for which this happens |
| FunctionMeaning.RewritingKeepsValue | src/translator.rs:2263-2314 | in any nesting of the three functions in one another, with none in itself, the rewritten text has for every row the value of MySQL, if conditions are boolean or NULL, their branches of one kind, no boolean is used as a string, and the counts of SUBSTRING_INDEX are those for which its rendering is right |
| SubstringIndex.FirstField | src/translator.rs:2278-2294 | count 1: everything before the first occurrence of the delimiter, or the whole string |
| SubstringIndex.LastField | src/translator.rs:2278-2294 | count -1: everything after the last occurrence, self-overlapping delimiters included, or the whole string |
| SubstringIndex.FirstReversedIsLast | src/translator.rs:2284-2290 | the first occurrence in the reversed string is the last occurrence in the string |
| Masking.MaskQuotedFragments | src/translator.rs:2538-2573 | the loop computes the mask of every text |
| Masking.MaskedAt | src/translator.rs:2538-2573 | length kept; each position is kept if it is read in code and is no quote, and blanked otherwise |
| Masking.MaskHasNoQuotes | src/translator.rs:2538-2573 | the mask holds no single and no double quote |
| Masking.MaskIsIdempotent | src/translator.rs:2538-2573 | masking a mask changes nothing |
| Masking.RejectUnsupported | src/translator.rs:2511-2536 | the loop over the patterns gives the verdict that the next row describes |
| Masking.RejectedExactly | src/translator.rs:2511-2536 | a statement passes exactly if no pattern matches its mask, and otherwise gets the message of the first pattern that does |
| Masking.ContentsDoNotMatter | src/translator.rs:2516-2573 | texts that differ only in equally long contents of closed literals have the same mask, and so the same rejection verdict, whatever the patterns are |
| Masking.MaskAgreesWithPostgres | src/translator.rs:2538-2573 | the mask sees every position on the side of the quotes on which PostgreSQL sees it exactly if no unpaired backslash stands right before a quote that would close the literal |
| PostgresQuoting.AgreesWithPostgres | src/translator.rs:2425-2452 | the same for every scanner for which a backslash escapes, call rewriter, splitter and placeholder scan, on text without comments and backticks |
| PostgresQuoting.RewriterReadsPostgres | src/translator.rs:2367-2423 | without such a backslash the fragments of the tree that the call rewriter works on are position by position what PostgreSQL reads in quotes |
| PostgresQuoting.NumberedReadsPostgres | src/mysql_server.rs:1245-1257 | without such a backslash the placeholders are numbered where PostgreSQL reads them |
| PostgresQuoting.PlaceholderIsMissed | src/mysql_server.rs:1245-1257 | a literal that holds a backslash, and a placeholder behind it that gets no number |
| PostgresQuoting.LiteralIsRewritten | src/translator.rs:2367-2423 | the same literal, and one that holds the text of a call, which is rewritten |
| MaskingPostgres.MasksAgree | src/translator.rs:2538-2573 | without such a backslash the mask is the mask by PostgreSQL quoting, character by character |
| MaskingPostgres.PostgresContentsDoNotMatter | src/translator.rs:2516-2573 | PostgreSQL texts without such a backslash that differ only in equally long contents of literals have the same rejection verdict, whatever the patterns are |
| MaskingPostgres.ShieldedContentsMatter | src/translator.rs:2538-2573 | two texts that PostgreSQL quotes alike and whose masks differ, one of them with such a backslash |
| Booleans.RewriteBooleanLiterals | src/translator.rs:2185-2239 | the loop computes the casing pass on every text |
| Booleans.OnlyCaseChanges | src/translator.rs:2185-2239 | length and letters are kept, case aside |
| Booleans.WholeWord | src/translator.rs:2185-2239 | between any texts, a whole word outside quotes comes out as TRUE or FALSE if it is that in upper case, and as it is otherwise |
| Booleans.OthersStay | src/translator.rs:2185-2239 | characters inside quotes and characters of no word stay |
| Booleans.CasingIsIdempotent | src/translator.rs:2185-2239 | a second pass changes nothing |
| Temporal.DateOrder | src/mysql_server.rs:1581-1592 | dates with years to 9999 compare, and are equal, as text exactly as their fields |
| Temporal.DatetimeOrder | src/mysql_server.rs:1594-1628 | the same for datetimes across all four payload lengths: a missing clock compares as zero, and missing microseconds come first |
| Temporal.DateIsLayout | src/mysql_server.rs:1581-1592 | the text is the fields in widths 4, 2 and 2 between hyphens, years above 9999 included |
| Temporal.DatetimeIsLayout | src/mysql_server.rs:1594-1628 | the text is the fields of the payload in their widths and separators |
| Temporal.ParseOfText | src/mysql_server.rs:1648-1655 | reading a rendered TIME back gives its sign, minutes, seconds and microseconds, and the days and hours that the wrapped 32-bit hour count has |
| Temporal.TimeRoundTrip | src/mysql_server.rs:1630-1656 | for 8- and 12-byte payloads with hours below 24, reading the text back gives the value exactly if the 32-bit hour count holds: up to 178956969 days, and at 178956970 up to 15 hours |
| Temporal.HoursWrapAround | src/mysql_server.rs:1648-1655 | 178956970 days and 16 hours are rendered as no hours at all |
| TemporalPayloads.DateComesBack | src/mysql_server.rs:1581-1592 | a date with any year of 16 bits, written by a client as a payload, decodes to a text whose numbers are year, month and day |
| TemporalPayloads.DatetimeComesBack | src/mysql_server.rs:1594-1628 | likewise all fields of a datetime of 7 and of 11 bytes, each behind its separator |
| TemporalPayloads.ShortDatetimeComesBack | src/mysql_server.rs:1594-1602 | a datetime of 4 bytes is at midnight, and one of none is all zeros |
| TemporalPayloads.TimeComesBack | src/mysql_server.rs:1630-1656 | a TIME with hours below 24 and microseconds below a million, written as a payload, comes back from the text exactly if its hour count fits 32 bits |
| CreateTable.TranslateDataType | src/translator.rs:2001-2104 | type text, pushed CHECK and warning for the integer types and ENUM |
| CreateTable.OptionsAreWritten | src/translator.rs:1800-1845 | AUTO_INCREMENT, wherever it stands among kept options, is written last and warned of as an identity; a dropped option leaves the others in order and is warned of |
| CreateTable.TranslateColumn | src/translator.rs:1794-1849 | name, type and kept options in order with the identity clause last, the CHECKs of the type, and the warnings in order |
| CreateTable.TranslateColumns | src/translator.rs:1313-1317 | all columns in order, all CHECKs in order and all their warnings |
| CreateTable.TranslateCreateTable | src/translator.rs:1309-1343 | an error exactly if some constraint cannot be rendered; otherwise all columns in order, the constraints that stay in place in order, then all CHECKs in order; the statements for the other constraints; and all warnings, the one for table options last |
| TableReading.NameIsReadBack | src/translator.rs:2152-2173 | a name in a CHECK is read by PostgreSQL as the same name exactly if, quoted, it holds no name quote of either kind, or, bare, it is lower case, begins as an identifier and is an ordinary word, neither a keyword nor a value of the session |
| TableReading.RangeReads | src/translator.rs:2152-2156 | the range CHECK reads back as the range from 0 to its bound on what its name refers to |
| TableReading.EnumReads | src/translator.rs:2158-2173 | the ENUM CHECK reads back as the list of members, quotes included, with every backtick turned into a double quote, for what its name refers to, which may be a value of the session |
| TableReading.QuotedNameIsReadBack | src/translator.rs:138-140 | a quoted name survives display and backtick replacement exactly if it is not empty and holds no name quote of either kind |
| TableReading.ColumnNameIsReadBack | src/translator.rs:138-140 | the name of a column, which is always quoted, survives backtick replacement exactly if it holds no backtick |
| RowAcceptance.ColumnReads | src/translator.rs:1794-1849 | a column definition reads back with its name, type and clauses exactly if the name holds no backtick |
| RowAcceptance.TableIsReadBack | src/translator.rs:1309-1343 | PostgreSQL reads back every column and every CHECK of a table, some of which may test a value of the session, or rejects the statement over a name in a CHECK |
| RowAcceptance.CreatedExactly | src/translator.rs:1309-1343 | the statement succeeds exactly if no column is declared both NULL and NOT NULL, identity columns are integers and say so once, and every checked name is portable or, in an ENUM, a value of the session |
| RowAcceptance.AcceptsByColumn | src/translator.rs:2001-2104 | a created table accepts a row, with NULLs and three-valued CHECKs, exactly if each column lets its own value through |
| RowAcceptance.NoRowIsLost | src/translator.rs:2001-2104 | every row in the MySQL domains stays acceptable exactly if no column is BIGINT UNSIGNED, no ENUM member holds a backtick, and no ENUM has a bare name that means a value of the session which is no member |
| RowAcceptance.NoRowIsAdded | src/translator.rs:2001-2104 | no further row becomes acceptable exactly if no column is signed TINYINT, signed MEDIUMINT or BIGINT UNSIGNED, every ENUM member stays one when its backticks are replaced, and no ENUM name means a value of the session, or if such a value bars all rows; with NoRowIsLost, acceptance is the same for the checked unsigned types, ENUM and the signed types of native width |
| RowAcceptance.LossIsWarned | src/translator.rs:2013-2018 | a table that loses a row was translated with the BIGINT UNSIGNED warning, or has an ENUM member with a backtick, or an ENUM whose bare name means a value of the session that is no member |
| RowAcceptance.RejectedTables | src/translator.rs:1309-1343 | an unsigned column with an upper-case bare name and an ENUM with AUTO_INCREMENT are rejected |
| RowAcceptance.LostAndAddedRows | src/translator.rs:2001-2104 | concrete rows that are lost and added for BIGINT UNSIGNED, for an ENUM member with a backtick and for TINYINT |
| RowAcceptance.UserLosesRows | src/translator.rs:2158-2173 | an ENUM with the bare name user: the table is created without the BIGINT UNSIGNED warning, and loses a row |
| RowAcceptance.BacktickInNameIsLost | src/translator.rs:138-140 | a column name with a backtick that does not come back |
| SessionText.DatabaseNameIsAWord | src/mysql_server.rs:1111-1138 | a parsed database name is one word and never blank |
| KillText.ParseKillExactly | src/mysql_server.rs:902-907 | a text is a KILL of n exactly if it consists of KILL in any case, a blank, blanks, an optional plus sign and digits of value n below 2^32, with blanks around it and semicolons behind |
| KillText.KillNumeral | src/mysql_server.rs:902-907 | KILL and the numeral of n is a KILL of n, for every n below 2^32 |
| KillText.KillAddsItsNumber | src/mysql_server.rs:449-453 | the query KILL n adds exactly n to the connections to be killed, and changes nothing else |
| Settings.SetNamesStores | src/mysql_server.rs:960-1010 | SET NAMES in any case with a character set, quoted or not, stores it under its own name with its default collation if it is utf8, utf8mb3 or utf8mb4, and is rejected otherwise |
| Settings.SetNamesCollates | src/mysql_server.rs:960-1010 | with COLLATE, both are stored if the collation is a name of the default or begins with the character set, and neither otherwise |
| Settings.SetSqlModeStores | src/mysql_server.rs:1055-1074 | SET sql_mode in its four spellings stores the value between the quotes as it is |
| Settings.IsolationStores | src/mysql_server.rs:1046-1053 | the isolation statements store the words of the level in upper case with hyphens between them |
| DatabaseText.CreateSelects | src/mysql_server.rs:480-489 | CREATE DATABASE, with any guard, quotes, options and semicolons, selects just the name, for the session and as the default, or breaks the connection if the schema call fails; but with the keywords in mixed case it is acknowledged without an effect |
| DatabaseText.DropForgets | src/mysql_server.rs:490-498 | DROP DATABASE likewise gives up the name, where it is selected, and only there |
| DatabaseText.InitSelects | src/mysql_server.rs:169-182 | COM_INIT_DB selects its name without the blanks around it, and none if it is blank |
| Session.Shared.AbortIfKilled | src/mysql_server.rs:915-926 | tells whether the connection was to be killed and uses the request up |
| Session.Shared.KillConnection | src/mysql_server.rs:909-913 | adds the id to the killed set and changes nothing else |
| Session.Shared.SetDefaultDatabase | src/mysql_server.rs:1094-1101 | stores the trimmed name, or none if it is blank |
| Session.Shared.ClearDefaultDatabaseIfMatches | src/mysql_server.rs:1103-1109 | forgets the default database if it is the named one |
| Session.Backend.constructor | src/mysql_server.rs:68-82 | takes the next connection id, in 32 bits, and the shared default database |
| Session.Backend.OnInit | src/mysql_server.rs:169-182 | the step for choosing a database |
| Session.Backend.OnPrepare | src/mysql_server.rs:184-309 | the step for prepare: a canned response, a compatibility statement, a failed translation that stores nothing, or a numbered translation, with the parameters counted on the original text |
| Session.Backend.WriteQueryResult | src/mysql_server.rs:570-600 | an OK packet without columns; otherwise the rows, one by one, unless one of them does not fit the columns |
| Session.Backend.Finish | src/mysql_server.rs:388-402 | the last insert id is kept before the rows are written, under the columns stored at prepare time if there are any and the result has some |
| Session.Backend.OnExecute | src/mysql_server.rs:311-423 | the step for execute: abort, unknown id, canned rows, session statement, decode error, count mismatch, execution, the empty result for a missing option table, and rows under the stored columns |
| Session.Backend.OnReset | src/mysql_server.rs:432-440 | the step for a reset |
| Session.Backend.OnClose | src/mysql_server.rs:425-430 | the step for close |
| Session.Backend.OnQuery | src/mysql_server.rs:442-547 | the step for a query in the order of its tests: abort, KILL, canned, session, compatibility statement, LOAD DATA, translation, execution |
| Session.Backend.Store | src/mysql_server.rs:201-213 | stores a statement under the next id and counts the id up in 32 bits |
| Session.Backend.ApplySetNames | src/mysql_server.rs:960-1010 | a known character set with a collation of its own is stored; otherwise nothing changes |
| Session.Backend.HandleSessionQuery | src/mysql_server.rs:928-958 | the settings that a SET statement changes, and whether the statement was one |
| Session.Backend.CompatNoop | src/mysql_server.rs:482-501 | CREATE and DROP DATABASE move the current and the default database after the schema call has succeeded |
| SessionAnswers.QueryHasRows | src/mysql_server.rs:442-547 | a query is answered with rows exactly if it is no KILL and names system variables, or passes and is canned, or reaches PostgreSQL and has a result with columns that its rows fit |
| SessionAnswers.QueryIsRefused | src/mysql_server.rs:464-519 | it is rejected exactly if it is a SET with an unknown character set or collation, and not allowed exactly if it is a LOAD DATA that passes |
| SessionAnswers.QueryFails | src/mysql_server.rs:519-547 | its other errors are a failed translation and a failed execution of a query that passes, exactly |
| SessionAnswers.UnknownExactly | src/mysql_server.rs:318-323 | an id is refused as unknown exactly if an execute that is not aborted asks for a statement that is not prepared |
| SessionAnswers.ExecuteAnswers | src/mysql_server.rs:324-423 | the exact condition for each answer to an execute: rows, a rejected SET, parameters that cannot be decoded, a mismatch with its two numbers, and a failed execution that is not made up for |
| SessionAnswers.MissingOptionAnswer | src/mysql_server.rs:619-658 | an error over a missing option table is made up for exactly if the text names one of the two tables and begins with SELECT, DELETE or UPDATE in any case: with no rows under the inferred columns, or with an OK packet |
| SessionAnswers.PrepareAnswers | src/mysql_server.rs:184-309 | a prepare fails exactly if its text is translated in vain; otherwise it stores the text with a parameter for each placeholder, named by its place, and tells the client the same |
| SessionAnswers.LastInsertIdExactly | src/mysql_server.rs:390-394 | the last insert id is replaced exactly by a positive one of a result that is not dropped |
| SessionAnswers.DefaultDatabaseExactly | src/mysql_server.rs:169-501 | the default database after any command |
| SessionAnswers.SettingsExactly | src/mysql_server.rs:928-958 | the settings are changed by SET statements, sent or executed, and by nothing else |
| SessionAnswers.NewConnection | src/mysql_server.rs:68-85 | after every run, a new connection starts with these settings, in the default database, with nothing prepared |
| PreparedQueries.PreparedActsAsQuery | src/mysql_server.rs:184-547 | preparing a statement without parameters and executing it has the effect and the answer of the query, if it is no KILL and creates or drops no database, and, when it goes to PostgreSQL, is no LOAD DATA and only one statement, with the columns announced |
| PreparedQueries.PreparedSchemaIsIdle | src/mysql_server.rs:348-351 | a prepared CREATE or DROP DATABASE is acknowledged and does nothing |
| Wire.Connection.Dispatch | vendor/opensrv-mysql/src/lib.rs:566-750 | one round of the protocol library: the query it answers itself, the statements it does not know, the parameters it hands over, and its own table of statements |
| SessionRuns.TablesFollow | vendor/opensrv-mysql/src/lib.rs:569-702 | in every reachable world the table of the library knows, for each live connection, exactly the statements that the session has prepared, with their parameters counted in 16 bits |
| SessionRuns.NeverUnknown | src/mysql_server.rs:318-323 | so the answer for an unknown statement id is never given |
| SessionRuns.KilledExactly | src/mysql_server.rs:902-926 | after every run, a connection id is in the killed set exactly if some KILL of it, a text as in `KillText.ParseKillExactly`, has not been followed by an abort of it |
| SessionRuns.KilledConnectionAborts | src/mysql_server.rs:317-317 | a command aborts exactly if it is a query or an execute that the library passes on and a KILL of its connection is pending; the connection then ends |
| SessionRuns.AbortsAtMostKills | src/mysql_server.rs:909-926 | in every run a connection id is aborted at most as often as it is killed |
| SessionRuns.IdsByOrder | src/mysql_server.rs:74-85 | the id of the n-th connection is 9 + n modulo 2^32 |
| SessionRuns.IdsAreDistinct | src/mysql_server.rs:74-85 | live connections share an id exactly if their places in the order of opening are equal modulo 2^32; never while at most 2^32 were opened |
| SessionRuns.FailureChangesNothing | src/mysql_server.rs:184-547 | any command answered with an error, such as a failed prepare, a rejected SET NAMES or a count mismatch, leaves the session and the shared state as they were; one that breaks the connection leaves all but the last insert id |
| SessionRuns.SessionsAreSound | src/mysql_server.rs:68-82 | in every reachable world: character set utf8 or utf8mb4 with a collation that starts with it, no blank current or default database, and as many parameters as placeholders for every stored statement |
| SessionRuns.DynamicHasNoPlaceholder | src/mysql_server.rs:815-863 | a query with a dynamic canned response holds no placeholder, so storing it without parameters is right |
| SessionRuns.IdsAreNumbered | src/mysql_server.rs:258-260 | the k-th successful prepare of a connection is given id k modulo 2^32, whatever is closed in between |
| SessionRuns.IdsAreBelowCounter | src/mysql_server.rs:258-260 | below the 32-bit limit, prepared ids lie between 1 and the counter less 1 |
| SessionRuns.IdsAreNotReused | src/mysql_server.rs:425-430 | below the 32-bit limit, a closed statement never comes back and an id never changes its meaning |
| SessionRuns.MismatchExactly | src/mysql_server.rs:362-370 | in every reachable world an execute that goes to PostgreSQL is refused for its parameter count exactly if the count differs from the placeholders of the text that was prepared, whatever count is handed over |
| SessionRuns.MismatchOverTheWire | src/mysql_server.rs:362-370 | with the parameters that the protocol library hands over, the refusal happens exactly if the prepared text has 65536 placeholders or more |
| SessionRuns.PromisedIsNumbered | src/mysql_server.rs:190-258 | where the function rewrites are all that happens to a clean text, the parameters promised are as many as the placeholders numbered |
| SessionRuns.PromisedThroughPasses | src/mysql_server.rs:190-258 | the same where all hand-written passes are applied, with literals parsed and printed between them |
| SessionRuns.StoredIsNumberedForPostgres | src/mysql_server.rs:245-258 | the text stored for PostgreSQL has its numbers where PostgreSQL reads the placeholders, unless an unpaired backslash stands before a quote that closes a literal |
| SessionEffects.BrokenExactly | src/mysql_server.rs:311-547 | a command breaks its connection exactly if it passes all earlier tests and is a CREATE or DROP DATABASE whose schema call fails, or has a result with a row that does not fit the columns announced; every other failure is answered with an error |
| SessionEffects.StaleColumnsExactly | src/mysql_server.rs:388-402 | with rows as wide as their statement, the latter happens exactly if an execute has a row and another number of columns was stored for it |
| SessionEffects.ConnectionEndsExactly | src/mysql_server.rs:104-126 | in every run a connection ends exactly by disconnecting, by text that is no UTF-8, by asking for a statement that is not prepared, by a query or execute after a pending KILL, by such a failing CREATE or DROP DATABASE, or by such a result |
| SessionEffects.DatabaseExactly | src/mysql_server.rs:442-501 | the database of the session after any command |
| SessionEffects.DatabaseChangesExactly | src/mysql_server.rs:169-501 | a command changes it exactly by the handshake or COM_INIT_DB with another name, by a CREATE DATABASE of another name that succeeds, or by a DROP DATABASE of its name that succeeds |
| SessionEffects.UseIsAQuery | src/mysql_server.rs:442-547 | USE with any name, sent as query text, changes neither the database of the session nor the default, and is acknowledged exactly if it is translated and PostgreSQL obeys it with a result without columns; choosing a database by COM_INIT_DB always is |
| SessionEffects.CreateDatabaseBreaks | src/mysql_server.rs:482-488 | a failing CREATE DATABASE of a concrete name breaks the connection |
| SessionEffects.StaleColumnsBreak | src/mysql_server.rs:395-402 | a run in which the column list stored for a table that did not exist yet ends the connection when the statement is executed |
| SessionEffects.TwoSelectsBreak | src/mysql_server.rs:530-537 | one query with two SELECTs whose rows differ in length breaks the connection |

## Left out

- Parsing and printing by `sqlparser`, and the regular-expression passes (LIMIT, JSON, engine options, system
  variables, locks, reserved relation names): library behaviour. CREATE TABLE starts from the parsed columns and ends
  with the replacement of backticks; later passes over the emitted text are not modelled, nor is its joining by
  commas.
- The executor, the HTTP server, configuration, command line and logging.
- SHOW and DESCRIBE catalog queries, the contents of canned rows, the names of result columns, and the bytes of
  packets; of the rows that are written only their lengths are modelled.
- ALTER TABLE, keys, foreign keys, indexes and the choice of an upsert conflict target.
- CREATE TABLE with other column types (DECIMAL, floating point, BOOL, SET, JSON, text, binary, temporal) and with
  column options that are passed on (DEFAULT, UNIQUE, PRIMARY KEY, REFERENCES, column CHECKs); of table options only
  their warning.
- TableReading.EnumReads: members hold no NUL character, which PostgreSQL text cannot store.
- RowAcceptance.AcceptsByColumn: tables without further constraints; keys and foreign keys are rendered but not read.
- RowAcceptance.NoRowIsLost: an ENUM holds its members as they are spelled; collations, numeric indexes and the empty
  error value of MySQL are not modelled, nor are conversions on insert, identifier truncation at 63 bytes and
  PostgreSQL system columns; a value of the session is taken to be of type name.
- RowAcceptance.CreatedExactly: quoted names with a name quote inside are left to `TableReading.NameIsReadBack` and
  `RowAcceptance.ColumnReads`, which say that they are not read back.
- CreateTable.TranslateCreateTable: how a constraint is rendered, and why it may fail to be, is a parameter.
- SubstringIndexText.RenderingEvaluates: arguments that are no constants; for these see `FunctionMeaning.IfOnText` and
  `FunctionMeaning.RewritingKeepsValue`.
- FunctionMeaning.RewritingKeepsValue: expressions of other functions and operators, strings as conditions, booleans
  as strings, negative numbers, and collations; columns are named by words, and string constants hold no backslash
  before a quote or at their end.
- PreparedQueries.PreparedActsAsQuery: the translation is taken to be the same, though a text that only translates
  without parameters has a fallback when it is prepared.
- SessionAnswers.QueryIsRefused: the list of SET statements that are only acknowledged, `NoopPrefixes`, is taken over
  as it is, and so are the canned texts.
- ParameterCount.OrderKept: text with comments, unclosed quotes or a backslash inside backticks, where the scanners of
  the rewriter and of the placeholders read differently.
- Forests.RewriterOnForest: renderings are arbitrary partial functions of the argument texts; the limit on stack depth
  does not arise, as the code does not recurse.
- Session.Backend.OnQuery: a command is one step; what other connections do between the awaits of a command, and
  poisoned locks, are not modelled.
- Session.Backend.OnPrepare: the rows of a dynamic canned response are captured when it is prepared; only that they
  were is modelled.
- Printing.PassesKeepCount: what the parser and the printer do outside literals, and the passes by regular
  expressions, are taken to do nothing; literals are taken to be printed with doubled quotes.
- SessionRuns.PromisedThroughPasses: as for `Printing.PassesKeepCount`.
- SessionRuns.PromisedIsNumbered: only for texts on which the translator does nothing but rewrite function calls.
- SessionRuns.SessionsAreSound: of the library's pattern for system variables only its first letter and the characters
  it can match are used.
- SessionEffects.ConnectionEndsExactly: a failing socket counts as disconnecting; panics, such as those of the library
  at an ill-formed execute packet, are not modelled.
