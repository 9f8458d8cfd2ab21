# Verification model of the Chemical compiler and language server

Seven stateful cores of the repository, modelled in Dafny in the form the C++ has them (classes whose
methods update their fields, loops with invariants, step systems for concurrent code) and proved against
specifications that say what the callers rely on.

| file | what it models |
|---|---|
| `ConcurrentImport.dfy` | the pool tasks that import a graph of files, the mutex-guarded cache, the counter of outstanding tasks and the completion promise, under every interleaving |
| `PublishDiagnostics.dfy` | the publishing of diagnostics and the report of a build failure by concurrent calls, with the cancel flag, the joined task and the mutex, under every interleaving |
| `Utf8.dfy`, `SourceCursor.dfy` | the UTF-8 decoder (section 3 and 4 of RFC 3629) and the cursor that counts lines and characters |
| `LexerSpec.dfy`, `Lexer.dfy` | the lexer: its reader loops, `getNextToken`, `getTokens`, and the functions they are proved against |
| `TokenKinds.dfy` | which token stands where: the kind, value, end, flag and report of every token of the stream, stated by the characters at its place |
| `LexerWalks.dfy`, `LexerModes.dfy`, `LexerSpans.dfy`, `TokenPositions.dfy` | theorems about the token stream: the byte-by-byte readers, the two comment modes, what lies between tokens, the positions of tokens |
| `TextEdits.dfy`, `PositionTracking.dfy`, `EditorProtocol.dfy` | incremental document changes of the Language Server Protocol, how the positions of the editor and of the lexer agree, and where the server departs from the protocol |
| `ModuleGraph.dfy`, `ModuleOrder.dfy`, `ModuleResolution.dfy` | the dependency orders of modules, and the dirty modules of the language server |
| `IntegerOps.dfy` | implicit casts, promotion and the integer operations of the code generator, for every width |
| `ChemString.dfy` | `chem::string`: constant, inline buffer and heap block, and the ownership of the blocks |
| `ArchiveMembers.dfy` | the member list that the archive tool writes |

`dafny verify dfyconfig.toml` checks the whole project.

## What the proofs found

These are properties of the code that differ from what its comments, its callers or a standard say.  The
model follows the code; each has a lemma with the exact condition.

- The completion promise of an import is set exactly once, and only when nothing is pending, if and only if
  the caller holds a count of its own or exactly one of its files is not in the cache
  (`ConcurrentImport.PromiseTheorem`).  The caller in compiler/lab/LabBuildCompiler.cpp:2752-2762 holds no
  count and starts with an empty cache (3281), so with two different root files there is a run that sets the
  promise twice (`ConcurrentImport.FulfilledTwice`).  With no file to push it is never set
  (`ConcurrentImport.NeverFulfilled`); that caller does not wait when it has no files.
- A notification is sent in every run if and only if it is that of a build failure or no other call is
  made: any other call may cancel a batch that is still waiting, also one about another file
  (`PublishDiagnostics.SafeCallTheorem`).
- `getNextToken` starts to read a block comment behind the `*` when comments are kept and at the `*` when
  they are not, so `/*/` closes a comment only in the second mode.  Keeping comments and dropping them
  afterwards gives the parser the types, values and positions of the mode that drops them if and only if
  behind every such comment both modes skip to the same offset (`LexerModes.CleanTokensExact`); it never
  does if the mode that drops comments finds a token inside what the other takes for the first such comment
  (`LexerModes.SwallowedTokens`).
- `incrementCodepoint` classifies a code point before it moves, so it counts the CR of a CRLF as a line end
  of its own (`SourceCursor.AdvancePeekedExact`).
- The cursor counts a form feed as a line end and `positionToOffset` does not; the cursor counts code
  points and `positionToOffset` counts bytes.  They agree on a source if and only if it has neither a form
  feed before its last byte nor a multi-byte character (`PositionTracking.PositionsTheorem`).
- A token can end between the CR and the LF of a CRLF: an unterminated string, or a character literal whose
  character is the CR.  The next token then starts at the LF, and the editor looks for it at the end of the
  text (`TokenPositions.LineEndNotFound`).  Such a literal also counts the CR as a line end of its own, so
  that every token behind it is a line further than the editor has it (`TokenPositions.NextLineNotFound`).
  In sources on which cursor and editor agree these are the only tokens that are misplaced
  (`TokenPositions.TokenPositionsTheorem`), and all tokens are found if and only if none starts inside a
  CRLF (`TokenPositions.AllTokensTheorem`).
- `positionToOffset` sends a column behind the end of its line to the end of the text, where section
  "Position" of the Language Server Protocol 3.17 has it default to the end of the line.  The two agree if
  and only if the line is the last one or behind it, or the column is within the line
  (`EditorProtocol.ProtocolOffsetTheorem`).  It counts bytes where the protocol by default counts UTF-16
  code units, which is right for a position outside a CRLF if and only if no multi-byte character stands in
  front of it on its line (`EditorProtocol.Utf16PositionTheorem`).
- Re-applying the removed text undoes a change if and only if no end of the inserted text falls inside a
  CRLF of the edited text (`TextEdits.UndoTheorem`); and changes named by positions of the original text
  can be folded from right to left if and only if none ends where a CRLF has come about, or only inserts
  line feeds there (`TextEdits.BatchTheorem`).
- Among several changes a change of the whole document is passed over.  The protocol is met for all texts
  and all changes of given kinds if and only if there is at most one change or none of the whole document
  (`EditorProtocol.WholeChangesTheorem`).
- An unsigned operand makes a comparison unsigned and a negative operand is then compared by its residue;
  the operand of an enumeration over an unsigned type does not, and is compared as signed; two enumerations
  of different widths are not promoted and give no valid code (`IntegerOps.ComparisonTheorem`).  By the
  same test an unsigned count makes the right shift of a negative number logical
  (`IntegerOps.ShiftTheorem`).
- Moving a heap string to itself frees its block and leaves it empty (`ChemString.Strings.MoveAssign`).
- Moving archive members behind a member that is moved itself, with all that follow it, sends the insertion
  point behind the end of the list (`ArchiveMembers.PositionTheorem`).

## Model

| member | source | states |
|---|---|---|
| ConcurrentImport.ConcurrentParsingState.PushedTask | compiler/ASTProcessor.h:60-62 | pushing counts one more outstanding task and touches neither the promise nor the error flag |
| ConcurrentImport.ConcurrentParsingState.DoneTask | compiler/ASTProcessor.h:63-68 | the counter drops by one, and the promise is set by the call that found it at 1 and by no other |
| ConcurrentImport.ConcurrentParsingState.SetHasErrors | compiler/ASTProcessor.h:69-71 | only the error flag changes |
| ConcurrentImport.OneTaskPerFile | compiler/ASTProcessor.cpp:821-848 | in every reachable state of every schedule, over any import graph, cyclic ones included, and any initial cache, no file has two parse tasks |
| ConcurrentImport.CounterIsLiveCount | compiler/ASTProcessor.cpp:845-851 | in every reachable state `outstanding` is the number of tasks counted and not yet done, plus the count a caller holds |
| ConcurrentImport.EveryRunTerminates | compiler/ASTProcessor.cpp:804-855 | no schedule is longer than a bound linear in the files and their imports |
| ConcurrentImport.EveryRunCanComplete | compiler/ASTProcessor.cpp:1026-1056 | no run gets stuck: every reachable state can be run on until every task is done |
| ConcurrentImport.CompletedImport | compiler/ASTProcessor.cpp:1026-1056 | when all tasks are done the cache holds exactly what it held before and the files reachable from the roots through files that imported successfully and were not cached before, and the error flag is set iff one of these failed to be read, parsed or resolved |
| ConcurrentImport.StepRounds | compiler/ASTProcessor.h:63-68 | each step keeps the number of times the counter has left zero, except a push by a caller that holds no count while the counter is zero |
| ConcurrentImport.PromiseTheorem | compiler/ASTProcessor.h:56-75 | the promise is set at most once, only when no task is live or still to be pushed, and has been set at completion, in all runs, if and only if the caller holds a count or exactly one of its files is not cached before |
| ConcurrentImport.FulfilledTwice | compiler/lab/LabBuildCompiler.cpp:2752-2762 | with two different root files that are not cached and no count held some complete run sets the promise twice |
| ConcurrentImport.NeverFulfilled | compiler/ASTProcessor.cpp:811-813 | with no root file that is not cached, and no count held, no run sets the promise |
| PublishDiagnostics.StepKeepsInv | server/LspSemanticTokens.cpp:1266-1286 | every step of every call and task keeps the invariant of mutex, flag, future and tasks: among others, the flag is up only while the holder joins, and a task is live only for the newest holder or the one before it |
| PublishDiagnostics.AtMostOneLive | server/LspSemanticTokens.cpp:1271-1284 | in every reachable state of any number of concurrent calls at most one publish task is live |
| PublishDiagnostics.DeliveredInOrder | server/LspSemanticTokens.cpp:1279-1284 | nothing is sent twice, and diagnostics are sent after everything whose call took the mutex earlier and was sent at all, so they come in call order and none of an earlier call follows the status of a later build failure |
| PublishDiagnostics.DroppedOnlyIfOvertaken | server/LspSemanticTokens.cpp:1280-1283 | a batch whose task is over was sent, or another call took the mutex after its own did |
| PublishDiagnostics.FinishedRun | server/WorkspaceManager.cpp:594-619 | a finished run has reported every build failure and lost only batches that a later call overtook |
| PublishDiagnostics.EveryRunEnds | server/LspSemanticTokens.cpp:1268-1277 | no run has more than nine steps a call, and one that cannot go on has let every call return and every task end: waiting for the task under the mutex never deadlocks |
| PublishDiagnostics.SafeCallTheorem | server/LspSemanticTokens.cpp:1266-1286 | for every list of calls: the notification of a call is sent in all finished runs, if and only if it is that of a build failure or there is no other call |
| PublishDiagnostics.BatchCanBeDropped | server/LspSemanticTokens.cpp:1271-1280 | for every publication and every other call there is a finished run in which the other overtakes it and its batch is never sent |
| PublishDiagnostics.SecondOnly | server/LspSemanticTokens.cpp:1271-1280 | two publications have a run in which exactly the second is sent |
| Utf8.DecodeEncode | stream/SourceProvider.h:105-169 | decoding gives back every scalar value from its encoding, whatever follows |
| Utf8.LongStep | stream/SourceProvider.h:121-166 | a step longer than a byte has read the one shortest encoding of a scalar value: overlong forms, surrogates and values above 10FFFF never make one |
| Utf8.DecodeStep | stream/SourceProvider.h:105-169 | a step gives the scalar value whose encoding the bytes start with, or FFFD for one byte exactly when they start with no encoding |
| Utf8.GrammarStep | stream/SourceProvider.h:105-169 | a step reads exactly the byte sequences of the grammar in section 4 of RFC 3629, and their bits, and anything else as FFFD for one byte |
| Utf8.SelfSynchronising | stream/SourceProvider.h:105-185 | decoding any bytes followed by an encoded text gives the decoding of the bytes followed by the text |
| Utf8.DecodedScalars | stream/SourceProvider.h:105-169 | every code point read from any bytes is below D800, or from E000 to 10FFFF |
| Utf8.MasksAreQuotients | stream/SourceProvider.h:121-166 | the bit masks of the decoder are the quotients and remainders the model tests |
| SourceCursor.SourceProvider.HandleRead | stream/SourceProvider.h:53-74 | LF, form feed, and CR not before LF start a line, everything else is one character further |
| SourceCursor.SourceProvider.ReadCharacter | stream/SourceProvider.h:192-200 | the byte at the cursor, NUL at the end, and the cursor one byte on |
| SourceCursor.SourceProvider.Increment | stream/SourceProvider.h:204-208 | the same move without the byte |
| SourceCursor.SourceProvider.ReadCodePoint | stream/SourceProvider.h:176-187 | the code point at the cursor, and the cursor behind its bytes, with a line end recognised after the move |
| SourceCursor.SourceProvider.IncrementCodePoint | stream/SourceProvider.h:212-218 | the cursor behind a peeked code point, with a line end recognised before the move |
| SourceCursor.SourceProvider.IncrementIf | stream/SourceProvider.h:258-260 | moves exactly if the byte asked for is at the cursor |
| SourceCursor.AdvancePeekedExact | stream/SourceProvider.h:212-218 | `incrementCodepoint` moves and counts like `readCodePoint`, if and only if it is neither at the end nor at the CR of a CRLF |
| SourceCursor.MovesCount | stream/SourceProvider.h:53-74 | for all four moves: LF, a form feed and a lone CR start a line, everything else is one column however many bytes a code point has; a CR before LF is a column for the moves that look behind it and a line for those that look at it |
| TextEdits.PositionToOffset | server/WorkspaceManager.cpp:416-449 | the offset is the one outside a CRLF whose line and column are the given ones, with LF, CRLF and lone CR as line ends, or the end of the text when there is none |
| TextEdits.OffsetUnique | server/WorkspaceManager.cpp:416-449 | that determines the offset |
| TextEdits.OffsetInverts | server/WorkspaceManager.cpp:416-449 | converting the position of an offset outside a CRLF gives the offset back |
| TextEdits.NamedOffset | server/WorkspaceManager.cpp:433-441 | the position of an offset inside a CRLF leads to the end of the text |
| TextEdits.Document.ApplyChange | server/WorkspaceManager.cpp:451-467 | the text between the offsets of the two positions, in either order, is replaced, and nothing else |
| TextEdits.Document.OnChangedContents | server/WorkspaceManager.cpp:502-556 | a single whole-text change replaces the text; otherwise the ranged changes apply in order, each to the result of the last, and whole-text changes are passed over |
| TextEdits.UndoTheorem | server/WorkspaceManager.cpp:416-467 | re-applying the removed text over the range of the inserted text restores the old text, if and only if neither end of that range is inside a CRLF of the edited text |
| TextEdits.UndoMisses | server/WorkspaceManager.cpp:416-467 | when one is, the text that comes out differs from the old one, for every such change |
| TextEdits.BatchTheorem | server/WorkspaceManager.cpp:533-551 | for edits from right to left with ends outside CRLF: folding the changes with positions of the original text equals the simultaneous edit, if and only if no edit ends behind a CR in front of which the edits right of it have put an LF, unless it only inserts line feeds |
| TextEdits.SeparatedBatch | server/WorkspaceManager.cpp:533-551 | edits that are at least a character apart can always be folded |
| EditorProtocol.ProtocolOffsetTheorem | server/WorkspaceManager.cpp:416-449 | the offset found is the one the protocol means, with a column behind the end of its line at the end of the line, if and only if the line is the last one or behind it, or the column is within the line |
| EditorProtocol.BehindTheLine | server/WorkspaceManager.cpp:446-448 | every column behind the end of its line leads to the end of the text |
| EditorProtocol.ColumnBehindLine | server/WorkspaceManager.cpp:446-448 | in the text of one LF column 1 of line 0 leads to offset 1, where the protocol has 0 |
| EditorProtocol.Utf16PositionTheorem | server/WorkspaceManager.cpp:442-444 | the position of a character with its column in UTF-16 code units leads to its offset, if and only if it is not inside a CRLF and no multi-byte character stands between it and the start of its line |
| EditorProtocol.Utf16Theorem | server/WorkspaceManager.cpp:442-444 | the positions of all characters of a text outside a CRLF, with columns in UTF-16 code units, lead to their offsets, if and only if the text has no multi-byte character |
| EditorProtocol.WholeChangesTheorem | server/WorkspaceManager.cpp:502-551 | all texts and all changes of given kinds are handled as the protocol says, with ranges applied as the code does, if and only if there is at most one change or none of the whole document |
| PositionTracking.PositionsTheorem | server/WorkspaceManager.cpp:416-449 | after every run of byte and code-point moves that stops outside a CRLF `positionToOffset` gives the offset of the cursor, if and only if the text has no form feed before its last byte and no multi-byte character |
| PositionTracking.TextColumns | stream/SourceProvider.h:176-187 | a text without line ends, read by code points, takes as many columns as it has code points and as many bytes as its encoding |
| PositionTracking.SameCount | stream/SourceProvider.h:53-74 | without form feeds the cursor that reads byte by byte counts the lines and columns of the editor |
| PositionTracking.StaysSynced | stream/SourceProvider.h:176-208 | in a text of single-byte characters every mixture of moves counts like reading byte by byte |
| PositionTracking.CursorNamesOffset | stream/SourceProvider.h:53-74 | the position of the byte-by-byte cursor outside a CRLF names its offset, even at the end of a text that ends in a form feed |
| PositionTracking.FormFeedDisagrees | stream/SourceProvider.h:54 | with an earlier form feed some run disagrees with the editor |
| PositionTracking.LongCodePointDisagrees | stream/SourceProvider.h:176-187 | with a multi-byte character some run disagrees with the editor |
| Lexer.ReadDigits | lexer/Lexer.cpp:375-384 | moves behind the longest run of digits |
| Lexer.ReadAlphaOrDigits | lexer/Lexer.cpp:386-396 | moves behind the longest run of letters and digits |
| Lexer.ReadFloatingDigits | lexer/Lexer.cpp:398-406 | digits, and more digits behind a dot, and whether there was one |
| Lexer.ReadSuffix | lexer/Lexer.cpp:408-441 | reads the integer suffix at the cursor, or nothing |
| Lexer.ReadDecimal | lexer/Lexer.cpp:443-455 | reads a number that starts with another digit than 0 |
| Lexer.ReadZeroStartingNumber | lexer/Lexer.cpp:457-476 | reads a hexadecimal, octal, binary or decimal number behind its 0 |
| Lexer.ReadCurrentLine | lexer/Lexer.cpp:478-487 | moves to the first line end, NUL or end of text |
| Lexer.ReadMultiLineCommentText | lexer/Lexer.cpp:489-503 | the text of a block comment, and the cursor behind its closer, behind a NUL or at the end |
| Lexer.ConsumeHexDigits | lexer/Lexer.cpp:505-514 | at most two hexadecimal digits |
| Lexer.ReadMultiLineString | lexer/Lexer.cpp:516-545 | the text up to three double quotes, a NUL or the end |
| Lexer.ReadBacktickText | lexer/Lexer.cpp:592-634 | the text up to a closing backtick, a `${` or the end, with escapes passed over, and which of them it was |
| Lexer.ReadQuotedText | lexer/Lexer.cpp:636-667 | the text up to a closing double quote or a line end, with escapes passed over, and which of them it was |
| Lexer.ReadCharText | lexer/Lexer.cpp:669-709 | the one character or escape of a character literal, and whether there is one |
| Lexer.ReadId | lexer/Lexer.cpp:711-721 | moves behind the longest run of identifier characters |
| Lexer.ReadAnnotationId | lexer/Lexer.cpp:723-744 | moves behind the longest run of identifier characters, dots and colons |
| Lexer.Lexer.GetRawToken | lexer/Lexer.cpp:755-1068 | one pass of the switch leaves the token, the cursor behind it, its reports and the flag of `RawToken`, of which `TokenKinds` says what they are |
| Lexer.Lexer.GetNextToken | lexer/Lexer.cpp:755-1068 | the first token the flags do not leave out; terminates on every source |
| Lexer.Lexer.GetTokens | lexer/Lexer.cpp:1089-1105 | all tokens up to the end of the text or the first unexpected one, with the cursor and the flag the last one left and the reports of all in order; terminates on every source |
| Lexer.Lexer.SymbolCase | lexer/Lexer.cpp:802-829 | an operator of one byte, or of two when the second makes a longer one |
| Lexer.Lexer.DotCase | lexer/Lexer.cpp:830-841 | one dot, three dots, or an unexpected token behind two |
| Lexer.Lexer.AnnotationCase | lexer/Lexer.cpp:860-881 | the name behind `@` or `#`, with a report when it starts with no identifier character |
| Lexer.Lexer.NewLineCase | lexer/Lexer.cpp:746-753 | one token for CR and one for CRLF |
| Lexer.Lexer.SlashCase | lexer/Lexer.cpp:898-921 | comments, read from behind the second character when they are kept and from it when they are not, or the division sign |
| Lexer.Lexer.QuoteCase | lexer/Lexer.cpp:948-972 | character literals and lifetimes |
| Lexer.Lexer.BacktickCase | lexer/Lexer.cpp:973-1010 | backtick strings, and how they open and close string expressions |
| Lexer.Lexer.RightBraceCase | lexer/Lexer.cpp:775-793 | a closing brace, or the rest of a backtick string behind an expression |
| Lexer.Lexer.StringCase | lexer/Lexer.cpp:1011-1034 | empty, single-line and multi-line strings |
| Lexer.Lexer.WordCase | lexer/Lexer.cpp:1047-1067 | numbers, keywords, identifiers and unexpected characters |
| TokenKinds.StreamToken | lexer/Lexer.cpp:1089-1105 | every token of the stream is read in one pass where it stands, with the string-expression flag the token before it left, and is of a kind the flags keep |
| TokenKinds.WordTheorem | lexer/Lexer.cpp:1055-1063 | a token at an identifier start is the longest run of identifier characters, a keyword exactly if that text is in the table and otherwise an identifier |
| TokenKinds.NumberTheorem | lexer/Lexer.cpp:1047-1054 | a token at a digit is a number: `0x` or `0o` and the longest run of letters and digits, `0b` and the longest run of digits with the longest suffix, or the longest decimal number |
| TokenKinds.SymbolTheorem | lexer/Lexer.cpp:773-947 | the token at an operator is the longest of the operators of the language, listed by their characters; one dot, three dots, or two as unexpected; a slash that opens no comment; a dollar sign, or the start of an expression within a string expression |
| TokenKinds.TriviaTheorem | lexer/Lexer.cpp:898-921 | the end is at the end or at a NUL; LF, CR and CRLF are one token each; blanks are the longest run, and comments have the text between their delimiters, where the flags keep them |
| TokenKinds.AnnotationTheorem | lexer/Lexer.cpp:860-881 | behind `@` or `#` comes one code point, reported unless it starts an identifier, and the longest run of identifier characters, dots and colons |
| TokenKinds.UnexpectedTheorem | lexer/Lexer.cpp:1065-1066 | a code point that starts no other token is unexpected, alone, and reported behind itself |
| TokenKinds.StringTheorem | lexer/Lexer.cpp:1011-1034 | two quotes are an empty string, three start a multi-line one; a single-line string ends at its first quote, line end or NUL outside escapes, and is reported unless that is a quote |
| TokenKinds.BacktickTheorem | lexer/Lexer.cpp:775-793 | a backtick string, and the rest of one behind a closing brace, end at the first backtick, `${` or NUL outside escapes; these clear, set or leave the flag, with the reports of each case; without the flag the brace stands for itself |
| TokenKinds.QuoteTheorem | lexer/Lexer.cpp:948-972 | behind a quote an identifier start makes a literal if a quote follows it and else a lifetime of the longest run; any other character or escape makes a literal with the quote that may follow; no character makes an empty one, which is reported |
| LexerModes.TokensAreKept | lexer/Lexer.cpp:1035-1042 | the stream of `getTokens` is the stream with nothing left out, without comments unless they are kept and without white space unless it is lexed |
| LexerModes.CommentModes | lexer/Lexer.cpp:909-917 | one block comment ends at the same byte in both comment modes, if and only if no `/` follows its `*`, or that `/` is the last byte |
| LexerModes.CommentModesTheorem | lexer/Lexer.cpp:898-921 | the two comment modes divide a source into the same stretches, if and only if the lexer meets no comment that starts with `/*/` and has something behind it |
| LexerModes.CleanTokensExact | compiler/ASTProcessor.cpp:1399-1412 | keeping comments and dropping comments and white space afterwards gives the parser the tokens of the lexer that leaves them out, by type, value and position, if and only if behind every `/*/` comment that lexer meets both modes skip to the same offset; then the stretches read and the reports are the same too |
| LexerModes.SwallowedTokens | lexer/Lexer.cpp:909-917 | the two streams differ in a type, a value, a position or in length whenever the lexer without comments finds a token between the end of the first such comment and where the other mode ends it |
| LexerModes.DirectlyFollowed | lexer/Lexer.cpp:909-917 | that is so whenever the comment is directly followed by a token that is neither a comment nor white space |
| LexerModes.CleanTokensTheorem | compiler/ASTProcessor.cpp:1399-1412 | lexing with any flags and dropping comments and white space afterwards gives the tokens of the lexer that leaves them out, if comments are not kept or no such comment with something behind it is met |
| LexerModes.CleanTokensCorollary | compiler/ASTProcessor.cpp:1399-1412 | the same for every source without `/*/` except at its end, wherever it would stand |
| LexerModes.AmbiguousCommentExample | lexer/Lexer.cpp:909-917 | the source `/*/+` gives different tokens in the two modes |
| LexerModes.HarmlessCommentExample | lexer/Lexer.cpp:909-917 | the source `/*/` and a blank gives the same tokens in both modes |
| LexerSpans.TokensCover | lexer/Lexer.cpp:1089-1105 | whatever the flags, tokens are in order, disjoint and, but for the last, not empty, and between them lie only blanks, tabs, line comments and block comments |
| LexerSpans.TokensPartition | lexer/Lexer.cpp:1089-1105 | with both flags on every token starts at the cursor, line and character included, where the one before it ended, up to the last one, which is unexpected or stands at the end of the source or at a NUL byte |
| LexerSpans.TokensEnd | lexer/Lexer.cpp:1089-1105 | whatever the flags, the last token is unexpected or stands at the end of the source or at a NUL byte, and no token before it ends the stream |
| LexerSpans.SuffixText | lexer/Lexer.cpp:408-441 | the suffix reader moves behind the longest suffix that starts at the cursor |
| LexerSpans.NumberText | lexer/Lexer.cpp:443-455 | the number reader moves behind the longest number that starts at the cursor |
| LexerSpans.SkippedIsTrivia | lexer/Lexer.cpp:898-917 | what `getNextToken` passes over is a run of blanks, or a comment as the language defines it |
| LexerSpans.BlockCommentText | lexer/Lexer.cpp:489-503 | the comment reader stops behind the first closer, and before that only at a NUL or at the end |
| LexerSpans.MultilineStringText | lexer/Lexer.cpp:516-545 | a multi-line string ends at the first three double quotes in a row, or else behind the first NUL or at the end |
| LexerSpans.QuotedStringText | lexer/Lexer.cpp:636-667 | a string that is reported as ended has a double quote last, any other a line end or a NUL or the end of the text; without escapes that is the first of them |
| LexerSpans.BacktickStringText | lexer/Lexer.cpp:592-634 | the three outcomes name what follows the text: a backtick, a `${`, or a NUL or the end; without escapes that is the first of them |
| TokenPositions.TokenPositionsTheorem | lexer/Lexer.cpp:756-768 | in a text of single-byte characters without early form feeds the editor finds a token where it was read, if and only if the token stands at the end of the text, or it does not start inside a CRLF and no token before it is a character literal that reads the CR of a CRLF |
| TokenPositions.AllTokensTheorem | lexer/Lexer.cpp:756-768 | in such a text it finds every token, if and only if no token starts inside a CRLF |
| TokenPositions.TrackRaw | lexer/Lexer.cpp:755-1068 | a token behind such a literal is counted further lines down than a byte-by-byte reader counts it, every other token exactly where that reader counts it |
| TokenPositions.LiteralToken | lexer/Lexer.cpp:948-972 | such a literal ends inside the CRLF, with the CR counted as a line end |
| TokenPositions.EveryTokenFound | lexer/Lexer.cpp:756-768 | in a text of single-byte characters without early form feeds and without CRLF it finds every token |
| TokenPositions.LineEndNotFound | lexer/Lexer.cpp:1025-1033 | in the source of a double quote and a CRLF it looks for the line end at the end of the text |
| TokenPositions.NextLineNotFound | lexer/Lexer.cpp:705-707 | in the source of a quote, a CRLF and a letter it looks for the letter, which stands at offset 3, at the end of the text |
| TokenPositions.SyncRawToken | lexer/Lexer.cpp:755-1068 | every case of the switch leaves the cursor counting like a byte-by-byte reader, as many lines ahead as it was, except for a character literal that reads the CR of a CRLF |
| ModuleGraph.ExistsInDeps | server/LspSemanticTokens.cpp:538-548 | true if and only if the module is one of the given ones or a transitive dependency of one |
| ModuleGraph.RankDrops | server/LspSemanticTokens.cpp:456-459 | on an acyclic graph a dependency has fewer dependencies than the module that needs it, so the searches end |
| ModuleOrder.Flattening.RecursiveDedupe | server/LspSemanticTokens.cpp:456-465 | appends the modules its depth-first walk meets for the first time, in the order of the walk |
| ModuleOrder.FlattenDedupeSorted | server/LspSemanticTokens.cpp:467-474 | the modules met by the walks from all given modules, first meetings only |
| ModuleOrder.FlatOrder | server/LspSemanticTokens.cpp:456-474 | that list holds the given modules and all they depend on, once each, every module after everything it depends on |
| ModuleOrder.FlatLaw | server/LspSemanticTokens.cpp:456-474 | which module comes first: what a further given module adds stands behind the rest in the order it has alone, and a module alone stands behind its dependencies in the order these have as a list; that determines the list |
| ModuleOrder.ShallowSorting.ShallowDedupeSorted | compiler/ASTProcessor.cpp:1608-1617 | appends the direct dependencies in the order the walk first meets them, and nothing else |
| ModuleOrder.ShallowSorting.Visit | compiler/ASTProcessor.cpp:1598-1607 | one walk puts out the direct dependencies it meets that were not put out before |
| ModuleOrder.ShallowOrder | compiler/ASTProcessor.cpp:1598-1617 | every direct dependency appears once, after every other direct dependency it needs, directly or not |
| ModuleOrder.ShallowIsFilteredFlat | compiler/ASTProcessor.cpp:1598-1617 | that output is the output of `flatten_dedupe_sorted` without the modules that are no direct dependencies |
| ModuleResolution.Workspace.MakeModuleDirty | server/WorkspaceManager.h:350-353 | the file becomes the one dirty file of the module, the module becomes dirty, no other module changes |
| ModuleResolution.Workspace.UnmakeModuleDirty | server/WorkspaceManager.h:358-361 | the module is clean and counts as resolved once, no other module changes |
| ModuleResolution.Workspace.SymResModDepsSeq | server/LspSemanticTokens.cpp:476-498 | afterwards every transitive dependency has been resolved once, has no dirty file and is not listed as dirty; resolved again were exactly the listed modules from the first one on that was never resolved or had a dirty file, in list order, and so every such module; the flag tells whether there was any; nothing else changed |
| ModuleResolution.Workspace.ResolveListed | server/LspSemanticTokens.cpp:488-496 | the loop of that pass, for any list |
| ModuleResolution.ResolvedInOrder | server/LspSemanticTokens.cpp:476-498 | when the pass resolves a module, every dependency of it has been resolved by the pass or lies before its starting point; every listed module that depends on it is resolved by the pass later; and no module is resolved twice |
| ModuleResolution.Workspace.ShouldProcessFile | server/LspSemanticTokens.cpp:550-588 | true if and only if another file of the module is dirty or a dirty module is a transitive dependency, in whatever order the dirty modules are walked |
| IntegerOps.CastConstantValue | compiler/Codegen.cpp:389-421 | widening a constant keeps its signed value, narrowing it is reduction modulo 2 to the target width |
| IntegerOps.CastRuntimeValue | compiler/Codegen.cpp:1253-1270 | widening a run-time value keeps its bits for an unsigned target and its signed value for a signed one, narrowing it is reduction modulo 2 to the target width |
| IntegerOps.CastsAgree | compiler/Codegen.cpp:1253-1270 | the casts of constants and of run-time values agree, if and only if the value is not a negative one widened to an unsigned type |
| IntegerOps.WidenNarrow | compiler/Codegen.cpp:389-421 | widening and narrowing back is the identity, for both casts and in mixture |
| IntegerOps.PerformImplicitCast | compiler/Operation.cpp:33-50 | the narrower operand is extended to the width of the other by the signedness of its own type |
| IntegerOps.PromotedResidue | compiler/Operation.cpp:33-50 | a promoted operand has as bits the residue of its value modulo 2 to the wider width, and keeps its value if read by its own signedness |
| IntegerOps.Operate | compiler/Operation.cpp:91-287 | sums, differences, products and left shifts are the true results modulo 2 to the wider width; comparisons, quotients, remainders and right shifts take the numbers the operands count as; there is no valid code exactly for two enumerations of different widths |
| IntegerOps.SumTheorem | compiler/Operation.cpp:192-227 | sums, differences and products of all operands are those of their values modulo 2 to the wider width |
| IntegerOps.ValueIs | compiler/Operation.cpp:33-50 | a word of the upper half is negative for a signed type and stands for itself for an unsigned one |
| IntegerOps.DivisionTheorem | compiler/Operation.cpp:198-216 | quotient and remainder are undefined exactly for the divisor zero and for the one quotient that does not fit; otherwise, read as the operands are, they satisfy the identity of division, with a remainder smaller than the divisor and of the sign of the dividend |
| IntegerOps.ShiftTheorem | compiler/Operation.cpp:228-235 | shifts are undefined exactly for counts that are negative or not below the width; otherwise a left shift is the product with the power of two, and a right shift the quotient rounded down, modulo 2 to the width, if and only if the count is zero or the operand counts as its value |
| IntegerOps.CountedValue | compiler/Operation.cpp:91-101 | in a comparison, division or right shift with an operand of an unsigned integer type that is no enumeration, an operand counts as its residue, which is its value if and only if that is not negative; in any other it counts as its value, or for an unsigned enumeration of the full width in its upper half as that less 2 to the width |
| IntegerOps.CountedComparison | compiler/Operation.cpp:236-287 | whatever the types, the six comparisons answer for the numbers the operands count as |
| IntegerOps.ComparisonTheorem | compiler/Operation.cpp:236-287 | for two types every comparison of all values is right, if and only if they are not enumerations of different widths and either both are unsigned, or no operand of an unsigned type makes the comparison unsigned and each unsigned one is narrower than the other |
| IntegerOps.Misread | compiler/Operation.cpp:91-101 | for every other pair of types there are two values that are compared wrongly or not at all |
| ChemString.ChemString.MoveConstToBuffer | std/chem_string.h:162-173 | the characters stay, now in the inline buffer and terminated |
| ChemString.ChemString.MoveDataToHeap | std/chem_string.h:175-187 | the characters stay, now in a new block of the asked capacity and terminated within it |
| ChemString.ChemString.Resize | std/chem_string.h:189-194 | the characters stay in a block of the new capacity, the old block is gone |
| ChemString.ChemString.EnsureMut | std/chem_string.h:196-210 | given room for what is there, the characters stay and the string is mutable: a block if it was one or the request does not fit the buffer, grown to the request if it had no more, and else a buffer |
| ChemString.ChemString.AppendChar | std/chem_string.h:316-337 | one character more, in all three representations and when one turns into the next, with the capacity that doubling gives a full block |
| ChemString.ChemString.Append | std/chem_string.h:245-252 | the text is appended, whatever its length |
| ChemString.ChemString.Clear | std/chem_string.h:391-406 | no characters are left, and the string keeps its representation, block and capacity and is still terminated |
| ChemString.ChemString.MutableData | std/chem_string.h:437-454 | the characters stay; a mutable string stays as it is, a constant moves to a buffer or to a block of twice its length |
| ChemString.ChemString.SubstringOfCapacity | std/chem_string.h:280-304 | a new mutable string of the characters of the range, in a buffer or in a block of the capacity asked for, the old one as it was |
| ChemString.ChemString.Substring | std/chem_string.h:306-309 | the same with a block that has room for four more characters |
| ChemString.ChemString.Own | std/chem_string.h:79-99 | the characters change hands, a heap block with them, which leaves the other string empty |
| ChemString.ChemString.MoveAssign | std/chem_string.h:105-111 | the old block of the target is freed, then the target takes over what the source holds |
| ChemString.ChemString.Destroy | std/chem_string.h:500-504 | the block the string owns, if any, is freed |
| ChemString.OneChanged | std/chem_string.h:162-210 | if one string of a program changes within its own and new blocks, every block still has one owner and every other string keeps its characters |
| ChemString.Strings.NewConstant | std/chem_string.h:57-69 | a new string that borrows its characters; all others keep theirs |
| ChemString.Strings.NewOwned | std/chem_string.h:113-118 | a new mutable string; all others keep theirs |
| ChemString.Strings.NewCopy | std/chem_string.h:120-128 | a new string with the same characters that shares a constant and nothing else; all others keep theirs |
| ChemString.Strings.Append | std/chem_string.h:245-252 | in a program of any number of strings only this one changes, and every block keeps exactly one owner |
| ChemString.Strings.EnsureMut | std/chem_string.h:196-210 | no string changes its characters, and every block keeps exactly one owner |
| ChemString.Strings.MutableData | std/chem_string.h:437-454 | no string changes its characters, and every block keeps exactly one owner |
| ChemString.Strings.Clear | std/chem_string.h:391-406 | only this string is emptied |
| ChemString.Strings.SubstringOfCapacity | std/chem_string.h:280-304 | only the new string is added, whatever the capacity asked for, and every block keeps exactly one owner |
| ChemString.Strings.Substring | std/chem_string.h:306-309 | only the new string is added, and every block keeps exactly one owner |
| ChemString.Strings.MoveNew | std/chem_string.h:101-103 | the characters go to the new string, a heap string that is moved from becomes empty, all others keep theirs |
| ChemString.Strings.MoveAssign | std/chem_string.h:105-111 | the target holds what the source held, if and only if no heap string that is not empty was moved to itself; all others keep theirs; no block is lost or freed twice |
| ChemString.Strings.Destroy | std/chem_string.h:500-504 | the string and its block are gone, all others keep their characters |
| ArchiveMembers.UseOne | compiler/llvm-ar.cpp:857-867 | erasing the first match per member gives the n-th member of a name the n-th path listed for that name |
| ArchiveMembers.ComputeInsertAction | compiler/llvm-ar.cpp:846-905 | which of the actions an old member gets, and which listed path it uses up |
| ArchiveMembers.InsertAt | compiler/llvm-ar.cpp:984-988 | inserting one by one at a moving index inserts the list in its order |
| ArchiveMembers.ComputeNewArchiveMembers | compiler/llvm-ar.cpp:909-1005 | the new member list, or which of the two failures |
| ArchiveMembers.PositionTheorem | compiler/llvm-ar.cpp:977-983 | the insertion point is not found if and only if a position is named and no member bears the name; it lies behind the list if and only if the place is behind a member and the command takes that member and all that follow it |
| ArchiveMembers.MovedAfterItself | compiler/llvm-ar.cpp:923-929 | moving the only member behind itself is such a command |
| ArchiveMembers.Conservation | compiler/llvm-ar.cpp:909-1005 | as multisets: deleting leaves the members not taken, moving loses none, replacing has the members not taken and one new member for each listed path, appending has all old ones and one for each path |
| ArchiveMembers.PlaceTheorem | compiler/llvm-ar.cpp:923-1003 | moving or replacing at a position: the members not taken keep their order; behind those before the last member of the named name, and behind that one if so asked, stand the unused paths in command order and then what stands for the taken members in the old order; if that member is not taken they are right beside it |
| ArchiveMembers.MoveTheorem | compiler/llvm-ar.cpp:946-951 | with all listed members present and a position that is not moved itself, the moved members stand in their old order right before or right behind the last member of that name, the others keep their order, and none is lost |
| ArchiveMembers.MoveToEndTheorem | compiler/llvm-ar.cpp:974-1003 | moving without a position: the members not taken keep their order, then come the unused paths in command order, and last the moved members in their old order |
| ArchiveMembers.AppendTheorem | compiler/llvm-ar.cpp:974-1003 | appending: the old members in their order and then all paths in command order |
| ArchiveMembers.DeleteTheorem | compiler/llvm-ar.cpp:869-877 | deleting leaves in their order exactly the members that are not taken, a member being taken while fewer members of its name come before it than paths are listed for the name |
| ArchiveMembers.ReplaceTheorem | compiler/llvm-ar.cpp:882-887 | without a position every member that is taken is replaced at its index by the path with its number among those listed for its name, every other stays at its index, and the paths left unused follow in the order of the command |
| ArchiveMembers.MovedAreFirstBearers | compiler/llvm-ar.cpp:857-880 | with no name listed twice those moved are the first member of each listed name |
| ArchiveMembers.DeletesFirstBearers | compiler/llvm-ar.cpp:869-877 | with no name listed twice deleting removes exactly the first member of each listed name |
| ArchiveMembers.ReplacesFirstBearers | compiler/llvm-ar.cpp:882-887 | with no name listed twice the first member of each listed name is replaced at its index by the file listed for it, every other stays, and the paths that match nothing follow in command order |

## Left out

- The parser, the AST node classes, symbol resolution of bodies and code emission: most implementations belong to LLVM or would only be invented here.
- Embedded-language hooks, `user_mode` lexers and `binder->findHook`: function pointers of plugins; no hook is found in the model.
- `read_quoted_string2`: the lexer does not call it.
- The branch for a backtick directly before `${` (lexer/Lexer.cpp:975-987): it asks one byte to be both `$` and `{`.
- The Unicode tables of identifier characters and the keyword table (lexer/Lexer.cpp:210-360): parameters of the model; only the ASCII part is fixed.
- The token types of operators and keywords: the text of a token determines its type, so they are `Symbol` and `Keyword`.
- Widths of 32 bits of the line, character and task counters: they are unbounded.
- Opening files, reading them, the paths of imports, the text of diagnostics and the messages of the editor: an import graph, a text, a batch stand for them.
- Weak memory ordering: atomics and flags are sequentially consistent.
- Which of the parsed results an import statement points to (compiler/ASTProcessor.cpp:823-842): the model keeps which files are cached.
- `sym_res_mod_deps_sig`, the parallel resolution, and `parseModuleThreadSafe`: the sequential pass is modelled.
- ModuleResolution.Workspace.SymResModSig: stands for the whole resolution of a module's signatures, of which the model keeps that it was done, and that the module is clean afterwards.
- EditorProtocol.WholeChangesTheorem: the ranges of changes are applied as the code applies them, so that only the whole texts are compared with the protocol; the offsets of ranges are the subject of EditorProtocol.ProtocolOffsetTheorem.
- PublishDiagnostics.SafeCallTheorem: the text of a batch and the file it is about are left out, as neither has any influence on what is sent.
- ModuleOrder.FlattenDedupeSorted: on an acyclic graph only, as the walk of the code does not end on any other.
- IntegerOps.Operate: the bitwise, logical, floating-point and pointer operations are not modelled.
- `chem::string`: `prepend`, `offset_data`, `set`, comparison and conversion functions, appending a string to itself through its own buffer, constructors from a NUL-terminated string whose length has to be counted.
- ChemString.ChemString.EnsureMut: asks that the request leaves room for what is there, as the code writes the terminator at the old length.
- Borrowed constants are values: that their memory outlives the string is left to the caller, as in the code.
- The archive tool: thin archives, the count and update modifiers, bit modes, libraries whose members are added one by one, time stamps, MRI scripts and read operations; reading a listed file succeeds.
