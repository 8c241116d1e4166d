# A verified model of the library's core

This project models, in Dafny 4.11, the parts of the library whose correctness is hard to see from
reading one function, and proves what they are for. `dafny verify dfyconfig.toml` checks all of it.

| modules | component |
|---|---|
| `JsonNumber`, `JsonDecimal`, `JsonUnicode`, `JsonString`, `JsonEscapes`, `JsonLexer` | the JSON scanner with its backtracking, the value of a number, the string decoder and escaper, and what escapes stand for |
| `JsonValue`, `JsonGrammar`, `JsonErrors`, `JsonParser`, `JsonOrder` | values, the recursive-descent parser against the grammar of RFC 7159, which token a rejected text is rejected for, the comparison operators |
| `JsonDump`, `JsonText`, `JsonLayout` | the printer, the round trip through the parser, and the layout of the printed text, read off the text alone |
| `IdConcurrent`, `IdLimits`, `IdEngine` | the unique-id engine, once as an interleaving of threads within a day, once as an object beside its stored row with day changes, restarts and crashes |
| `Subsets`, `Partition`, `PartitionSearch`, `NarrowingWitness` | the analyzer: subset enumeration, the efficiency of a subset, the searches and the pruning |
| `CircularBuffer` | the byte ring buffer against a plain bounded queue |
| `QueueMonitor`, `Workers` | the blocking queue as a monitor, and the worker loops of the thread pool and of the asynchronous log sink |
| `LogRotation` | the size-based rotating log sink over a map of files |
| `Calendar` | dates written as YYYYMMDD against Gregorian day numbers |

Code that updates state in place is modelled by classes, arrays and loops, each proved against a
specification function or predicate; concurrent code is modelled by atomic steps. Where a property is
false of the code, the code is kept and the exact condition is proved:

- A call of `spawnId` can fail right after the block was extended. It never does, in any interleaving,
  exactly when one step per thread fits into a block (`IdLimits.NoFailureIffRoom`).
- `reallocValve` raises the valve in memory before the row is written. While the write is pending another
  thread can hand out an id that a restart after a crash hands out again: this can happen exactly when at
  least two threads use the engine (`IdLimits.CrashRepeatsIffTwoThreads`).
- A start that cannot read the row begins the day at 0 again; this is safe exactly when no id was
  issued on that day (`IdEngine.BlindStartIsSafeIffNewDay`, `IdEngine.BlindStartCanRepeat`).
- A bulk push in overlap mode whose fast path applies can make the count exceed the capacity, and growing
  a buffer whose contents reach the end of its array misplaces them; `CircularBuffer.Buffer.PushMany` and
  `CircularBuffer.Buffer.Reallocate` say when, `CircularBuffer.BulkPushBreaks` and
  `CircularBuffer.ReallocateBreaks` get there.
- `dequeue` does not notify, so a producer can sleep although there is room: exactly when there are two
  threads and producers wait at all (`QueueMonitor.ProducerCanBeStuckIff`), after exactly the steps of
  `QueueMonitor.BecomesStuckIff` and until those of `QueueMonitor.WakesIff`.
- With a file count of 0 or less a rotation moves nothing and only sets the counter back
  (`LogRotation.RotateFileSink.SinkIt`, `LogRotation.CounterGoesWrong`); with more than 2^32 files two of
  them share a name (`LogRotation.NamesDifferIffApart`).
- The rounds that narrow the candidates of the analyzer index the remaining files instead of the
  candidates. Once narrowed they try the right files exactly when the best choice was the first files
  (`PartitionSearch.NarrowedRoundsAreRightIff`); `NarrowingWitness.ChooseOfFour` settles on a wrong one.
  The file settled on is still in the best choice found first, which is enough for the subset to be
  closed: no file left over could join it (`PartitionSearch.FindSubset`).

Where code and comments disagree the model follows the code: the comment above `rotate` names files
`log.txt.1`, the code puts the padded index before the suffix; the comment on `maxSize` of the queue
gives 0 a meaning of its own, the constructors round it up to 1.

## Model

| member | source | states |
|---|---|---|
| JsonDump.ParseUndoesDump | src/3rdparty/json/json.hpp:1877-1891 | for every storable value (null, booleans, 64-bit integers, any byte strings, arrays, key-ordered objects) and every indentation, compact or pretty, parsing the printed text returns exactly that value |
| JsonDump.TokensOfDump | src/3rdparty/json/json.hpp:5347-5479 | whatever the layout, the printed text followed by anything that cannot continue a number scans as the tokens of the syntax tree of the value, and then the rest |
| JsonDump.TreeDenotes | src/3rdparty/json/json.hpp:5347-5479 | the syntax tree of a storable value is well formed and denotes the value: quoting, decimals and key order are read back |
| JsonDump.TokensOfString | src/3rdparty/json/json.hpp:6976-7106 | a quoted, escaped string is one string token whatever follows it |
| JsonDump.TokensOfInteger | src/3rdparty/json/json.hpp:6947-6975 | the decimal of any integer is one number token when what follows cannot continue a number |
| JsonLayout.CompactHasNoSpace | src/3rdparty/json/json.hpp:1877-1891 | compact text has no white space outside its strings |
| JsonLayout.PrettyStripsToCompact | src/3rdparty/json/json.hpp:5347-5479 | pretty text without the white space outside its strings is the compact text |
| JsonLayout.PrettyLine | src/3rdparty/json/json.hpp:5347-5479 | every line of pretty text starts with exactly step spaces, modulo 2^32, for each bracket that the lines before it have opened and not closed, one fewer if it begins by closing one; a line ends after each opening bracket and comma, a closing bracket begins one unless it closes the bracket right before it, a colon is followed by the one space there is, and no other place has a line break or white space |
| JsonLayout.PrettyIsLaidOut | src/3rdparty/json/json.hpp:5347-5479 | the same for all lines at once, read off the text with its strings masked; all brackets are closed at the end |
| JsonLayout.EscapedStaysInside | src/3rdparty/json/json.hpp:5225-5328 | an escaped string neither ends early nor leaves a string open, so what is outside strings can be read off the text |
| JsonGrammar.ParseIsExact | src/3rdparty/json/json.hpp:7685-7911 | without a callback the parser returns v if and only if the tokens are those of a syntax tree of RFC 7159 that denotes v, then the end of the input; later duplicate keys win |
| JsonGrammar.ObjectIsItsLastMembers | src/3rdparty/json/json.hpp:7739-7767 | the object of an object text is in key order, has for each name the value of the last member with it, and nothing else |
| JsonGrammar.NumberIsRead | src/3rdparty/json/json.hpp:7882-7893 | a number is read as an integer exactly when its value is a 64-bit integer, however it is written; any other keeps its value |
| JsonErrors.RejectedAtFirstWrongToken | src/3rdparty/json/json.hpp:7698-7943 | rejected tokens can be continued to an accepted text up to the token that is reported, and with that token they cannot: the failure is about the first wrong token; tokens that only end too early can still be continued |
| JsonErrors.ValueFails | src/3rdparty/json/json.hpp:7698-7911 | the same for one value: the place of the failure, tokens that complete what is before it, and the same failure whatever follows it |
| JsonGrammar.TreeIsParsed | src/3rdparty/json/json.hpp:7698-7911 | every well-formed tree is parsed to its value, leaving exactly what follows it |
| JsonGrammar.ParsedIsTree | src/3rdparty/json/json.hpp:7698-7911 | whatever is accepted is the yield of a well-formed tree denoting the value returned |
| JsonGrammar.ParseValue | src/3rdparty/json/json.hpp:7698-7911 | an accepted value takes at least one token, so the recursion ends |
| JsonGrammar.ParseMembers | src/3rdparty/json/json.hpp:7731-7779 | each round of the loop over members takes at least one token |
| JsonGrammar.ParseElements | src/3rdparty/json/json.hpp:7809-7834 | each round of the loop over elements takes at least one token |
| JsonParser.Parser.constructor | src/3rdparty/json/json.hpp:7664-7682 | a new parser has the first token of the text in hand |
| JsonParser.Parser.GetToken | src/3rdparty/json/json.hpp:7914-7918 | reading a token drops the head of the token stream |
| JsonParser.Parser.Parse | src/3rdparty/json/json.hpp:7685-7694 | the object with its last token and scanner returns what the token-level parser returns, errors included |
| JsonParser.Parser.ParseInternal | src/3rdparty/json/json.hpp:7698-7911 | result, failure and tokens left over agree with the token-level parser |
| JsonParser.Parser.ParseObject | src/3rdparty/json/json.hpp:7704-7780 | the loop over members agrees with the token-level parser |
| JsonParser.Parser.ParsePair | src/3rdparty/json/json.hpp:7739-7763 | key, colon and value of one round agree with the token-level parser |
| JsonParser.Parser.ParseArray | src/3rdparty/json/json.hpp:7782-7835 | the loop over elements agrees with the token-level parser |
| JsonParser.ParseText | src/3rdparty/json/json.hpp:7685-7694 | parsing a text is parsing its tokens |
| JsonLexer.NumberIsMaximalMunch | src/3rdparty/json/json.hpp:6932-6975 | a text starting with a minus sign or digit scans as its longest prefix in the number grammar of RFC 7159, section 6, and as an error exactly when no prefix is in it |
| JsonLexer.LexemesAreWellFormed | src/3rdparty/json/json.hpp:6659-7453 | a string token holds a quoted text of characters and complete escapes, a number token a number |
| JsonLexer.TokenSpelling | src/3rdparty/json/json.hpp:6846-6930 | which bytes are white space and punctuation, how the literals are spelled, and that the skipped mark is U+FEFF in UTF-8 |
| JsonLexer.Lexer.Scan | src/3rdparty/json/json.hpp:6659-7453 | the cursor-moving scanner finds the first token and leaves the cursor behind it, skipping white space and byte order marks |
| JsonLexer.Lexer.ScanToken | src/3rdparty/json/json.hpp:6659-7453 | the same for a token that starts at the cursor |
| JsonLexer.Lexer.SkipSpaces | src/3rdparty/json/json.hpp:6846-6865 | white space changes nothing about the next token |
| JsonLexer.Lexer.ScanFixed | src/3rdparty/json/json.hpp:6867-6930 | punctuation, literals and bytes that start no token |
| JsonLexer.Lexer.ScanLiteral | src/3rdparty/json/json.hpp:7390-7453 | a literal is accepted whole, otherwise one byte is skipped with an error |
| JsonLexer.Lexer.ScanString | src/3rdparty/json/json.hpp:6976-7240 | the string scan stops behind the first quote that ends a well-formed text, or returns to the marker with an error when there is none |
| JsonLexer.Lexer.ScanBody | src/3rdparty/json/json.hpp:6992-7240 | the loop ends at the closing quote or where no character or escape is |
| JsonLexer.Lexer.ScanItem | src/3rdparty/json/json.hpp:6999-7240 | one round: the length of the character or escape at the cursor |
| JsonLexer.Lexer.ScanNumber | src/3rdparty/json/json.hpp:7241-7389 | the automaton with its marker leaves the cursor behind the longest number, also after a dead end such as 1.x or 2e+ |
| JsonLexer.Lexer.RunAutomaton | src/3rdparty/json/json.hpp:6932-6975 | where the automaton stops and what the marker then is |
| JsonLexer.NumberRunsOn | src/3rdparty/json/json.hpp:7613-7642 | behind a number token with which strtold would go on comes no token that may follow a value |
| JsonLexer.Lexer.GetString | src/3rdparty/json/json.hpp:7510-7611 | the pointer loop returns the decoded text of the string token, or the first decoding error |
| JsonLexer.Lexer.NextPiece | src/3rdparty/json/json.hpp:7516-7607 | one round of it, surrogate pairs included |
| JsonLexer.Lexer.NextCode | src/3rdparty/json/json.hpp:7569-7599 | an escaped code and the one behind a high surrogate |
| JsonNumber.AcceptsExactlyNumbers | src/3rdparty/json/json.hpp:6932-6975 | the automaton of the scanner accepts exactly the number grammar of RFC 7159, section 6 |
| JsonNumber.NumberLengthIsLongest | src/3rdparty/json/json.hpp:7013-7022 | the scanned length is that of the longest number prefix, and absent exactly when there is none |
| JsonNumber.ScanningStops | src/3rdparty/json/json.hpp:7013-7022 | when the automaton stops, the marker is the end of the longest number |
| JsonNumber.IntDecimalRoundTrip | src/3rdparty/json/json.hpp:5452-5456 | the decimal of an integer is an integer text and reads back as that integer |
| JsonDecimal.NumberTexts | src/3rdparty/json/json.hpp:7626-7640 | every number text is digits, with a fraction of digits and an exponent of digits or without |
| JsonDecimal.NumberHasItsValue | src/3rdparty/json/json.hpp:7626-7640 | the value of a number text is its integer and its fraction, signed and shifted by its exponent |
| JsonDecimal.FractionValue | src/3rdparty/json/json.hpp:7626-7640 | a signed integer text, a dot and n digits: times 10^n that is the same digits without the dot, read as an integer |
| JsonDecimal.ExponentValue | src/3rdparty/json/json.hpp:7626-7640 | an exponent k after either mark multiplies by 10^k, with a plus sign too, and with a minus sign divides by it |
| JsonDecimal.DigitsByPlace | src/3rdparty/json/json.hpp:7626-7640 | a digit is its own value, and one more digit multiplies what is before it by ten |
| JsonDecimal.IntegerHasItsValue | src/3rdparty/json/json.hpp:7882-7889 | an integer text has the value of the integer |
| JsonNumber.IntegerIsLongest | src/3rdparty/json/json.hpp:7241-7272 | an integer text is its own longest number when what follows cannot continue it |
| JsonString.ClosingQuote | src/3rdparty/json/json.hpp:6999-7106 | the closing quote found is the one and only quote with a well-formed text before it |
| JsonString.DecodesExactlyPaired | src/3rdparty/json/json.hpp:7576-7590 | decoding fails exactly when some high-surrogate escape is not followed by a low-surrogate escape |
| JsonString.EscapeString | src/3rdparty/json/json.hpp:5225-5328 | the loop fills the buffer allocated beforehand to its very end with the escaped string |
| JsonString.PutEscaped | src/3rdparty/json/json.hpp:5237-5325 | one character writes its escape and nothing else |
| JsonString.EscapeLength | src/3rdparty/json/json.hpp:5176-5210 | extra_space is exactly the growth of escaping, and 0 only when nothing is escaped |
| JsonString.DecodeUndoesEscape | src/3rdparty/json/json.hpp:5225-5328 | for every byte string the escaped form is a well-formed text and decodes to the string |
| JsonString.EscapedStringIsScannedWhole | src/3rdparty/json/json.hpp:7023-7106 | the scan of the quoted, escaped string stops exactly behind its closing quote, whatever follows |
| JsonEscapes.EscapeHasItsCode | src/3rdparty/json/json.hpp:7569-7573 | every way to write a code in four hexadecimal digits of either letter case, and no other text of six bytes, is an escape with that code |
| JsonEscapes.CodeEscape | src/3rdparty/json/json.hpp:7592-7598 | the escape of a code that is no high surrogate decodes to one UTF-8 sequence, which reads as the code |
| JsonEscapes.PairEscape | src/3rdparty/json/json.hpp:7576-7590 | the escapes of a high and a low surrogate decode to one UTF-8 sequence, which reads as the code point of the pair |
| JsonEscapes.ShortEscapes | src/3rdparty/json/json.hpp:7524-7566 | the bytes behind a backslash that make a short escape, and what the eight stand for in RFC 7159, section 7 |
| JsonEscapes.ShortEscape | src/3rdparty/json/json.hpp:7524-7566 | each of the eight decodes to its byte |
| JsonEscapes.PlainByte | src/3rdparty/json/json.hpp:7601-7607 | which bytes stand for themselves, and that they decode to themselves |
| JsonEscapes.DecodeSum | src/3rdparty/json/json.hpp:7510-7611 | a text that decodes, followed by another, decodes to both results one after the other, so a text decodes piece by piece |
| JsonEscapes.EscapeSpelling | src/3rdparty/json/json.hpp:5225-5328 | what the printer writes: the short escape where there is one, else four lower-case digits for a control character, else the byte |
| JsonUnicode.ToUnicodeDecodes | src/3rdparty/json/json.hpp:6544-6606 | which code points and pairs are accepted, and that a UTF-8 decoder written from RFC 3629, section 3 gets back the code point, a pair combined as in RFC 2781, section 2.2 |
| JsonUnicode.ScalarUnlessLoneLow | src/3rdparty/json/json.hpp:6544-6606 | the output is UTF-8 of a scalar value exactly when no lone low surrogate was given, which gets the 3-byte form |
| JsonUnicode.EncodeDecode | src/3rdparty/json/json.hpp:6574-6599 | every code point has one shortest encoding that decodes to it |
| JsonValue.AssignIsUpdate | src/3rdparty/json/json.hpp:7764-7767 | storing a member keeps key order, sets its key and changes no other |
| JsonOrder.StrictTotalOrder | src/3rdparty/json/json.hpp:4836-4900 | on values without floats exactly one of a<b, a==b, b<a holds, and < is transitive, through nested arrays and objects |
| JsonOrder.EqualIsIdentity | src/3rdparty/json/json.hpp:4665-4725 | == holds exactly of identical values |
| JsonOrder.LessTrichotomy | src/3rdparty/json/json.hpp:4836-4900 | different values are ordered one way and only one way |
| JsonOrder.LessTransitive | src/3rdparty/json/json.hpp:4836-4900 | transitivity of the nested lexicographic comparison |
| JsonOrder.TypesInOrder | src/3rdparty/json/json.hpp:4619-4639 | null before booleans before numbers before objects before arrays before strings |
| JsonOrder.ScalarsInOrder | src/3rdparty/json/json.hpp:4836-4900 | false before true, integers by value, strings by the first byte that differs |
| JsonOrder.ArraysInOrder | src/3rdparty/json/json.hpp:4836-4900 | arrays are ordered by the first element that differs, a proper prefix first |
| JsonOrder.ObjectsInOrder | src/3rdparty/json/json.hpp:4836-4900 | objects are ordered by the first member that differs, by its key and then its value |
| IdConcurrent.IdsAreSafe | src/service/lct_id_service/id_day_switch_engine.h:37-55 | in every interleaving of any number of threads within a day: ids are pairwise distinct and below the valve, and the valve is at most one block ahead of the counter |
| IdConcurrent.RunsKeepInv | src/service/lct_id_service/id_day_switch_engine.cpp:64-80 | the invariant behind it, in every state of every run: one lock holder, fetched ids distinct, the row behind the valve only while its write is pending |
| IdConcurrent.FetchedIsNear | src/service/lct_id_service/id_day_switch_engine.h:37-55 | a fetched id is less than one step per thread above the valve, since every id above the valve is still in the hands of a thread |
| IdConcurrent.RunsKeepFullInv | src/service/lct_id_service/id_day_switch_engine.h:37-55 | with threads * step <= block size no call has failed and none is going to |
| IdLimits.NoFailureIffRoom | src/service/lct_id_service/id_day_switch_engine.h:41-54 | no interleaving makes a call fail after reallocValve if and only if threads * step <= block size |
| IdLimits.CrashRepeatsIffTwoThreads | src/service/lct_id_service/id_day_switch_engine.cpp:70-72 | some run, cut by a crash, and some run of the restarted engine issue the same id if and only if at least two threads use the engine, whatever the step and the block size |
| IdLimits.UnsafeStepIff | src/service/lct_id_service/id_day_switch_engine.h:37-55 | a step issues an id at or above the stored row exactly when its thread compares such an id with a valve that is raised and not written yet |
| IdLimits.IssueTheRow | src/service/lct_id_service/id_day_switch_engine.cpp:64-80 | for two or more threads, any step and any block size, a run that issues the id in the stored row |
| IdLimits.EveryIdIsIssued | src/service/lct_id_service/id_day_switch_engine.h:37-55 | with two threads every id the counter passes is issued in some run |
| IdLimits.AloneIsSafe | src/service/lct_id_service/id_day_switch_engine.cpp:64-80 | with one thread every issued id is below the stored row in every state of every run |
| IdLimits.CrashIsSafeIffNothingPending | src/service/lct_id_service/id_day_switch_engine.cpp:70-72 | in a state where a call is still quick: every id handed out, also by one more such call, is below the stored row if and only if no write is pending |
| IdLimits.SafeRestartIsFresh | src/service/lct_id_service/id_day_switch_engine.cpp:24-40 | a restart from a row above all issued ids hands out only new ids, in any interleaving |
| IdLimits.UnsafeRestartRepeatsIff | src/service/lct_id_service/id_day_switch_engine.cpp:70-72 | an id issued at or above the row can be handed out again after a crash if and only if it is a whole number of steps above the row |
| IdEngine.NoIdTwice | src/service/lct_id_service/id_day_switch_engine.cpp:24-80 | over whole sequential runs with day changes, restarts and crashes at any write, no (date, id) pair is issued twice |
| IdEngine.PlayKeepsSound | src/service/lct_id_service/id_day_switch_engine.cpp:24-80 | row and memory stay sound in every such run |
| IdEngine.EveryCallIssues | src/service/lct_id_service/id_day_switch_engine.h:24-60 | with 1 <= step <= block size every completed call of such a run issues an id |
| IdEngine.CallDoes | src/service/lct_id_service/id_day_switch_engine.h:24-60 | in every sound state a call issues the number the counter stands on and moves it one step; the valve in memory and row grows by one block exactly when the counter has reached it; on another day the call issues 0 below a valve of one block |
| IdEngine.StartDoes | src/service/lct_id_service/id_day_switch_engine.cpp:24-40 | a start puts the counter on the stored valve and stores the valve one block higher |
| IdEngine.CrashDoes | src/service/lct_id_service/id_day_switch_engine.cpp:42-80 | a crash in a call or a start leaves the row as it was or as the completed operation leaves it |
| IdEngine.CallsCountUp | src/service/lct_id_service/id_day_switch_engine.h:37-55 | n calls in a row on one day move the counter by n steps, and when none fails they issue current, current + step, current + 2 * step and so on; with room in the block none fails |
| IdEngine.RunsStaySteady | src/service/lct_id_service/id_day_switch_engine.cpp:24-80 | in every state of every run the stored valve is whole blocks above the first row or above 0, and while a process runs it is the valve in memory and at most one block ahead of the counter |
| IdEngine.RestartSkipsABlock | src/service/lct_id_service/id_day_switch_engine.cpp:24-40 | a crash and a restart skip at most one block of numbers, and the step of the call that was cut off |
| IdEngine.BlindStartDoes | src/service/lct_id_service/id_day_switch_engine.cpp:36-38 | a start that cannot read the row counts from 0 by 1 in blocks of 100 |
| IdEngine.BlindStartIsSafeIffNewDay | src/service/lct_id_service/id_day_switch_engine.cpp:36-38 | a restart that cannot read the row keeps ids unique from then on if and only if no id was issued on the day it switches to |
| IdEngine.BlindStartCanRepeat | src/service/lct_id_service/id_day_switch_engine.cpp:36-38 | from every row and day, a run that issues an id and crashes, after which such a restart on that day leads to a repeated id |
| IdEngine.Engine.SpawnId | src/service/lct_id_service/id_day_switch_engine.h:24-60 | new memory, the rows written in their order, and the id of one call, with the clock read up to three times |
| IdEngine.Engine.Init | src/service/lct_id_service/id_day_switch_engine.cpp:24-40 | new memory and the rows written by a start, with or without a readable row |
| IdEngine.Engine.DaySwitch | src/service/lct_id_service/id_day_switch_engine.cpp:42-62 | new memory and row of a day switch |
| IdEngine.Engine.ReallocValve | src/service/lct_id_service/id_day_switch_engine.cpp:64-80 | the valve is raised and written when the counter has reached it, and nothing changes otherwise |
| Subsets.FirstIsLeast | src/3rdparty/eigen/bench/analyze-blocking-sizes.cpp:411-418 | the first subset is one, and no subset of its size is before it |
| Subsets.LastIsGreatest | src/3rdparty/eigen/bench/analyze-blocking-sizes.cpp:420-423 | is_last_subset holds exactly when no subset of the size comes after |
| Subsets.SuccessorFollows | src/3rdparty/eigen/bench/analyze-blocking-sizes.cpp:431-441 | nothing lies between a subset and the next one |
| Subsets.NextSubset | src/3rdparty/eigen/bench/analyze-blocking-sizes.cpp:425-442 | the in-place rewrite yields the immediate successor |
| Subsets.FirstIndexToChange | src/3rdparty/eigen/bench/analyze-blocking-sizes.cpp:431-436 | the search from the end stops within the array, at the last entry that can still be raised |
| Subsets.RaiseFrom | src/3rdparty/eigen/bench/analyze-blocking-sizes.cpp:437-441 | from there on the entries follow one another |
| Subsets.MakeFirstSubset | src/3rdparty/eigen/bench/analyze-blocking-sizes.cpp:411-418 | fills in 0 to size-1 |
| Subsets.RankAscends | src/3rdparty/eigen/bench/analyze-blocking-sizes.cpp:504-519 | a number that grows with each step and is bounded: the enumeration ends |
| Partition.EfficiencyMeans | src/3rdparty/eigen/bench/analyze-blocking-sizes.cpp:297-332 | what the nested loops compute: a positive x is reached exactly when for each product size one block size works at x or better in all files of the subset |
| Partition.EfficiencyOfSubset | src/3rdparty/eigen/bench/analyze-blocking-sizes.cpp:297-332 | the loop over runs of one product size computes that efficiency |
| Partition.BestOfRun | src/3rdparty/eigen/bench/analyze-blocking-sizes.cpp:315-322 | the two inner loops compute the best of the worst |
| Partition.EfficiencyIsValue | src/3rdparty/eigen/bench/analyze-blocking-sizes.cpp:297-332 | an efficiency is one of finitely many values, at most 1 |
| PartitionSearch.IsNumberOfSubsetsFeasible | src/3rdparty/eigen/bench/analyze-blocking-sizes.cpp:447-459 | the early exit decides whether at every size up to p the number of subsets is within the limit |
| PartitionSearch.FeasibleMeans | src/3rdparty/eigen/bench/analyze-blocking-sizes.cpp:447-459 | the test with numerator and denominator holds exactly when at each size up to p there are at most 100 subsets, counted by the recurrence of the binomial coefficients |
| PartitionSearch.MaxFeasibleSubsetSize | src/3rdparty/eigen/bench/analyze-blocking-sizes.cpp:461-471 | the size is feasible beyond the minimum, and the next one is not |
| PartitionSearch.BestCandidates | src/3rdparty/eigen/bench/analyze-blocking-sizes.cpp:494-519 | the search loop tries every k-subset of the first n positions, each once, in order, and returns the first of the best |
| PartitionSearch.TryChoice | src/3rdparty/eigen/bench/analyze-blocking-sizes.cpp:506-510 | the trial subset is the chosen files and those at the tried positions |
| PartitionSearch.Narrow | src/3rdparty/eigen/bench/analyze-blocking-sizes.cpp:521-526 | the in-place compaction keeps exactly the candidates at the best positions |
| PartitionSearch.ChooseCandidate | src/3rdparty/eigen/bench/analyze-blocking-sizes.cpp:487-531 | the shrinking rounds settle on one file, exactly which, and it is in a best choice of the largest size in which some choice beats the required efficiency |
| PartitionSearch.NarrowedRoundsAreRightIff | src/3rdparty/eigen/bench/analyze-blocking-sizes.cpp:506-526 | after a first narrowing the later rounds try the files of their candidates if and only if the best choice was the first files of the remainder |
| PartitionSearch.MeasuresCandidatesIff | src/3rdparty/eigen/bench/analyze-blocking-sizes.cpp:506-508 | a round tries the files of its candidates if and only if these are the first files of the remainder |
| NarrowingWitness.SettlesOnTheWrongFile | src/3rdparty/eigen/bench/analyze-blocking-sizes.cpp:506-530 | four files on which the rounds settle on a file that is in no best pair of the candidates |
| NarrowingWitness.ChooseOfFour | src/3rdparty/eigen/bench/analyze-blocking-sizes.cpp:487-531 | and the code does settle on it |
| PartitionSearch.FewerIsBetter | src/3rdparty/eigen/bench/analyze-blocking-sizes.cpp:297-332 | a subset of fewer files is at least as efficient |
| PartitionSearch.FindSubset | src/3rdparty/eigen/bench/analyze-blocking-sizes.cpp:473-542 | files are moved, not lost; the subset beats the required efficiency, no file left over could join it, and at least one file moves |
| PartitionSearch.FindPartition | src/3rdparty/eigen/bench/analyze-blocking-sizes.cpp:545-566 | every pass ends with each file in exactly one subset, all subsets beating the required efficiency and closed against later files; the abort at efficiency 1 is unreachable |
| PartitionSearch.PartitionPlacesEachOnce | src/3rdparty/eigen/bench/analyze-blocking-sizes.cpp:545-566 | each file has one place in one subset, and nothing else has any |
| PartitionSearch.NoTwoCanMerge | src/3rdparty/eigen/bench/analyze-blocking-sizes.cpp:545-566 | two subsets of such a partition put together do not beat the required efficiency |
| PartitionSearch.PartitionEfficiencyBeats | src/3rdparty/eigen/bench/analyze-blocking-sizes.cpp:400-409 | the efficiency of such a partition is above the required one, at most 1, and one of the finitely many values |
| PartitionSearch.EfficiencyOfPartition | src/3rdparty/eigen/bench/analyze-blocking-sizes.cpp:400-409 | the loop computes the efficiency of the partition, the least of its subsets |
| PartitionSearch.PartitionEfficiencyMeans | src/3rdparty/eigen/bench/analyze-blocking-sizes.cpp:400-409 | a level is reached by the efficiency of a partition if and only if it is at most 1 and every subset reaches it |
| PartitionSearch.FewerAbove | src/3rdparty/eigen/bench/analyze-blocking-sizes.cpp:646 | fewer values remain above the required efficiency after each pass |
| PartitionSearch.Search | src/3rdparty/eigen/bench/analyze-blocking-sizes.cpp:627-647 | the outer search ends, some subset of each partition is worse than every subset of the next, and the last has every file for itself or all subsets at efficiency 1 |
| PartitionSearch.Prune | src/3rdparty/eigen/bench/analyze-blocking-sizes.cpp:649-661 | the erase-and-repeat loops end and keep exactly the partitions with fewer subsets than every later one |
| PartitionSearch.PrunedIsBeaten | src/3rdparty/eigen/bench/analyze-blocking-sizes.cpp:649-661 | a partition that is dropped has some subset worse than every subset of one that is kept and has no more subsets |
| PartitionSearch.PartitionFiles | src/3rdparty/eigen/bench/analyze-blocking-sizes.cpp:625-665 | of the partitions printed each has more subsets than the one before, which has some subset worse than all of them |
| CircularBuffer.Run | src/common/detail/lct_circular_buffer.cpp:61-260 | any run of push, pushN, peek, pop, popN, iterate and mode switches is the run of a plain bounded queue, answer by answer, up to the first call that breaks the buffer: a bulk push in overlap mode with n <= space() and size() + n > capacity() |
| CircularBuffer.RunsConserve | src/common/detail/lct_circular_buffer.cpp:61-143 | with overlap off: bytes taken followed by bytes held are bytes held at first followed by bytes accepted |
| CircularBuffer.PushesKeepLast | src/common/detail/lct_circular_buffer.cpp:166-179 | with overlap on single pushes keep exactly the last capacity() bytes |
| CircularBuffer.OneByte | src/common/detail/lct_circular_buffer.cpp:93-179 | the bounded queue byte by byte: a push adds at the end, is refused without room, or drops the oldest in overlap mode; a pop takes the first byte or fails; a peek shows what a pop would give |
| CircularBuffer.PushNIsPushes | src/common/detail/lct_circular_buffer.cpp:71-91 | a bulk push leaves what single pushes leave |
| CircularBuffer.PushNSucceedsIff | src/common/detail/lct_circular_buffer.cpp:71-91 | it succeeds if and only if no single push would be refused |
| CircularBuffer.PopNIsPops | src/common/detail/lct_circular_buffer.cpp:122-143 | a bulk pop gives and leaves what as many single pops do, or is refused when more is asked for than there is; a visit shows what popping all would give |
| CircularBuffer.Buffer.constructor | src/common/detail/lct_circular_buffer.cpp:12-22 | empty, with a capacity of at least 1 and overlap off |
| CircularBuffer.Buffer.Append | src/common/detail/lct_circular_buffer.cpp:166-179 | one byte more at the end, the oldest dropped when full in overlap mode, refused when full otherwise |
| CircularBuffer.Buffer.PushMany | src/common/detail/lct_circular_buffer.cpp:71-91 | the first min(n, free) bytes are appended whichever path is taken; in overlap mode the buffer stays intact if and only if not both n <= space() and size() + n > capacity() |
| CircularBuffer.Buffer.PeekAt | src/common/detail/lct_circular_buffer.cpp:93-100 | the oldest byte, or a failure when empty |
| CircularBuffer.Buffer.Take | src/common/detail/lct_circular_buffer.cpp:102-120 | removes and returns the oldest byte, or fails when empty |
| CircularBuffer.Buffer.TakeMany | src/common/detail/lct_circular_buffer.cpp:122-143 | all or nothing: the n oldest bytes in order, on the contiguous path and on the wrapped one |
| CircularBuffer.Buffer.Iterate | src/common/detail/lct_circular_buffer.hpp:240-254 | the do-while loop visits each live byte once in order, also when the buffer is full |
| CircularBuffer.Buffer.SpaceIsContiguousRoom | src/common/detail/lct_circular_buffer.cpp:233-250 | space() is exactly the room from the last position to the end of the array or to the first live byte |
| CircularBuffer.Buffer.SetOverlap | src/common/detail/lct_circular_buffer.cpp:252-260 | switching the mode changes nothing else |
| CircularBuffer.Buffer.Reallocate | src/common/detail/lct_circular_buffer.cpp:262-286 | growing keeps the contents intact if and only if the buffer is empty or its first position is before its last |
| CircularBuffer.BulkPushBreaks | src/common/detail/lct_circular_buffer.cpp:71-91 | from a new buffer of any size, calls after which it counts more bytes than it has room for |
| CircularBuffer.ReallocateBreaks | src/common/detail/lct_circular_buffer.cpp:262-286 | from a new buffer of any size, calls after which growing it breaks it |
| CircularBuffer.Buffer.PushEach | src/common/detail/lct_circular_buffer.cpp:79-88 | the byte-by-byte path appends what fits and says whether all did |
| QueueMonitor.QueueIsSafe | src/common/detail/lct_queue.hpp:50-134 | in every state of every run of any threads: items accepted are items dequeued followed by items held, never more than the size, and nobody asleep who has something to do |
| QueueMonitor.RunsKeepInv | src/common/detail/lct_queue.hpp:50-134 | every run is, return by return, a run of the plain bounded queue: each return code was the right one at that moment |
| QueueMonitor.ReplayIsFifo | src/common/detail/lct_queue.hpp:50-117 | the plain bounded queue is first in, first out, and within its size |
| QueueMonitor.NoWaitNeverSleeps | src/common/detail/lct_queue.hpp:50-117 | in no run does a call sleep whose wait time is 0 |
| QueueMonitor.ProducerCanBeStuckIff | src/common/detail/lct_queue.hpp:98-117 | some run leaves a producer asleep although there is room if and only if there are at least two threads and producers wait at all |
| QueueMonitor.BecomesStuckIff | src/common/detail/lct_queue.hpp:98-117 | a dequeue does not notify: a step leaves a producer asleep with room exactly when it takes an item while a producer sleeps |
| QueueMonitor.WakesIff | src/common/detail/lct_queue.hpp:68-70 | a sleeping thread is woken exactly by quitting, by a wake-up of its own, or by a step that adds an item |
| QueueMonitor.GetStuck | src/common/detail/lct_queue.hpp:50-117 | for every such queue, a run that ends with a producer asleep and room |
| Workers.TasksStartOnceInOrder | src/common/detail/lct_thread_pool_impl.cpp:24-41 | tasks are started in the order accepted, each at most once, and each started task is finished or in one worker's hands |
| Workers.OneWorkerDeliversInOrder | src/log/detail/lct_log_sink_pool.h:64-73 | with one worker the delivered messages are always a prefix of the accepted ones, at most one of them under way |
| Workers.OneLateTaskEach | src/common/detail/lct_thread_pool_impl.cpp:43-53 | after the flag is cleared each worker starts at most one further task |
| Workers.WorkersStay | src/common/detail/lct_thread_pool_impl.cpp:24-41 | while the flag is up no worker has left: each runs a task, is about to look for one, or sleeps on a queue without items |
| Workers.WorkersExit | src/common/detail/lct_thread_pool_impl.cpp:43-53 | after shutdown each worker takes at most three more steps, however clients go on, and it has exited exactly when it can take none |
| Workers.StepsWindDown | src/common/detail/lct_thread_pool_impl.cpp:30-35 | after quit each step of a worker brings its own exit nearer, and no other step moves it |
| Workers.RunsKeepPoolInv | src/common/detail/lct_thread_pool_impl.cpp:24-53 | the invariant of the pool in every state of every run |
| LogRotation.NamesDifferIffApart | src/log/detail/lct_log_sink.cpp:101-108 | the names of all places differ if and only if the file count is at most 2^32; above that the index, narrowed to 32 bits, repeats |
| LogRotation.NamesDiffer | src/log/detail/lct_log_sink.cpp:101-108 | two places share a name exactly when both are old files and their indices are equal in 32 bits: padding is injective |
| LogRotation.DigitCount | src/log/detail/lct_log_sink.cpp:15-26 | the loop counts decimal digits, none for 0 and -1 for a negative number |
| LogRotation.IndexOnDigitCount | src/log/detail/lct_log_sink.cpp:28-39 | the loop pads the decimal with zeros to the width |
| LogRotation.PaddedRoundTrip | src/log/detail/lct_log_sink.cpp:28-39 | a padded index reads back as the index |
| LogRotation.DigitsCountDecimal | src/log/detail/lct_log_sink.cpp:15-26 | the digits counted of a positive number are those of its decimal |
| LogRotation.PaddedWidth | src/log/detail/lct_log_sink.cpp:28-39 | the padded decimal of a positive number is as wide as asked for, or as the number |
| LogRotation.NarrowIsInt32 | src/log/detail/lct_log_sink.cpp:101-108 | an index passed as a 32-bit signed number differs by whole multiples of 2^32 |
| LogRotation.NameSpelling | src/log/detail/lct_log_sink.cpp:101-108 | the live file is prefix.log, an old one prefix_index.log with the index as wide as the file count less one |
| LogRotation.NamesAreAligned | src/log/detail/lct_log_sink.cpp:101-108 | the names of all old files but the last are equally long |
| LogRotation.RotateFileSink.CalcFileName | src/log/detail/lct_log_sink.cpp:101-108 | the name built from prefix, padded index and suffix |
| LogRotation.RotateFileSink.Rotate | src/log/detail/lct_log_sink.cpp:80-99 | every file moves up one place, the oldest is dropped, the live file is new, and no other file is touched |
| LogRotation.ShiftOne | src/log/detail/lct_log_sink.cpp:83-97 | one round of the loop: what it keeps |
| LogRotation.ShiftedForgetsOldest | src/log/detail/lct_log_sink.cpp:75-99 | read from the oldest on, a rotation loses the oldest file and nothing else |
| LogRotation.RotateFileSink.SinkIt | src/log/detail/lct_log_sink.h:61-76 | what a log call does to the files; the counter stays the size of the live file if and only if it did not rotate, or has a place for an old file, or the live file was empty; then the live file is within the limit or holds just this message |
| LogRotation.CounterGoesWrong | src/log/detail/lct_log_sink.h:61-76 | from an empty directory and without a place for old files, two messages after which the counter is wrong |
| LogRotation.SunkForgetsOldest | src/log/detail/lct_log_sink.h:61-76 | read from the oldest on, a log call adds the message and loses at most the oldest file, on a rotation |
| LogRotation.SunkKeepsSuffix | src/log/detail/lct_log_sink.h:61-76 | what the files hold stays a suffix of all that was ever logged |
| LogRotation.RotateFileSink.LogAll | src/log/detail/lct_log_sink.h:54-76 | both over whole runs of log calls |
| LogRotation.RotateFileSink.constructor | src/log/detail/lct_log_sink.cpp:47-63 | opening keeps what is there and starts the counter at the size of the live file |
| Calendar.NextDateIsNextDay | src/common/detail/lct_common_util.cpp:159-171 | the next date is a valid date and its Gregorian day number is one larger |
| Calendar.DateOrderIsDayOrder | src/common/detail/lct_common_util.cpp:119-138 | YYYYMMDD numbers of valid dates are ordered as their day numbers |
| Calendar.YearLength | src/common/detail/lct_common_util.cpp:119-126 | a year has 366 days exactly when IsLeapYear, counted by the closed formula for the days before a year |
| Calendar.MonthLengths | src/common/detail/lct_common_util.cpp:194-195 | the month tables agree with the rule of 30 and 31 days that alternates up to July and again from August, and 28 or 29 days in February |
| Calendar.NextFits | src/common/detail/lct_common_util.cpp:159-171 | the next date fits into 32 bits exactly when the date is before 214748-12-31 |
| Calendar.GetRangeDate | src/common/detail/lct_common_util.cpp:173-187 | the loop ends with exactly the valid dates from begin to end in ascending order, dayNumber(end) - dayNumber(begin) + 1 of them between valid dates; from a begin that is no date it first counts up by one to the first date |
| Calendar.BeforeFirstDate | src/common/detail/lct_common_util.cpp:159-171 | before the first date the next date is the next number, and it gets there |

## Left out

- Rounding of JSON numbers: a number is its exact value, where `strtold` rounds it to a `long double` and
  the library to a `double`; so a number that only rounding makes an integer stays a float here. Printing
  of floats with `setprecision`.
- JsonGrammar.ParseIsExact: returns the exact value of a number, without that rounding.
- JsonParser.Parser.ParseInternal: that rounding; and the check that `strtold` stops where the token ends, which
  only fails where the text is rejected anyway (`JsonLexer.NumberRunsOn`), with another kind of failure.
- The filtering callback of the parser, refilling from a stream, iterators, constructors, the texts of
  error messages, and the result after a failed parse (the model keeps the kind of failure and the token).
- RFC 7159 conformance of string tokens: the scanner lets the raw bytes 0x10 to 0x1F pass, so the
  tokens of the grammar are the scanner's. A NUL byte ends the input, and what follows it is ignored.
- JsonOrder.StrictTotalOrder: says nothing of floats and discarded values, on which the operators are
  not an order.
- Id engine: `spawnId` concurrent with a day switch, runs that go on after a failed write, wrap-around
  of 64-bit counters, and the unused maximum. The clock does not go back.
- Analyzer: parsing and printing of files, rounding of `float` efficiencies (they are reals), wrap-around
  of the 64-bit products in the feasibility test.
- Circular buffer: the generic template, the constructors from data, `decrement`, the overloads of `pop`
  and `popN` that drop the bytes, and what reads yield once a buffer is broken.
- The queue and the workers are state machines over values: a step is what happens under the mutex, flag
  accesses are atomic, and data races on the plain `bool` flags, thread creation and destruction are not
  modelled. Progress of blocked producers is not claimed.
- Workers: tasks end; starting again after a shutdown; the dispatch over several sinks; what is still
  queued when the last worker exits is not delivered.
- Log rotation: failing file operations, real handles and flushing, wrap-around of the 64-bit size counter,
  the daily sinks, whose names depend on the clock.
- LogRotation.RotateFileSink.Rotate: with more than 2^32 files, where old files share names, only the live
  file is described.
- LogRotation.RotateFileSink.SinkIt: the same, beside the counter.
- LogRotation.RotateFileSink.LogAll: the same; what the old files hold is said for at most 2^32 files.
- Calendar: numbers without a month, on which the month tables are read out of bounds, and ranges up to the
  last date that 32 bits hold, where the loop overflows.
- The services around the engine, the database and configuration wrappers, time formatting, string and hex
  helpers, tutorials and the other benches: calls into other systems, or short functions without state.
