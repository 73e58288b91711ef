# InstaWorks, verified

A Dafny model of the parts of the InstaWorks server framework whose behaviour is easiest to
get wrong, with proofs of what its documentation and tests promise.

- **JSON** (`external/parson`): values, the two-pass serializer, the recursive-descent parser,
  UTF-16 escapes and UTF-8, comments, equality and deep copy, dotted names. `Text`, `Collections`,
  `Utf8`, `JsonNumber`, `JsonValue`, `JsonObject`, `JsonPrint`, `JsonParse` (what is accepted),
  `JsonParser` (the cursor that computes it), `JsonGrammar` (the same without a parser),
  `JsonLayout`, `JsonRoundTrip`, `JsonLimits`, `JsonReparse`, `JsonComments`, `JsonEquality`,
  `JsonPath`.
- **Syslog** (`src/iw_syslog.c`): variable-length records in a byte ring, against a queue of
  messages. `Syslog`.
- **Tracked mutexes** (`src/iw_mutex.c`, `src/iw_thread.c`, `examples/philosophers`): a
  protocol of interleaved steps, the walk over the recorded waits, and a locking discipline.
  `Mutex`, `DeadlockCheck`, `Philosophers`.
- **Hash table** (`src/iw_htable.c`): chained buckets against a map, and sorted iteration
  without a sorted structure. `HashTable`.
- **Value store and configuration** (`src/iw_val_store.c`, `src/iw_cfg.c`): a store that keeps
  its criteria, and a save and load through a JSON text. `ValStore`, `ConfigTree`, `Config`.
- **HTTP requests** (`src/iw_web_req.c`, `src/iw_parse.c`): a parser that is called again as a
  request arrives. `WebParse`, `WebForm`, `WebRequest`, `WebRendered`, `WebRefused`, `WebExamples`,
  `WebReq`.

Code that changes state in place is a class or a method with a loop, proved against a function
of values; the laws are lemmas about those functions. C strings are sequences of characters
below 256; memory is always granted; an index into a buffer is a natural number.

Where the code does something other than its description, the model follows the code. For each
of these an exact condition says when it happens, and a member shows it at a concrete input:

- a syslog message whose text leaves no room for its terminator loses its last byte, and the
  length stored and returned is more than the space it was given
  (`Syslog.EntryOverrunsExactly`; `Syslog.Buffer.Overrun`);
- the deadlock check runs for ever when it comes to a thread that waits for deadlocked others
  (`DeadlockCheck.CheckRunsForeverExactly`; `DeadlockCheck.EndlessWalkIsReachable`), and reports
  a thread that has just locked a free mutex (`DeadlockCheck.CheckIsExact`;
  `DeadlockCheck.FalseAlarmIsReachable`);
- one philosopher alone deadlocks in correct mode too (`Philosophers.DeadlockExactly`, whose proof
  gives the run);
- replacing adds are not counted as collisions, removals are (`HashTable.CountersSay`;
  `HashTable.CollisionsWrapAround`), and a table's own hash function is used to look up but not
  to add (`HashTable.InsertThenGet`; `HashTable.OwnHashMisses`);
- a rejected address is answered like an accepted one (`ValStore.Store.SetAddress`;
  `ValStore.AddressRefusedQuietly`), and a number set by text is taken modulo 2 to the 32
  (`ValStore.PortByText`; `ValStore.PortFromLongNumber`);
- one persisted string with a control character that is printed unescaped makes the whole saved
  file unreadable (`Config.SaveThenLoad`; `Config.ControlLosesAll`);
- of two persisted names one of which extends the other only the shorter is saved
  (`ConfigTree.AllKeptExactly`, `ConfigTree.KeptAreShortest`; `ConfigTree.LongerIsLost`);
- persisted addresses are saved as strings and not loaded back (`Config.SaveThenLoad`;
  `Config.AddressIsNotLoadedBack`), and saving always answers `false` (`Config.Save`);
- a form whose body ends in an equal sign makes the parser follow a null pointer
  (`WebForm.QueryCrashesExactly`, `WebRendered.WholeIsComplete`; `WebExamples.FormCrashes`);
- a last parameter value that holds an equal sign is read again as a query of its own
  (`WebForm.QueryParts`; `WebForm.SplitAgain`);
- a blank Content-Length takes its number from the next line if that has been received
  (`WebRequest.ResumeExactly`; `WebExamples.BlankLengthIsLost`);
- a string with a control character that only an escape can carry is accepted, but its printed
  form is not (`JsonReparse.Reparse`; `JsonReparse.ControlNotReparsed`);
- a name may start with any character in place of its opening quote (`JsonGrammar.AcceptedExactly`;
  `JsonGrammar.NameWithoutQuote`);
- printing keeps six decimals (`JsonRoundTrip.RoundTripExactly`; `JsonRoundTrip.SmallNumberIsLost`),
  and equality allows for less than one millionth, which makes it no equivalence
  (`JsonEquality.EqualsIsSameMeaning`; `JsonEquality.EqualsIsNotTransitive`).

`dafny verify dfyconfig.toml` verifies the project.

## Model

| member | source | states |
|---|---|---|
| `Text.StrToLLOfPrintInt` | src/iw_util.c:27-46 | `iw_util_strtoll` in base 10 reads back every printed `long long`, also the smallest, whatever text follows it after white space |
| `Text.NumbersAreRead` | src/iw_util.c:27-46 | behind white space and at most one sign all digits of the base are read: in base 16 and 0 after `0x` hexadecimal ones, in base 0 after a leading zero octal ones; the number is answered exactly if it is a `long long` and nothing or white space follows |
| `Text.NothingIsRead` | src/iw_util.c:27-46 | where no digit follows nothing is read |
| `Text.DigitsAre` | src/iw_util.c:27-46 | the sixteen digits in either case have the values 0 to 15, and no other character has one of these |
| `Text.WrittenValue` | src/iw_util.c:27-46 | the value of the digits a number is written with in base 8, 10 or 16 is that number |
| `Utf8.EscapeIsUtf8` | external/parson/parson.c:453-493 | a `\u` escape or surrogate pair is accepted exactly if it denotes a scalar value as its hexadecimal digits say (`\u0000` is accepted too), and the bytes written are then one valid shortest-form sequence for that very code point (RFC 3629 section 3) |
| `Utf8.CombineHalves` | external/parson/parson.c:469-480 | the two halves of a code point beyond 65535, `0xD800` and a quotient by 1024, `0xDC00` and the remainder, are put together to that code point |
| `Utf8.EscapeRead` | external/parson/parson.c:453-493 | every scalar value is read from its escape, four hexadecimal digits or a pair of its halves, and becomes the bytes of its encoding |
| `Utf8.PairExample` | external/parson/parson.c:453-493 | the pair d83d, de00 becomes the four bytes of U+1F600 |
| `Utf8.VerifyEncoded` | external/parson/parson.c:161-201 | `verify_utf8_sequence` accepts the encoding of every scalar value and reports its length and code point |
| `Utf8.VerifiedIsEncoded` | external/parson/parson.c:161-201 | whatever `verify_utf8_sequence` accepts is the shortest-form encoding of the code point it decodes |
| `Utf8.ValidOfEncoding` | external/parson/parson.c:203-213 | `is_valid_utf8` accepts the encoding of every sequence of scalar values |
| `Utf8.EncodingOfValid` | external/parson/parson.c:203-213 | and nothing else: every string it accepts is such an encoding |
| `JsonValue.ObjectAddExactly` | external/parson/parson.c:301-322 | adding succeeds exactly for a new name while the object has room or can double within its limit; other names read what they read before, and names stay unique |
| `JsonValue.RoomOnLadder` | external/parson/parson.c:301-320 | an object or array that only grew has room exactly while it holds fewer elements than the limit |
| `JsonValue.RoomExactly` | external/parson/parson.c:307-313 | a full array or object grows to twice its capacity and to 15 at least, or not at all beyond the limit |
| `JsonLimits.NestingLimit` | external/parson/parson.c:555-558 | arrays nested 20 deep are accepted, and no deeper |
| `JsonLimits.ArrayLimit` | external/parson/parson.c:628-664 | arrays of up to 122880 elements are accepted, and no longer |
| `JsonLimits.ObjectLimit` | external/parson/parson.c:579-626 | objects of up to 960 members are accepted, and no larger |
| `JsonObject.Record.constructor` | external/parson/parson.c:290-299 | an empty object |
| `JsonObject.Record.Resize` | external/parson/parson.c:324-354 | the members move to new arrays of the capacity asked for; a capacity of zero is refused |
| `JsonObject.Record.Lookup` | external/parson/parson.c:356-366 | the value of the first member of the name |
| `JsonObject.Record.Add` | external/parson/parson.c:301-322 | growing and appending in place is `ObjectAdd` on the members held |
| `JsonObject.Record.Set` | external/parson/parson.c:1456-1473 | overwriting or appending in place, and nothing else changes |
| `JsonObject.Record.Remove` | external/parson/parson.c:1566-1584 | the last member takes the place of the one removed |
| `JsonObject.RemovedReads` | external/parson/parson.c:1566-1584 | which takes away that name and no other |
| `JsonPrint.SerializeString` | external/parson/parson.c:835-861 | writes exactly the quoted, escaped text, or with no buffer only counts it |
| `JsonPrint.SerializeValue` | external/parson/parson.c:725-833 | with a buffer the exact text of the value and a terminator, nothing outside; without one the same count, for every value, level and form; numbers of type `int` as integers, all others with six decimals |
| `JsonPrint.SerializeToBuffer` | external/parson/parson.c:1219-1229 | succeeds exactly if the buffer has room for the text and its terminator, and then holds them |
| `JsonPrint.SerializeToString` | external/parson/parson.c:1251-1267 | the buffer allocated from the sizing pass is filled completely: the text and one NUL |
| `JsonLayout.CompactIsRow` | external/parson/parson.c:725-833 | the compact form is the elements or members between their brackets, separated by commas, without a blank |
| `JsonLayout.PrettyIsPage` | external/parson/parson.c:725-833 | the pretty form is one line for every bracket, element and member, indented by four blanks for each level, with a comma at the end of all but the last of a list and `: ` behind a name; an empty list takes one line |
| `JsonLayout.EscapesPrinted` | external/parson/parson.c:835-861 | seven characters are printed as escapes, each as its own, and no other |
| `JsonParser.SkipQuotes` | external/parson/parson.c:438-451 | the end of a quoted text is found as the specification finds it, and the cursor never passes the terminator |
| `JsonParser.DecodeUtf16` | external/parson/parson.c:453-493 | the in-place decoder equals the specification; it reads inside the quoted text and writes no more bytes than it read |
| `JsonParser.ProcessString` | external/parson/parson.c:495-541 | decoding writes inside the buffer it allocated and never reads beyond the quoted text |
| `JsonParser.GetQuotedString` | external/parson/parson.c:545-553 | the quoted string is decoded, or refused, as specified, and the cursor is behind its closing quote |
| `JsonParser.ParseValueAt` | external/parson/parson.c:555-577 | the parser with a moving cursor computes the specification on the rest of the text |
| `JsonParser.ParseArrayAt` | external/parson/parson.c:628-664 | the same for arrays, with growth and trimming |
| `JsonParser.ParseObjectAt` | external/parson/parson.c:579-626 | the same for objects, with repeated names refused |
| `JsonParser.ParseJson` | external/parson/parson.c:903-910 | the entry point accepts a text exactly if the specification does, with the same value |
| `JsonNumber.RoundedExactly` | external/parson/parson.c:811-818 | printing moves a number by at most half a millionth, and not at all exactly if it is of type `int` or has at most six decimals |
| `JsonNumber.PrintedForm` | external/parson/parson.c:811-818 | a number is printed without a point exactly if it is of type `int`, and then as that integer; with a minus sign exactly if it is below 0 |
| `JsonNumber.ScaledIs` | external/parson/parson.c:692-703 | an exponent multiplies with its power of ten, or divides by it |
| `JsonNumber.NumeralRead` | external/parson/parson.c:215-224 | every numeral (sign, digits, point, fraction, exponent, no superfluous zero) is read to its end and gives its value |
| `JsonNumber.NumeralFound` | external/parson/parson.c:692-703 | and whatever `strtod` takes and `is_decimal` lets pass is such a numeral |
| `JsonGrammar.UnitsRead` | external/parson/parson.c:438-541 | between quotes every sequence of characters, one-letter escapes, escaped code points and escaped surrogate pairs is found and decoded to its bytes |
| `JsonGrammar.EscapesAre` | external/parson/parson.c:506-518 | eight characters may follow a backslash, a slash among them, and each stands for its own character |
| `JsonGrammar.EscapeUnitRead` | external/parson/parson.c:453-493 | the escape of every scalar value, a surrogate pair included, is a legal unit that stands for the bytes of that value |
| `JsonGrammar.UnitsFound` | external/parson/parson.c:438-541 | and whatever is decoded is such a sequence |
| `JsonGrammar.TreeRead` | external/parson/parson.c:555-712 | every tree that keeps nesting, counts and different names is read from its writing, whatever follows that continues no number |
| `JsonGrammar.TreeFound` | external/parson/parson.c:555-712 | and whatever is accepted is the writing of such a tree of the same value |
| `JsonGrammar.AcceptedExactly` | external/parson/parson.c:903-910 | a text is accepted with a value exactly if it is, behind white space, the writing of a legal array or object of that value; what follows is not looked at |
| `JsonGrammar.NameWithoutQuote` | external/parson/parson.c:545-553 | the first character of a name is skipped unseen: `{xa":1}` is accepted as an object with the member `a`, which RFC 8259 section 4 does not allow |
| `JsonRoundTrip.RoundTrip` | external/parson/parson.c:555-833 | the compact or pretty text of any object or array with unique names parses back to the value, its capacities trimmed and its numbers rounded to six decimals, exactly if nesting, counts and characters are within the parser's limits; otherwise parsing fails |
| `JsonRoundTrip.RoundTripExactly` | external/parson/parson.c:555-833 | nothing but capacities is lost exactly if besides all numbers have at most six decimals |
| `JsonRoundTrip.SmallNumberIsLost` | external/parson/parson.c:811-818 | so 0.0000001 in an array comes back as 0 |
| `JsonRoundTrip.SecondRoundTrip` | external/parson/parson.c:555-833 | what was read back comes back as it is, every time |
| `JsonRoundTrip.ParsePrinted` | external/parson/parson.c:555-833 | the same for any value at any depth with any text behind it that does not continue a number |
| `JsonRoundTrip.ScalarsRefused` | external/parson/parson.c:903-910 | the text of a value that is no object or array is refused at the top |
| `JsonRoundTrip.QuotedOfPrint` | external/parson/parson.c:495-553 | a serialized string is read back exactly if it holds no control character the serializer leaves unescaped |
| `JsonRoundTrip.TrimKeepsText` | external/parson/parson.c:324-354 | trimming capacities changes no text |
| `JsonRoundTrip.PrintedHasNoNul` | external/parson/parson.c:725-861 | the text of a value whose strings are C strings is a C string |
| `JsonReparse.ParsedIsTidy` | external/parson/parson.c:555-664 | whatever text is accepted, the value has unique names, trimmed capacities, and nesting and counts within the limits |
| `JsonReparse.Reparse` | external/parson/parson.c:555-833 | whatever text is accepted: printing its value and parsing that succeeds exactly if no string holds a control character that is printed unescaped, and gives a value `json_value_equals` finds equal; the very same exactly if all numbers have at most six decimals |
| `JsonReparse.ControlNotReparsed` | external/parson/parson.c:495-553 | that condition can fail: the text `["\u0001"]` is accepted, and the printed form of its value is not |
| `JsonComments.SearchFindsFirst` | external/parson/parson.c:258-287 | a comment ends at the first occurrence of its end token |
| `JsonComments.CommentIsBlanked` | external/parson/parson.c:258-287 | a comment becomes as many blanks, its two tokens included, and what follows is treated as before |
| `JsonComments.OpenCommentStays` | external/parson/parson.c:258-287 | of a comment without an end only the opening token is blanked |
| `JsonComments.BlockCommentIgnored` | external/parson/parson.c:903-929 | a printed value behind a comment of the one kind is parsed as without it |
| `JsonComments.LineCommentIgnored` | external/parson/parson.c:903-929 | and behind a comment of the other kind |
| `JsonComments.RemoveComments` | external/parson/parson.c:258-287 | blanking comments in place equals the specification on the text, and touches nothing else |
| `JsonComments.PrintedHasNoComments` | external/parson/parson.c:258-287 | stripping is the identity on every printed text, also when strings contain comment tokens, quotes and backslashes |
| `JsonComments.CommentsMakeNoDifference` | external/parson/parson.c:903-929 | parsing printed text with and without comment support agrees |
| `JsonEquality.EqualsIsSameMeaning` | external/parson/parson.c:1671-1730 | `json_value_equals` holds exactly between values that denote the same document up to numbers less than one millionth apart; in a document objects are maps without order |
| `JsonEquality.NumbersEqualExactly` | external/parson/parson.c:1722 | two numbers are equal exactly if they are less than one millionth apart |
| `JsonEquality.EqualsIsSymmetric` | external/parson/parson.c:1671-1730 | it is reflexive and symmetric on values with unique names, although only one side's names are looked up |
| `JsonEquality.EqualsIsEquivalence` | external/parson/parson.c:1671-1730 | where numbers have at most six decimals it is having the same document, and so transitive |
| `JsonEquality.EqualsIsNotTransitive` | external/parson/parson.c:1722 | elsewhere it need not be: 0 equals 0.0000006, that equals 0.0000012, and 0 does not |
| `JsonEquality.RereadIsEqual` | external/parson/parson.c:725-833 | what a printed value is read back as equals the value, rounded numbers included |
| `JsonEquality.OrderDoesNotMatter` | external/parson/parson.c:1671-1730 | objects with the same members in another order are equal |
| `JsonEquality.DeepCopy` | external/parson/parson.c:1141-1211 | a copy is made exactly if all counts are within the limits, and then equals its source up to capacities |
| `JsonEquality.SameUpToCapacities` | external/parson/parson.c:1141-1211 | such a copy is equal to its source and serializes to the same text in every form |
| `JsonPath.DotGetReadsBack` | external/parson/parson.c:960-966 | after a successful dotted set the name reads the value |
| `JsonPath.DotGetElsewhere` | external/parson/parson.c:1491-1520 | and every name that is neither a prefix nor an extension of it reads what it read before |
| `JsonPath.LookupAfterSet` | external/parson/parson.c:1456-1520 | the full law: below the path the value is found, on the way there are objects, everywhere else nothing changed |
| `JsonPath.SetKeepsOrder` | external/parson/parson.c:1456-1520 | a set keeps the members in their order, a new one comes last, and an object grows for a new one only |
| `JsonPath.SetAtSucceedsExactly` | external/parson/parson.c:1491-1520 | a dotted set succeeds exactly if the names on the way are objects up to the first missing one, and the object that lacks it has room |
| `JsonPath.FailedSetChangesNothing` | external/parson/parson.c:1491-1520 | a failed set leaves the tree unchanged, capacities aside |
| `JsonPath.SetKeepsNamesUnique` | external/parson/parson.c:1456-1520 | names stay unique at every level, whether or not the set succeeds |
| `Syslog.BigEndianRoundTrip` | src/iw_syslog.c:107-170 | the stored length reads back |
| `Syslog.EntryOverrunsExactly` | src/iw_syslog.c:88-113 | the length stored and returned exceeds the space given exactly if the text is as long as the space behind a header, or is empty where the space is shorter than a header: the comparison leaves out the terminator |
| `Syslog.Buffer.Overrun` | src/iw_syslog.c:88-113 | at a text of five bytes and a buffer of 25: the length returned is 26, and what is stored is the length with its highest byte first, the time stamp, four bytes of the text and a terminator |
| `Syslog.NextIsSuffix` | src/iw_syslog.c:119-208 | a message shorter than the buffer, or that fits, becomes the newest, and only the oldest entries are given up; any other message changes nothing |
| `Syslog.NextGivesUpLeast` | src/iw_syslog.c:134-208 | nothing is given up without need: a message that fits is added; one that does not makes the least number of older entries give way that leaves room for its record, or all; where the end of the buffer is too short, all entries before the read position is reset go, and then the least number of the newer ones |
| `Syslog.Buffer.FourMessages` | src/iw_syslog.c:119-208 | of four messages of nine characters in a buffer of 100 bytes the last three are held |
| `Syslog.Buffer.constructor` | src/iw_syslog.c:216-229 | an empty buffer of the size asked for, or of the default size |
| `Syslog.Buffer.Clear` | src/iw_syslog.c:306-311 | empties the buffer |
| `Syslog.Buffer.WriteEntry` | src/iw_syslog.c:81-114 | stores the record, or returns the length it needs negated; where the text leaves no room for its terminator, stores the header, the text without its last byte and a terminator, and returns one more than the space; never writes outside the space |
| `Syslog.Buffer.ClearOld` | src/iw_syslog.c:174-191 | old records make way one by one, oldest first, until the gap is long enough or none are left |
| `Syslog.Buffer.Add` | src/iw_syslog.c:119-208 | the entries held after an add are those of the queue specification, all inside the buffer, and the representation invariant is kept; no entry is given up without need |
| `Syslog.Buffer.Display` | src/iw_syslog.c:242-302 | the two-pass reader shows exactly the entries held, oldest first: a suffix of all messages accepted so far |
| `Mutex.StepKeepsInv` | src/iw_mutex.c:107-165 | every interleaved step of lock, unlock or create keeps the relation between true holders, recorded owners, recorded waiters and program positions |
| `Mutex.OwnerIsHolder` | src/iw_mutex.c:144-161 | in every reachable state the recorded owner of a mutex, if set, truly holds it |
| `Mutex.CreatedIsFree` | src/iw_mutex.c:76-103 | a new mutex is free and has no owner, and all others are as they were |
| `Mutex.LockFree` | src/iw_mutex.c:107-150 | locking a free mutex makes the thread its holder and recorded owner, and in the end changes nothing else |
| `Mutex.Unlock` | src/iw_mutex.c:154-165 | unlocking it makes it free without an owner, and changes nothing else |
| `Mutex.LockHeld` | src/iw_mutex.c:107-131 | a thread that asks for a mutex that is held is recorded as waiting for it and cannot take it |
| `Mutex.CycleIsDeadlock` | src/iw_mutex.c:107-165 | two or more threads form a recorded cycle exactly if they are truly deadlocked |
| `Mutex.SelfCycle` | src/iw_mutex.c:144-147 | one thread forms a recorded cycle exactly if it waits for itself or is between recording itself as owner and withdrawing as waiter |
| `Mutex.StepKeepsDeadlock` | src/iw_mutex.c:107-165 | no step of any thread undoes a deadlock |
| `Mutex.CycleStays` | src/iw_mutex.c:107-165 | a recorded cycle of two or more threads stays in every later state, and its threads never get their mutexes |
| `DeadlockCheck.WalkBack` | src/iw_thread.c:532-578 | unless it runs for ever, the inner walk ends within the number of threads and finds a cycle through its start exactly if there is one |
| `DeadlockCheck.Check` | src/iw_thread.c:521-591 | unless it runs for ever, the whole check reports a deadlock exactly if the wait-for graph has a cycle |
| `DeadlockCheck.RunsForeverExactly` | src/iw_thread.c:532-578 | the inner loop runs for ever exactly if the walk repeats itself without coming back to its start, or comes to a thread that waits for a mutex missing from the table; for all tables |
| `DeadlockCheck.CheckRunsForeverExactly` | src/iw_thread.c:521-591 | the whole check runs for ever exactly if a thread with such a walk comes before every thread on a cycle; for all tables and orders |
| `DeadlockCheck.EndlessWalkIsReachable` | src/iw_thread.c:532-578 | a run of three threads reaches a state in which two are deadlocked and the check never ends |
| `DeadlockCheck.FoundIsCycle` | src/iw_thread.c:565-574 | whatever the tables, a report means a cycle through the start thread |
| `DeadlockCheck.OnCycleMeansDeadlock` | src/iw_thread.c:565-574 | in a reachable state a reported thread is deadlocked, together with the threads on its cycle, unless it has just recorded itself as owner |
| `DeadlockCheck.CheckIsExact` | src/iw_thread.c:521-591 | in a reachable state some thread is on a recorded cycle exactly if some threads are deadlocked or one thread is at that moment |
| `DeadlockCheck.FalseAlarmIsReachable` | src/iw_mutex.c:144-147 | that moment is reached by a run in which nobody is deadlocked |
| `Philosophers.MoveKeepsInv` | examples/philosophers/main.c:53-108 | every move keeps who holds which fork in step with where each philosopher is, in either mode |
| `Philosophers.ForksAre` | examples/philosophers/main.c:53-118 | the two forks are the one with the philosopher's own number and the one before it around the table; without correct mode the coin says which is first |
| `Philosophers.EvenForkFirst` | examples/philosophers/main.c:57-66 | in correct mode the first fork is even, and of two even ones it is the left |
| `Philosophers.OneRound` | examples/philosophers/main.c:82-103 | a philosopher who finds both forks free locks the first and then the second, unlocks the first and then the second, and leaves every mutex as it was |
| `Philosophers.FirstRanksLower` | examples/philosophers/main.c:57-66 | one order of the forks explains all choices in correct mode, also that of philosopher 0 of an odd number, both of whose forks are even |
| `Philosophers.SomeoneCanMove` | examples/philosophers/main.c:53-125 | following who holds the fork a philosopher waits for ends at one who can move |
| `Philosophers.CorrectModeIsSafe` | examples/philosophers/main.c:53-125 | correct mode, any number from two, every reachable state: no threads are deadlocked, no recorded cycle exists, and each philosopher can move or waits for one who can |
| `Philosophers.NeighboursDoNotEatTogether` | examples/philosophers/main.c:82-103 | no two philosophers who share a fork are past both locks at once, in either mode |
| `Philosophers.DeadlockExactly` | examples/philosophers/main.c:53-125 | a deadlock is reachable exactly without correct mode or for a single philosopher |
| `HashTable.ComputeHash` | src/iw_hash.c:19-34 | the byte loop computes the hash specification in 64-bit arithmetic |
| `HashTable.HashOneMore` | src/iw_hash.c:19-34 | one more byte makes a hash 33 times itself plus the byte, modulo 2 to the 64; the empty key has 5381, and no key 0 |
| `HashTable.Table.constructor` | src/iw_htable.c:23-40 | an empty map |
| `HashTable.Table.Get` | src/iw_htable.c:100-116 | the map's value, or null |
| `HashTable.Table.Remove` | src/iw_htable.c:120-160 | removes the key from the map and returns what it had; every counter follows |
| `HashTable.Table.Delete` | src/iw_htable.c:164-178 | the same, answering whether there was non-null data |
| `HashTable.Table.Replace` | src/iw_htable.c:44-85 | with a delete function what the table's own hash function finds gives way, without one the add is refused if the default hash is known; the new map, and what the collision counter misses |
| `HashTable.Table.InItsBucket` | src/iw_htable.c:51-52 | every node is in the bucket of its hash modulo the size of the table |
| `HashTable.AddKeepsUniqueExactly` | src/iw_htable.c:71-84 | adding at the head of a bucket keeps hashes unique exactly if the default hash is not in the table |
| `HashTable.InsertThenGet` | src/iw_htable.c:51-116 | what was just inserted is found exactly if the table's own hash function agrees with the default one on the key, or already led to equal data |
| `HashTable.OwnHashMisses` | src/iw_htable.c:51-116 | so a table with a hash function of its own need not find what was inserted |
| `HashTable.Table.Insert` | src/iw_htable.c:89-96 | adds at the head of its bucket exactly if the default hash of the key is new, and otherwise leaves every bucket as it is |
| `HashTable.CountersSay` | src/iw_htable.c:44-160 | `num_elems` is the size of the map; `collisions` is elements minus used buckets, less what replacing adds left uncounted (modulo the word) |
| `HashTable.CollisionsWrapAround` | src/iw_htable.c:55-70 | with replacing adds the collision counter can go below zero, to 4294967295 |
| `HashTable.AfterAdd` | src/iw_htable.c:72-83 | a new node at the head of its bucket keeps every node in bucket hash modulo size with unique hashes, and adds one binding |
| `HashTable.AfterDrop` | src/iw_htable.c:131-157 | unlinking a node keeps the same and drops one binding |
| `HashTable.Table.FirstNode` | src/iw_htable.c:224-234 | the first node in bucket order |
| `HashTable.Table.FindNode` | src/iw_htable.c:205-220 | the node with a hash, or that there is none |
| `HashTable.Table.NextNode` | src/iw_htable.c:238-259 | the node after the one with a hash |
| `HashTable.VisitAll` | src/iw_htable.c:263-275 | the plain iteration sees every element once |
| `HashTable.FirstIsLeast` | src/iw_htable.c:279-304 | under a strict total order the choice of the first is the least |
| `HashTable.NextIsLeastAbove` | src/iw_htable.c:308-343 | and the choice of the next is the least above the previous one, missing only after the greatest |
| `HashTable.Table.GetFirstOrdered` | src/iw_htable.c:279-304 | the loop makes that choice, for any comparator |
| `HashTable.Table.GetNextOrdered` | src/iw_htable.c:308-343 | the loop makes that choice, for any comparator |
| `HashTable.VisitOrdered` | src/iw_cmds.c:83-104 | for any strict total order on non-null data the ordered iteration visits every element exactly once, strictly ascending |
| `ValStore.CheckAcceptsExactly` | src/iw_val_store.c:178-236 | in a controlled store a value is accepted exactly if its name is registered and its type, callback and pattern agree |
| `ValStore.CheckAnswers` | src/iw_val_store.c:178-236 | when each answer is given, by cases on the type and the body: a name not registered, a body of another type, a refusing callback, a pattern that does not admit the string, the digits of the number or the text of the address, and otherwise acceptance |
| `ValStore.PatternDecides` | src/iw_val_store.c:204-235 | with a pattern and no callback a string, number or address is stored exactly if the pattern admits its text; if not, the answer is `IW_VAL_RET_FAILED_REGEXP` and nothing changes |
| `ValStore.OneCharacter` | includes/iw_val_store.h:73 | a setting of one character takes `a`, answers `IW_VAL_RET_FAILED_REGEXP` to `ab`, and still holds `a` |
| `ValStore.SetChangesExactly` | src/iw_val_store.c:168-240 | a rejected set changes nothing; an accepted one is read back under its name and leaves every other name alone |
| `ValStore.RunKeepsSound` | src/iw_val_store.c:168-553 | after any run of operations every stored value has a registered name and type and passes that name's callback and pattern |
| `ValStore.RunHoldsAdmitted` | src/iw_val_store.c:168-553 | and so every stored string, number or address is of the type registered, and its text is admitted by the pattern |
| `ValStore.NamesChangeExactly` | src/iw_val_store.c:478-553 | registering a new name binds it and a known one nothing; removing a name removes its criteria and its value; every other name is left alone |
| `ValStore.RunKeepsWell` | src/iw_val_store.c:244-375 | the typed setters moreover store each value under its own name |
| `ValStore.PortTextExactly` | includes/iw_val_store.h:70 | the port pattern matches exactly the texts of up to four digits, and of five without leading zero, whose value is at most 65535 |
| `ValStore.PortNumbersExactly` | includes/iw_val_store.h:70 | of the printed numbers it admits exactly 0 to 65535 |
| `ValStore.PortTakesExactly` | src/iw_val_store.c:204-235 | a setting with that pattern accepts exactly those numbers |
| `ValStore.PortHoldsPort` | src/iw_val_store.c:168-553 | and after any run holds one of them, if anything |
| `ValStore.ToIntExactly` | src/iw_val_store.c:346-355 | a `long long` kept in an `int` is itself exactly within 32 bits, and differs by a multiple of 2 to the 32 |
| `ValStore.SetByText` | src/iw_val_store.c:325-375 | setting by text, by the type of the value held: what is stored if the checks take it, and every answer |
| `ValStore.PortByText` | src/iw_val_store.c:346-355 | set by text, a port stores the number modulo 2 to the 32, and changes nothing if that is no port |
| `ValStore.PortFromLongNumber` | src/iw_val_store.c:346-355 | the text `4294967376` is accepted for a port, which then holds 80 |
| `ValStore.NumberByItsText` | src/iw_val_store.c:346-355 | a number set by the text it prints as is stored as it is |
| `ValStore.Store.constructor` | src/iw_val_store.c:141-153 | an empty store |
| `ValStore.Store.Lookup` | src/iw_val_store.c:388-393 | the value under a name |
| `ValStore.Store.Set` | src/iw_val_store.c:168-240 | answers with the first check that fails, by the cases of `CheckAnswers`, and then changes nothing; otherwise stores the value |
| `ValStore.Store.SetNumber` | src/iw_val_store.c:244-267 | the same for a number |
| `ValStore.Store.SetString` | src/iw_val_store.c:271-294 | the same for a string |
| `ValStore.Store.SetAddress` | src/iw_val_store.c:298-321 | the same for an address, except that a rejected one is answered like an accepted one |
| `ValStore.AddressRefusedQuietly` | src/iw_val_store.c:316-319 | such an answer occurs: the address is refused, not stored, and the answer is `IW_VAL_RET_OK` |
| `ValStore.Store.SetExistingValue` | src/iw_val_store.c:325-375 | the text is read as the type of the value held, and set under the same checks |
| `ValStore.Store.GetPersist` | src/iw_val_store.c:379-384 | whether the name is registered with its persist flag set |
| `ValStore.PersistIsAnswered` | src/iw_val_store.c:379-502 | a new name answers the flag it was registered with |
| `ValStore.Store.AddPlainName` | src/iw_val_store.c:489-502 | registers a name exactly if it is new |
| `ValStore.Store.AddCallbackName` | src/iw_val_store.c:506-520 | the same with a callback |
| `ValStore.Store.AddPatternName` | src/iw_val_store.c:524-543 | the same with a pattern, refused if it does not compile |
| `ValStore.Store.RemoveName` | src/iw_val_store.c:547-553 | removes the name and its value |
| `ConfigTree.SetSucceedsExactly` | src/iw_cfg.c:291-315 | one more set of the save loop succeeds exactly if no entry of the tree is in its way and at no step of its path more than 960 names would follow |
| `ConfigTree.AllKeptExactly` | src/iw_cfg.c:291-315 | the tree keeps every entry set exactly if no name extends another and no path is followed by more than 960 different names |
| `ConfigTree.KeptAreShortest` | src/iw_cfg.c:291-315 | where there is room it keeps those whose names extend no other, whatever the order in which they are set |
| `ConfigTree.LongerIsLost` | src/iw_cfg.c:291-315 | so of two names one of which extends the other the longer is lost, in either order |
| `ConfigTree.BuildSucceedsExactly` | src/iw_cfg.c:291-315 | with prefix-free names every set succeeds exactly if no path is followed by more than 960 different names |
| `ConfigTree.BuiltSoFar` | src/iw_cfg.c:291-315 | for any entries in any order: the tree holds the entries kept and nothing else, with unique names throughout |
| `ConfigTree.TreeSurvivesExactly` | src/iw_cfg.c:254-317 | it comes back through its pretty text exactly if the names and strings kept hold no control character that is printed unescaped and no path is too deep; otherwise the text is refused |
| `Config.LoadTree` | src/iw_cfg.c:161-227 | flattening such a tree sets exactly the settings whose leaves it holds and that accept them |
| `Config.EntriesAre` | src/iw_cfg.c:291-315 | saved are exactly the values whose names are registered with the persist flag set: a number as that number, a string or the text of an address as a string, if it is UTF-8 |
| `Config.EntriesInOrder` | src/iw_cfg.c:291-315 | and in the order in which the table is walked |
| `Config.NotPersistedStays` | src/iw_cfg.c:161-265 | whatever the file says, every setting registered without the persist flag, or not at all, is left as it was |
| `Config.LeafLoaded` | src/iw_cfg.c:180-218 | what a value in the file sets if its name is registered with the flag: a string itself, a number its integer part, a boolean 1 or 0, null and arrays nothing |
| `Config.FractionIsLost` | src/iw_cfg.c:206-211 | the integer part is the number without its fraction, towards zero |
| `Config.SaveThenLoad` | src/iw_cfg.c:231-326 | for any store: the text it saves is accepted exactly if the kept names and strings can be read back; then loading it into any store with the same names restores every number and UTF-8 string under `cfg` that the saved tree keeps, and leaves every other setting alone |
| `Config.AllRestored` | src/iw_cfg.c:231-326 | these are all persisted numbers and UTF-8 strings under `cfg`, where no name extends another and there is room |
| `Config.ControlLosesAll` | src/iw_cfg.c:231-326 | a store with a persisted number and a persisted string of the one character 1 saves both; loading the text is refused, and the number is not restored |
| `Config.AddressIsNotLoadedBack` | src/iw_cfg.c:197-309 | a store whose one persisted address is `::1` saves it; a store holding `::2` loads that text and still holds `::2` |
| `Config.Save` | src/iw_cfg.c:269-326 | writes the text of that tree for the values of the store's table, and always answers `false` |
| `Config.LoadMember` | src/iw_cfg.c:161-227 | sets the store as the flattening specification says |
| `Config.Load` | src/iw_cfg.c:231-265 | parses the text and loads the members of `cfg`, or refuses the text and changes nothing |
| `WebParse.FindToken` | src/iw_parse.c:24-42 | the offset behind the first occurrence of the token, or no change |
| `WebParse.IsToken` | src/iw_parse.c:46-65 | whether the token stands at the offset |
| `WebParse.ReadToToken` | src/iw_parse.c:69-114 | the text before the next token, without one blank at either side |
| `WebParse.FindExactly` | src/iw_parse.c:30-41 | what is found is the first occurrence, and nothing is found only if there is none |
| `WebParse.LettersAre` | src/iw_parse.c:130-138 | upper and lower case of a letter count as the same, and no other two characters do |
| `WebRendered.TrimmedIs` | src/iw_parse.c:91-104 | of the text one blank or tab is dropped at either side, and no more |
| `WebForm.DecodeInto` | src/iw_web_req.c:34-63 | the decoding loop writes inside its buffer and computes the specification |
| `WebForm.DecodeEncoded` | src/iw_web_req.c:34-63 | decoding undoes every percent-encoding of a byte string, with or without plus signs for blanks (RFC 3986 section 2.1) |
| `WebForm.EscapesRead` | src/iw_web_req.c:42-51 | what any two characters behind a percent sign are read as, malformed escapes included |
| `WebForm.NulCuts` | src/iw_web_req.c:34-63 | an escaped NUL ends the decoded text |
| `WebForm.PercentEncodes` | src/iw_web_req.c:34-63 | the encoding that escapes everything but unreserved characters is one of them |
| `WebForm.ParseQuery` | src/iw_web_req.c:162-196 | the parameter loop ends, since its offset grows, and yields the specified list or follows a null pointer |
| `WebForm.QueryParts` | src/iw_web_req.c:162-196 | any text: the name goes up to the first equal sign, the value up to the next ampersand, and the rest is split likewise; a last value goes to the end and is then split as a query of its own, so that one more equal sign in it makes one more parameter |
| `WebForm.SplitAgain` | src/iw_web_req.c:162-196 | so a query like `a=b=c` gives two parameters, `a` and `b`, the second with value `c` |
| `WebForm.QueryOfForm` | src/iw_web_req.c:162-196 | query parsing undoes form encoding, in order, for any fields; it follows a null pointer exactly if the last value is empty and nothing of the request follows |
| `WebForm.QueryCrashesExactly` | src/iw_web_req.c:181-190 | for any text up to the parse point it does so exactly if the text ends in an equal sign |
| `WebReq.WebReq.constructor` | src/iw_web_req.c:88-90 | a blank request |
| `WebRequest.MethodsAre` | src/iw_web_req.c:217-236 | exactly seven names are methods, and `iw_web_req_method_str` (lines 400-412) prints each method by the name it was read from |
| `WebRefused.OtherMethodsRefused` | src/iw_web_req.c:212-240 | a request whose first word is one of these names gets the method of that name; with any other word it is refused |
| `WebRefused.NoBlankRefused` | src/iw_web_req.c:212-250 | a request whose first line holds no blank is refused |
| `WebRefused.NoSecondBlank` | src/iw_web_req.c:212-250 | so is one with a line end and a single blank |
| `WebRefused.NoColonRefused` | src/iw_web_req.c:275-300 | so is one where, behind a well-formed request line and any number of header lines, a line end comes and no colon |
| `WebRefused.NameOverLines` | src/iw_web_req.c:290-328 | a header name goes up to the first colon, over line ends if it must |
| `WebReq.WebReq.ParseRequestLine` | src/iw_web_req.c:204-272 | the request line, as specified |
| `WebReq.WebReq.ParseHeaders` | src/iw_web_req.c:275-328 | the header loop ends and reads all complete header lines |
| `WebReq.WebReq.FindHeader` | src/iw_web_req.c:416-429 | the first header of a name, ignoring case |
| `WebReq.WebReq.ParseBody` | src/iw_web_req.c:334-386 | the body, and its fields if it is a form |
| `WebReq.WebReq.ParseMore` | src/iw_web_req.c:200-386 | one call: the answer and the whole state of the request object |
| `WebRequest.LengthSettled` | src/iw_web_req.c:317-323 | a Content-Length that is not blank is read from its value alone |
| `WebRequest.LengthModulo` | src/iw_web_req.c:317-323 | the length is taken modulo 2 to the 32, and text that is no number leaves it as it was |
| `WebRequest.ResumeExactly` | src/iw_web_req.c:200-386 | for any text: after an answer of `Incomplete` a call with a longer buffer gives what one call on that buffer would give, exactly if the header lines already read give the same length in both buffers or a header line to come sets the length |
| `WebRequest.Resume` | src/iw_web_req.c:200-386 | such a call gives what one call would give whenever no Content-Length already read is blank |
| `WebExamples.BlankLengthIsLost` | src/iw_web_req.c:317-323 | that condition can fail: of `GET / HTTP/1.1`, a blank Content-Length, the line `5 :`, an empty line and `hello`, one call makes a request with content `hello`, and two calls split after the second line make one without content |
| `WebRendered.PrefixIsIncomplete` | src/iw_web_req.c:200-345 | every proper prefix of a well-formed request is answered with `Incomplete` |
| `WebRendered.WholeIsComplete` | src/iw_web_req.c:200-386 | the whole request is answered with `Complete`, with a method whose printed name is that of the request, its URI, version, headers, content and parse point; a form whose body ends in an equal sign makes the parser follow a null pointer instead |
| `WebExamples.FormCrashes` | src/iw_web_req.c:162-190 | a well-formed request at which it does: a `POST` of a form whose body is `a=` |
| `WebRendered.GrowingPrefixes` | src/iw_web_req.c:200-386 | over any growing sequence of prefixes every call before the last is answered with `Incomplete`, and the last gives what one call on the whole request gives |
| `WebRendered.FormsAreDecoded` | src/iw_web_req.c:242-366 | forms in the URI and in the body are decoded to their fields, in order, and the path is found |
| `WebReq.ReceiveRequest` | src/iw_web_srv.c:108-134 | however the bytes of a well-formed request are split, the receive loop ends with what one call on the whole would give |

## Left out

- JsonNumber.NumberOf: numbers are reals. That `strtod` rounds to the nearest `double`, integers
  above 2 to the 53 among them, and that huge exponents give infinity, is not modelled.
- JsonParser.ParseValueAt: `-inf` and `-nan`, which `strtod` takes after a minus sign and the code
  accepts, are refused.
- JsonParser.ParseArrayAt: elements `-inf` and `-nan`, likewise.
- JsonParser.ParseObjectAt: members `-inf` and `-nan`, likewise.
- JsonParser.ParseJson: texts that hold them, likewise.
- JsonGrammar.AcceptedExactly: texts that hold them, likewise.
- `json_array_remove`, `json_validate`, `json_value_free` and the accessors that only read a field.
- Allocation failure: every allocation succeeds.
- JsonPath.DotSet: one object is updated in place in `JsonObject`, but nested objects are values,
  so sharing parts of a tree is not captured; the parser's and the configuration's trees are
  built the same way. Arrays grow like objects and have no class of their own.
- HashTable.Table.Replace: a bucket's chain is a sequence, so the links between nodes are not
  captured; two keys with the same hash are one key, as they are in the table. The size of a
  table is positive. A replacing add is excluded where the default hash is in the table and the
  table's own hash function finds something else, since two nodes then share a hash
  (`HashTable.AddKeepsUniqueExactly`).
- HashTable.Table.GetNextOrdered: the elements are not changed during an iteration.
- Syslog.Buffer.Add: a message whose text length equals the space left at the first attempt less
  the header is excluded, since the length returned then moves the write position past that
  space (`Syslog.EntryOverrunsExactly`). The reader's rendering of the time stamp is not modelled.
- Syslog.Buffer.WriteEntry: an empty text where the space is shorter than a header is excluded,
  since the code then stores the header beyond the space.
- Mutex.StepKeepsInv: mutexes are not destroyed while in use, and only a holder unlocks.
- DeadlockCheck.Check: the tables are read as one snapshot, though the mutex table can change
  during the walk.
- Philosophers.CorrectModeIsSafe: fairness is not modelled, so it is not shown that each
  philosopher eats in the end.
- ValStore.Store.Lookup: the code hands out a pointer into the store, through which a caller
  could change a value without the checks. Error texts are not modelled, nor is the refusal to
  create an address whose first bytes are zero.
- ValStore.Store.SetAddress: reading and printing addresses is foreign code; addresses are the
  text they print as. Patterns other than that of ports are arbitrary predicates.
- Config.Load: a `double` outside the range of `int` is taken for the smallest `int`; C leaves it
  open. Opening, reading and writing the file are not modelled.
- WebRequest.Parse: buffers shorter than 2 to the 31 bytes. Text that is read beyond the bytes
  received (a blank length, a percent sign at the very end) is taken for NUL. Logging is left out.
- WebReq.ReceiveRequest: the socket is the sequence of chunks it delivers, and the upper limit of
  the server's buffer is not modelled.
- `iw_web_req_sanitize`, responses, the web and command servers' threads, HTML generation, command
  tables, signal and crash handlers, logging to files, `iw_buff.c`, `iw_list.c`, `iw_memory.c`,
  `iw_ip.c` and `iw_cmdline.c`: input and output, or table lookups without a law of their own.
