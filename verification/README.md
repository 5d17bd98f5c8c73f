# Verified model of the Stator runtime

Stator compiles TypeScript to native code over a C runtime. The runtime's collections, promises, text codecs, number
conversions and object shapes are written for speed: hash tables with tombstones, one-pass scanners, caches, in-place
carries, two-pass buffers. Each of them must behave exactly like something much simpler that ECMA-262, Node or an RFC
describes. This project models those algorithms in Dafny in the form they have in C and TypeScript, mutable where they
are mutable, and proves that each one is that simpler thing; then it proves what the simpler thing is for.

`dafny verify dfyconfig.toml` checks all of it.

## The parts

**Promises** (`Promise*.dfy`). `PromiseModel` is the machine as a function on states: promises, reaction lists, one
queue, Promise.all records and the counter of unhandled rejections. `PromiseInvariant`, `PromiseSteps` and `PromiseRun`
carry one invariant through every step; its theorems hold in every state that any sequence of program actions and
microtasks can reach. User code is an oracle: each turn says what it did and whether it returned or threw.
A reaction that runs puts itself on record, whoever calls it; `PromiseOutcome` says what code outside a reaction leaves
alone. `PromiseFate` and `PromiseLaws` say what the promises of then, finally and Promise.all come to, in the runs in
which the program settles only promises whose resolving functions it was given, as the language has it; `PromiseCommands`
says what each thing a program does comes to, seen at once and in any later state.
`PromiseRuntime` is the machine over mutable objects; each method's new state is the function's.
The state change itself has no guard in the C code. Its safety is the count of *settlement tokens*: queued adoption jobs
and registered adoption reactions of a promise, of which there is exactly one while it is resolved and pending.

**Maps and Sets** (`Map*.dfy`). `MapModel` is the association list under SameValueZero, `MapTable` the entry array and the
open-addressed index with the invariant that every live entry is met before an empty cell, `MapRuntime` the class.
`MapRun` puts any sequence of operations together with the account of copies. `MapWalk` states walks as a cursor over a
history of changes, clears among them, and says exactly when a clear loses entries: it restarts entry numbers at 0 and leaves
the cursor where it is. `MapSets` has the seven set operations.

**JSON** (`Json*.dfy`, `KeyOrder.dfy`). `JsonModel` is the grammar as trees with every blank and every escape form kept,
`JsonParse` the parser as functions, `JsonComplete` and `JsonSound` the two directions that make it the grammar,
`JsonPrint` the printer and the round trip, `JsonText` that what it writes is the only compact text of the value, `JsonReader` and `JsonWriter` the cursor and the buffer. The 512 levels count
values on a path, the innermost scalar included. `KeyOrder` has array-index keys and enumeration order, which is why an
object comes back equal only if its keys already stand as they are listed.

**Paths** (`Path*.dfy`). Segments, their reduction, and the character scanner that must equal it; `resolve`, `normalize`,
`join`, and `relative` as the inverse of `resolve`.

**Text codecs** (`Codec*.dfy`). UTF-16 to key bytes (surrogates encoded), to C strings (surrogates scrubbed), and back.
`CodecStrict` compares the strict decoder with the Unicode practice of one U+FFFD for each maximal subpart, on arbitrary
bytes, and says exactly where it differs.

**Numbers** (`Numeric*.dfy`, `Decimal.dfy`). Doubles are pairs number * 2^exponent with a nearest-value predicate over all
of them, and Infinity; parseInt in each radix, `NumericSpelled` on which texts it reads, `NumericFold` on when its folded roundings are exact; integers printed in
a radix, with quotients that round (`NumericRadix`); words bit by bit, 32-bit conversions and operators; and toFixed of
every double.

**Dates** (`Date*.dfy`). The calendar, time values, local time under an arbitrary zone function, setters of both families,
ISO text, and in `DateGrammar` the grammar of the strings that are dates, with what each means.

**Shapes and inline caches** (`Shape*.dfy`). The transition tree, the objects on it, their prototype chains, access sites
with caches, and a world of all of them in which a whole run is compared with the run that has no caches. `ShapeAccess`
says what that run answers, from the nearest property on the chain.

**Arrays and strings** (`Array*.dfy`, `Strings*.dfy`). The stable merge sort with a comparator that may throw, splices in
the buffer, split and replace.

## Where code and documentation differ

- The comments in `jsrt_map.c` (272-275) say that a walk's cursor stays valid because compaction is suppressed; `clear` breaks this, as `MapWalk.ClearIsSafe` says exactly.
- The comment on `utf8_strict_step` (`jsrt_string.c` 238-246) promises one ill-formed maximal subsequence per step; at the end of input the code takes whatever is left, as `CodecStrict.StrictIsRecommended` says exactly.
- Year `-000000` is read as year 0; section 21.4.1.32 of ECMA-262 forbids it. The model follows the code (`jsrt_date.c` 676-700).
- `JSON.parse` refuses a key with U+0000, which RFC 8259 allows: property keys are C strings. The model follows the code.

## Model

| member | source | states |
|---|---|---|
| PromiseRun.SettledForever | packages/runtime/src/jsrt_promise.c:132-193 | once a promise is settled, no continuation of any run changes its state or its value; self-resolution, adoption chains and adoption cycles included |
| PromiseRun.ExactlyOneToken | packages/runtime/src/jsrt_promise.c:132-193 | in every reachable state a promise is unresolved and pending with no settlement token, or resolved and settled with none, or resolved and pending with exactly one |
| PromiseRun.AdoptFindsPending | packages/runtime/src/jsrt_promise.c:132-165 | whenever an adoption job comes up, the promise that the unguarded state change is about to settle is pending |
| PromiseRun.DeliveredInOrder | packages/runtime/src/jsrt_promise.c:48-145 | for each promise the reactions ever subscribed are, in that order, those delivered, those queued and those still registered: at most once each, in subscription order |
| PromiseRun.DeliveredValue | packages/runtime/src/jsrt_promise.c:108-145 | every reaction run or queued on behalf of a promise is handed that promise's own final state and value |
| PromiseOutcome.NeverInline | packages/runtime/src/jsrt_promise.c:48-94 | whatever a program does outside a microtask, no reaction goes on record, no element is delivered, nothing leaves the queue, no promise is decided but those it settles by name, and every reaction it subscribes is registered or behind the tasks that were waiting |
| PromiseOutcome.ExecOutside | packages/runtime/src/jsrt_promise.c:166-205 | the same of each single command: making a promise with then, finally or Promise.all never decides it |
| PromiseOutcome.StepRunsOne | packages/runtime/src/jsrt_promise.c:70-94 | a microtask runs the task at the head of the queue and no other, whatever its reaction does; a command runs none |
| PromiseOutcome.FirstComeFirstServed | packages/runtime/src/jsrt_promise.c:48-94 | in every run the tasks that ran are, one a microtask, the first ones ever queued: a later task never overtakes one that waits |
| PromiseLaws.OwedOutcome | packages/runtime/src/jsrt_promise.c:300-392 | a promise from then or finally is resolved by its own reaction, once, with what that answered, and by nothing else in any run in which the program settles only promises whose resolving functions it was given; and it is resolved once the queue is empty and its source is settled |
| PromiseLaws.ThenOutcome | packages/runtime/src/jsrt_promise.c:300-331 | without a callable handler for what its source came to, the promise comes to the same; with one, to what the handler returned or threw in its turn |
| PromiseLaws.FinallyOutcome | packages/runtime/src/jsrt_promise.c:340-392 | without a callable the source's settlement passes through; a callback that throws rejects with that; else the settlement passes through unless the callback's answer is rejected |
| PromiseLaws.AllOutcome | packages/runtime/src/jsrt_promise.c:209-262 | the combined promise is fulfilled, with the results in input order, exactly when every element is fulfilled and delivered; rejected exactly when a rejection was delivered, with the first; else unresolved; and settled once the queue is empty and every element is |
| PromiseCommands.AllMeans | packages/runtime/src/jsrt_promise.c:241-262 | Promise.all makes one promise and has, at each index, the argument there if it is a promise, else a promise fulfilled with it; that index is subscribed to it, and the tasks of those already settled are queued in input order |
| PromiseCommands.AllAnswers | packages/runtime/src/jsrt_promise.c:209-262 | in any later state of a fair run, from the arguments: the result at each index is the argument there or what that promise was fulfilled with; a rejection is that of an argument; settled once the queue is empty and the arguments are |
| PromiseCommands.BegunInRun | packages/runtime/src/jsrt_promise.c:241-262 | and every Promise.all of a run is such a one |
| PromiseCommands.ResolveMeans | packages/runtime/src/jsrt_promise.c:195-202 | a promise passes through; of anything else a new promise fulfilled with it, and nothing else changes |
| PromiseCommands.MakeMeans | packages/runtime/src/jsrt_promise.c:96-106 | a new promise is pending, unresolved and listened to by none |
| PromiseCommands.RejectMeans | packages/runtime/src/jsrt_promise.c:204-208 | a promise rejected with the reason, counted until it is listened to |
| PromiseCommands.PutMeans | packages/runtime/src/jsrt_promise.c:132-193 | a second settlement does nothing; with itself a TypeError; with another promise one job behind all tasks, the other left alone; with anything else that value, and the reactions queued in order |
| PromiseCommands.ThenMeans | packages/runtime/src/jsrt_promise.c:324-331 | one new promise, its two handlers in their places, subscribed behind all others |
| PromiseCommands.FinallyMeans | packages/runtime/src/jsrt_promise.c:384-392 | the same of finally and its callback |
| PromiseCommands.AdoptionComesFirst | packages/runtime/src/jsrt_promise.c:359-382 | when a callback of finally has answered, the adoption of the intermediate promise is queued before the thunk, and finds it pending |
| PromiseCommands.JobMeans | packages/runtime/src/jsrt_promise.c:147-165 | an adoption job subscribes when its turn comes |
| PromiseCommands.AwaitOutcome | packages/runtime/src/jsrt_promise.c:287-289 | in any later state at most one task resumes the frame for an await, with what the awaited value came to, and one has run once the queue is empty and that is settled |
| PromiseFate.TaskFated | packages/runtime/src/jsrt_promise.c:70-94 | every microtask of such a run keeps the books: an unresolved promise has its one reaction registered or queued, a resolved one none, and each Promise.all stands as its deliveries say |
| PromiseRun.UnhandledCountsOrphans | packages/runtime/src/jsrt_promise.c:108-145 | the unhandled counter is the number of rejected promises that were never subscribed to, so it never underflows and is positive exactly when one exists |
| PromiseRun.AdoptionAgrees | packages/runtime/src/jsrt_promise.c:151-193 | a promise that adopted another and is settled has the other's state and value; with an empty queue it is settled if the other is |
| PromiseRun.AllByIndex | packages/runtime/src/jsrt_promise.c:209-262 | in every run, fair or not: a counter at zero means every element fulfilled and the results in input order; with an empty queue and every element fulfilled the counter is zero |
| PromiseRun.RunTaskKeeps | packages/runtime/src/jsrt_promise.c:70-94 | running the next task, whatever its reaction does, keeps the machine's invariant and undoes no decision |
| PromiseRun.ExecKeeps | packages/runtime/src/jsrt_promise.c:166-205 | whatever a program does (create, settle, resolve, reject, then, finally, all, await) keeps the invariant and undoes no decision |
| PromiseRun.PromiseAllKeeps | packages/runtime/src/jsrt_promise.c:241-262 | subscribing one reaction per element, wrapped or not, keeps the invariant, the counter equal to the elements still to come |
| PromiseRun.FinallyReactKeeps | packages/runtime/src/jsrt_promise.c:350-382 | the intermediate promise of finally, adopted before its thunk is subscribed, keeps the invariant |
| PromiseSteps.SettleNowKeeps | packages/runtime/src/jsrt_promise.c:132-145 | the unguarded state change keeps the invariant for a promise whose settlement the caller holds |
| PromiseSteps.SubscribeKeeps | packages/runtime/src/jsrt_promise.c:108-130 | subscribing to a pending promise registers, to a settled one queues, and either way keeps the invariant and the token count |
| PromiseSteps.ResolveKeeps | packages/runtime/src/jsrt_promise.c:195-202 | resolving a value to a promise keeps the invariant: a promise is itself, anything else a new settled one |
| PromiseSteps.SettleKeeps | packages/runtime/src/jsrt_promise.c:166-193 | resolving (once, self-resolution a rejection, a promise adopted a turn later) keeps the invariant |
| PromiseRuntime.Runtime.SettleNow | packages/runtime/src/jsrt_promise.c:132-145 | settles the object in place and queues its reactions, first registered first, exactly as the specification state machine does |
| PromiseRuntime.Runtime.Subscribe | packages/runtime/src/jsrt_promise.c:108-130 | queues for a settled promise, registers for a pending one, and takes back the unhandled mark once |
| PromiseRuntime.Runtime.Settle | packages/runtime/src/jsrt_promise.c:166-193 | ignores a second resolution, rejects a self-resolution, queues one adoption for a promise, settles for any other value |
| PromiseRuntime.Runtime.PromiseAll | packages/runtime/src/jsrt_promise.c:241-262 | the loop over the elements leaves the state of the specification, one reaction per element |
| PromiseRuntime.Runtime.AllElementReact | packages/runtime/src/jsrt_promise.c:223-239 | leaves the state of the specification's delivery to Promise.all; `PromiseLaws.AllOutcome` says what comes of the deliveries |
| PromiseRuntime.Runtime.Then | packages/runtime/src/jsrt_promise.c:324-331 | one derived promise and one reaction |
| PromiseRuntime.Runtime.CallHandler | packages/runtime/src/jsrt_promise.c:308-322 | leaves the state of the specification's handler call; `PromiseLaws.ThenOutcome` says what the promise comes to |
| PromiseRuntime.Runtime.FinallyReactStep | packages/runtime/src/jsrt_promise.c:359-382 | leaves the state of the specification's finally reaction; `PromiseLaws.FinallyOutcome` says what the promise comes to |
| PromiseRuntime.Runtime.RunMicrotasks | packages/runtime/src/jsrt_promise.c:70-94 | the drain over mutable promises is the run of the specification over the same turns, keeps the invariant, and reports exactly when the queue is empty and an unawaited rejection remains |
| MapModel.SameKeySameHash | packages/runtime/src/jsrt_map.c:39-95 | two keys are SameValueZero exactly when what is hashed of them is the same, so equal keys hash equally under any mixing function |
| MapModel.GetAfterPut | packages/runtime/src/jsrt_map.c:214-266 | set changes the value under its own key and no other |
| MapModel.PutKeys | packages/runtime/src/jsrt_map.c:228-262 | a key already there keeps its place; a new one goes to the end |
| MapModel.PutStores | packages/runtime/src/jsrt_map.c:228-262 | +0 is stored for -0 and any other key as given; an entry that is there keeps its key, and all others are left alone |
| MapModel.GetAfterRemove | packages/runtime/src/jsrt_map.c:344-358 | delete removes its own key and no other, and a set after it puts the key at the end |
| MapModel.RemoveInOrder | packages/runtime/src/jsrt_map.c:344-358 | what a delete leaves keeps its order |
| MapTable.FreeAhead | packages/runtime/src/jsrt_map.c:134-158 | a table at most half full has an empty cell ahead of every start, so every probe ends |
| MapTable.InsertKeeps | packages/runtime/src/jsrt_map.c:251-262 | writing an entry's number into the empty cell its probe ended on keeps every other entry reachable before an empty cell |
| MapTable.MissMeansAbsent | packages/runtime/src/jsrt_map.c:134-158 | a probe that ends on an empty cell proves the key is not in the table |
| MapTable.RewriteEntryKeeps | packages/runtime/src/jsrt_map.c:344-358 | a tombstone left in place keeps every other entry reachable |
| MapTable.CompactKeeps | packages/runtime/src/jsrt_map.c:160-208 | dropping dead entries leaves the association list as it was, in order |
| MapTable.PutEntryLive | packages/runtime/src/jsrt_map.c:232-262 | appending or overwriting an entry is setting in the association list, and no key lives twice |
| MapTable.KillEntryLive | packages/runtime/src/jsrt_map.c:344-358 | killing an entry is deleting from the association list |
| MapRuntime.JSMap.Probe | packages/runtime/src/jsrt_map.c:134-158 | terminates in any valid table, also one being rebuilt; answers the live entry with the key, or an empty cell and the proof that there is none |
| MapTable.MaskIs | packages/runtime/src/jsrt_map.c:134-158 | masking a hash by one less than the index size is its remainder, the size being a power of two |
| MapRuntime.JSMap.Grow | packages/runtime/src/jsrt_map.c:160-208 | leaves half the capacity free, renumbers entries only when no walk is in progress, counts every entry it copies, and is paid for by earlier insertions |
| MapRuntime.JSMap.Put | packages/runtime/src/jsrt_map.c:232-262 | refines setting in the association list; a weak collection refuses a key that is no object; entries are renumbered only without a walk; the copies counted are the entries that had to move |
| MapRuntime.JSMap.Get | packages/runtime/src/jsrt_map.c:214-218 | answers the association list's value, or undefined |
| MapRuntime.JSMap.Delete | packages/runtime/src/jsrt_map.c:344-358 | refines removal, answers whether the key was there, moves no other entry |
| MapRuntime.JSMap.Clear | packages/runtime/src/jsrt_map.c:105-112 | leaves an empty collection whose walks stay counted |
| MapRuntime.JSMap.IterStep | packages/runtime/src/jsrt_map.c:305-318 | answers the first live entry from the cursor on, and the cursor past it |
| MapRun.RunOps | packages/runtime/src/jsrt_map.c:160-262 | any sequence of set, get, has, delete, clear and size, under any hash function, answers what the ordered association list answers, and all its growing has copied at most two entries per new key, every copy counted |
| MapWalk.WalkIsExact | packages/runtime/src/jsrt_map.c:272-318 | under any interleaving of sets, deletes and clears with the steps of a walk (and of walks nested in it), every entry passed since the last clear was seen since, once and in order, or is dead; without a clear no entry is renumbered and that holds from the start |
| MapWalk.AdvanceSeesNextLive | packages/runtime/src/jsrt_map.c:305-318 | a step answers exactly the next entry that is live when the cursor looks, appended ones included, with the key and value it has then |
| MapWalk.FinishedSawAll | packages/runtime/src/jsrt_map.c:279-292 | a walk that has ended, nothing having been cleared, saw every entry that lives |
| MapWalk.FinishedAfterClear | packages/runtime/src/jsrt_map.c:105-112 | with any number of clears under a walk, the last at cursor c, the ended walk has seen everything that lives exactly when nothing lives below c |
| MapWalk.ClearIsSafe | packages/runtime/src/jsrt_map.c:105-112 | a clear under a walk loses nothing, whatever follows, exactly when the cursor has not moved |
| MapWalk.ClearSkips | packages/runtime/src/jsrt_map.c:105-112 | the failing input: one insertion after a clear under a moved cursor is never visited |
| MapWalk.ForEach | packages/runtime/src/jsrt_map.c:279-292 | forEach over callbacks that set, delete, clear or throw is that walk: a step and then the changes of one callback, call by call; each is handed the key and value of the entry then; only a throw ends it early |
| MapSets.Union | packages/runtime/src/jsrt_map.c:433-439 | the receiver's elements, then those of the argument it lacks, in order |
| MapSets.WhereInOrder | packages/runtime/src/jsrt_map.c:433-480 | what a set operation selects keeps its order |
| MapSets.Intersection | packages/runtime/src/jsrt_map.c:441-449 | the common elements, in the order of the smaller operand |
| MapSets.Difference | packages/runtime/src/jsrt_map.c:451-455 | the receiver's elements that the argument lacks, in order |
| MapSets.SymmetricDifference | packages/runtime/src/jsrt_map.c:464-480 | what either has and the other lacks, the receiver's first, each part in its own order, although the loop deletes from the result as it goes |
| MapSets.IsSubsetOf | packages/runtime/src/jsrt_map.c:482-496 | true exactly when every element is in the argument; answering false on size alone is never wrong |
| MapSets.IsSupersetOf | packages/runtime/src/jsrt_map.c:498-510 | true exactly when every element of the argument is in the receiver |
| MapSets.IsDisjointFrom | packages/runtime/src/jsrt_map.c:512-526 | true exactly when no element is in both, whichever operand is walked |
| MapSets.ContainedIsNoLarger | packages/runtime/src/jsrt_map.c:482-510 | a collection is never contained in a smaller one |
| JsonSound.ParseIsGrammar | packages/runtime/src/jsrt_json.c:65-342 | JSON.parse answers v for a text exactly when the text is a document of the grammar of RFC 8259, nested at most 512 deep and without U+0000 in a key, whose value is v |
| JsonComplete.DocumentParses | packages/runtime/src/jsrt_json.c:290-342 | every document is read to its tree's value, or is too deep or has an impossible key and fails |
| JsonComplete.TreeReads | packages/runtime/src/jsrt_json.c:290-318 | from the text of a tree the parser reads that tree's value and stops at its end |
| JsonSound.ValueSound | packages/runtime/src/jsrt_json.c:290-318 | what the parser reads as a value is the text of a tree with that value |
| JsonSound.StringSound | packages/runtime/src/jsrt_json.c:65-148 | what the parser reads as a string is a string of the grammar, its escapes decoded |
| JsonSound.NumeralSound | packages/runtime/src/jsrt_json.c:161-212 | what the scanner takes as a number is a numeral of the grammar, and all of it |
| JsonModel.SetPropKeeps | packages/runtime/src/jsrt_json.c:216-250 | a repeated key keeps its place and takes its last value |
| JsonPrint.StringifyParses | packages/runtime/src/jsrt_print.c:2184-2329 | JSON.parse(JSON.stringify(v)) is v with what text cannot carry replaced, exactly when at most 512 values nest; deeper text is refused |
| JsonPrint.ValueComesBack | packages/runtime/src/jsrt_print.c:2184-2329 | JSON.parse(JSON.stringify(v)) is v itself exactly when at most 512 values nest and v holds no negative zero, NaN, infinity or undefined and lists its keys in enumeration order |
| JsonPrint.CanonSettles | packages/runtime/src/jsrt_print.c:2184-2329 | what comes back loses nothing more: a second trip is the identity |
| JsonPrint.GlyphsMean | packages/runtime/src/jsrt_print.c:2126-2180 | a quoted string, escapes and lone surrogates included, means the string unit for unit |
| JsonPrint.NumeralOfExact | packages/runtime/src/jsrt_print.c:89-117 | each of the five layouts is a numeral of the grammar and denotes the number exactly |
| JsonText.NumeralTidy | packages/runtime/src/jsrt_print.c:89-148 | an exponent is written exactly below 1e-6 and from 1e21 on, with its sign and behind one digit; no needless zero, and no sign on zero |
| JsonText.TidyUnique | packages/runtime/src/jsrt_print.c:89-148 | a number has only one such numeral |
| JsonText.GlyphsQuote | packages/runtime/src/jsrt_print.c:2126-2180 | short escapes where there are any, lower-case hex for other controls and lone surrogates, nothing else escaped |
| JsonText.StringifyIsOnly | packages/runtime/src/jsrt_print.c:2184-2329 | what is written has no blank, no key twice, tidy numbers and strings quoted that way; and any text of the same value with those properties is the same text |
| JsonText.CanonMeans | packages/runtime/src/jsrt_print.c:2184-2305 | what text cannot carry: null for a number that is not finite and for an undefined element, no undefined property, no sign on zero; every other property there, in listing order |
| JsonModel.EscapesAre | packages/runtime/src/jsrt_json.c:87-137 | the eight short escapes and what they stand for |
| JsonModel.HexDigitsAre | packages/runtime/src/jsrt_json.c:65-148 | hexadecimal digits of either case |
| JsonPrint.NumeralFits | packages/runtime/src/jsrt_print.c:89-148 | no number overruns the 64-byte buffer |
| JsonWriter.FormatPositive | packages/runtime/src/jsrt_print.c:89-117 | the characters written are the numeral of the shortest digits |
| JsonWriter.Buffer.JsonQuote | packages/runtime/src/jsrt_print.c:2126-2180 | the bytes appended read back as the quoted string |
| JsonWriter.Buffer.JsonValue | packages/runtime/src/jsrt_print.c:2184-2305 | the bytes appended read back as the spelling of the value's tree |
| JsonWriter.JsonStringify | packages/runtime/src/jsrt_print.c:2318-2329 | the text is the spelling of the value's tree |
| JsonWriter.RoundTrip | packages/runtime/src/jsrt_print.c:2318-2329 | running the writer and then the reader answers the canonical value exactly when at most 512 values nest |
| JsonReader.Parser.ParseStringUnits | packages/runtime/src/jsrt_json.c:87-137 | the cursor and the units are those of the grammar-level reader; every escape form |
| JsonReader.Parser.ScanNumber | packages/runtime/src/jsrt_json.c:170-212 | the cursor stops where the number of the grammar ends |
| JsonReader.Parser.ParseValue | packages/runtime/src/jsrt_json.c:290-318 | the mutable cursor reads what the parsing functions say, on every text and failure |
| JsonReader.ParseText | packages/runtime/src/jsrt_json.c:320-342 | the whole text or nothing: a value, blanks and the end |
| KeyOrder.KeyIsArrayIndex | packages/runtime/src/jsrt_shape.c:41-60 | true exactly on canonical decimal spellings below 2^32 - 1, with that number; the accumulator never passes it |
| KeyOrder.IndexSpelling | packages/runtime/src/jsrt_shape.c:41-60 | no index has two spellings |
| KeyOrder.OrderListed | packages/runtime/src/jsrt_shape.zig:105-148 | the listing holds each slot once: indices ascending, then the others as they were added |
| KeyOrder.ListingMeans | packages/runtime/src/jsrt_shape.zig:105-148 | indices come first, ascending; the other keys as they were added |
| KeyOrder.EverySlot | packages/runtime/src/jsrt_shape.zig:105-148 | and every slot is listed |
| KeyOrder.IndexMeans | packages/runtime/src/jsrt_shape.c:41-60 | the indices are the decimal spellings of the numbers below 2^32 - 1 |
| KeyOrder.PropertyOrder | packages/runtime/src/jsrt_shape.zig:131-148 | the insertion sort in place leaves that listing |
| PathRuntime.NodePathFold | packages/node/src/path.ts:33-94 | the one-pass scan over res, lastSegmentLength, lastSlash and dots is splitting into segments and reducing them against a stack, with or without leading .. |
| PathRuntime.FoldDotDot | packages/node/src/path.ts:33-94 | the .. branch cuts the last segment off the text, keeps a leading .. or drops it |
| PathModel.ReduceIsReduced | packages/node/src/path.ts:33-94 | a folded path holds no . or empty segment, and .. only in front, where allowed |
| PathModel.ReducedIsFixed | packages/node/src/path.ts:128-145 | reducing what is reduced changes nothing |
| PathModel.ReduceKeepsMeaning | packages/node/src/path.ts:128-145 | below any base, a relative path and its reduction lead to the same place |
| PathModel.ClimbAndDescend | packages/node/src/path.ts:164-211 | climbing out of what two places do not share and down again reaches the other |
| PathModel.WayIsShortest | packages/node/src/path.ts:164-211 | no relative path between two places has fewer segments than the one answered |
| PathModel.PlaceRules | packages/node/src/path.ts:98-125 | an empty argument of resolve changes nothing, a relative one is followed, an absolute one starts again, and none leaves the directory |
| PathRuntime.Resolve | packages/node/src/path.ts:98-125 | the loop from the last argument back answers the place the arguments lead to, rebuilt as text |
| PathRuntime.ResolvedIsPlace | packages/node/src/path.ts:98-125 | the answer is the canonical absolute name of the place exactly when some argument or the directory is absolute and the answer is not a directory that is not canonical |
| PathRuntime.Normalize | packages/node/src/path.ts:128-145 | the text around the fold: leading and trailing slash, . for nothing |
| PathRuntime.NormalizeMeans | packages/node/src/path.ts:128-145 | the text of the reduced segments with one slash between them and nothing else; absolute, and ending in a slash, where the path is and does |
| PathRuntime.ReadsUnique | packages/node/src/path.ts:128-145 | there is one such text |
| PathRuntime.NormalizeTwice | packages/node/src/path.ts:128-145 | normalize is idempotent |
| PathRuntime.NormalizeKeepsPlace | packages/node/src/path.ts:128-145 | resolve(base, normalize(p)) = resolve(base, p), wherever one of them or the directory is absolute |
| PathRuntime.JoinPaths | packages/node/src/path.ts:153-161 | a dot without arguments; else the text of all their segments reduced, absolute exactly when the first that is not empty is, ending in a slash exactly when the last one does or it is the root |
| PathRuntime.JoinFollowsEach | packages/node/src/path.ts:153-161 | join leads where its arguments lead, followed one after the other |
| PathRelative.CommonCharacters | packages/node/src/path.ts:164-211 | the loop finds how many characters agree and the last slash among them |
| PathRelative.LoopFindsLastShared | packages/node/src/path.ts:164-211 | where that loop ends decides the last place where both texts share whole segments, partial segments excluded |
| PathRelative.Relative | packages/node/src/path.ts:164-211 | the answer is .. for every segment not shared, then the rest of the target |
| PathRelative.RelativeInvertsResolve | packages/node/src/path.ts:98-125 | resolve(from, relative(from, to)) = resolve(to) exactly when resolve(to) is not a working directory that is not canonical |
| PathRelative.RelativeInverts | packages/node/src/path.ts:98-125 | so it holds for all paths from a canonical directory, and for an absolute target from any |
| NumericRuntime.ParsePowerOfTwo | packages/runtime/src/jsrt_numeric.c:578-620 | for any number of digits in radix 2, 4, 8, 16 or 32 the answer is a nearest double to the integer denoted, ties to even, the integer itself below 2^53, and Infinity exactly from 2^1024 - 2^970 on; the accumulator stays below 2^58 |
| NumericDouble.OverflowsFrom | packages/runtime/src/jsrt_numeric.c:578-620 | rounding to 53 bits and then capping the exponent overflows from half a last bit below 2^1024 on |
| NumericDouble.DoubleExact | packages/runtime/src/jsrt_numeric.c:578-620 | rounding loses nothing exactly when there is nothing below the 53rd bit and the number is in range |
| NumericModel.RoundedNearest | packages/runtime/src/jsrt_numeric.c:578-620 | half-to-even at the 53rd bit is nearest among all doubles of any exponent, not only among its neighbours in the window |
| NumericRuntime.WindowRounds | packages/runtime/src/jsrt_numeric.c:578-620 | the kept bits, the dropped bits and one sticky bit decide the rounding of the whole number |
| NumericText.ParseIntText | packages/runtime/src/jsrt_numeric.c:692-745 | the cursor reads what the reading function says; `NumericSpelled.ParsesInt` says what that is |
| NumericSpelled.ParsesInt | packages/runtime/src/jsrt_numeric.c:692-745 | a text is read as a sign, a radix and digits exactly when it is blanks, a sign or none, 0x or none, those digits behind zeros, and a rest that does not begin with a digit: radix 10 when none is asked for, 16 with a prefix then or in radix 16, else as asked |
| NumericSpelled.ParseInt | packages/runtime/src/jsrt_numeric.c:692-745 | not a number exactly when the text spells none in the radix asked for, or that is refused; else the sign and what the digits come to |
| NumericSpelled.SpelledReads | packages/runtime/src/jsrt_numeric.c:692-745 | every spelled integer is read as what it means |
| NumericSpelled.ReadIsSpelled | packages/runtime/src/jsrt_numeric.c:692-745 | whatever is read is spelled |
| NumericSpelled.SpacesAre | packages/runtime/src/jsrt_numeric.c:692-745 | the white space and line terminators skipped |
| NumericSpelled.DigitsAre | packages/runtime/src/jsrt_numeric.c:692-745 | decimal digits, then letters of either case |
| NumericText.ParseGenericRadix | packages/runtime/src/jsrt_numeric.c:625-662 | 32-bit chunks, each product and each sum rounded to a double, an overflow to Infinity; no chunk or multiplier passes 32 bits |
| NumericText.ParseMagnitude | packages/runtime/src/jsrt_numeric.c:692-745 | each radix takes its algorithm: rounded once in the binary ones, at every fold in the others, strtod in radix 10 |
| NumericFold.AnswerMeans | packages/runtime/src/jsrt_numeric.c:692-745 | radix 10 goes to strtod; radix 2, 4, 8, 16 and 32 answer a nearest double or Infinity; every other the number itself below 2^53 |
| NumericFold.ChunkIs | packages/runtime/src/jsrt_numeric.c:625-662 | a chunk is as long as its multiplier allows within 32 bits, and only the last is shorter |
| NumericFold.SmallIsNumber | packages/runtime/src/jsrt_numeric.c:625-662 | below 2^53 the folds give the integer denoted |
| NumericFold.SafeLengths | packages/runtime/src/jsrt_numeric.c:625-662 | every string of n digits is read exactly if and only if none of them denotes more than 2^53 |
| NumericFold.ExactAlongWhen | packages/runtime/src/jsrt_numeric.c:625-662 | the folds give the integer denoted at every step exactly when each sum is a double and none of the roundings ties twice |
| NumericDouble.FoldExact | packages/runtime/src/jsrt_numeric.c:640 | one fold is exact exactly when its sum is a double in range and product and sum do not both tie away from it; the product need not be a double |
| NumericFold.ExactOnly | packages/runtime/src/jsrt_numeric.c:625-662 | an exact answer takes an integer that a double can hold |
| NumericFold.FoldLoses | packages/runtime/src/jsrt_numeric.c:625-662 | the failing input: 1 and 34 zeros in radix 3 is not read as the odd number it denotes |
| NumericFold.RoundingsCancel | packages/runtime/src/jsrt_numeric.c:640 | a fold whose product no double holds and whose two roundings cancel |
| NumericFold.NumberReadsBack | packages/runtime/src/jsrt_numeric.c:692-745 | parseInt(n.toString(radix), radix) is n: up to 2^53 in every radix but 10, and for every integral double in the binary radices |
| NumericRadix.WriteInteger | packages/runtime/src/jsrt_number_methods.c:59-68 | for every integral double the digits fit the buffer and are digits of the radix, whatever direction the quotients round; they are the number's own for every integral double in the binary radices and below 2^53 in the others |
| NumericRadix.IntegerToRadix | packages/runtime/src/jsrt_number_methods.c:25-76 | the sign and those digits |
| NumericRadix.DividedOnce | packages/runtime/src/jsrt_number_methods.c:59-62 | dividing a double by the radix at least halves it, however the quotient is rounded |
| NumericRadix.TowardZeroFaithful | packages/runtime/src/jsrt_number_methods.c:59-62 | what is asked of the rounding can be had: rounding toward zero crosses no double |
| NumericRadix.ZeroExact | packages/runtime/src/jsrt_number_methods.c:59-62 | in a binary radix the digit of a number whose quotient is at least 2^53 is zero, and the quotient exact |
| NumericText.RadixTextMeans | packages/runtime/src/jsrt_number_methods.c:24-84 | printed digits denote the number, and only zero begins with one |
| NumericText.RadixTextLower | packages/runtime/src/jsrt_number_methods.c:24-84 | the digits above nine are lower-case letters |
| NumericText.PrintedReadsBack | packages/runtime/src/jsrt_numeric.c:692-745 | what is printed in a radix is read as its sign and its digits |
| NumericInt32.ConversionsAgree | packages/runtime/src/jsrt_numeric.c:30-70 | ToInt32 and ToUint32 are the truncated value modulo 2^32 and differ only in sign |
| NumericInt32.TruncatedIs | packages/runtime/src/jsrt_numeric.c:30-70 | the value is cut toward zero |
| NumericInt32.OpsBitByBit | packages/runtime/src/jsrt_numeric.c:502-512 | each bit of bitand, bitor and bitxor is that of the two words there |
| NumericInt32.WrappedUnique | packages/runtime/src/jsrt_numeric.c:30-70 | there is only one signed word congruent to a number |
| NumericInt32.ShlMultiplies | packages/runtime/src/jsrt_numeric.c:521-526 | a left shift multiplies by a power of two modulo 2^32 |
| NumericInt32.ShrDivides | packages/runtime/src/jsrt_numeric.c:528-537 | a signed right shift, sign bits filled in by hand, is division by a power of two rounded down |
| NumericInt32.UshrFills | packages/runtime/src/jsrt_numeric.c:528-541 | the two right shifts differ on negative numbers by what the vacated bits are worth, and agree on the others |
| NumericInt32.AndOrSum | packages/runtime/src/jsrt_numeric.c:502-508 | bitand plus bitor of two words is their sum, sign bits and all |
| NumericInt32.NotOfAnd | packages/runtime/src/jsrt_numeric.c:502-519 | the complement of a bitand is the bitor of the complements |
| NumericInt32.XorTwice | packages/runtime/src/jsrt_numeric.c:510-512 | a ^ b ^ b is a |
| NumericBits.MaskIsRemainder | packages/runtime/src/jsrt_numeric.c:491-498 | masking by ones is a remainder: shift counts and index masks |
| NumericBits.DisjointOr | packages/runtime/src/jsrt_numeric.c:528-537 | words with no bit in common join to their sum |
| NumericInt32.NotNegates | packages/runtime/src/jsrt_numeric.c:514-519 | the complement is one less than the negation |
| NumericFixed.ToFixed | packages/runtime/src/jsrt_number_methods.c:101-150 | a count outside 0 to 100 is a RangeError; NaN, infinities and magnitudes from 1e21 on go to ToString; every other double prints as its magnitude times 10^f rounded half up, with the point put back, and a minus exactly below zero |
| NumericFixed.HalfUpNearest | packages/runtime/src/jsrt_number_methods.c:98-100 | that integer is the nearest one, and the larger of two as near |
| NumericFixed.ExpansionIs | packages/runtime/src/jsrt_number_methods.c:98-100 | a double times 10^1100 is a whole number, so its exact expansion ends by then |
| NumericFixed.ExpandedIs | packages/runtime/src/jsrt_number_methods.c:113-120 | below 1e21 the expansion has at most 21 digits before the point, no leading zero, and denotes the number exactly |
| NumericFixed.RoundedText | packages/runtime/src/jsrt_number_methods.c:113-150 | from the expansion on: the carry is done in place and the buffer holds the text |
| NumericFixed.RoundUp | packages/runtime/src/jsrt_number_methods.c:101-150 | the carry loop, past the point and off the front, adds one to the number the text spells |
| NumericFixed.CutRounds | packages/runtime/src/jsrt_number_methods.c:101-150 | cutting an expansion and looking at one digit is rounding half up |
| NumericFixed.PrintsUnique | packages/runtime/src/jsrt_number_methods.c:101-150 | a number has one text with f fraction digits, so the result above leaves no choice |
| DateCalendar.CivilRoundTrip | packages/runtime/src/jsrt_date.c:66-93 | every date of the proleptic Gregorian calendar comes back from its day number |
| DateCalendar.DaysRoundTrip | packages/runtime/src/jsrt_date.c:66-93 | every integer is the day number of a date of the calendar and comes back |
| DateCalendar.CountsDays | packages/runtime/src/jsrt_date.c:66-93 | the next date of the calendar has the next day number, and 1970-01-01 has 0: with the leap rule alone this fixes the conversion |
| DateTime.FieldsRebuild | packages/runtime/src/jsrt_date.c:156-180 | the fields of a time value rebuild it |
| DateTime.BuiltHasFields | packages/runtime/src/jsrt_date.c:305-329 | a time built from valid fields has them, and the weekday its day number gives |
| DateTime.RollsOver | packages/runtime/src/jsrt_date.c:305-329 | twelve months are a year, and a day past a month's end is in the next month |
| DateTime.ClockRolls | packages/runtime/src/jsrt_date.c:305-329 | milliseconds roll into seconds, seconds into minutes, minutes into hours and hours into days |
| DateTime.UtcFromLocalIs | packages/runtime/src/jsrt_date.c:222-256 | the earliest instant whose local reading is the given one; in a gap, the instant by the offset before the transition |
| DateTime.LocalRoundTrip | packages/runtime/src/jsrt_date.c:222-256 | an unambiguous local reading converts back to its instant |
| DateTime.SetterLaw | packages/runtime/src/jsrt_date.c:345-413 | a setter, UTC or local, sets the fields it is given and keeps the others of the reading; a local reading in a gap goes by the offset before the transition; the result is invalid exactly when out of range |
| DateTime.SetterMeans | packages/runtime/src/jsrt_date.c:345-413 | any setter of a valid date, fields out of bounds included, builds the time from the reading with the given fields in their places: that time if it is in range, none if a field is none |
| DateTime.SetterIdle | packages/runtime/src/jsrt_date.c:345-413 | setting the fields a date has leaves it alone; locally, a reading that occurs twice moves it to the first |
| DateTime.SetterRecovers | packages/runtime/src/jsrt_date.c:345-413 | a year brings an invalid date back, at the UTC or local midnight of what was given; an explicit NaN does not |
| DateIso.IsoRoundTrip | packages/runtime/src/jsrt_date.c:492-505 | parsing the ISO form of any time value of at most 8.64e15 gives it back, signed six-digit years included |
| DateIso.IsoForm | packages/runtime/src/jsrt_date.c:492-505 | 24 characters exactly for years 0 to 9999, else 27 and a sign; each field of the time in its place, with upper-case T and Z |
| DateRuntime.JSDate.SetFields | packages/runtime/src/jsrt_date.c:355-413 | the date object holds the time of the new fields over the old time's, local or UTC |
| DateGrammar.ParsesGrammar | packages/runtime/src/jsrt_date.c:676-804 | a string is a date exactly when it is a well-formed date-time string with a value in range, and then it is that value: short years and months, signed six-digit years, seconds and fractions of any length cut to the millisecond, hour 24, both zone spellings, both cases of t and z |
| DateGrammar.DateParseIs | packages/runtime/src/jsrt_date.c:806-831 | the same of Date.parse, which refuses strings of 64 units and more |
| DateGrammar.SpelledReads | packages/runtime/src/jsrt_date.c:676-804 | every well-formed string is read as what it means, or as no date when that is out of range |
| DateGrammar.ReadIsSpelled | packages/runtime/src/jsrt_date.c:676-804 | whatever is read is well-formed |
| DateGrammar.MillisAre | packages/runtime/src/jsrt_date.c:726-755 | the first three digits of a fraction, one or two scaled up, are its whole milliseconds |
| DateRuntime.ParseIso | packages/runtime/src/jsrt_date.c:676-804 | the cursor over the text leaves what the parsing functions say, on every text |
| DateRuntime.ParseText | packages/runtime/src/jsrt_date.c:806-831 | the copy down to ASCII and the parse |
| DateRuntime.Reparse | packages/runtime/src/jsrt_date.c:676-804 | printing and then parsing a valid date keeps its time |
| ShapeWorld.World.RunAll | packages/runtime/src/jsrt_shape.c:491-592 | every run of creations, reads, writes, accessor definitions, deletes and freezes over objects and arrays that share shapes and stand on each other's prototype chains, with inline caches at any of its sites, gives the answers and leaves the objects of the run without caches |
| ShapeWorld.ReadsWhatWasStored | packages/runtime/src/jsrt_shape.c:855-985 | a stored value is what the next read of its key answers; no other key and no other object changes; a store that is refused or runs a setter changes nothing |
| ShapeWorld.InheritsWhatWasStored | packages/runtime/src/jsrt_shape.c:430-489 | what is stored in a prototype is read through every object on it that does not shadow the key, cache or not |
| ShapeAccess.AccessorRuns | packages/runtime/src/jsrt_shape.c:319-339 | an accessor defined on an object: of it and of every heir at any depth that does not shadow it a write runs the setter, or is a TypeError without one, and changes nothing; a read runs the getter, or is undefined without one |
| ShapeAccess.SetMeans | packages/runtime/src/jsrt_shape.c:841-985 | a frozen object refuses a write; else the nearest slot on the chain decides: a setter runs, a getter alone is a TypeError, and anything else stores on the object itself, in its place or behind the others |
| ShapeAccess.GetMeans | packages/runtime/src/jsrt_shape.c:441-592 | a read answers the nearest slot on the chain, through its getter if it is an accessor |
| ShapeAccess.HiddenMeans | packages/runtime/src/jsrt_shape.c:441-473 | a hidden constructor stands behind own properties and before the prototypes |
| ShapeAccess.DefineMeans | packages/runtime/src/jsrt_shape.c:988-996 | the pair stands under the key whatever stood there or is inherited; a frozen object refuses it |
| ShapeAccess.DeleteMeans | packages/runtime/src/jsrt_shape.c:998-1062 | the property goes and the others keep their order; refused for an array length and for what a frozen object has |
| ShapeAccess.NewAndFreezeMean | packages/runtime/src/jsrt_shape.c:430-489 | a new object has no property of its own; freezing changes none |
| ShapeAccess.StaysMade | packages/runtime/src/jsrt_shape.c:855-1062 | no event gives an object a key twice |
| ShapeWorld.World.InheritedGet | packages/runtime/src/jsrt_shape.c:441-473 | the loop over the prototypes answers the hidden constructor, the first prototype with the key, or what ends the chain |
| ShapeWorld.World.InheritedAccessor | packages/runtime/src/jsrt_shape.c:475-489 | the loop answers the accessor of the first prototype with the key, if it is one |
| ShapeWorld.World.Perform | packages/runtime/src/jsrt_shape.c:855-996 | one event at a cached site is the event without caches, and every cache stays right |
| ShapeWorld.World.AddSite | packages/runtime/include/jsrt_value.h:425-480 | a new site starts empty and changes nothing |
| ShapeObjects.GetProp | packages/runtime/src/jsrt_shape.c:491-592 | hit, miss and fill answer the object's own slot or what the chain was found to answer, and a miss never fills the cache |
| ShapeObjects.StoreProp | packages/runtime/src/jsrt_shape.c:855-985 | hit, overwrite, add, setter, getter-only and frozen paths leave the properties the language says, and a filled cache holds the key's offset in the new shape |
| ShapeObjects.AddProp | packages/runtime/src/jsrt_shape.c:855-985 | a new property goes behind the others, on the shape its history shares |
| ShapeObjects.DefineAccessor | packages/runtime/src/jsrt_shape.c:988-996 | the pair replaces whatever the key held; no setter runs |
| ShapeObjects.DeleteProp | packages/runtime/src/jsrt_shape.c:998-1062 | the property is gone, the others keep order and values; a frozen object keeps what it has, and an array its length |
| ShapeObjects.Reserve | packages/runtime/src/jsrt_shape.zig:180-195 | the slots keep their contents and reach the offset |
| ShapeModel.SameHistorySameShape | packages/runtime/src/jsrt_shape.zig:160-178 | two objects that gained the same keys in the same order are on one shape |
| ShapeModel.FindIs | packages/runtime/src/jsrt_shape.zig:150-158 | a hit's offset is the key's place in the chain, and a miss means that no link has it |
| ShapeModel.AppendKeeps | packages/runtime/src/jsrt_shape.zig:160-178 | adding a shape keeps the table's invariant and changes no shape already there |
| ShapeModel.OwnAfterPut | packages/runtime/src/jsrt_shape.c:855-985 | a write changes the slot of its own key and no other |
| ShapeModel.OwnAfterDrop | packages/runtime/src/jsrt_shape.c:998-1062 | a delete takes its own key away and no other |
| ShapeRuntime.Table.FindKey | packages/runtime/src/jsrt_shape.zig:150-158 | the walk to the root finds the link that added the key |
| ShapeRuntime.Table.Transition | packages/runtime/src/jsrt_shape.zig:160-178 | the child that adds the key, reused if it exists |
| ShapeRuntime.Table.Remove | packages/runtime/src/jsrt_shape.zig:197-211 | replaying the chain without one key gives the keys and slots without it, the slots compacted in place, and leaves every other object's shape alone |
| CodecModel.KeyBytesRoundTrip | packages/runtime/src/jsrt_string.c:139-172 | every UTF-16 string without U+0000, lone surrogates included, comes back from its key bytes |
| CodecModel.KeyBytesInjective | packages/runtime/src/jsrt_shape.c:231-286 | two keys are the same bytes exactly when they are the same string |
| CodecModel.CStringRoundTrip | packages/runtime/src/jsrt_string.c:194-339 | a string handed to C and taken back is the string cut at its first U+0000 with each lone surrogate replaced by U+FFFD |
| CodecModel.EncodedSize | packages/runtime/src/jsrt_shape.c:258-286 | three bytes a unit and one are always enough, and no byte is NUL unless a unit is |
| CodecModel.Utf8Table | packages/runtime/src/jsrt_string.c:39-112 | the table of RFC 3629: leading bits by length, six bits a continuation byte |
| CodecModel.PairTable | packages/runtime/src/jsrt_string.c:39-112 | a code point past 0xFFFF is a pair with ten bits a half |
| CodecModel.DecodeEncoded | packages/runtime/src/jsrt_string.c:39-112 | every code point, a surrogate included, decodes to itself with its own width |
| CodecModel.StrictEncoded | packages/runtime/src/jsrt_string.c:247-312 | the strict decoder takes every scalar value to itself |
| CodecStrict.StrictIsRecommended | packages/runtime/src/jsrt_string.c:237-313 | on any bytes, a step of the strict decoder is a character or one U+FFFD for the longest run that begins some character, exactly when it does not swallow a cut-off end of the input that holds a byte which cannot continue |
| CodecStrict.BeginsWhen | packages/runtime/src/jsrt_string.c:247-313 | bytes begin some character exactly when each is in the bounds that the first byte sets |
| CodecStrict.LosesALetter | packages/runtime/src/jsrt_string.c:283-287 | the failing input: after a cut-off lead byte at the end, the letter A is swallowed |
| CodecStrict.DecodesEncodings | packages/runtime/src/jsrt_string.c:39-112 | the lenient decoder takes exactly the encodings, those of surrogates included, and nothing overlong |
| CodecRuntime.ShapeKeyBytes | packages/runtime/src/jsrt_shape.c:258-286 | the bytes of the key and a terminator, inside the buffer; a key with U+0000 is refused |
| CodecRuntime.StringToCstr | packages/runtime/src/jsrt_string.c:194-240 | the scrubbed bytes up to the first NUL and a terminator, inside the buffer |
| CodecRuntime.StringFromUtf8 | packages/runtime/src/jsrt_string.c:151-172 | the writing pass fills exactly the units the counting pass counted, up to the first malformed byte |
| CodecRuntime.StringFromCstr | packages/runtime/src/jsrt_string.c:318-339 | both passes agree and yield the strict decoding of the bytes before the terminator |
| CodecRuntime.ThroughC | packages/runtime/src/jsrt_string.c:194-339 | running one after the other gives the cut and scrubbed string |
| ArraySortRuntime.Sort | packages/runtime/src/jsrt_array_ops.c:832-862 | whatever the comparator does, the array is a rearrangement of its present elements and then holes; an exception is pending exactly when the last call threw, and no call follows it; every pair shown is of the array; if none threw and it answers for a total preorder, the array is in the stable order, undefined last |
| ArraySortRuntime.SortRange | packages/runtime/src/jsrt_array_ops.c:819-830 | the range is rearranged, and in stable order unless a call of the comparator threw |
| ArraySortRuntime.SortMerge | packages/runtime/src/jsrt_array_ops.c:792-817 | a merge is written back whole or not at all |
| ArraySort.MergedInOrder | packages/runtime/src/jsrt_array_ops.c:792-817 | merging two stable runs of neighbouring places gives a stable run |
| ArraySort.StableUnique | packages/runtime/src/jsrt_array_ops.c:754-862 | there is only one stable order, so the results above leave no choice |
| ArraySortRuntime.PresentMeans | packages/runtime/src/jsrt_array_ops.c:832-862 | what is sorted is every element that is no hole, in its order |
| ArraySort.Caller.Compare | packages/runtime/src/jsrt_array_ops.c:754-790 | an undefined is never shown to the comparator, and goes after every value |
| ArrayEdit.UndoRestores | packages/runtime/src/jsrt_array_ops.c:394-472 | every push, pop, shift, unshift and splice is undone by one splice of what it removed over what it inserted, which hands back what was inserted |
| ArrayEdit.EditMeans | packages/runtime/src/jsrt_array_ops.c:60-470 | what push, pop, shift, unshift and splice leave and hand back, positions counted from the end if negative and clamped |
| ArrayEdit.RunUndone | packages/runtime/src/jsrt_array_ops.c:394-472 | a whole run of edits is undone by splices in the opposite order |
| ArrayEdit.Conserved | packages/runtime/src/jsrt_array_ops.c:394-472 | over any run no element is lost or doubled |
| ArrayEdit.UnshiftKeepsOrder | packages/runtime/src/jsrt_array_ops.c:147-167 | items put in front together keep their order; one at a time they end up reversed |
| ArrayEdit.JSArray.SpliceInsert | packages/runtime/src/jsrt_array_ops.c:446-470 | growth, an overlapping move in the buffer and the writes leave the array spliced at the clamped span; the removed run is handed back; vacated cells are cleared |
| ArrayEdit.JSArray.SpliceOut | packages/runtime/src/jsrt_array_ops.c:394-423 | the same without items |
| ArrayEdit.JSArray.SpliceToEnd | packages/runtime/src/jsrt_array_ops.c:429-436 | no count means to the end |
| ArrayEdit.JSArray.UnshiftItems | packages/runtime/src/jsrt_array_ops.c:152-167 | the whole run stands in front, in order |
| ArrayEdit.JSArray.PushItem | packages/runtime/src/jsrt_array_ops.c:60-66 | the element stands last |
| ArrayEdit.JSArray.Take | packages/runtime/src/jsrt_array_ops.c:100-133 | the element off either end, the vacated cell cleared |
| ArrayEdit.JSArray.Grow | packages/runtime/src/jsrt_alloc.zig:61-74 | the contents stay and the index fits |
| StringsModel.HitsAre | packages/runtime/src/jsrt_string_ops.c:510-559 | the matches taken are matches, overlap nowhere, and with all leave no match that overlaps none of them |
| StringsLaws.HitsUnique | packages/runtime/src/jsrt_string_ops.c:510-559 | there is one such choice of matches, so the one taken is leftmost first |
| StringsLaws.FirstOnly | packages/runtime/src/jsrt_string_ops.c:510-559 | replace takes the first match alone |
| StringsLaws.ReplacedMeans | packages/runtime/src/jsrt_string_ops.c:510-559 | each match taken is replaced by its own expansion and nothing else is changed |
| StringsLaws.ExpandMeans | packages/runtime/src/jsrt_string_ops.c:439-508 | $$ is a dollar, $& the match, $ and a backtick what stands before it, $ and a quote what stands after; any other text stands for itself |
| StringsLaws.EveryText | packages/runtime/src/jsrt_string_ops.c:439-508 | every replacement text is one of such pieces |
| StringsLaws.WholeString | packages/runtime/src/jsrt_string_ops.c:439-508 | what stands before the match, the match and what stands after it put the whole string in its place |
| StringsLaws.UnitsApart | packages/runtime/src/jsrt_string_ops.c:381-433 | split by the empty string gives the units, and without a separator the string |
| StringsModel.ReplaceWithMatch | packages/runtime/src/jsrt_string_ops.c:510-559 | replacing matches by $& gives the string back, empty pattern included |
| StringsModel.SplitRebuilds | packages/runtime/src/jsrt_string_ops.c:381-433 | the pieces with the separator between them are the string |
| StringsModel.PiecesFree | packages/runtime/src/jsrt_string_ops.c:381-433 | no piece holds the separator |
| StringsModel.ReplaceIsSplitJoin | packages/runtime/src/jsrt_string_ops.c:510-559 | replacing every separator by plain text is splitting and joining with that text |
| StringsRuntime.IndexOfFrom | packages/runtime/src/jsrt_string_ops.c:64-74 | the first match from a position on, or -1 when there is none |
| StringsRuntime.StringSplit | packages/runtime/src/jsrt_string_ops.c:381-433 | as many pieces are written as were counted, and they are the pieces; without a separator the string is the one piece |
| StringsRuntime.SubstitutionLength | packages/runtime/src/jsrt_string_ops.c:439-476 | the length counted is that of the expansion of $$, $&, $` and $' |
| StringsRuntime.SubstitutionEmit | packages/runtime/src/jsrt_string_ops.c:478-508 | what is written is that expansion, behind what was there |
| StringsRuntime.ReplaceImpl | packages/runtime/src/jsrt_string_ops.c:510-559 | exactly as many units are written as were measured, and they are the left-to-right substitution |

## Left out

Not modelled, in the modelled files:

- Garbage collection and its root frames: objects live as long as they are referred to.
- Linked lists: reaction lists and the microtask queue are `seq` fields that the methods reassign, so pointer splicing is not captured; transition lists are `seq`s per shape.
- Widths: sizes, lengths, counts and entry numbers of collections and strings are unbounded; 32-bit wrap-around is modelled only in the number conversions, shifts, parsers and array-index keys.
- The hash mixing function: any function of the hash input, which is stronger than the one the code has.
- An endless microtask loop: the drain is stated for any finite number of turns.
- A throw that escapes a reaction ends the process (`jsrt_promise.c` 80-84), so no turn of the model does that.
- The functions handed to a promise's executor, which settle it as the modelled settle does.
- Weak collections' loss of dead keys; iterator objects of collections.
- JSON.stringify of cyclic values, dates, Maps, class instances and functions other than as undefined; replacer, indent and reviver.
- `strtod`, shortest digits and `snprintf` are contracts: `strtod` rounds the exact decimal a numeral denotes, shortest digits round back, and `"%.1100f"` prints the exact expansion.
- Path functions over the file system's current directory: it is a parameter. dirname, basename, extname, parse and format.
- What the lenient decoder makes of malformed bytes beyond stopping at them.
- The fraction part of a number printed in a radix; which digits come out of a radix that is no power of two from 2^53 on, where quotients round; a fused multiply-add; decimal parseInt and parseFloat, which are `strtod`.
- Negative zero, and products beyond 2^53 in date setters: time values and fields are integers or NaN.
- Two transitions of a zone within two days; the ICU and `localtime_r` zone tables. Date.parse of forms other than ISO.
- What ends a prototype chain: the methods of arrays and prototypes that are no dynamic objects are an input of each read. Fixed-layout class instances, statics, functions' own properties, key interning, array elements and array length writes.
- Comparators that change the array they sort; toSorted and toSpliced; element kinds.
- Regular expressions as split or replace patterns, and function replacements.
- Console output, inspect, formatting, timers, file system, hashing and the compiler itself.

Stated weaker than the source:

- NumericRadix.WriteInteger: from 2^53 on in a radix that is no power of two it promises digits of the radix that fit, not which.
- PromiseLaws.OwedOutcome: for runs in which no Put names a promise that then, finally or Promise.all handed out; the same holds for the three laws beside it.
- PromiseRuntime.Runtime.RunMicrotasks: stops after the turns it is given, where the runtime's loop has no bound.
- MapWalk.ForEach: stops after the callbacks it is given; one that always inserts has no end.
- DateTime.UtcFromLocalIs: for zones whose offset is at most a day, with one transition at most between a day before the reading and a day after.
- PathRelative.Relative: a directory that is not canonical is covered where both paths resolve without it being the answer.
