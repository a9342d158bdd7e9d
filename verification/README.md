# Verification of the Cambricon device plugin

This project models, in Dafny, the parts of the Cambricon Kubernetes device plugin in which state, branching and
arithmetic meet, and proves what those parts are for. `dafny verify dfyconfig.toml` checks all of it.

Four groups of modules stand beside the four components they describe.

**The JSON codec** (`cJSON.c`). `JsonText` says what text a tree prints to and `JsonGrammar` what tree a text parses to,
both as functions. `JsonRoundTrip` proves that the second undoes the first, `JsonAccepted` that what was accepted once
stays what it is. `JsonParser` is the parser as it works, a buffer with an offset and a depth that methods move, and new
items that they link; every method is proved to build the tree that the grammar gives. `JsonPrinter` is the printer as
it works, a buffer that is grown and written in place; every method is proved to produce the text, whatever the buffer's
size was and however it grew. `Utf` converts `\u` escapes to UTF-8 (section 3 of RFC 3629), `Escapes` says what they
mean (section 2 of RFC 2781), `Bytes` holds byte and digit arithmetic. `Items` has the linked items, `ChildList` the
operations on the doubly linked list of children, `Duplicate` the recursive copy, `JsonCompare` the comparison, and
`JsonOrder` what comparing means for trees without repeated names. Four modules say what the two functions mean without
naming their parts: `JsonLanguage` has a grammar over stretches of the text and proves that the parser accepts exactly
its language, `JsonStrings` what each form of section 7 of RFC 8259 is read as and which one is printed, `JsonNumbers`
what decimals mean, and `JsonLayout` how printed trees are laid out.

**The life of a dynamic-SMLU instance** (`server.go`, `dsmlu.go`, `podutils.go`, part of `bindings.go`). `DsmluModel`
gives each lock-holding function as one atomic step over the devices, the pods and the record shared by the two
allocation calls of a pod; what the driver and the API server answer is a parameter of the step. `DsmluProof` has the
invariant that every step keeps, `DsmluRuns` the theorems about runs, `DsmluSizes` those about profiles and their sizes,
`DsmluOrphans` those about instances that nobody names, and `DsmluLocks` what happens when allocation calls come between
the two halves of a collection. `DsmluPlugin` is the code itself, loops and fields, proved to take exactly those steps.
`DsmluCollector` and `DsmluDecisions` say what each step does in terms of the pods' fields and the driver's answers
alone. `Annotation` proves that the annotation text carries its numbers; `Options` has the optional values.

**Topology** (`bindings.go`, `allocator/*.go`, `topology.go`). `LinkGroups` is the depth-first search for link groups,
`SlotSets` and `Devices` hold sorting, splitting, draining and ring choice, `Spider` and `Board` the allocators (the
default one too), `Policies` when each of them refuses and what it takes, `Preferred` the way from device IDs to slots
and back, `Topology` the node annotation.

**Spreading and health** (`server.go`, `cambricon.go`). `EnvShare` is the preferred env-share answer and what following
it keeps; `Health` is the health watcher, its event stream, and the device list that replays it.

## Results that say more, or less, than the repository's own words

- Parsing undoes printing exactly up to 1000 nested containers. A deeper tree prints, but its text is refused
  (`JsonRoundTrip.ParsingUndoesPrinting`).
- `cJSON_PrintPreallocated` needs two bytes more than the text; the header file asks callers for five
  (`JsonPrinter.PrintPreallocated`).
- `cJSON_Compare` is not reflexive: a tree in which one object gives one name two meanings does not compare equal to its
  own copy (`JsonCompare.RepeatedNameRejected`). A copy is accepted exactly when no object does that
  (`Duplicate.CompareWithCopy`), and on trees of integers without repeated names comparing is equality up to the order
  of members at every level (`JsonOrder.SameUpToOrder`).
- The comment at `dsmlu.go:216` gives `1_256_1_0` as an annotation; by the formula in the code that handle belongs to
  instance 1 of slot 0. The model follows the code.
- The node annotation and the allocators apply the same test for models with "092U" only. For the other models
  `Topology.WhenSpiderAgrees073U` and `Topology.WhenBoardAgrees` say exactly for which ring counts they agree.
- A request is given to the driver as an `unsigned int` and an `unsigned long`, and compared with the driver's profiles
  in 64 bits. So an instance has the quota and memory that its pod asked for if and only if they fit those types
  (`DsmluRuns.EveryRunIsSafe`). A quota that does not fit is never recognised again: the profile stays when its last
  instance is recycled (`DsmluSizes.RecycleFreesUnusedProfile`), and the next such pod gets another profile of the same
  size (`DsmluSizes.WideQuotaDuplicates`; 4294967301 cores are granted as 5, `DsmluSizes.FiveCoresGranted`). No two
  profiles of a device have one size exactly as long as no call asks for a profile whose narrowed size is there while
  the quota does not fit or the driver's listing does not show it (`DsmluSizes.SizesAlong`).
- The two allocation calls of a pod return the same instance exactly when no allocation call comes between them
  (`DsmluRuns.TwoCallsOneInstance`). No other pod can be served between them, so such a call finds more than one waiting
  pod or is a call of the pod itself. `DsmluRuns.LostRecordRun` is a run in which the pod then gets another instance.
- An allocation call can leave an instance that no annotation and no record names. `DsmluRuns.CallsAbandon` says exactly
  when: it finds no candidate while an instance is recorded; it is a second call that cannot annotate its pod; or it is
  a first call that creates an instance and can neither list nor destroy it, does not find the slot's device, or takes
  the place of another pod's record. Each case is reached by a run (`DsmluRuns.UnknownSlotAbandons`,
  `UnlistedAbandons`, `UnpatchedAbandons`, `LostCandidateAbandons`, `ReplacedAbandons`), and no other kind of step does
  that (`DsmluOrphans.NamesAlong`). Such an instance stays until a collection at which no pending pod is without its
  annotation (`DsmluOrphans.OrphanAlong`), and if that is without faults it removes the instance exactly when the slot
  is enabled (`DsmluOrphans.CollectionAndOrphan`). In all five cases the pod is still waiting, so the next collection is
  held back.
- The collector lists the pods and sweeps the slots under a lock that allocation does not take. If no allocation call
  comes between the two, everything that is kept by a collection in one step is kept (`DsmluLocks.QuietSweep`). In
  general a faultless sweep does that exactly when a listed pod held it back or no pod that came since the listing
  relies on an instance of an enabled slot (`DsmluLocks.LateSweep`). `DsmluLocks.LateSweepDestroys` is a run in which
  the sweep destroys the instance of such a pod between its two calls, and the second call annotates the pod with it all
  the same.
- A `\u` whose own four digits are not hexadecimal is not refused; it stands for NUL (`Escapes.LiteralMeaning`).
- A device whose ID is not its UUID (the `real-counts` devices) is never updated by health events
  (`Health.OthersStayHealthy`).

## Assumptions

- Dynamic SMLU: pod names are not reused, since the shared record is keyed by name; only the plugin writes the instance
  annotation; a pod that has left Pending and Running does not come back; a device never gives an instance ID twice, and
  gives a new profile an ID that none of its profiles has (different devices may give the same IDs); there are at most
  256 slots, a request names one of them or the driver refuses it, and a handle is the instance ID shifted by eight,
  plus the slot. Handles are 32-bit, as `DestroySmlu` converts them to `int`, so instance IDs are below 2^23. The driver
  refuses to destroy a profile that has instances; the device memory that allocation and recycling ask for can be read.
  Allocation, recycling and collection are atomic steps; `DsmluLocks` splits the collection in two.
- Allocators: `GetRings` is an oracle that answers, fails or times out, and whose rings have `size` distinct ordinals
  taken from the available slots. Device IDs in a request are distinct and known, each device has its own slot, and
  `1 <= size <=` the number of available slots.
- Env-share: UUIDs hold no underscore where a result says so.
- Health: devices that share a UUID share a slot. The health channel keeps the order of events.

## Model

| member | source | states |
|---|---|---|
| `JsonRoundTrip.ParsingUndoesPrinting` | device-plugin/pkg/cndev/mock/cJSON.c:1309-1822 | Every tree of null, booleans, 32-bit integers, C strings, arrays and objects comes back from its formatted and its unformatted text, whole and with the end where the text ends, if and only if at most 1000 containers are nested; otherwise its text is refused |
| `JsonRoundTrip.ParsePrinted` | device-plugin/pkg/cndev/mock/cJSON.c:1309-1361 | The same for a value inside a larger text, at any offset and any depth already open |
| `JsonAccepted.AcceptedIsBounded` | device-plugin/pkg/cndev/mock/cJSON.c:1076-1169 | No accepted text has more than 1000 containers open at once, and all strings and names read from it are C strings |
| `JsonAccepted.AcceptedStays` | device-plugin/pkg/cndev/mock/cJSON.c:1076-1257 | If the numbers of an accepted text are 32-bit integers, printing its tree, formatted or not, and parsing that gives the same tree, whole |
| `JsonLanguage.ParserAcceptsGrammar` | device-plugin/pkg/cndev/mock/cJSON.c:1076-1169 | On every C string the parser finds a value exactly where a grammar over stretches of the text derives one with at most 1000 containers open: white space of bytes up to 32 around values, names, colons and commas, after a byte order mark if there is one; with the end required only white space may follow |
| `JsonLanguage.SpelledIsParsed` | device-plugin/pkg/cndev/mock/cJSON.c:1309-1361 | What the grammar derives is parsed, at any offset and depth, and refused beyond the limit |
| `JsonLanguage.ParsedIsSpelled` | device-plugin/pkg/cndev/mock/cJSON.c:1309-1361 | What is parsed the grammar derives: no missing or trailing comma, no missing colon, no other bracket |
| `JsonStrings.PiecesAreRead` | device-plugin/pkg/cndev/mock/cJSON.c:770-896 | Any mixture of raw bytes, the eight two-character escapes of section 7 of RFC 8259, and escapes or pairs of escapes in either case that spell a scalar value, between quotes, is read whole as the bytes it stands for, as far as the first NUL |
| `JsonStrings.UnknownLetterIsRefused` | device-plugin/pkg/cndev/mock/cJSON.c:836-870 | A backslash before any other letter makes the text unreadable, whatever stands before and after it |
| `JsonStrings.OpenStringIsRefused` | device-plugin/pkg/cndev/mock/cJSON.c:783-803 | A string that is not closed is refused |
| `JsonStrings.SolidusMayBeEscaped` | device-plugin/pkg/cndev/mock/cJSON.c:850-854 | A printed string in which every solidus is written with a backslash is read as the same string |
| `JsonStrings.QuoteTable` | device-plugin/pkg/cndev/mock/cJSON.c:960-1010 | What is printed for each byte: seven two-character escapes, a lower-case `\u00XX` for the other control bytes, the byte itself otherwise |
| `JsonStrings.QuoteIsShortest` | device-plugin/pkg/cndev/mock/cJSON.c:899-1018 | Among the texts without control bytes that are read as a string, whole, none is shorter than the printed one |
| `JsonNumbers.DecimalIsRead` | device-plugin/pkg/cndev/mock/cJSON.c:302-376 | Every decimal of at most 63 bytes that starts with a minus or a digit, with or without fraction and exponent in either case, is read whole as the number it means |
| `JsonNumbers.WhatANumberIsReadAs` | device-plugin/pkg/cndev/mock/cJSON.c:302-376 | Of the number bytes from there, 63 at most, the longest that is a decimal number is read, as what it means, and a value fails exactly if none is |
| `JsonNumbers.LongestIsConverted` | device-plugin/pkg/cndev/mock/cJSON.c:348-352 | What `strtod` is taken to promise: it converts the longest decimal number that starts the text, to its exact value |
| `JsonNumbers.LongNumberIsCut` | device-plugin/pkg/cndev/mock/cJSON.c:316-350 | Of a longer run of digits the first 63 are read |
| `JsonNumbers.OnlyPlainText` | device-plugin/pkg/cndev/mock/cJSON.c:542-609 | Of the texts that are read as an integer the printed one is the only one without a needless sign or digit |
| `JsonLayout.ArrayLayout` | device-plugin/pkg/cndev/mock/cJSON.c:1536-1595 | Array elements stand on one line between brackets, with a comma between each two, and a space after it if formatted |
| `JsonLayout.ObjectLayout` | device-plugin/pkg/cndev/mock/cJSON.c:1711-1822 | Object members stand between braces with commas between them; formatted, each on its own line one tab deeper than the object, with a colon and a tab after its name |
| `JsonLayout.UnformattedIsShortest` | device-plugin/pkg/cndev/mock/cJSON.c:1364-1435 | For a tree without numbers no accepted text without control bytes is shorter than the unformatted one |
| `JsonParser.Parse` | device-plugin/pkg/cndev/mock/cJSON.c:1076-1169 | On every C string, with or without the demand that nothing follows, the parser succeeds exactly where the grammar does, with its end and a new, well-linked tree of its value |
| `JsonParser.ParseBuffer.ParseItem` | device-plugin/pkg/cndev/mock/cJSON.c:1309-1361 | From any offset and depth the method builds a new, well-linked tree of the grammar's value, moves the offset to the end of the value and restores the depth |
| `JsonParser.ParseBuffer.ParseArrayItems` | device-plugin/pkg/cndev/mock/cJSON.c:1438-1533 | Arrays are read as the recursive grammar reads them, nesting limit included, and their elements are linked both ways, the first back to the last |
| `JsonParser.ParseBuffer.ParseElements` | device-plugin/pkg/cndev/mock/cJSON.c:1470-1507 | The loop over elements, with its backed-up offset, refines the grammar and grows the linked list by one new item a turn |
| `JsonParser.ParseBuffer.ParseObjectMembers` | device-plugin/pkg/cndev/mock/cJSON.c:1598-1708 | The same for objects, whose items carry the names |
| `JsonParser.ParseBuffer.ParseMemberList` | device-plugin/pkg/cndev/mock/cJSON.c:1628-1682 | The same for the loop over members |
| `JsonParser.ParseBuffer.ParseStringItem` | device-plugin/pkg/cndev/mock/cJSON.c:770-896 | Both passes over a string together give the C string of the unescaped bytes, or fail exactly where the grammar does |
| `JsonParser.ParseBuffer.UnescapeInto` | device-plugin/pkg/cndev/mock/cJSON.c:783-880 | The second pass never writes outside the buffer that the first pass sized, also on input it will refuse |
| `JsonParser.ParseBuffer.ParseNumberItem` | device-plugin/pkg/cndev/mock/cJSON.c:302-376 | At most 63 number bytes are copied, and the offset moves past what was converted and no further |
| `JsonParser.UnescapedFits` | device-plugin/pkg/cndev/mock/cJSON.c:783-880 | For every input that the second pass accepts, what it writes fits the length the first pass computed, even where a `\u` with bad digits makes the two passes pair backslashes differently |
| `JsonParser.StepFits` | device-plugin/pkg/cndev/mock/cJSON.c:818-870 | One turn writes at most what it consumes less the escapes the first pass opened there |
| `JsonParser.ScanCounts` | device-plugin/pkg/cndev/mock/cJSON.c:783-803 | The first pass counts exactly the escapes it opens before the closing quote |
| `JsonPrinter.Print` | device-plugin/pkg/cndev/mock/cJSON.c:1184-1257 | From the default buffer, with or without `realloc`, the result is exactly the tree's text and a terminator; it fails only beyond `INT_MAX` |
| `JsonPrinter.PrintBuffered` | device-plugin/pkg/cndev/mock/cJSON.c:1259-1287 | Any initial size of at least 1 gives the same bytes |
| `JsonPrinter.PrintPreallocated` | device-plugin/pkg/cndev/mock/cJSON.c:1289-1306 | It succeeds if and only if the length is at least the text's plus two, and then the buffer starts with that same text and a terminator |
| `JsonPrinter.PrintBuffer.Ensure` | device-plugin/pkg/cndev/mock/cJSON.c:436-519 | What was printed survives growing; success means that the room asked for is there, and failure that the capacity does not allow it |
| `JsonPrinter.PrintBuffer.UpdateOffset` | device-plugin/pkg/cndev/mock/cJSON.c:522-532 | The offset moves to the terminator of what was printed |
| `JsonPrinter.PrintBuffer.PrintItem` | device-plugin/pkg/cndev/mock/cJSON.c:1364-1435 | At any depth and buffer state the text of the value is appended, or the call fails exactly for want of capacity |
| `JsonPrinter.PrintBuffer.PrintArray` | device-plugin/pkg/cndev/mock/cJSON.c:1536-1595 | The same for arrays |
| `JsonPrinter.PrintBuffer.PrintObject` | device-plugin/pkg/cndev/mock/cJSON.c:1711-1822 | The same for objects, formatted or not |
| `JsonPrinter.PrintBuffer.PrintStringPtr` | device-plugin/pkg/cndev/mock/cJSON.c:899-1018 | The quoted, escaped string is appended; every write stays in what was reserved |
| `JsonPrinter.PrintBuffer.CountEscapes` | device-plugin/pkg/cndev/mock/cJSON.c:926-952 | The counting pass is exact: escaping lengthens the string by just that number, and 0 means that nothing needs escaping |
| `Utf.Utf16LiteralToUtf8` | device-plugin/pkg/cndev/mock/cJSON.c:649-767 | The bytes written are the UTF-8 form of the escape; nothing else in the buffer changes, and nothing at all on rejection |
| `Escapes.LiteralConverts` | device-plugin/pkg/cndev/mock/cJSON.c:649-767 | Escapes whose digits, in either case, spell the UTF-16 form of a Unicode scalar value, one unit or a surrogate pair, are converted whole to its UTF-8 form, which decodes to that value |
| `Escapes.LiteralMeaning` | device-plugin/pkg/cndev/mock/cJSON.c:649-767 | On every input an escape is converted if and only if it spells some scalar value in UTF-16, or its own digits are not hexadecimal and it stands for NUL; so unpaired surrogates and broken pairs are refused and nothing else is |
| `Escapes.ClefConverts` | device-plugin/pkg/cndev/mock/cJSON.c:649-767 | The upper-case pair that section 7 of RFC 8259 gives for the G clef becomes its four UTF-8 bytes |
| `Escapes.LiteralDecodes` | device-plugin/pkg/cndev/mock/cJSON.c:713-763 | Whatever is converted, also with bad digits, is well-formed UTF-8 of one scalar value |
| `Utf.DecodeEncode` | device-plugin/pkg/cndev/mock/cJSON.c:713-761 | A strict decoder recovers every scalar value from its encoding |
| `Utf.ParseHex4` | device-plugin/pkg/cndev/mock/cJSON.c:612-645 | Four digits give their value, anything else 0 |
| `ChildList.AddItemToArray` | device-plugin/pkg/cndev/mock/cJSON.c:1953-1984 | Appends to the sequence of children; the head's `prev` stays the tail, the tail's `next` null, `next` and `prev` inverse |
| `ChildList.DetachItemViaPointer` | device-plugin/pkg/cndev/mock/cJSON.c:2184-2218 | Removes exactly that node from the sequence and clears its links; the list stays well linked |
| `ChildList.DetachItemFromArray` | device-plugin/pkg/cndev/mock/cJSON.c:2220-2228 | The same by index; an index out of range changes nothing |
| `ChildList.InsertItemInArray` | device-plugin/pkg/cndev/mock/cJSON.c:2260-2287 | Inserts before the index, or at the end beyond it; the list stays well linked |
| `ChildList.ReplaceItemViaPointer` | device-plugin/pkg/cndev/mock/cJSON.c:2289-2336 | Puts the replacement in the same place and takes the old node out; the list stays well linked |
| `ChildList.GetArrayItem` | device-plugin/pkg/cndev/mock/cJSON.c:1848-1875 | The node at the index, null outside the range |
| `ChildList.InsertThenDetach` | device-plugin/pkg/cndev/mock/cJSON.c:2184-2287 | Inserting anywhere and detaching there again leaves the children as they were |
| `Duplicate.Duplicate` | device-plugin/pkg/cndev/mock/cJSON.c:2703-2784 | The copy stands for the same value (recursive) or the value without children, is well linked at every level, consists of new nodes only, and leaves the original alone |
| `JsonCompare.Compare` | device-plugin/pkg/cndev/mock/cJSON.c:2983-3106 | On the linked items of two trees of integers that share no node the answer is true if and only if both mean the same, objects being maps from names to meanings, and neither gives a name two meanings; an item always equals itself, and null nothing |
| `JsonCompare.CompareElements` | device-plugin/pkg/cndev/mock/cJSON.c:3041-3063 | The walk along two child lists accepts exactly arrays of equal length whose elements mean the same |
| `JsonCompare.CompareMembers` | device-plugin/pkg/cndev/mock/cJSON.c:3065-3084 | One pass along the child list accepts exactly when every member equals the member the other side finds under its name |
| `JsonCompare.GetObjectItem` | device-plugin/pkg/cndev/mock/cJSON.c:1877-1907 | The first child with the name, null if there is none |
| `JsonCompare.CoveredBothWays` | device-plugin/pkg/cndev/mock/cJSON.c:3065-3103 | Both passes together hold exactly when the objects mean the same and neither is ambiguous |
| `JsonCompare.CompareDouble` | device-plugin/pkg/cndev/mock/cJSON.c:535-539 | The difference times two to the 52nd is at most one of the magnitudes, over exact reals; on 32-bit integers that is equality |
| `JsonCompare.DistinctSame` | device-plugin/pkg/cndev/mock/cJSON.c:2983-3106 | Without repeated names comparing is equality of meaning, hence an equivalence |
| `Duplicate.CompareWithCopy` | device-plugin/pkg/cndev/mock/cJSON.c:2703-3106 | A recursive copy compares equal to its original if and only if no object in it gives one name two meanings; in particular if no object repeats a name |
| `JsonCompare.RepeatedNameRejected` | device-plugin/pkg/cndev/mock/cJSON.c:3065-3103 | An object with one name and two meanings does not compare equal to its copy |
| `JsonOrder.OrderIrrelevant` | device-plugin/pkg/cndev/mock/cJSON.c:3065-3103 | Reordering members, at any level, of a tree without repeated names repeats no name and does not change the meaning |
| `JsonOrder.SameUpToOrder` | device-plugin/pkg/cndev/mock/cJSON.c:2983-3106 | Trees of integers without repeated names compare equal if and only if one is the other with members reordered, at every level |
| `JsonOrder.MembersPair` | device-plugin/pkg/cndev/mock/cJSON.c:3065-3103 | Objects of equal meaning without repeated names have the same members but for a permutation, which keeps names and meanings |
| `DsmluRuns.EveryRunIsSafe` | device-plugin/pkg/dsmlu/dsmlu.go:116-289 | In every state of every run of arrivals, phase changes, removals, allocations, recyclings and collections, the instance that a Pending or Running pod's annotation names exists on the slot the pod asked for, with the annotated profile; it has the quota and memory the pod asked for if and only if they fit the driver's types; each profile's total minus remain is the number of its instances, and each instance's profile exists |
| `DsmluRuns.GrantedMatches` | device-plugin/pkg/cndev/bindings.go:88-101 | A profile created for a request is the one asked for if and only if the quota is an `unsigned int` and the bytes of memory are an `unsigned long` |
| `DsmluRuns.InitIsInv` | device-plugin/pkg/mlu/server.go:322-455 | Any number of idle devices up to 256, with pods that are not annotated yet, is where such runs can start |
| `DsmluProof.StepKeepsInv` | device-plugin/pkg/mlu/server.go:322-455 | Each enabled step keeps the invariant that makes this so |
| `DsmluRuns.TwoCallsOneInstance` | device-plugin/pkg/mlu/server.go:335-454 | The two calls of a pod, with any steps between them, return the same response if and only if no allocation call lies between them; then the first has created exactly one instance and the second none, the pod is annotated with it, it is as it was asked for, and the shared record is clear; otherwise a second call that succeeds answers with a later instance |
| `DsmluRuns.AnyCallLosesRecord` | device-plugin/pkg/mlu/server.go:322-455 | Along a run through which a pod waits, every allocation call takes its record away, and no other step does |
| `DsmluRuns.RecordAlong` | device-plugin/pkg/mlu/server.go:330-454 | Along any run the record of a pod is what it was until a step takes it away; what is recorded for the pod after that names an instance handed out later |
| `DsmluRuns.LostRecordRun` | device-plugin/pkg/mlu/server.go:326-332 | A run in which a second pod arrives, a call finds no candidate, the second pod leaves, and the first pod's next call creates another instance |
| `DsmluRuns.TwoCallsInARow` | device-plugin/pkg/mlu/server.go:335-454 | Two calls that follow one another always meet: one instance, one response, the annotation, a clear record |
| `DsmluRuns.IdleDeviceServes` | device-plugin/pkg/mlu/server.go:370-454 | A waiting pod on an idle device gets an instance, if the driver can make a profile of the narrowed size; the profile is of the size asked for if and only if that fits the driver's types; the state after that is reached by a run |
| `DsmluRuns.FirstCallCreatesOne` | device-plugin/pkg/mlu/server.go:370-454 | A first call that succeeds hands out one new instance and records it under the pod's name |
| `DsmluRuns.SecondCallCompletes` | device-plugin/pkg/mlu/server.go:335-368 | The second call returns the recorded response; the annotation names the instance of that response, which exists as the pod asked for it; the record is clear |
| `DsmluDecisions.CandidateIs` | device-plugin/pkg/mlu/podutils.go:152-191 | The candidate is the one pending pod that asks for dynamic SMLU and is marked "false", and only if one of its containers asks |
| `DsmluDecisions.OtherPodsDoNotMatter` | device-plugin/pkg/mlu/podutils.go:60-76 | Any other pod never matters to an allocation call |
| `DsmluDecisions.WhatFirstCallDoes` | device-plugin/pkg/mlu/server.go:370-454 | When a first call makes a profile, when an instance stays, when it succeeds and what it records, by the listing, the profiles there and the driver's answers |
| `DsmluDecisions.WhatASecondCallDoes` | device-plugin/pkg/mlu/server.go:335-368 | A second call annotates and answers, or neither, and clears the record either way |
| `DsmluDecisions.WhatACallWithoutCandidateDoes` | device-plugin/pkg/mlu/server.go:326-332 | Without a candidate a call clears the record and changes nothing else |
| `DsmluDecisions.WhatAnUnreadableRequestDoes` | device-plugin/pkg/mlu/server.go:370-374 | A candidate whose request cannot be read is refused and nothing changes |
| `DsmluDecisions.WhatARequestIs` | device-plugin/pkg/mlu/podutils.go:89-120 | A request annotation is three integers joined by underscores |
| `DsmluRuns.CollectorWaits` | device-plugin/pkg/dsmlu/dsmlu.go:199-213 | While a pod is between its two calls the collector destroys nothing |
| `DsmluRuns.CollectIsExact` | device-plugin/pkg/dsmlu/dsmlu.go:183-289 | A collection without faults leaves on every enabled slot exactly the instances and the profiles that annotations of Pending and Running pods name |
| `DsmluCollector.WhatCollectionTakes` | device-plugin/pkg/dsmlu/dsmlu.go:183-289 | After any collection, with any faults: an instance is gone exactly if no pending pod with a profile annotation lacks its instance annotation, no listing failed on an earlier enabled slot, the slot is enabled, could be asked and listed, the instance is listed and not stuck, and no pending or running pod with a profile annotation is annotated with it; a profile likewise, if no instance that is left has it; nothing else changes |
| `DsmluCollector.WhatFaultlessCollectionLeaves` | device-plugin/pkg/dsmlu/dsmlu.go:199-289 | If every pending pod with a profile annotation has its instance annotation, a collection without faults leaves exactly what such pods are annotated with; if one has none, nothing changes |
| `DsmluCollector.ForeignPodsDoNotMatter` | device-plugin/pkg/dsmlu/dsmlu.go:199-206 | A pod without the profile annotation, or neither pending nor running, never matters to a collection |
| `DsmluRuns.RecycleFreesOnlyItsOwn` | device-plugin/pkg/dsmlu/dsmlu.go:116-173 | However late it comes, recycling a deleted pod destroys that pod's instance and no other |
| `DsmluDecisions.WhatRecyclingDoes` | device-plugin/pkg/dsmlu/dsmlu.go:116-173 | A deleted pod's instance goes if its handle, as an `int`, names one and the driver lets it go, and otherwise nothing changes; the profile goes with it only if the request names a slot whose listing shows that profile first, with all its places left |
| `DsmluDecisions.NothingToRecycle` | device-plugin/pkg/dsmlu/dsmlu.go:121-142 | A pod that is not being deleted, or whose annotation cannot be read, is not recycled |
| `DsmluDecisions.NarrowIntWraps` | device-plugin/pkg/cndev/bindings.go:115-121 | The conversion of a handle keeps the low 32 bits, signed |
| `DsmluSizes.RecycleFreesUnusedProfile` | device-plugin/pkg/dsmlu/dsmlu.go:150-172 | If a deleted pod's instance still exists, its profile goes with it if and only if no other instance uses it, the driver lets it go and it is the first that the listing shows for the request; where no two profiles have one size that is when the quota fits and the listing shows the profile; with a quota that does not fit it always stays; every other profile stays |
| `DsmluSizes.FoundIfFits` | device-plugin/pkg/cndev/bindings.go:347-364 | Where no two profiles have one size, the profile made for a request is found again if and only if its quota fits an `unsigned int` and the listing shows it |
| `DsmluSizes.StepKeepsSizes` | device-plugin/pkg/mlu/server.go:370-402 | An enabled step makes two profiles of one size, where there were none, if and only if it is a call that has a profile created although one of the narrowed size is there, which the quota does not fit or the listing does not show |
| `DsmluSizes.SizesAlong` | device-plugin/pkg/mlu/server.go:370-402 | Along a run no slot ever has two profiles of one size if and only if no step is such a call |
| `DsmluSizes.WideQuotaDuplicates` | device-plugin/pkg/cndev/bindings.go:88-101 | For every quota that does not fit: a reachable state in which the first pod has an instance of another quota, and the second such pod's call makes a second profile of that size |
| `DsmluSizes.FiveCoresGranted` | device-plugin/pkg/cndev/bindings.go:97-98 | The same for a request of 4294967301, which is granted as 5 |
| `DsmluRuns.CallsAbandon` | device-plugin/pkg/mlu/server.go:322-455 | A call, failed or not, leaves an instance that no annotation and no record names, where there was none, if and only if it finds no candidate while an instance is recorded, cannot annotate on a second call, or on a first call creates an instance and can neither list nor destroy it, cannot find the slot's device, or replaces another pod's record |
| `DsmluRuns.UnknownSlotAbandons` | device-plugin/pkg/mlu/server.go:429-433 | A reachable call that creates an instance and fails because the slot's device is not known |
| `DsmluRuns.UnlistedAbandons` | device-plugin/pkg/mlu/server.go:408-425 | A reachable call that creates an instance and can neither list nor destroy it |
| `DsmluRuns.UnpatchedAbandons` | device-plugin/pkg/mlu/server.go:337-357 | A reachable second call that cannot annotate and forgets the recorded instance |
| `DsmluRuns.LostCandidateAbandons` | device-plugin/pkg/mlu/server.go:327-332 | A reachable call that finds two waiting pods and forgets the recorded instance |
| `DsmluRuns.ReplacedAbandons` | device-plugin/pkg/mlu/server.go:447-450 | A reachable call that succeeds and forgets the instance recorded for a pod that left |
| `DsmluOrphans.OrphanStays` | device-plugin/pkg/dsmlu/dsmlu.go:116-289 | An instance that nobody names stays so through every enabled step but a collection at which no pending pod is unannotated |
| `DsmluOrphans.OrphanAlong` | device-plugin/pkg/dsmlu/dsmlu.go:183-213 | The same along any run |
| `DsmluOrphans.CollectionAndOrphan` | device-plugin/pkg/dsmlu/dsmlu.go:199-289 | A collection without faults removes such an instance if and only if no pending pod is unannotated and the slot is enabled; otherwise it stays unnamed |
| `DsmluOrphans.OthersAbandonNothing` | device-plugin/pkg/dsmlu/dsmlu.go:116-289 | Steps that are not calls take no instance's name away |
| `DsmluOrphans.NamesAlong` | device-plugin/pkg/mlu/server.go:322-455 | Along a run every instance always has a name if and only if no call abandons one |
| `DsmluLocks.LateSweep` | device-plugin/pkg/dsmlu/dsmlu.go:185-289 | A faultless sweep at the end of a run, from the pods listed at its beginning, keeps the invariant if and only if a listed pod held it back or no pod that came since relies on an instance of an enabled slot |
| `DsmluLocks.QuietSweep` | device-plugin/pkg/dsmlu/dsmlu.go:185-289 | With no allocation call between listing and sweep the invariant is kept, faults or not |
| `DsmluLocks.LateSweepDestroys` | device-plugin/pkg/dsmlu/dsmlu.go:185-289 | A run from an initial state after which the sweep destroys the instance of a pod that came since the listing, and the second call annotates the pod with it |
| `DsmluLocks.SteadyAlong` | device-plugin/pkg/dsmlu/dsmlu.go:199-213 | A listed pod that does not hold the collection back keeps its annotations along any run, and is active later only if it was |
| `DsmluRuns.OthersIssueNothing` | device-plugin/pkg/dsmlu/dsmlu.go:116-289 | Steps other than calls hand out nothing and leave the shared record alone |
| `DsmluPlugin.Plugin.AllocateDynamicSmlu` | device-plugin/pkg/mlu/server.go:322-455 | The code, with its comparisons and conversions of quota and memory, its search for the new handle and its look-up of the device, takes exactly the model's allocation step, error paths included |
| `DsmluPlugin.Plugin.GetDynamicSmluCandidatePod` | device-plugin/pkg/mlu/podutils.go:152-191 | The only assumed pod, if it has one claiming container; otherwise an error |
| `DsmluPlugin.Plugin.GetExistProfile` | device-plugin/pkg/cndev/bindings.go:347-364 | The first profile of the listing whose quota and memory are the request's as 64-bit numbers; none if there is no listing |
| `DsmluPlugin.Plugin.FindHandle` | device-plugin/pkg/mlu/server.go:408-418 | The search of the listed instances finds the handle exactly if it is listed |
| `Preferred.GetDeviceUUIDByIndex` | device-plugin/pkg/mlu/server.go:313-320 | Some UUID on the slot, if the plugin knows one |
| `DsmluPlugin.Plugin.DestroyUnkeptInstances` | device-plugin/pkg/dsmlu/dsmlu.go:266-274 | Destroying by the handle rebuilt from ID and slot drops exactly the listed instances that are not kept and not stuck, on that slot only |
| `DsmluPlugin.Plugin.RecycleProfileAndInstance` | device-plugin/pkg/dsmlu/dsmlu.go:116-173 | The code takes exactly the model's recycling step |
| `DsmluPlugin.Plugin.CollectKept` | device-plugin/pkg/dsmlu/dsmlu.go:199-244 | The maps built in the loop hold exactly the slot, instance and profile triples of the annotations that can be read; the loop gives up exactly when a pod is being handled |
| `DsmluPlugin.Plugin.Exec` | device-plugin/pkg/dsmlu/dsmlu.go:183-289 | The code takes exactly the model's collection step, also when listings or destructions fail part-way |
| `Annotation.AssignmentRoundTrip` | device-plugin/pkg/mlu/server.go:450 | The four numbers of an instance annotation, any 64-bit integers, are read back as they were written |
| `Annotation.RequestRoundTrip` | device-plugin/pkg/mlu/podutils.go:89-120 | The same for the three numbers of a request annotation |
| `Annotation.AtoiUndoesPrinting` | device-plugin/pkg/dsmlu/dsmlu.go:133-142 | `Atoi` recovers every 64-bit integer from its decimal text |
| `Annotation.SplitUndoesJoin` | device-plugin/pkg/dsmlu/dsmlu.go:128-132 | Splitting recovers joined pieces that do not hold the separator |
| `Annotation.JoinUndoesSplit` | device-plugin/pkg/dsmlu/dsmlu.go:128-132 | Whatever is split, the pieces lack the separator and joining them gives it back |
| `JsonNumbers.WhatAtoiReads` | device-plugin/pkg/dsmlu/dsmlu.go:133-142 | `Atoi` reads an optional sign and digits within 64 bits, and nothing else |
| `DsmluDecisions.AnnotationTexts` | device-plugin/pkg/mlu/podutils.go:96 | The annotations as they are written, for slot 0, 2 cores and 5 units |
| `Annotation.HandleInjective` | device-plugin/pkg/dsmlu/dsmlu.go:266-274 | A handle names one instance of one slot below 256; the collector and the allocation call use it to destroy by handle and to recognise the new instance |
| `LinkGroups.GetMLULinkGroups` | device-plugin/pkg/cndev/bindings.go:366-412 | It succeeds if and only if the count, every UUID and every link list can be read, and then each group starts at the least slot left over and holds exactly what that slot reaches outside the earlier groups |
| `LinkGroups.LinkedByUuid` | device-plugin/pkg/cndev/bindings.go:371-391 | A slot is linked to each slot that is the last to report a UUID which its link list names |
| `LinkGroups.Search.Dfs` | device-plugin/pkg/cndev/bindings.go:381-398 | A call adds to the group just the slots it newly visits, all of them reached from its slot, and leaves no link of theirs unfollowed; it ends because unvisited slots get fewer |
| `LinkGroups.GroupsPartition` | device-plugin/pkg/cndev/bindings.go:399-411 | Each slot is in exactly one group, and a group's first slot is its least |
| `LinkGroups.GroupsUnique` | device-plugin/pkg/cndev/bindings.go:381-411 | The groups are the same whatever order the links are followed in |
| `LinkGroups.GroupsAreComponents` | device-plugin/pkg/cndev/bindings.go:366-412 | With symmetric links the groups are the connected components |
| `Devices.SplitBy` | device-plugin/pkg/allocator/spider.go:130-148 | The available slots are split so that two share a group exactly when their devices share the key, smallest group first |
| `Devices.ChooseRing` | device-plugin/pkg/allocator/spider.go:105-119 | The ring has the greatest non-conflict number, and if any such ring lies inside a group, it lies inside a smallest group that holds one |
| `Spider.Allocate` | device-plugin/pkg/allocator/spider.go:42-121 | `size` distinct available slots; a tightest ring if there are rings, else the largest motherboards kept whole; the "should not be here" error cannot be reached |
| `Policies.WhenSpiderFails` | device-plugin/pkg/allocator/spider.go:42-128 | It fails exactly when rings cannot be had, other than for time under best effort; when there are none for a size from 2 to 8 and the policy is not best effort; or when under the restricted policy every ring of 4 has fewer than 4, or of 2 fewer than 2, that do not conflict |
| `Policies.SpiderPoliciesNest` | device-plugin/pkg/allocator/spider.go:42-121 | What the restricted policy grants the guaranteed one does, and what that grants best effort does |
| `Policies.SpiderSplitsByMotherBoard` | device-plugin/pkg/allocator/spider.go:130-148 | Two available devices are in one group exactly if they sit on the same motherboard |
| `Policies.SpiderTakesTightRing` | device-plugin/pkg/allocator/spider.go:105-119 | With rings it takes one with the most that do not conflict; and if such a ring lies on one motherboard, it takes one on a motherboard with no more slots available |
| `Policies.SpiderLeavesMost` | device-plugin/pkg/allocator/spider.go:77-97 | Without rings no other choice of as many slots would leave more on any number of motherboards |
| `Spider.DrainKeepsLargestWhole` | device-plugin/pkg/allocator/spider.go:77-97 | For every k at once, what is left on the k largest groups is the smaller of their total and all that is left |
| `Spider.NoChoiceLeavesMore` | device-plugin/pkg/allocator/spider.go:77-97 | No other choice of as many slots leaves more on any k groups |
| `Spider.AnyGroupsHoldNoMore` | device-plugin/pkg/allocator/spider.go:144-147 | Any k groups hold no more than the k largest |
| `SlotSets.Drain.AllocateRemainingFrom` | device-plugin/pkg/allocator/spider.go:79-91 | Takes the fresh devices in order until enough are taken, and says whether they were enough |
| `Board.Allocate` | device-plugin/pkg/allocator/board.go:44-139 | `size` distinct available slots; a ring that is tightest among the usable groups; without rings the boards in draining order, keeping the largest boards or, where no board straddles groups, the largest groups whole |
| `Policies.WhenBoardFails` | device-plugin/pkg/allocator/board.go:44-173 | The same for the board allocator, which takes rings to be had for the sizes 2, 4, 6 and 8 only and checks those of 2 only |
| `Policies.BoardPoliciesNest` | device-plugin/pkg/allocator/board.go:44-139 | The policies nest here too |
| `Policies.BoardSplitsBySerialNumber` | device-plugin/pkg/allocator/board.go:175-193 | Two available devices are in one group exactly if their boards have the same serial number |
| `Policies.BoardTakesTightRing` | device-plugin/pkg/allocator/board.go:123-163 | With rings it takes one with the most that do not conflict; and if the groups cover the slots and such a ring lies inside one, it takes one inside a group with no more slots available |
| `Policies.BoardLeavesMost` | device-plugin/pkg/allocator/board.go:79-119 | Without rings and without groups that cover the slots no other choice would leave more on any number of boards |
| `Policies.BoardDrainsInsideFirst` | device-plugin/pkg/allocator/board.go:106-117 | Without rings but with such groups, while a board inside a group has a slot left nothing is taken from a later board or group or from outside; what is outside is taken in the order of the list |
| `Policies.FilteredByFirstGroup` | device-plugin/pkg/allocator/board.go:141-163 | Each available slot is kept in the first group that has it; the groups are sorted by what they keep, and those that keep as many stay in order |
| `Board.DrainByGroup` | device-plugin/pkg/allocator/board.go:84-118 | The slots taken are the first `size` of: the boards inside each group in turn, then what is still available; the final error cannot be reached |
| `Board.DrainWithoutRings` | device-plugin/pkg/allocator/board.go:79-119 | Both fallbacks of the branch without rings, with what they keep whole |
| `Board.DrainByGroupKeepsLargestWhole` | device-plugin/pkg/allocator/board.go:106-117 | When every board lies inside one group, the last k groups keep as much as any draining allows, for every k |
| `Board.FilterAvailableDevsByGroup` | device-plugin/pkg/allocator/board.go:141-163 | It succeeds exactly when there are groups and they cover the available slots; each slot goes to the first group that has it; smallest group first, equal ones in order |
| `Board.AllocateDefault` | device-plugin/pkg/allocator/default.go:41-84 | The shortcut, the policy under which no ring will do, and a best ring otherwise |
| `Policies.WhenDefaultFails` | device-plugin/pkg/allocator/default.go:41-84 | The default allocator needs no ring for one device or for all eight; otherwise it fails exactly when rings cannot be had, or there is no ring and no best effort |
| `Preferred.GetPreferredAllocatedDeviceUUIDs` | device-plugin/pkg/mlu/server.go:611-644 | On success `size` different IDs out of those offered, whose slots are what the allocator chose; it fails only where the allocator does; with best effort and nothing to choose all IDs come back |
| `Preferred.SlotsAreDrawn` | device-plugin/pkg/mlu/server.go:646-653 | Distinct IDs of devices with their own slots give the allocators the distinct slots they rely on |
| `Topology.Topology.GetTopo` | device-plugin/pkg/topology/topology.go:120-145 | Each rule size is annotated by its best ring count, or not at all without rings; a failing query changes nothing |
| `Topology.AnnotationMatchesSpider` | device-plugin/pkg/topology/topology.go:120-145 | For 092U models "restricted" is exactly when the spider allocator would succeed under restricted, "guaranteed" exactly when under guaranteed only, no entry exactly when under neither |
| `Topology.WhenSpiderAgrees073U` | device-plugin/pkg/topology/topology.go:46-52 | For 8M-073U models "restricted" agrees with the spider allocator at size 2 always, at size 4 if and only if the best count is not 2 or 3, at size 8 if and only if it is at least 4 |
| `Topology.WhenBoardAgrees` | device-plugin/pkg/topology/topology.go:46-52 | For 073U and 095U rules "restricted" agrees with the board allocator if and only if the size is 2, there are no rings, or the best count meets the rule |
| `Topology.SpiderRefusesRingOfFour` | device-plugin/pkg/topology/topology.go:46-52 | One ring of four slots with two that do not conflict is annotated "restricted" for an 8M-073U model, and the spider allocator refuses it |
| `Topology.BoardAcceptsRingOfFour` | device-plugin/pkg/topology/topology.go:46-52 | The same ring is not annotated "restricted" for an 8H-095U model, and the board allocator accepts it |
| `EnvShare.GetPreferredEnvShareDeviceID` | device-plugin/pkg/mlu/server.go:680-722 | It fails exactly on an index that is no number or a size above the number of cards; otherwise the least free index on each of `size` distinct cards, such that no card left out has more free |
| `EnvShare.AnswerIsPreferred` | device-plugin/pkg/mlu/server.go:680-722 | On IDs with underscore-free UUIDs the answer is a subset of the available IDs |
| `EnvShare.PreferredKeepsBalance` | device-plugin/pkg/mlu/server.go:701-722 | Taking an answer keeps the cards' free counts within one of each other |
| `EnvShare.RunKeepsBalance` | device-plugin/pkg/mlu/server.go:680-722 | From fresh cards of equal size, any run of answers that are followed, with no releases, keeps them so |
| `EnvShare.IdRoundTrip` | device-plugin/pkg/mlu/cambricon.go:78 | A virtual device's ID is taken apart into the UUID and index it was made of |
| `EnvShare.IdText` | device-plugin/pkg/mlu/cambricon.go:78 | The ID is the UUID, "-_-" and the index |
| `EnvShare.CardAndIndex` | device-plugin/pkg/mlu/server.go:684-691 | Of an ID of several pieces the first is the card and the last is read as the index |
| `EnvShare.GenerateFakeDevs` | device-plugin/pkg/mlu/cambricon.go:70-96 | One ID for each index from 1 to the number asked for |
| `EnvShare.GetDevices` | device-plugin/pkg/mlu/cambricon.go:121-200 | Over all cards the virtual devices are just those that a run starts from, the same number of each card |
| `Health.Watcher.Sweep` | device-plugin/pkg/mlu/cambricon.go:213-266 | Each slot is polled once; a device is held unhealthy exactly when its slot's code was 0; a device gets one event if that changed and none otherwise; a compute-mode error switches compute mode off for good |
| `Health.EventsAlternate` | device-plugin/pkg/mlu/cambricon.go:242-262 | Over any run the events about one device alternate, beginning with Unhealthy |
| `Health.ReplayAgreesWithPolling` | device-plugin/pkg/mlu/server.go:185-201 | After every sweep the replayed list shows each device whose ID is its UUID just as its slot was last polled |
| `Health.ShownAsRead` | device-plugin/pkg/mlu/cambricon.go:219-262 | After every sweep the replayed list shows such a device unhealthy exactly if the poll of its slot failed, read the code 0, or read the code 1 with compute mode on while no earlier query of compute mode had failed |
| `Health.EverySlotRead` | device-plugin/pkg/mlu/cambricon.go:219-240 | Every device's slot is polled in every sweep |
| `Health.OneSlotAgrees` | device-plugin/pkg/mlu/cambricon.go:219-240 | Devices on one slot show the same health |
| `Health.OthersStayHealthy` | device-plugin/pkg/mlu/server.go:188-193 | A device whose ID is no UUID, or a second entry with a used ID, stays healthy |
| `Health.DeviceList.Update` | device-plugin/pkg/mlu/server.go:187-193 | An event changes the first device with its ID and nothing else |

## Left out

- `cJSON_ParseWithLength` on buffers without a terminating NUL: `parse_string` and the keyword tests are modelled for terminated text only; error positions, hooks and failing allocations are left out.
- JsonParser.ParseBuffer.ParseNumberItem: does not model rounding or overflow, because `strtod` is taken as exact over the reals; the saturated `valueint` and the locale's decimal point are left out with it.
- JsonPrinter.PrintBuffered: does not cover an initial size of 0 without `realloc`, because growing then copies one byte of an empty buffer.
- JsonPrinter.PrintBuffer.PrintNumber: covers 32-bit integers only; other numbers depend on how `%1.15g` rounds.
- JsonParser.ParseBuffer.ParseElements: links an item after its value has been parsed, the code before; only a parse that fails, and then deletes the list, could tell.
- JsonCompare.Compare: does not cover two different items that share nodes, the case-insensitive mode, raw and invalid items, or a string without `valuestring`.
- Duplicate.Duplicate: does not model failing allocations, or the flags for references and constant names.
- `cJSON_Minify`, references, raw items and the `Create` and `Add…ToObject` helpers of `cJSON.c`.
- The older cJSON copy under `pkg/cntopo/test` does the same job again.
- EnvShare.GetDevices: lists the env-share devices only; the `real-counts` device of each card and the sorting by profile are left out.
- DsmluPlugin.Plugin.AllocateDynamicSmlu: does not model retries, because patching is one step that succeeds or fails; the retry loop calls `rand.Intn(0)` on its first turn, which panics. The device path of the response, the release of the node lock and the entry added to `devsInfo` are left out. The vcore and the vmemory plugin, which share the record, are one object here.
- DsmluPlugin.Plugin.Exec: does not model failing to list the pods or to count the devices, which changes nothing.
- LinkGroups.GetMLULinkGroups: takes the answers of the driver as a table; the cgo calls are not part of this model.
- Topology.Topology.GetTopo: covers `t.annotation` only; merging it into the node's annotations, which never overwrites an existing key, and finding the cards in use are left out.
- Topology.WhenSpiderAgrees073U: says nothing about the guaranteed level, which these models share with the 092U family; "085U" has the rule for size 2 only.
- Preferred.GetPreferredAllocatedDeviceUUIDs: takes the allocator as given; choosing it from the reversed model name is left out.
- Spider.Allocate: models `GetRings` as an oracle; the timing of its answer is a parameter.
- EnvShare.GetPreferredEnvShareDeviceID: asks for at least one available ID when one is requested; without any the code indexes an empty list and panics.
- Health.Watcher.Sweep: takes the driver's answers as a parameter; the sleep, the stop signals and sending the list to the kubelet are left out.
- gRPC, sockets, informers, HTTP, file and PCI scanning, node labels, path lists in responses, options, Helm charts and scripts.
