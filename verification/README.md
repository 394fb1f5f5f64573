# Proofs about polis

polis is a local, append-only memory: a hash-chained ledger of events, signed segments that carry a part of one chain
to another store, a catalog of classes that a gardener reorganises, an answer pack cut to a byte budget, a semantic
index over quantised vectors, and a token ledger shared by benchmark processes. This project models the parts of it
whose promises span many inputs, many calls or many processes, and proves those promises for all of them.

The modules, in reading order:

| module | what it is about |
|---|---|
| `Wrappers`, `Texts`, `Sorting` | `Option`, `Result`; trimming, splitting and UTF-8; sorting by an order passed in |
| `CanonicalJson`, `CanonicalReader` | the text an event is hashed over, why it determines the event, and a reader that finds the event in it |
| `Ledger` | rows, the stable sort, appends, bundle verification |
| `Envelope`, `Acceptance` | signed segments and their continuity with the local chain; what acceptance means without the verifier's own tests |
| `JsonText` | the string-aware brace scanner and the tolerant object extractor |
| `Proposals`, `ProposalGrammar` | the proposal parser and the printer it must undo; which JSON value denotes which proposal |
| `Calendar` | unix milliseconds to a civil date |
| `PackBudget`, `RankFusion`, `Dedup` | the two-pass trimmer, reciprocal rank fusion, duplicate collapsing |
| `Catalog`, `Coldness` | bounded walks, promotes, the activity roll-up, the collapse interlock |
| `Chunking`, `Quantized` | chunks of a text, int8 vectors and their dot product |
| `WordPiece` | normalised text, words, greedy vocabulary pieces, reading ids back |
| `VectorCache` | searches, writers and cache resets interleaved |
| `SemanticRanking` | from a search's rows to its hits |
| `TokenBudget` | processes that reserve, dispatch and settle under one lock |

How the program's surroundings appear:

- SHA-256 is an arbitrary function of texts. Nothing assumes it injective: a conclusion that needs collision freedom
  reads "or these two chains hold two different texts with one digest", which names the collision.
- Ed25519, key decoding and the JSON serialisers are fields of `Envelope.Host`; the JSON parser is a function from
  text to `Option<Value>`; the Unicode tables, the serialised size of an answer pack and the norm of a vector are
  parameters too.
- The store's readers are their contracts: ledger events past a number, ascending, at most so many; an embedding
  revision that grows with every changed row, so that equal revisions mean equal rows.
- Searches and budget processes are state machines: one action is one atomic step of one participant, and the theorems
  are about every sequence of actions. Beside each, a class gives one uninterrupted call, and an uninterrupted run of
  the machine is proved to do the same.
- Scores, cosines and the 0.34 fraction are exact reals. Widths that matter are written out: the 32-bit lanes, the
  64-bit integers of a proposal, the 64 bits of a fingerprint.

## Model

| member | source | states |
|---|---|---|
| `CanonicalJson.ClosedPrefix` | crates/polis-core/src/ledger.rs:357-376 | an escaped JSON string can be read off the front of any text in one way only, whatever follows it |
| `CanonicalJson.EncodePrefix` | crates/polis-core/src/ledger.rs:357-376 | so can any field value: integers, strings and null are told apart and end where they end |
| `CanonicalJson.CanonicalDeterminesEvent` | crates/polis-core/src/ledger.rs:357-376 | events with one canonical JSON agree in all ten fields, null and text options included |
| `CanonicalJson.CanonicalOpens` | crates/polis-core/src/ledger.rs:371-380 | no event's JSON contains another's opening, so the boundary after the predecessor hash cannot move |
| `CanonicalJson.PreimageDeterminesEvent` | crates/polis-core/src/ledger.rs:371-380 | the hashed text determines predecessor hash and event, for predecessors of any length, 64 characters not needed |
| `CanonicalReader.CanonicalReads` | crates/polis-core/src/ledger.rs:357-380 | read back by a reader of RFC 8259 objects, the hashed JSON is an object with the ten declared names in declaration order, and under each stands the event's field, absent ones as null |
| `CanonicalReader.EscapeIsShortest` | crates/polis-core/src/ledger.rs:374-376 | of the notations of a character that read back to it, the one written is the shortest, in lower-case hexadecimal |
| `Acceptance.RowsHashTheirFields` | crates/polis-core/src/bundle.rs:137-173 | a row recomputes exactly when its hash is that of its predecessor's hash followed by a text that reads back to the row's own fields |
| `Ledger.SortBySeqIsStable` | crates/polis-core/src/bundle.rs:160-162 | the copy that is verified is in sequence order, loses no row, and keeps rows of one number in their order |
| `Ledger.OneHeadOneHistory` | crates/polis-memory/src/envelope.rs:570-598 | two verified runs under one head hash are one history, the shorter a suffix of the longer, field for field |
| `Ledger.HeadPinsTheChain` | crates/polis-core/src/bundle.rs:183-209 | a head hash determines every event from genesis |
| `Ledger.AppendsKeepTheChainValid` | crates/polis-store/src/ledger.rs:74-131 | any run of appends extends the chain and leaves it valid from genesis |
| `Acceptance.AppendsWhatWasAsked` | crates/polis-store/src/ledger.rs:74-131 | an append adds one row with the caller's nine fields, the next number, the head's hash or 64 zeros, and a hash over all of them |
| `Ledger.VerifyBundle` | crates/polis-core/src/bundle.rs:160-219 | ok exactly when every row recomputes and, for a full chain, the links run from genesis to the pinned head; otherwise the verdict names the first bad row of the check that failed |
| `Ledger.FullExportsUnderOneHeadAgree` | crates/polis-core/src/bundle.rs:160-209 | two full exports that verify under one pinned head hold the same events, in whatever order they list them |
| `Envelope.VerifyHeader` | crates/polis-memory/src/envelope.rs:533-569 | passes exactly when the cards, the signature, the payload digest and the bind hold; otherwise names the first that does not |
| `Envelope.VerifySegment` | crates/polis-memory/src/envelope.rs:570-598 | passes exactly when the sorted events are one contiguous, linked, recomputing run with the ends the header names; otherwise names the row and the way the walk first fails |
| `Envelope.VerifyCommitments` | crates/polis-memory/src/envelope.rs:599-611 | passes exactly when every bind and redaction event commits to a payload the envelope carries; otherwise names the first event that does not |
| `Envelope.VerifyBodies` | crates/polis-memory/src/envelope.rs:612-627 | passes exactly when shipped bodies and prompt events agree with their rows, and counts the shipped ones; otherwise names the first prompt that disagrees |
| `Envelope.Verify` | crates/polis-memory/src/envelope.rs:533-639 | accepts exactly the envelopes all checks hold of, summarises those, and refuses the others for a check that fails after all earlier ones passed |
| `Envelope.RefusalIsUnique` | crates/polis-memory/src/envelope.rs:533-627 | for each envelope there is at most one such refusal, and none for an accepted one: the order of the checks is fixed by what `verify` answers |
| `Acceptance.AcceptedIffGenuine` | crates/polis-memory/src/envelope.rs:533-627 | accepted exactly when some key decodes from the human's card, derives the human and, with the device's name, the chain, and signed header and bind, and the events in some order are the named run, each hashed over its own fields, with payloads carried and bodies matching |
| `Acceptance.HeaderRefusesTheFirstFailure` | crates/polis-memory/src/envelope.rs:534-569 | each refusal of the header, said of cards, keys and signatures, is the first of its checks that fails |
| `Acceptance.OneHumanOneKey` | crates/polis-memory/src/envelope.rs:538-543 | two accepted envelopes of one human carry one key, or two keys share an id: no other key speaks for a human |
| `Acceptance.OneChainOneDevice` | crates/polis-memory/src/envelope.rs:544-553 | two accepted envelopes of one chain come from one key, device name and human, or two pairs share a device id |
| `Envelope.EnvelopesUnderOneHeadAgree` | crates/polis-memory/src/envelope.rs:570-598 | two envelopes whose segments verify carry one history under one head, accepted ones among them |
| `Envelope.FullBodiesArePinned` | crates/polis-memory/src/envelope.rs:612-627 | two envelopes of one verified segment that ship a verified body for one chained prompt ship the same text |
| `Envelope.VerifyAgainst` | crates/polis-memory/src/envelope.rs:645-670 | accepts exactly an accepted envelope that, when its chain is written here, links onto and agrees with the local rows |
| `Envelope.DivergenceIsRefused` | crates/polis-memory/src/envelope.rs:660-668 | an event of a verified, continuous segment and the local event of its number are the same row |
| `Acceptance.ContinuousIffItFits` | crates/polis-memory/src/envelope.rs:645-668 | against a valid local chain, continuity holds exactly when the segment starts the chain or follows the local row before it, and has the local hash wherever it has a local number |
| `Envelope.AcceptedSegmentSplicesIffItStartsInTheChain` | crates/polis-memory/src/envelope.rs:645-670 | a verified, continuous segment spliced onto our non-empty chain verifies from genesis and is in a prefix relation with it exactly when it starts at 1 or later, and then only right after the local events before it; otherwise two texts collide |
| `Envelope.SegmentsBelowOneAreNeverCompared` | crates/polis-memory/src/envelope.rs:651-668 | a segment wholly below number 1 is continuous with any local chain: nothing of it is compared |
| `Envelope.OffChainSegmentIsAccepted` | crates/polis-memory/src/envelope.rs:533-670 | on every host whose keys can sign and against every valid chain there is such an envelope that is accepted, though no local row has its number and it splices nowhere |
| `Envelope.AnOffChainSegmentPasses` | crates/polis-memory/src/envelope.rs:533-670 | one such host, store and envelope written out, with a non-empty local chain and no collision |
| `JsonText.MatchingBrace` | crates/polis-core/src/json.rs:30-58 | the loop finds the brace that the scanner's specification finds, inside the text and a brace |
| `JsonText.RenderSkipped` | crates/polis-core/src/json.rs:30-58 | any JSON text is scanned at a positive depth without stopping and without changing the scanner's state |
| `JsonText.MatchingBraceOfAnObject` | crates/polis-core/src/json.rs:30-58 | at the first byte of an object text the answer is its last byte, whatever comes before and after |
| `JsonText.ExtractObjectWithKey` | crates/polis-core/src/json.rs:12-28 | the loop returns what the specification of the extractor returns |
| `JsonText.FirstCandidateIsLeast` | crates/polis-core/src/json.rs:12-28 | that is the candidate that starts first, and nothing only when there is none |
| `JsonText.EmbeddedObjectIsACandidate` | crates/polis-core/src/json.rs:12-28 | a keyed object embedded anywhere in a reply is a candidate at its first byte: none is missed |
| `JsonText.ExtractsTheEarliestKeyedObject` | crates/polis-core/src/json.rs:12-28 | no slice that opens with a brace, parses and carries the key starts before the object returned |
| `Proposals.ParserOutputIsNormal` | crates/polis-core/src/proposal.rs:110-219 | every parsed proposal is in the normal form: texts trimmed and not empty, except merge ids and split parts, which stay as they came; at least two merge nodes, at least one split part, ordered positive supersede numbers |
| `Proposals.NormalReadsBack` | crates/polis-mcp/src/remote.rs:192-202 | a printed proposal in that form parses back to itself |
| `Proposals.ReadsBackIffNormal` | crates/polis-mcp/src/remote.rs:192-202 | and one outside it does not |
| `ProposalGrammar.ParsesIffDenoted` | crates/polis-core/src/proposal.rs:110-219 | said of the JSON value alone: a value is read as exactly the proposal it denotes, texts stripped of the white space around them, numbers as ids by their decimal text, digits in strings by their value |
| `Proposals.PayloadIsExtracted` | crates/polis-mcp/src/remote.rs:460-464 | the staged body is found by the tolerant extractor as it was printed |
| `ProposalGrammar.RepliesAreReadItemByItem` | crates/polis-core/src/proposal.rs:94-105 | a reply's proposals are those its listed items denote, in order; what denotes none is skipped |
| `ProposalGrammar.ItemsStandAlone` | crates/polis-core/src/proposal.rs:94-105 | so an item put between two lists adds what it denotes, or nothing, and changes nothing around it |
| `Proposals.PrintedProposalsParseBack` | crates/polis-core/src/proposal.rs:94-105 | for every reply, staging what was parsed from it and parsing that gives the same list |
| `Calendar.NextDayIsTomorrow` | crates/polis-core/src/pack.rs:450-461 | the arithmetic gives valid dates and moves to the next date of the calendar, day by day |
| `Calendar.CivilFromDaysIsTheCalendar` | crates/polis-core/src/pack.rs:450-461 | every day count, negative ones included, names the date reached by stepping from 1970-01-01 |
| `Calendar.StampNamesTheMinute` | crates/polis-core/src/pack.rs:445-461 | the printed hour and minute are those of the instant on that date |
| `Calendar.StampReadsBack` | crates/polis-core/src/pack.rs:443-461 | read back part by part, the stamp of any instant gives its date on the calendar, its hour and its minute, zero-padded to four and two places |
| `PackBudget.TrimToFloor` | crates/polis-core/src/pack.rs:280-294 | one arm of pass one, with the number of times it measures the answer pack |
| `PackBudget.TrimToNothing` | crates/polis-core/src/pack.rs:296-310 | one arm of pass two |
| `PackBudget.EnforcePackBudgetBytes` | crates/polis-core/src/pack.rs:227-325 | for any size function: the result is within budget or bare, is trimmed from the input, and after pass one every non-empty arm is non-empty |
| `PackBudget.FloorArmCuts` | crates/polis-core/src/pack.rs:280-294 | pass one shortens one arm to a non-empty prefix and labels it exactly when it does |
| `PackBudget.EmptyArmCuts` | crates/polis-core/src/pack.rs:296-310 | pass two shortens one arm to a prefix, labels it exactly when it does, and empties it when the budget is still not met |
| `PackBudget.StoppedPackIsTrimmed` | crates/polis-core/src/pack.rs:227-325 | wherever it stops: all lists prefixes, labels added exactly for shortened lists, node and query last and only when every list is empty |
| `PackBudget.AboveTheFloorOnlyByItsLabel` | crates/polis-core/src/pack.rs:280-294 | an arm left above its floor in an answer pack over budget is there because its own label pushed it back over |
| `PackBudget.PassOneStopsAtTheFirstFit` | crates/polis-core/src/pack.rs:280-290 | pass one takes an arm through the lengths got by taking away a quarter of the excess over one, or one item, and stops at the first that fits, or at one |
| `PackBudget.PassOneTakesNoMoreThanAQuarter` | crates/polis-core/src/pack.rs:281-287 | what it took last from an arm was one item or at most a quarter of the excess, from an answer pack that was still over budget |
| `PackBudget.PassTwoKeepsTheMostThatFits` | crates/polis-core/src/pack.rs:296-310 | pass two keeps the longest shorter prefix with which the labelled answer pack fits, or nothing |
| `PackBudget.TheElevenArms` | crates/polis-core/src/pack.rs:238-277 | the arms in their order, each with its label and its list |
| `PackBudget.NodeThenQueryThenMetadata` | crates/polis-core/src/pack.rs:311-324 | past pass two the node goes, then the query if that is not enough, then errors and coverage are clipped |
| `PackBudget.ArmsGiveInOrder` | crates/polis-core/src/pack.rs:280-310 | arms after the one that made it fit are untouched in pass one, and in pass two as pass one left them, with earlier ones empty; past pass two all are empty |
| `PackBudget.ArmEndsEmptyIff` | crates/polis-core/src/pack.rs:280-325 | an arm with hits ends empty exactly past pass two, before the arm that made it fit in pass two, or as that arm when every non-empty cut of it is still over budget |
| `PackBudget.EveryArmKeepsOneIff` | crates/polis-core/src/pack.rs:235-310 | every arm with hits keeps one exactly when pass one makes the answer pack fit, no arm has hits, or the first arm to give makes it fit with some of its hits left |
| `PackBudget.OneHitIsLost` | crates/polis-core/src/pack.rs:296-310 | an answer pack that breaks it: a single hit, over budget however it is cut, is dropped |
| `PackBudget.MeasurementsAreLogarithmic` | crates/polis-core/src/pack.rs:281-287 | a pass-one arm of n + 1 items is measured at most 4 log2(n) + 6 times |
| `RankFusion.TallyAll` | crates/polis-core/src/pack.rs:389-398 | the table holds, for each key some list ranks, its arms in order and the sum of its reciprocal ranks |
| `RankFusion.RrfFuse` | crates/polis-core/src/pack.rs:388-408 | each key once, with what it is owed, by score and then by key |
| `RankFusion.FusionIsBestFirst` | crates/polis-core/src/pack.rs:399-408 | greater scores come first and keys of one score in text order |
| `RankFusion.FusionIsUnique` | crates/polis-core/src/pack.rs:399-408 | only one list meets that, so the iteration order of the table cannot show |
| `RankFusion.FusionIgnoresListOrder` | crates/polis-core/src/pack.rs:388-408 | reordering the lists changes neither keys, scores nor places, and no key's set of arms |
| `RankFusion.ListScoreIsTheReciprocalRank` | crates/polis-core/src/pack.rs:392-396 | a list that repeats no key owes each of its keys one over 60 plus its rank |
| `RankFusion.AgreementPrecedesAnySingleArm` | crates/polis-core/src/pack.rs:388-408 | a key two arms place in their first 61 comes before every key only one arm found |
| `Dedup.Simhash` | crates/polis-core/src/dedup.rs:49-95 | a bit of a text's fingerprint is set exactly when more than half of its FNV-1a shingles of whitespace-separated tokens set it |
| `Dedup.ShingleHashIsFnv` | crates/polis-core/src/dedup.rs:79-95 | a shingle's hash is 64-bit FNV-1a over the bytes of its tokens, ASCII lowered, with a space between tokens |
| `Dedup.TokensAreCutAtWhiteSpace` | crates/polis-core/src/dedup.rs:49-62 | white space separates tokens and stays out of them, wherever it stands |
| `Dedup.ShinglesAreRunsOfThree` | crates/polis-core/src/dedup.rs:55-61 | a text of one or two tokens is one shingle, a longer one has every run of three tokens |
| `Dedup.BitsAreBinaryDigits` | crates/polis-core/src/dedup.rs:62-75 | the 64 bits voted on are the binary digits of the hash |
| `Dedup.NearIsThreeBits` | crates/polis-core/src/dedup.rs:97-99 | near means at most three of the 64 bits differ |
| `Dedup.NearDuplicateIsATolerance` | crates/polis-core/src/dedup.rs:97-99 | the near test is reflexive and symmetric, and two near steps differ in at most six bits |
| `Dedup.Dedup` | crates/polis-core/src/dedup.rs:129-165 | the pass, with its verdicts edited in place, gives each candidate the verdict its owner implies |
| `Dedup.EachIsKeptOrOwned` | crates/polis-core/src/dedup.rs:135-163 | each candidate is kept or owned by one earlier kept one it matches; kept exactly when no earlier kept one matches it |
| `Dedup.AbsorbedMirrorsDuplicate` | crates/polis-core/src/dedup.rs:148-156 | with distinct keys the absorbed lists and the duplicate verdicts name the same pairs, both ways |
| `Dedup.KeptCandidatesDiffer` | crates/polis-core/src/dedup.rs:136-147 | no two kept candidates share a non-empty hash, and no later non-blank one is near an earlier one |
| `Dedup.SecondPassAbsorbsNothing` | crates/polis-core/src/dedup.rs:129-165 | run again on the survivors, it keeps all of them |
| `Catalog.RootOf` | crates/polis-memory/src/adjudicate.rs:106-117 | the root above a node when it is at most 64 links away over held nodes, otherwise nothing |
| `Catalog.DepthOf` | crates/polis-memory/src/adjudicate.rs:119-135 | the number of parent links above a node when at most 64, otherwise 65 with that many links above |
| `Catalog.SubtreeHeight` | crates/polis-memory/src/adjudicate.rs:138-153 | up to 65, a distance is at most the height exactly when some node lies that far below |
| `Catalog.IsDescendant` | crates/polis-memory/src/adjudicate.rs:155-169 | true exactly when the id is among the first 65 proper ancestors |
| `Catalog.AdjudicatePromote` | crates/polis-memory/src/adjudicate.rs:257-279 | Apply exactly on the safe moves, on any catalog however deep or cyclic: no cycle at any distance, and depth at most 4 for the whole subtree |
| `Catalog.PromoteCreatesNoCycle` | crates/polis-memory/src/adjudicate.rs:257-279 | after an applied promote every node whose chain ended still has one that ends |
| `Catalog.MovedSubtreeIsShallow` | crates/polis-memory/src/adjudicate.rs:272-275 | under a named parent every node of the moved subtree ends at depth 4 or less |
| `Catalog.OtherNodesAreUntouched` | crates/polis-store/src/catalog.rs:833-847 | nodes outside the moved subtree keep their whole chain of ancestors |
| `Catalog.RunsKeepTheForest` | crates/polis-memory/src/adjudicate.rs:257-279 | any run of promotes, each judged on the catalog it changes, keeps a forest a forest |
| `Coldness.Roll` | crates/polis-core/src/coldness.rs:78-106 | the recursion returns, and records, exactly the statistics of what the guard lets it reach |
| `Coldness.SubtreeStats` | crates/polis-core/src/coldness.rs:64-122 | every node gets its record: the roll-up below a root, its direct one when no root is within 64 links |
| `Coldness.ClassScope` | crates/polis-memory/src/bundle.rs:212-233 | the repeated passes stop, and keep exactly the root and everything below it at any distance; the nodes come once each, in the order of their ids |
| `Coldness.TreeIsUnique` | crates/polis-memory/src/bundle.rs:232-233 | only one list of nodes meets that, so the order the store lists them in cannot show |
| `Coldness.RollUpAgreesWithTheClosure` | crates/polis-core/src/coldness.rs:64-122 | on a catalog at most 64 deep a record is the sum, newest and or over exactly what the export keeps for the node |
| `Coldness.PastTheGuardIsLeftOut` | crates/polis-core/src/coldness.rs:78-106 | the depth bound is needed: a node 65 links down is in the export and missing from the record |
| `Coldness.SafeMeansColdThroughout` | crates/polis-core/src/coldness.rs:47-60 | safe exactly when nothing in the branch is protected, something is dated, and every date is at least 0.34 of a positive span old |
| `Coldness.SubtreeStatsProtected` | crates/polis-core/src/coldness.rs:132-142 | the same roll-up with the caller's protected set in place of the pins |
| `Coldness.CollapseAppliesExactlyWhenCold` | crates/polis-memory/src/adjudicate.rs:331-343 | end to end: on a catalog at most 64 deep with the protected roll-up, a rooted node is judged Apply exactly when the nodes its export keeps hold five items or more, none protected, one dated, and every dated one at least 0.34 of a positive span old |
| `Coldness.OrphanIsJudgedAlone` | crates/polis-core/src/coldness.rs:113-121 | a node that no root reaches is judged by those conditions on its own row alone |
| `Chunking.FindBreak` | crates/polis-core/src/vec.rs:88-115 | the cut is past the target and within the hard end: the fence's, else the first paragraph break, else the first sentence end, else the hard end |
| `Chunking.FirstBlockIsSplitIff` | crates/polis-core/src/vec.rs:88-115 | a window's first block, fences included, is split exactly when the fence point, counted in bytes, lies past the window and the cut set by the text instead falls inside the block; in ASCII text never |
| `Chunking.NonAsciiBlockIsSplit` | crates/polis-core/src/vec.rs:89-98 | such a split: one accent before a nine-character window's block puts the cut inside it |
| `Chunking.FenceCutSplitsIff` | crates/polis-core/src/vec.rs:88-98 | a cut that a fence sets in ASCII text splits the stretch that begins at the window's second fence and no other, so a later block is split exactly when that fence opens it |
| `Chunking.AsciiBlockIsSplit` | crates/polis-core/src/vec.rs:58-83 | such a split: in ASCII text the second window begins inside the first block and ends inside the second, which would fit in it |
| `Chunking.ChunkText` | crates/polis-core/src/vec.rs:39-85 | the loop ends, with the opening and then the non-blank windows, numbered in order |
| `Chunking.WindowsFollowTheSizes` | crates/polis-core/src/vec.rs:58-70 | a window with at most 1,200 characters left takes them all, any other is cut between 800 and 1,200 |
| `Chunking.TheOpeningComesFirst` | crates/polis-core/src/vec.rs:46-57 | the first chunk is the first 400 characters, and the only one of a text that short |
| `Chunking.BreaksAreBlankLinesAndStops` | crates/polis-core/src/vec.rs:100-114 | where a cut may fall: after an empty line, or after a stop that white space or the end of the text follows |
| `Chunking.WindowsOverlapExactly` | crates/polis-core/src/vec.rs:60-83 | the windows run from the start to the end of the text, consecutive ones sharing exactly 150 characters and starting more than 650 apart |
| `Chunking.ChunksAreBoundedSlices` | crates/polis-core/src/vec.rs:39-85 | at most len / 651 + 2 chunks, each carrying its position and exactly the slice it names, of at most 1,200 characters |
| `Chunking.NothingButBlanksIsLost` | crates/polis-core/src/vec.rs:71-79 | every character that is not white space lies in some chunk |
| `Quantized.DotI8Portable` | crates/polis-core/src/vec.rs:174-190 | for every length the eight lanes give the plain sum truncated to 32 bits; without an overflow the sum itself; no addition overflows up to 131,071 dimensions |
| `Quantized.OneMoreDimensionOverflows` | crates/polis-core/src/vec.rs:174-190 | that bound is the best possible: 131,072 products of -128 by -128 change the sign of the sum |
| `Quantized.Cosine` | crates/polis-core/src/vec.rs:150-155 | zero on unequal lengths, otherwise the integer dot product under both scales |
| `Quantized.ByteIsClose` | crates/polis-core/src/vec.rs:130-143 | a stored byte stands for its component to within half a step, and neither exceeds the peak |
| `Quantized.CosineIsClose` | crates/polis-core/src/vec.rs:130-155 | with both peaks above epsilon and the sum in 32 bits, the quantised cosine is within n p q / 127 of the true dot product |
| `Quantized.UnitDotIsTheCosine` | crates/polis-core/src/vec.rs:130-133 | that dot product is the cosine of the two vectors given |
| `Quantized.UnitPeakIsVisible` | crates/polis-core/src/vec.rs:134-135 | a unit vector of fewer than 2 to the 46 dimensions has a peak above epsilon |
| `Quantized.QuantisedCosineError` | crates/polis-core/src/vec.rs:130-155 | so up to 133,144 dimensions the bound needs no hypothesis: it holds for all vectors of one length, zero ones included |
| `Quantized.PackRoundTrip` | crates/polis-core/src/vec.rs:193-203 | packing and unpacking are inverse on every vector and every blob |
| `WordPiece.PreTokenize` | crates/polis-embed/src/model2vec.rs:265-286 | the loop gives the words of its specification |
| `WordPiece.WordsAreCutAtBreaksOnly` | crates/polis-embed/src/model2vec.rs:265-286 | whitespace separates words, punctuation separates and stays as its own word, and nothing else cuts |
| `WordPiece.WordsAreTheTextSqueezed` | crates/polis-embed/src/model2vec.rs:265-286 | the words concatenate to the text without its whitespace, each one punctuation character or a plain run |
| `WordPiece.Wordpiece` | crates/polis-embed/src/model2vec.rs:289-326 | appends the greedy pieces of a word, or the unknown id when there is one |
| `WordPiece.PiecesAreGreedy` | crates/polis-embed/src/model2vec.rs:297-325 | every piece of a known word is the longest vocabulary match where it starts, and its id is that entry's |
| `WordPiece.KnownIffGreedyReachesTheEnd` | crates/polis-embed/src/model2vec.rs:289-326 | a word is known exactly when it is short enough and longest matches reach its end |
| `WordPiece.WordIsSpelledOrUnknown` | crates/polis-embed/src/model2vec.rs:289-326 | with distinct ids the pieces concatenate back to the word; an unknown word yields the unknown id, or none when the vocabulary has none |
| `WordPiece.IdsDetermineTheWord` | crates/polis-embed/src/model2vec.rs:289-326 | no two known words share their ids |
| `WordPiece.Normalize` | crates/polis-embed/src/model2vec.rs:234-261 | the loops clean and pad, then strip the marks of the decomposition, then lower-case, each only when its switch is on |
| `WordPiece.CleaningMovesOnlyWhitespace` | crates/polis-embed/src/model2vec.rs:234-255 | cleaning and padding change nothing but whitespace: every character that is neither dropped nor whitespace stays, in order |
| `WordPiece.CleanedCharacter` | crates/polis-embed/src/model2vec.rs:171-255 | what cleaning makes of each character: nothing, a space, itself between spaces, or itself |
| `WordPiece.EncodingGivesTheTextBack` | crates/polis-embed/src/model2vec.rs:329-343 | from the raw text: with accents and case kept and no word unknown, the ids give back the first 512 times median-length characters without white space and dropped ones |
| `WordPiece.Encode` | crates/polis-embed/src/model2vec.rs:329-343 | the ids of the words of the truncated and normalised text, in order |
| `WordPiece.EncodingSpellsTheText` | crates/polis-embed/src/model2vec.rs:336-343 | with no unknown word, the ids spell the normalised text with its whitespace removed |
| `WordPiece.EncodeThenDecode` | crates/polis-embed/src/model2vec.rs:336-343 | with a prefix like `##`, the flat list of ids alone gives that text back |
| `VectorCache.SharedCache.Vectors` | crates/polis-embed/src/lib.rs:558-585 | one uninterrupted search: none, the cached rows on a full key match, or its own rows, which become the entry |
| `VectorCache.UninterruptedSearchServes` | crates/polis-embed/src/lib.rs:551-585 | that search is the interleaved one with nothing between its reads, lookup and publication, from every state |
| `VectorCache.UnderTakesTheModelsRows` | crates/polis-embed/src/lib.rs:571-576 | the rows fetched are those of the search's model, all of them, in order |
| `VectorCache.SearchAfterATickServesItsOwn` | crates/polis-embed/src/lib.rs:672-677 | the search after a tick that stored something ranks its own view's rows, or is absent when it has none, whatever the cache held |
| `VectorCache.StepKeepsTheInvariant` | crates/polis-embed/src/lib.rs:548-585 | every read, lookup, publication, commit and reset keeps the cache and every search at rows of one commit |
| `VectorCache.RankedRowsAreRecent` | crates/polis-embed/src/lib.rs:548-585 | in every interleaving a search ranks its store's rows for its model as of one commit no older than the revision it read; absent means some commit had none |
| `VectorCache.WarmIsColdWhileNothingIsWritten` | crates/polis-embed/src/lib.rs:564-585 | while the store is at the revision the search read, a warm search ranks exactly what a cold one would |
| `VectorCache.PinnedSearchesRankTheirSnapshot` | crates/polis-store/src/lib.rs:214-235 | when all searches run on read snapshots, each ranks exactly its snapshot's rows, cached or not |
| `VectorCache.RowsCanOutrunTheirKey` | crates/polis-embed/src/lib.rs:559-582 | an entry can hold rows newer than its key, and serve them to a search on an older snapshot: "no older than" is the most that holds |
| `SemanticRanking.Collapse` | crates/polis-embed/src/lib.rs:606-622 | the table holds, for each slot, the greatest score among the eligible rows it stands for, and the kinds that occur, once each |
| `SemanticRanking.Rank` | crates/polis-embed/src/lib.rs:606-636 | the hits are the first `limit` of the listing; it is the ranking when at most 256 kinds occur, and lists every permitted target exactly then, since a kind's position is kept in eight bits |
| `SemanticRanking.HitsAreInScope` | crates/polis-embed/src/lib.rs:606-622 | a ranked hit is a target the scope permits, with the cosine of one of its chunks, and no chunk of it has a greater one |
| `SemanticRanking.ScopeIsListed` | crates/polis-embed/src/lib.rs:606-622 | every permitted target with a chunk is ranked |
| `SemanticRanking.HitsAreBestFirst` | crates/polis-embed/src/lib.rs:623-635 | by score, then kind in text order, then target |
| `SemanticRanking.ListingIsInScopeIff` | crates/polis-embed/src/lib.rs:606-622 | past 256 kinds the listing stays in scope exactly when every permitted row is listed, under the kind its position wraps around to, as a permitted target |
| `SemanticRanking.TheNextKindLeavesTheScope` | crates/polis-embed/src/lib.rs:606-622 | and with 257 kinds of one target each it does not |
| `SemanticRanking.ListingIsUnique` | crates/polis-embed/src/lib.rs:606-636 | one listing per query and rows, whatever the number of kinds |
| `SemanticRanking.RankingIsUnique` | crates/polis-embed/src/lib.rs:623-635 | each eligible target once, by its best chunk, in a total order: no iteration order of the table can show |
| `SemanticRanking.NothingBetterIsLeftOut` | crates/polis-embed/src/lib.rs:606-636 | a chunk's target is among the hits with at least its score, or the hits are full and none scores less |
| `TokenBudget.AggregateBudget.Used` | bench/common/budget.py:63-63 | the loop adds up every charge once |
| `TokenBudget.AggregateBudget.Reserve` | bench/common/budget.py:60-69 | granted exactly when it fits; then the total grows by the maximum and stays within the limit; otherwise the ledger is as it was |
| `TokenBudget.AggregateBudget.Settle` | bench/common/budget.py:71-79 | the measured charge replaces the reserved one, and an overrun is reported after it is written |
| `TokenBudget.UninterruptedCall` | bench/common/budget.py:26-79 | those two calls are the interleaved ones with nothing between acquiring the lock and releasing it |
| `TokenBudget.StepKeepsTheInvariant` | bench/common/budget.py:26-79 | every step of every process keeps the ledger sound, the lock exclusive and undispatched attempts charged in full |
| `TokenBudget.LedgerStaysWithinItsLimit` | bench/common/llm.py:80-97 | over every interleaving, with processes stopped anywhere: total charged within the limit and not below the tokens spent, attempt by attempt, while replies stay within their reservations |
| `TokenBudget.StoppedHolderBlocks` | bench/common/budget.py:26-41 | a process stopped while it holds the lock keeps the ledger unchanged, whatever the others do, until its lock is cleared |
| `TokenBudget.OverrunPassesTheLimit` | bench/common/budget.py:71-79 | the hypothesis on replies is needed: a reachable state has its ledger past the limit |
| `TokenBudget.SettlingIsExact` | bench/common/budget.py:71-79 | settling passes the limit exactly when the reply overran its reservation by more than the room left, and raises on any overrun |

Where the code and its own words differ, the model follows the code:

- The trimmer's comment says every arm with a hit keeps one (crates/polis-core/src/pack.rs:236). Pass one keeps it, pass
  two does not: `PackBudget.EveryArmKeepsOneIff` says exactly when it holds, `PackBudget.OneHitIsLost` shows it fail.
  A label recorded by pass one can also put a fitting answer pack back over budget
  (`PackBudget.AboveTheFloorOnlyByItsLabel`).
- Chunking promises never to split a fenced block that fits (crates/polis-core/src/vec.rs:37-38). It adds byte offsets
  to a character position, so text that is not ASCII can push the fence point past the window, where the cut falls back
  to paragraphs, sentences and the hard end. `Chunking.FirstBlockIsSplitIff` says when that splits the window's first
  block and `Chunking.NonAsciiBlockIsSplit` is a case. A window may also begin inside a block, since windows overlap,
  and takes its closing fence for an opening one: ASCII text is split so too (`Chunking.AsciiBlockIsSplit`), exactly as
  `Chunking.FenceCutSplitsIff` says.
- The hash comment rests on 64-character predecessor hashes (crates/polis-core/src/ledger.rs:371-373), whose length
  `verify` never checks, nor that a segment from 1 starts on the genesis hash. The theorems need neither.
- `verify_against` promises that the segment agrees with the local rows event for event. For segments that lie below
  sequence number 1 it compares nothing: `Envelope.AnOffChainSegmentPasses` is an accepted one with no row in common
  with a non-empty chain, `Envelope.OffChainSegmentIsAccepted` gives one for every chain, and
  `Envelope.AcceptedSegmentSplicesIffItStartsInTheChain` the exact condition.
- A search lists only targets its scope permits (crates/polis-embed/src/lib.rs:609), but a hit's kind is looked up by a
  position kept in eight bits: `SemanticRanking.ListingIsInScopeIff` says exactly when the kinds named stay in scope,
  `SemanticRanking.TheNextKindLeavesTheScope` is a case with 257 kinds.
- A vector cache entry is documented as keyed on its snapshot's revision. Its key is read before its rows, so on a
  live view the rows may be newer (`VectorCache.RowsCanOutrunTheirKey`).

## Left out

- Texts of errors and refusals: a refusal keeps its reason's name and number, not its wording; the adjudicator's
  refusals are one case.
- 64-bit overflow of sequence numbers, timestamps, item counts and day counts, and the 32-bit brace depth and shingle
  votes, which are unbounded integers here.
- UTF-8 in the scanner and the extractor: texts are sequences of characters, in which the steering characters are
  single, as their bytes are in UTF-8.
- The JSON library: its recursion limit, number syntax and duplicate keys. `Proposals.PrintedProposalsParseBack`
  assumes that it prints a payload as an object text and reads it back; the server's limit on body size is not
  modelled.
- Floating-point rounding in scores, cosines, norms and the 0.34 fraction, and scores that are not numbers.
- `Chunking.FenceCutSplitsIff`: about cuts that a fence sets in ASCII text. A cut that a paragraph break, a sentence end
  or the hard end sets splits whatever block after the window's first pair of fences lies across it, as the code looks
  at that pair only.
- `WordPiece.Normalize`: the Unicode general categories, canonical decomposition and lower-casing are parameters.
- `Coldness.ClassScope`: the links and kept events of the export are not modelled.
- `SemanticRanking.Rank`: scores are reals above the least float a slot starts from; the eligible targets are a
  parameter, since scope and SQL are not modelled. Nor is the index tick's embedding of its backlog.
- `TokenBudget.LedgerStaysWithinItsLimit`: identifiers are assumed never to repeat, replies to report what was spent,
  and a lock to be cleared only when its holder has stopped. The per-process budget of `Spend.charge` is not modelled.
- Other structural adjudications (split, merge, supersede), the screen, filing, create twins and back-off.
- Building and signing envelopes, importing foreign chains, redaction and body storage.
- The SQLite store, full-text ranking, HTTP, MCP, model backends, downloads, backup and restore, corpora and evaluation.
