# A verified model of wing_parser

wing_parser reads, checks, edits and writes the state of a WING mixing console: from `.snap` files, and live over
OSC on UDP. This project models the parts of it whose correctness rests on an argument rather than on a line of
code, and proves that argument.

* **The live read.** `Wire` is the network: per socket, any loss, delay, reordering and corruption, but a datagram
  reaches only the socket whose request it answers, and answers it once. `Reading`, `Client` and `Ladder` are the
  pipelined batch on top of it, with its halving chunks, its rotated sockets and its stall guard; `Traces` says what a
  batch did by what was sent and read alone. `Schema` walks the console's address tree breadth-first and falls back to a dump, which `NodeText` parses; `Snapshot` reads every
  leaf and `Assembly` files the values into the two trees of a scene and flattens them again; `Push` writes leaves
  and reads them back. `Consoles` shows, for every console, a network that meets the hypotheses of the complete pull.
  `Codec` is the wire format.
* **The cue-sheet vocabulary.** `NestedSets` expands sets that nest other sets and refuses a write that would close
  a cycle; `VocabularyProblems` finds the cycles that a hand edit left; `VocabularyStore` overlays edits and
  tombstones on the shipped defaults. `Graphs` holds the facts about walks.
* **The token resolver.** `EditDistance` fills the distance table; `TokenResolve` normalises a token and repairs it.
* **The edit journal.** `Documents` reads and writes a document by dotted path; `Journal` replays patches on a copy
  and keeps the session's record true.
* **The schema cache.** `SchemaCache` is the cell and every interleaving of its users.
* **The open/closed book** of a show: `ShowBook`.

Dictionaries that the program shares and updates in place are objects here too. `Dicts` has the objects, the
references between them and their reading as a nested value (`Trees`); a stack of references into them, as the dump
parser keeps one, is followed through every update. `Sequences` and `Strings` are the facts about lists and text
that several modules need, `Results` the answers of what may fail, and `SharedMaps` a dict that several calls fill.

What a method computes is stated by a function over values, or, for what talks to the network, by all that was sent and
read, which it returns as a ghost result; the theorems are lemmas about these, or the methods' own postconditions. The hypotheses that a theorem needs of the outside world are predicates: `Wire.Admissible`
and `Wire.Poisoned` of the network, `Schema.Truthful` of the console. What may go wrong in the poison model is a set of
requests, so that an address may answer its dump though its schema is poison.

Two findings disagree with the program's own words, and are kept as the code has them.

* The comment at wing_parser/net/client.py:194-197 says that a round which recovers nothing proves the rest
  unanswerable. `Ladder.GuardStrandsAnInnocent` is a chunk of two for which it does not, and `Ladder.Isolation` says
  exactly when the ladder isolates the silent addresses.
* `reset_set` (wing_parser/classifier/vocabulary.py:299-301) makes no cycle check. `VocabularyStore.ResetCanCloseACycle`
  is a reset that closes a cycle, and `VocabularyStore.Vocabulary.ResetSet` says exactly when a reset does.

## Model

| member | source | states |
|---|---|---|
| Wire.PoisonedIsAdmissible | wing_parser/net/client.py:119-122 | The measured hazard, a poison request that silences everything after it on its socket, is one of the networks the batch is proved for |
| Wire.PoisonNetworkExists | wing_parser/net/client.py:174-181 | Whatever requests are poison or absent, a console that can answer all the others has a network on which exactly these faults happen: the isolation theorems are about something |
| Reading.CleanReading | wing_parser/net/client.py:250-279 | Whatever the network does while a chunk is read, each address is either still wanted or answered by its own honest reply, and only wanted ones are still due |
| Reading.PoisonedReading | wing_parser/net/client.py:250-279 | In the poison model exactly the addresses sent before the first poison, and not absent, are answered |
| Traces.Hears | wing_parser/net/client.py:250-277 | The reading loop heeds every event the socket gives and stops at the first point where reading is over, neither before nor after |
| Traces.NotedIs | wing_parser/net/client.py:274-275 | The entry under an address is the last reply to it; addresses that no reply named keep what they had |
| Client.WingClient.Rotate | wing_parser/net/client.py:119-124 | A new socket owes nothing and carries no poison |
| Client.WingClient.Ask | wing_parser/net/client.py:137-162 | One send and one read, whose datagram is the answer and anything else a miss. On a clean socket an answer is the answer to the request asked; the socket is clean again exactly when a datagram came back, so a timeout leaves it owing |
| Client.WingClient.SendAndCollect | wing_parser/net/client.py:236-279 | On any network and any socket: reading ends only when every address of the chunk is answered, or at the idle gap, or on an unusable socket, or when more resets came than there were sends, and at the first such point; malformed datagrams and tolerated resets are passed over; each reply read is kept, the last to an address winning; the missing addresses are those that no reply named, in order. On a clean socket replies are honest, and a chunk answered in full leaves it owing nothing; in the poison model exactly the addresses ahead of the first poison and not absent are answered |
| Client.WingClient.RunOnePass | wing_parser/net/client.py:207-234 | On any network and any socket: the pass cuts its addresses into full chunks and a rest, each chunk goes out where the one before left the socket, on a new one exactly after a short chunk, and what is left is what the chunks missed. Started clean, it accounts for every address and ends clean; in the poison model it loses what its chunks lose |
| Client.WingClient.GetMany | wing_parser/net/client.py:166-205 | On any network and any socket: the batch ends only when nothing is left, or its last pass recovered nothing, or the first pass and all retries were made; the first pass takes the input without repetitions in chunks of the batch size, at least one, each later one what the one before left, on a new socket, in chunks half as long, at least one; the replies are those read in all passes. Started clean, replies are honest answers to requested addresses, `unresolved` is the input without the replied ones, in order, and the socket is clean again. In the poison model, with a batch size below two to the number of passes allowed, `unresolved` is exactly the silent addresses if and only if none of these passes began with an answerable address pending but every such one behind poison in its chunk |
| Sequences.FirstSeenOrder | wing_parser/net/client.py:182 | De-duplicating keeps members in the order of their first occurrences |
| Sequences.WithoutEach | wing_parser/net/client.py:279 | The filter keeps each member in its place or drops it |
| Client.Partition | wing_parser/net/client.py:182-205 | Reply keys and `unresolved` are disjoint, together the requested addresses, without repetition |
| Ladder.Isolation | wing_parser/net/client.py:174-205 | With a batch size below two to the number of passes allowed, `unresolved` is exactly the poison and absent addresses if and only if no pass began with an answerable address pending but every such address behind poison in its chunk; such a pass has a chunk size above one |
| Ladder.DefaultsReachOne | wing_parser/net/client.py:40-55 | With the defaults, two hundred addresses to a chunk and eight retries, halving comes down to chunks of one |
| Ladder.StallsIffBlocked | wing_parser/net/client.py:194-203 | A pass recovers nothing, and so ends the ladder, exactly when in each of its chunks no answerable address stands ahead of the first poison |
| Ladder.TwoPassesWithoutPoison | wing_parser/net/client.py:194-203 | Without poison at most two passes run, and `unresolved` is exactly the absent addresses |
| Ladder.GuardStrandsAnInnocent | wing_parser/net/client.py:194-203 | A poison address ahead of an answerable one in the first chunk: the guard gives both up |
| Ladder.IsolationIffOneByOne | wing_parser/net/client.py:184-203 | Isolation on every input holds exactly when the first pass already runs at chunk size one |
| Ladder.PassKeepsSilent | wing_parser/net/client.py:227-234 | No pass loses a silent address or invents one, at any chunk size |
| Codec.Encode | wing_parser/net/codec.py:51-73 | The loop over tags and arguments builds the padded fields, pairing them as far as the shorter goes, and fails where a field fails |
| Codec.Decode | wing_parser/net/codec.py:76-108 | The loop over tags reads each argument where the one before it ended, with the language's slices |
| Codec.DecodeEncode | wing_parser/net/codec.py:51-108 | Every encoded message with as many arguments as tags and no zero byte in a string decodes to itself |
| Codec.RoundTripIff | wing_parser/net/codec.py:51-108 | The round trip holds exactly for those: the encoder checks neither condition |
| Codec.BareReadsBack | wing_parser/net/codec.py:57-59 | The bare request form decodes to its address with no arguments |
| Codec.EncodingIsAligned | wing_parser/net/codec.py:26-35 | Every encoding is a multiple of four bytes, as the Open Sound Control 1.0 Specification requires under "Atomic Data Types" and "OSC Messages" |
| Codec.StringLayout | wing_parser/net/codec.py:26-35 | A string field is the text's characters and one to four zero bytes, up to a multiple of four |
| Codec.PadLayout | wing_parser/net/codec.py:26-31 | Padding keeps the data and adds at most three zero bytes, up to a multiple of four |
| Codec.PackedLayout | wing_parser/net/codec.py:66-70 | The four bytes of an integer are its two's complement, most significant first |
| Codec.IntLayout | wing_parser/net/codec.py:98-102 | Four bytes are read most significant first, the top bit as the sign |
| Codec.ArgEncodes | wing_parser/net/codec.py:61-72 | A tag takes an ASCII text, four bytes, a 32-bit integer or a blob whose length is one, each as its field, and no other tag takes anything |
| Codec.ArgsFailFirst | wing_parser/net/codec.py:61-73 | Encoding the arguments fails exactly when some argument does not go with its tag, with the error of the first such |
| Codec.DecodingStarts | wing_parser/net/codec.py:76-88 | Without a zero byte decoding fails; after the padded address nothing more is the bare form, and anything but a comma fails |
| Codec.ArgReads | wing_parser/net/codec.py:91-108 | Inside the datagram a float and an integer are the next four bytes, a blob the bytes its length counts as far as there are any and the next argument behind its padding; fewer than four bytes and an unknown tag fail |
| Codec.StringReads | wing_parser/net/codec.py:38-48 | A string runs up to its zero byte and the next field starts behind its padding; without one it fails |
| Codec.UnpackPack | wing_parser/net/codec.py:66-70 | A 32-bit integer survives its big-endian bytes |
| Codec.DecodedArgsFit | wing_parser/net/codec.py:90-108 | A decoded message carries one argument of the right kind for each tag |
| Codec.ValueIs | wing_parser/net/codec.py:111-139 | Of all that can be decoded exactly the three reply shapes yield a value: the native float of `sff`, the display text of `sfi` read as an integer, or failing as that reading does, and the text of `s`; the display is the first argument; unpacking never fails |
| Codec.ValueCrossesTheWire | wing_parser/net/codec.py:128-133 | A reply encoded and decoded yields the native float of an `sff` reply and the display integer of an `sfi` reply |
| Codec.TextCrossesTheWire | wing_parser/net/codec.py:134-136 | A text reply encoded and decoded yields its text, as value and as display |
| Dicts.SetDefault | wing_parser/net/nodetext.py:90 | `setdefault` on a shared dictionary changes that dictionary alone, and only when the key is missing |
| Dicts.ChangeAtTop | wing_parser/net/nodetext.py:88-98 | A change in the dictionary on top of a chain of references changes the nested value along the chain and nowhere else |
| Dicts.Into | wing_parser/net/nodetext.py:88-96 | Descending a key keeps the references a live chain from the root; what a later assignment below will build is unchanged; it fails only where that assignment must |
| Dicts.Assign | wing_parser/net/nodetext.py:98 | The assignment overwrites no entry of the chain and does to the nested value what a put at the cursor does |
| NodeText.SplitTopLevelTokens | wing_parser/net/nodetext.py:103-124 | The character loop with its quote flag computes the cut of the text, or refuses an unterminated quote |
| NodeText.TokensIff | wing_parser/net/nodetext.py:103-124 | The tokens are the one way to write the text as comma-joined pieces in which quotes pair off and every comma is quoted; the text is refused exactly when its quotes are odd in number |
| NodeText.StepIs | wing_parser/net/nodetext.py:63-81 | A token's leading dots climb so many levels, failing above the root; bare dots do nothing more, wherever they stand; an empty token is allowed in the last place alone |
| NodeText.AssignmentIs | wing_parser/net/nodetext.py:83-98 | What follows the dots is split at the first equals sign, and before it at dots: no equals sign, an empty key, a leaf in the way and an unclosed quote are the four errors, and otherwise the value, without quotes around it, is put at the path and the cursor left above its last key |
| NodeText.StepsTrace | wing_parser/net/nodetext.py:61-98 | The tokens are taken one after the other, each from where the one before left tree and cursor, up to the first that fails |
| NodeText.ParseNodeText | wing_parser/net/nodetext.py:52-100 | The parser that updates aliased dictionaries through a stack builds exactly the tree of a fold over (tree, cursor path), and fails with the same error |
| NodeText.ParseToken | wing_parser/net/nodetext.py:63-98 | One token keeps the stack a live chain from the root to the cursor and does to tree and cursor what the fold does |
| NodeTextPrinting.ParsePrint | wing_parser/net/nodetext.py:15-35 | Parsing undoes every printing of a tree with non-empty inner nodes, clean keys and quote-free values: leaves in any order, more climbing than needed, quoting at will, any ending the grammar allows |
| NodeTextPrinting.PrintExists | wing_parser/net/nodetext.py:15-35 | Every such tree has a printing |
| Trees.PutFailsIffBlocked | wing_parser/net/snapshot.py:138-140 | A `setdefault` chain with an assignment fails exactly when a leaf stands above its end |
| Trees.OrderIsImmaterial | wing_parser/net/snapshot.py:124-140 | Prefix-free assignments build the same nested dictionary in any order |
| Assembly.SegmentsOfAddress | wing_parser/net/snapshot.py:132 | Splitting a joined address gives its segments back, however many slashes it starts with |
| Assembly.ChildAddress | wing_parser/net/schema.py:128 | The walk names a child as the join of the longer path does |
| Assembly.Place | wing_parser/net/snapshot.py:124-140 | Filing a leaf in place changes one of the two trees at the leaf's path, `$ctl` leaves going to the second without their first segment |
| Assembly.FileReplies | wing_parser/net/snapshot.py:98-102 | The loop over the replies builds the scene of the filing fold, and fails on the first reply without a leaf value |
| Assembly.FilingIsExact | wing_parser/net/snapshot.py:124-140 | Prefix-free leaves are all filed: ce holds exactly those below `$ctl`, without that segment, and ae exactly the others |
| Assembly.FilingOrderIsImmaterial | wing_parser/net/snapshot.py:124-140 | The order in which replies arrive does not show in the scene |
| Assembly.Flatten | wing_parser/cli/net_commands.py:61-67 | The recursion enters exactly the leaves of the tree, under their addresses, over what the table held |
| Assembly.LeavesFromRaw | wing_parser/cli/net_commands.py:70-78 | The flat table of a scene is exactly the leaves of ae and, under `$ctl`, those of ce, which win |
| Assembly.FileThenFlatten | wing_parser/cli/net_commands.py:70-78 | Flattening filed trees gives back exactly the addresses and values filed |
| Schema.OpenNode | wing_parser/net/schema.py:115-133 | Replacing a node by its child nodes and finding its child leaves keeps the account: each wanted leaf found or beneath one open node, never both |
| Schema.RootsInOrder | wing_parser/net/schema.py:50-51 | The walk starts from the twelve roots of the scene and `$ctl`, in this order |
| Schema.NodeChildrenInOrder | wing_parser/net/schema.py:125-130 | The child nodes of a reply are those of its lines that are nodes and not read-only, in order |
| Schema.LeafKindsIs | wing_parser/net/schema.py:125-132 | The child leaves of a reply are those of its lines that are leaves and not read-only, each with the type of the last line that names it |
| Schema.NextOfEach | wing_parser/net/schema.py:117-133 | The next frontier is the child nodes reply after reply, replies of another shape passed over |
| Schema.KindsInEach | wing_parser/net/schema.py:119-132 | The leaves are filed reply after reply, a later one over an earlier |
| Schema.Expand | wing_parser/net/schema.py:115-133 | Reading a level's replies files exactly the unskipped child leaves with their declared types and returns exactly the unskipped child nodes, in order |
| Schema.LevelRead | wing_parser/net/schema.py:115-133 | A level of honest replies keeps the account in any order; a node whose reply is not one text stays open though nothing reports it |
| Schema.FileDumpKeys | wing_parser/net/schema.py:190-201 | The recursion over the parsed dictionaries files exactly the unskipped leaves of the dump, keeping what was filed before |
| Schema.DumpOpens | wing_parser/net/schema.py:149-187 | A dump that lists every key opens its node: the account holds without it |
| Schema.UnopenedEach | wing_parser/net/schema.py:172-187 | Node by node in order, a node is kept exactly when no dump text came for it or its text does not parse |
| Schema.RecoverByDump | wing_parser/net/schema.py:149-187 | Each node is asked for in a batch of its own, with the default retries; the nodes returned are exactly those whose dump did not come or did not parse, in order, and the account holds with them alone; what was filed keeps its type, and what only a dump names gets none |
| Schema.WalkLevels | wing_parser/net/schema.py:93-106 | Each level is one batch, with the size and retries given, over the nodes that the level before named, from the roots until none is named; the leaves are those of all levels and the unanswered those of all batches. The loop ends on every finite console, and accounts for every leaf under the seeded roots; the nodes it passes over are ones whose schema reply told nothing |
| Schema.WalkSchema | wing_parser/net/schema.py:68-112 | The levels as above, then a dump for each node they left unanswered. Each unskipped leaf under the seeded roots is among the leaves found, or beneath an unresolved address, or beneath a node whose reply was not one text, in exactly one of these; with one-text replies the last is empty. Where nothing is lost but by given faults, a node stays unresolved only for want of a dump that parses, whichever requests were poison and wherever a batch gave up; where no schema request is poison, only if its schema is absent as well |
| Snapshot.ReadAndFiled | wing_parser/net/snapshot.py:94-102 | Whatever schema the leaves came from, reads that answer with leaf triplets are always filed, and the scene holds exactly the leaves read, with the console's values |
| Snapshot.TakeSnapshot | wing_parser/net/snapshot.py:69-121 | One batch over the leaves of the schema, on a new socket, with the size and retries given; it succeeds exactly when each reply read is a leaf triplet. With any schema handed in, a stale one included, ae and ce hold exactly those of its leaves that were read, with the console's values, and the others are the unresolved leaves; with a schema that accounts for the console, as that of an own walk, each wanted leaf is in ae or ce, or unresolved, or beneath an unresolved node or one whose reply told nothing, in exactly one place. Where nothing is lost but by given faults and no read is poison, only absent reads are unresolved; and the pull of a console that answers all it can, any number of its schema requests being poison, is complete |
| Snapshot.CompleteWithoutLoss | wing_parser/net/schema.py:149-187 | The dumps make up for poisoned schemas and for what the batches gave up: every wanted leaf below a root is in the scene with its own value, no read is unresolved, and no node but roots that the console lacks |
| Consoles.PullNetworkExists | wing_parser/net/client.py:174-181 | For every console and any poison there is a network on which only the poison and what the console cannot answer are silent, every reply being true and well formed; with clean names and poison among schema requests alone it meets all that the complete pull asks for |
| Consoles.DumpExists | wing_parser/net/nodetext.py:15-35 | Any node whose leaves have clean names has a dump in the documented grammar that parses to exactly its unskipped leaves |
| Push.PushLeaves | wing_parser/net/write.py:192-216 | A dry run sends nothing, and neither does a push to another serial than the pinned one; otherwise each leaf's own value is sent to its address once, in order, and one batch with the default size and retries reads them back; each leaf is reported once, from its own reply; where nothing is lost but by given faults and no read is poison, exactly the leaves whose reads get no answer are absent |
| Push.Compare | wing_parser/net/write.py:206-216 | Landed, in the order of the push, exactly when the reply carries a matching value, mismatched with both values when it carries another; it raises exactly when some reply carries no leaf value |
| Push.ThreeWaySplit | wing_parser/net/write.py:202-216 | Landed, mismatched and absent split the pushed leaves |
| NestedSets.SetGraph.ExpansionIsReachability | wing_parser/classifier/vocabulary.py:185-207 | On every graph, cyclic ones included, expansion lists without repetition exactly the known kinds of all live sets reachable through live sets, although its guard is per path |
| NestedSets.SetGraph.NestedLead | wing_parser/classifier/vocabulary.py:187-206 | The expansion is that of the nested sets, and then the set's own kinds that can be produced and that these did not bring, once each in first-seen order |
| NestedSets.SetGraph.NestedInOrder | wing_parser/classifier/vocabulary.py:199-203 | Each nested set in turn adds, in the order of its own expansion, exactly what those before it did not bring |
| NestedSets.AddNewInOrder | wing_parser/classifier/vocabulary.py:200-206 | What is appended is what is new, once each, in the order it was first seen |
| NestedSets.SetGraph.ProducibleEach | wing_parser/classifier/vocabulary.py:204-206 | An own kind is kept in its place exactly when it is known |
| NestedSets.SetGraph.LinksAre | wing_parser/classifier/vocabulary.py:195-199 | The graph has the sets that are there and not deleted, each with the folded names it nests, in order |
| NestedSets.SetGraph.WithSetsInOrder | wing_parser/classifier/vocabulary.py:221-224 | A term's own kinds stay as they are, and each of its sets in turn adds what came before it did not bring |
| NestedSets.SetGraph.AcceptedEach | wing_parser/classifier/vocabulary.py:217-219 | A term is accepted in its place exactly when it is not deleted and all its own kinds are known |
| NestedSets.SetGraph.EffectiveIs | wing_parser/classifier/vocabulary.py:209-227 | The matcher gets exactly the live terms whose own kinds are all known, in order and each once, with exactly their own kinds and those their sets reach, none of them unknown |
| NestedSets.SetGraph.CheckCycleIs | wing_parser/classifier/vocabulary_checks.py:46-72 | The check refuses exactly when a proposed set reaches the key through live sets, whatever cycles there are elsewhere, and the path it names is a cycle |
| NestedSets.SetGraph.NotLiveEach | wing_parser/classifier/vocabulary_checks.py:37-43 | The names reported are exactly those whose folded identity is no live set, in order |
| NestedSets.SetGraph.PutKeepsAcyclicIff | wing_parser/classifier/vocabulary.py:261-267 | On an acyclic graph the write keeps it so exactly when the check passes, a revived tombstone included |
| NestedSets.SetGraph.DeleteKeepsAcyclic | wing_parser/classifier/vocabulary.py:281-283 | A tombstone or a removal keeps an acyclic graph acyclic |
| VocabularyProblems.FindSetCycles | wing_parser/classifier/vocabulary_checks.py:78-104 | Each cycle found is a genuine closed walk of live sets, no two through the same sets, all simple cycles are covered, and there is none exactly when the graph is acyclic, in any start order |
| VocabularyProblems.TermReportsEach | wing_parser/classifier/vocabulary_checks.py:122-130 | Term by term, a live one is reported under its key with exactly its unknown kinds, and with exactly its names of no live set |
| VocabularyProblems.SetReportsEach | wing_parser/classifier/vocabulary_checks.py:132-140 | Set by set the same |
| VocabularyProblems.CycleReportsAre | wing_parser/classifier/vocabulary_checks.py:142-143 | One problem for each cycle, naming for each node the key that its set is shown under |
| VocabularyProblems.ComputeProblems | wing_parser/classifier/vocabulary_checks.py:107-145 | The report names each unknown kind and set and each cycle, every simple cycle's sets among them and no two alike, and its lookup of a cycle's sets never fails; it is empty exactly when every live term and set names only what is known and the sets are acyclic |
| VocabularyStore.PopIs | wing_parser/classifier/vocabulary_store.py:184-193 | Removing every spelling of a key leaves the merged entries of all other keys as they were, and shows the default under this one |
| VocabularyStore.MergeIs | wing_parser/classifier/vocabulary.py:100-114 | At each identity the last entry that can be read decides, over a default shown under the key of what it replaces; where none can the default stays |
| VocabularyStore.RawSetIs | wing_parser/classifier/vocabulary_store.py:122-134 | A raw entry is a tombstone whatever else it says, is malformed exactly when it is no mapping or gives a text for a list, and otherwise the set it describes, its caption the key and its origin manual unless it says so |
| VocabularyStore.ResetIs | wing_parser/classifier/vocabulary_store.py:236-242 | After a reset the merge changes at the folded key alone, to the default or to nothing |
| VocabularyStore.WriteIs | wing_parser/classifier/vocabulary_store.py:196-203 | After a write the merge changes at the folded key alone, to the entry written, whatever spellings were stored |
| VocabularyStore.Vocabulary.PutSet | wing_parser/classifier/vocabulary.py:261-267 | A passing write changes the merged sets at the folded key alone and keeps them acyclic; a refused one changes nothing |
| VocabularyStore.Vocabulary.RefusedIs | wing_parser/classifier/vocabulary.py:261-267 | Refused exactly for an unknown kind, naming all of them; else for a name of no live set, naming all; else when a nested set reaches the key, naming a cycle through it |
| VocabularyStore.Vocabulary.DeleteSet | wing_parser/classifier/vocabulary.py:281-297 | A default leaves a tombstone, decided from the shipped keys, so that a second delete revives nothing |
| VocabularyStore.Vocabulary.ResetSet | wing_parser/classifier/vocabulary.py:299-301 | The default shows again; an acyclic graph stays so exactly when the default's own nesting would have passed the check |
| VocabularyStore.Vocabulary.DryRunAgrees | wing_parser/classifier/vocabulary_checks.py:175-192 | The dry run is empty exactly when the write would pass, and leads with what it would raise |
| VocabularyStore.Vocabulary.DryRunIs | wing_parser/classifier/vocabulary_checks.py:175-192 | It names all unknown kinds and all names of no live set, and a cycle only when there are none of these |
| VocabularyStore.FirstEdit | wing_parser/classifier/vocabulary.py:261-267 | A freshly loaded vocabulary accepts an edit by which a nests nothing, and is acyclic |
| VocabularyStore.SecondEdit | wing_parser/classifier/vocabulary.py:261-267 | It then accepts an edit by which b nests a, and is acyclic still |
| VocabularyStore.ResetCanCloseACycle | wing_parser/classifier/vocabulary.py:299-301 | Shipped sets a, nesting b, and b, after two accepted edits that leave them acyclic: resetting a leaves a cycle |
| EditDistance.Levenshtein | wing_parser/showcontext/vocabulary.py:45-75 | The table computes the least cost over all alignments of match, insert, delete, substitute and adjacent swap: attained and unbeaten |
| EditDistance.DistanceLaws | wing_parser/showcontext/vocabulary.py:45-75 | Symmetric, zero exactly on equal strings, between the difference of the lengths and the longer length |
| EditDistance.DistanceOneIffOneEdit | wing_parser/showcontext/vocabulary.py:48-57 | Distance one is exactly one insertion, deletion, substitution or adjacent swap that changes the string |
| TokenResolve.Normalise | wing_parser/showcontext/vocabulary.py:31-42 | The loops compute the normal form |
| TokenResolve.StripSplits | wing_parser/showcontext/vocabulary.py:37-42 | Stripping takes the characters to be dropped at both ends and no other |
| TokenResolve.CollapseIs | wing_parser/showcontext/vocabulary.py:40-41 | Taking one of two neighbouring dots away makes no difference, wherever they stand, and a text without such a pair stays as it is |
| TokenResolve.NormalIsCanonical | wing_parser/showcontext/vocabulary.py:37-42 | No hyphen, underscore, blank or tab, no doubled dot and no dot at an edge is left |
| TokenResolve.NormalOfCore | wing_parser/showcontext/vocabulary.py:37-42 | Collapsing dots and stripping them commute: the normal form is the mapped and collapsed core of the token |
| TokenResolve.NormalTwice | wing_parser/showcontext/vocabulary.py:31-42 | Normalising again changes nothing exactly when the token, stripped of white space and then of what becomes a dot, has no edge that is lowered to white space |
| TokenResolve.NormalTwiceOnSeparators | wing_parser/showcontext/vocabulary.py:31-42 | Where all white space is separators, normalising is idempotent on every token |
| TokenResolve.NormalTwiceCanDiffer | wing_parser/showcontext/vocabulary.py:37-42 | A dot before a line break: normalising twice differs from normalising once |
| TokenResolve.Resolve | wing_parser/showcontext/vocabulary.py:78-96 | A member is kept; another token of four characters or more is repaired exactly when one word alone is a single edit away; two are never chosen between but named in order; anything else is unknown |
| TokenResolve.ResolvesPast | wing_parser/showcontext/vocabulary.py:37-42 | White space around a token changes neither its normal form nor what it resolves to |
| TokenResolve.NearIs | wing_parser/showcontext/vocabulary.py:83-95 | The candidates are exactly the words one edit away, as often as the vocabulary has them |
| TokenResolve.SingleErrorIsDetected | wing_parser/showcontext/vocabulary.py:53-57 | When no two words are one edit apart, a word mistyped by one edit is never taken for another |
| Documents.Walk | wing_parser/edit/pointer.py:20-32 | The walk reaches the slot at the path, or fails naming the segments it followed and the one it lacked, and makes no key |
| Documents.ShortestMissing | wing_parser/edit/pointer.py:20-32 | The path a key error names is the shortest prefix that leads nowhere |
| Documents.WriteFailsAt | wing_parser/edit/pointer.py:40-46 | A write that fails names the shortest prefix that leads nowhere too |
| Documents.Write | wing_parser/edit/pointer.py:40-46 | A write in place replaces what is at the path and nothing else, and fails without effect exactly where reading does |
| Documents.WriteBack | wing_parser/edit/pointer.py:35-46 | What was read, written back over a later write, restores the document |
| Documents.DeepCopy | wing_parser/edit/writer.py:26 | The copy is made of new dictionaries and stands for the same document |
| Journal.Applied | wing_parser/edit/writer.py:22-29 | The replay writes every patch in order on a copy, fails exactly when a patch finds no key, and does not touch the document |
| Journal.RevertRestores | wing_parser/edit/journal.py:17-19 | Writing the recorded `before` values back in reverse order turns the patched document into the original |
| Journal.NoKeyIsMade | wing_parser/edit/pointer.py:9-12 | No replay makes a key the original lacks |
| Journal.PartsOfTarget | wing_parser/edit/repairs.py:83-94 | A target's parts are found under their names, the last of equal names winning |
| Journal.PatchFor | wing_parser/edit/repairs.py:97-112 | A declared repair becomes a patch whose `before` is what the document holds at the filled path; it fails exactly when the template cannot be filled or leads nowhere |
| Journal.EditJournal.Undo | wing_parser/edit/journal.py:43-46 | The last patch is dropped; an empty journal answers with nothing |
| Journal.Session.Repair | wing_parser/ui/session.py:59-71 | The journal stays replayable on the untouched original with every `before` true, the scene stays current, and a repair that is not declared or finds no key, and these alone, changes nothing |
| Journal.Session.RecordValue | wing_parser/ui/session.py:100-119 | One patch with the value the patched document held joins the journal, or none when the path leads nowhere |
| Journal.Session.Undo | wing_parser/ui/session.py:73-77 | The document is again exactly what it was before the last patch, which is what writing its `before` back gives |
| Journal.Session.Reanalyse | wing_parser/ui/session.py:79-85 | Deriving again from an unchanged journal changes nothing |
| SchemaCache.Cache.Set | wing_parser/ui/live_schema_cache.py:75-82 | The compare and the write are one step: a write under an old generation is dropped |
| SchemaCache.Cache.Clear | wing_parser/ui/live_schema_cache.py:84-90 | A clear forgets the walk and moves the generation on |
| SchemaCache.SchemaFor | wing_parser/ui/live_controller.py:97-128 | What was cached is used; a walk is remembered only when complete and not overtaken by a clear |
| SchemaCache.EveryRunKeeps | wing_parser/ui/live_controller.py:97-128 | In every interleaving of the window and any number of workers, a cached walk is complete and began after the most recent clear |
| SchemaCache.SplitSetBreaks | wing_parser/ui/live_schema_cache.py:42-53 | With compare and write apart, a clear between them leaves a walk cached that began before it |
| SchemaCache.SplitSetAgrees | wing_parser/ui/live_schema_cache.py:75-82 | With nothing in between, compare and write apart do what the one step does |
| SchemaCache.CachedOfDeskIff | wing_parser/ui/live_controller.py:97-128 | In every run a cached walk is of the connected desk exactly when the desk of its click is the one connected now, which it is whenever the click came after the last clear |
| SchemaCache.CachedOfAnotherDesk | wing_parser/ui/live_controller.py:115-128 | A run in which the desk of the click is not the one connected: the host is taken at the click, the generation later |
| ShowBook.Build | wing_parser/showcontext/view.py:212-241 | The three loops with one book and one clock give each cue the notes of the declarative reading |
| ShowBook.ViewIs | wing_parser/showcontext/view.py:212-241 | Each cue's view lists the contradicting ones among all its channels, in order, and its gap, judged against every cue before it in all segments |
| ShowBook.FlatIs | wing_parser/showcontext/view.py:218-220 | These are the cues of all segments, in the order of the file |
| ShowBook.ListedIff | wing_parser/showcontext/view.py:222-228 | A channel is listed exactly when some occurrence of it in the cue contradicts |
| ShowBook.ListedInOrder | wing_parser/showcontext/view.py:222-228 | The list is the contradicting channels in the order of the cue, one for each occurrence that contradicts |
| ShowBook.ContradictsIff | wing_parser/showcontext/view.py:219-228 | An occurrence contradicts exactly when its cue's action is open or close and the latest cue to open or close that channel, in earlier cues or earlier in the list, had the same action |
| ShowBook.GapIs | wing_parser/showcontext/view.py:229-236 | A gap is given exactly when the cue's time and some earlier one can be read, and is measured from the last readable one, whatever segment it is in |
| ShowBook.OthersLeaveTheBook | wing_parser/showcontext/view.py:22-25 | A cue whose action is neither open nor close never changes what is said of a channel, and nothing is listed for it |
| ShowBook.BuildExpectations | wing_parser/showcontext/view.py:194-209 | One entry for each distinct kind in first-seen order, with its segments once each in first-seen order |
| ShowBook.WantsAre | wing_parser/showcontext/view.py:202-204 | Each kind that a segment expects is noted for it, segment by segment in order |
| ShowBook.IdsForEach | wing_parser/showcontext/view.py:203-206 | The segments under a kind are those that name it, in order |

## Left out

- Client.WingClient.GetMany: of a call on a socket that still owes a reply it says what was sent and read, not that the
  replies are honest answers, because a stray datagram of an earlier request may then answer for a requested address;
  `Ask` states when it leaves such a socket, and `GetMany` never does.
- Client.WingClient.SendAndCollect: does not model a send that fails, because the network decides only what is read.
- Codec.Decode: reads a byte above 127 as one replacement character, because decoding with replacement may give one
  character for several bytes; the round trips are about ASCII text, which is all that is ever sent.
- Codec.Encode: takes arguments of the tag's own kind, a float as its four bytes, because the conversions by `str`,
  `float`, `int` and `bytes` and the rounding to 32 bits belong to the language.
- Schema.WalkSchema: starts from a reply's lines as (name, node or leaf, type), because the line pattern is a regular
  expression over text.
- Snapshot.TakeSnapshot: leaves out the scene's version and source fields, which are copied; takes a handed-in schema
  whose addresses lie below a root, as those of every walk do.
- Push.PushLeaves: takes the formatting of a value and the tolerance of a comparison as parameters, because they are
  floating-point arithmetic.
- NestedSets.SetGraph.EffectiveIs: takes the live terms in any order, the sorting by key being a display matter.
- VocabularyProblems.FindSetCycles: takes the start order as given, so it does not say which rotation of a cycle is
  named.
- VocabularyStore.Vocabulary.PutSet: takes the raw section as a list of parsed mappings; a `kinds` or `sets` that is
  null, which raises on load, is not among them.
- TokenResolve.Normalise: takes lower-casing as a map of single characters and white space as a predicate, because
  the Unicode tables are the language's.
- Documents.DeepCopy: copies through a nested value, because the order in which the library's copy visits a document
  cannot be observed.
- Journal.Session.Repair: takes `after` values that are not dictionaries, because a dictionary there would be shared
  between the journal and every copy; and takes the derivation of the scene as a function that does not raise.
- ShowBook.Build: takes the reading of a written time as a parameter.
- The term side of the vocabulary store: parsing raw terms, `put_term` and its dry run follow the set side without
  the graph.
- Sockets, timeouts in seconds, threads and the window toolkit; YAML and JSON; model providers; rule loading and
  rendering.
- `keywords.fold` and the list of known kinds, which are parameters.
- The rest of wing_parser/net/write.py: single writes and node writes, which repeat one read-back.
