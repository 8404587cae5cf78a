# Atol Go SDK: verified model

The SDK answers authorization questions on its own: it embeds a Zanzibar-style relationship engine over an indexed
in-memory tuple store, keeps itself current over a mutation stream from the control plane, guards decisions with a
serving lease, and wraps outgoing streams in authenticated frames. This project models those parts in Dafny and proves
what they promise over all inputs and over whole runs. `dafny verify dfyconfig.toml` checks everything.

| file | what it models |
|---|---|
| `Model.dfy`, `Keys.dfy` | tuples, filters, compiled models; the concatenated string keys and when they are injective |
| `Ordering.dfy`, `Paging.dfy` | the full-key tuple order, sorted listings, keyset pages and cursors |
| `Store.dfy` | `MemoryStore`: two indexes, materialized overlays, pages, replacement, conditional delete |
| `Semantics.dfy`, `Checker.dfy` | the meaning of a check as a least fixpoint; the search with its shared visited set; enumeration |
| `Compiler.dfy`, `Collisions.dfy` | from decoded model source to compiled model; what colliding visit keys and computed cycles cost |
| `Contexts.dfy` | ephemeral tuples laid over the store against the same tuples written to it |
| `Floors.dfy` | holder floors over whole runs, and exactly when they hold |
| `Replacement.dfy`, `Engine.dfy` | when a replacement leaves what was asked for; tuple operations, `CanDelete` and its paged form, batches |
| `StreamCodec.dfy`, `StreamIO.dfy` | stream-hmac-v1 frames, encoder and verifying reader |
| `TokenLog.dfy`, `SyncClient.dfy` | continuation tokens across reconnects and replays; the client that follows them with its store |
| `PolicyOverlay.dfy` | bundle and data version guards, re-overlay after a bundle swap |
| `ModelFence.dfy`, `ServingGate.dfy` | monotonic model revisions; the lease and restriction gate |

## Main results

- **A check is exact, and exactly when.** `Check` answers true only for a member of the least fixpoint of the rewrite
  rules, and for every member as long as its string visit keys tell the reachable nodes apart. Intermediate `false`
  answers of the search are allowed to be wrong; the proof is that at the end no rule leads from the visited nodes to a
  key that was not visited. The contract fixes the answer, so it does not depend on the order in which the store yields tuples. Termination
  holds for every model and store, cyclic ones included. The search remembers `type:id#relation`, which is ambiguous:
  for any two distinct nodes with one key there is a model that compiles, and tuples, where a granted user is denied
  (`CollisionHidesGrant`). So a set of nodes is safe for all compiled models and tuples if and only if its keys are
  distinct (`SafeExactly`), and an object that the engine can name is if and only if its ID has no `#`
  (`SafeRootExactly`).
- **Listing and context tuples, and exactly when.** A stored userset is found by its bucket, which another object can
  spell. So `ListObjects` can miss a granted object that no tuple is about (`GrantWithoutTuple`), and for a model and
  object it cannot if and only if neither the ID nor a direct relation reached has a `#` (`GrantsRestExactly`). A
  context tuple grants what the written one would if and only if it is no userset or its bucket has one reading
  (`ContextSafeExactly`); nothing is asked of the tuples already stored.
- **Enumeration ends exactly without a computed cycle ahead.** `ListUsers` is proved for every relation from which no
  computed relation leads back to itself; this is equivalent to a bound on the nesting of its calls
  (`EnumerationEndsExactly`), and the compiler accepts models that violate it (`CyclicModelCompiles`).
- **The verifier accepts exactly the encoder's image,** for any HMAC function, any payload sizes up to 5 MiB and any read
  chunking; truncation and every reordering, dropping or repetition of frames is refused. A frame body changed under its
  MAC is refused unless HMAC collides on the two bodies (`TamperingRefused`), so the MAC covers the whole frame.
- **Cursors visit every row once.** Following cursors terminates and returns the sorted listing of the matching tuples.
  Encoding does not enforce the 4096-character cursor limit that decoding does, so a scan fails exactly when a page
  boundary has a longer cursor (`BoundariesFit`); one long object ID at a boundary is enough (`LongIDStopsWalk`).
- **Replay convergence, and exactly when.** A client that reconnects to a server over one log follows a state machine over
  log positions with its token and its store (`StreamClient.Run`), failed frames included. Every mutation up to the held
  token has been applied in every run. Equality with the log prefix at the high-water mark is false in general: a replay
  without tokens that is cut short leaves the token ahead of what was re-applied (`UntokenedReplayDiverges`), and a run
  recovers in every tokened continuation if and only if it is in order (`RecoversExactly`). A delivery schedule reproduces
  the log for all logs and snapshots if and only if it is `Converged`, and it is whenever replayed frames carry their
  tokens. Mutations act on slots as the store does, so nothing is asked of the components.
- **Policy frames converge** to the newest bundle, baseline and per-path values in any order and with any duplication. The
  contracts say exactly when a frame is applied; a bundle whose re-overlay fails on a path without parents stays live with
  only some of the tracked values (`ApplyPolicyBundle`).
- **Holder floors, and exactly when.** The floor counts by index bucket, so a tuple of another object can be counted in, and
  a plain write can take a holder's slot. For every vocabulary of tuples all runs keep an object's floor if and only if it
  is out of reach or no tuple intrudes (`FloorIsExact`); with all the tuples that the text operations can name, if and
  only if there is no floor, the type contains `:`, or neither the ID nor the relation contains `#` (`FloorKeptExactly`).
  `CanDelete` judges by the object's own holders, so it agrees with `DeleteTuple` on every store, no materialized tuples in
  the way, under the same condition and only then (`VerdictsAgreeExactly`).
- **Replacement, and exactly when.** `ReplaceRelationships` leaves what was asked for if and only if no other tuple sits in a
  slot concerned (`ReplacedExactly`), for every nameable store if and only if the filter's ID and relation have no `#`
  (`ReplacesSafelyExactly`); otherwise the write can remove another object's tuple (`OutsiderLost`).
- **Revisions and the gate** are invariants over all interleavings of their operations. A served revision falls in one case
  only: a tenant's first own model may be older than the default it replaces (`FirstOwnModelMayBeOlder`).

Where the code and its comments differ, the model follows the code:

- `ConditionalDeleter` and `CanDelete` are described as refusing a delete that would leave min holders or fewer; the code
  compares the count before the delete, so it refuses only a delete that would leave fewer than min.
- `TupleStore.Write` is described as failing on an existing tuple; the memory store overwrites it.
- `stream` is described as resuming from the last applied mutation; it resumes from the last frame that carried a token.

Throughout, *clean* components mean: object and user types without `:`, object and user IDs without `#`; *well-formed* tuples
also have no `@` in the relation; *nameable* tuples are those that the engine's text keys parse to: a clean subject and an
object type without `:`. Contracts state what holds without these conditions too.

## Model

| member | source | states |
|---|---|---|
| Keys.ObjectRelationKeyInjective | zanzibar/store/memory.go:39-41 | an object-relation key identifies object and relation when types have no `:` and IDs no `#` |
| Keys.TupleKeyInjective | zanzibar/store/memory.go:35-37 | a tuple key identifies a well-formed tuple |
| Keys.SlotInjective | zanzibar/store/memory.go:51-59 | inside a bucket the tuple key identifies a tuple with clean components, whatever its relation text |
| Keys.SameSubject | zanzibar/store/memory.go:51-59 | tuples in one slot have one subject when subjects are clean, whatever their objects |
| Keys.KeysRoundTrip | zanzibar/check/checker.go:183-208 | printing user and object keys and parsing them back gives the tuple |
| Keys.ParsedExactly | zanzibar/check/checker.go:183-208 | the tuples that text keys can name are those with a clean subject and an object type without `:` |
| Keys.UserKeyParts | zanzibar/check/checker.go:183-197 | a user key is cut at its first `:` and the first `#` after that, and without `:` is all type |
| Keys.ObjectKeyParts | zanzibar/check/checker.go:199-208 | an object key is cut at its first `:`, and without one is all type |
| Keys.KeysCollide | zanzibar/store/memory.go:35-41 | without those conditions two objects share a bucket and two tuples an entry |
| Ordering.StringLessByFirstDifference | zanzibar/store/store.go:142-151 | string comparison is decided at the first differing position, a prefix being smaller |
| Ordering.StringOrder | zanzibar/store/store.go:142-151 | after a common front the smaller character decides, and the front alone comes first |
| Ordering.FieldsLessByFirstDifference | zanzibar/store/store.go:142-151 | tuple comparison is decided by the first differing field |
| Ordering.TupleLessIsTotalOrder | zanzibar/store/store.go:141-151 | TupleLess is irreflexive, transitive and total on distinct tuples |
| Ordering.TupleLessByFields | zanzibar/store/store.go:142-151 | object type decides first, then object ID, relation, user type, user ID and user relation |
| Ordering.SortedGroups | zanzibar/store/store.go:31-37 | rows in order come grouped by object type and within one by object ID |
| Ordering.SortedUnique | zanzibar/store/store.go:141-151 | a sorted page is determined by its elements, so page order is deterministic |
| Ordering.TakeOfInsert | zanzibar/store/memory.go:331-353 | keeping only the capacity smallest after each insertion loses nothing |
| Store.InsertBoundedPageTuple | zanzibar/store/memory.go:333-353 | binary search, insert and cut: the capacity smallest of the page and the tuple, or the page if the tuple is not after the cursor |
| Store.MemoryStore.Write | zanzibar/store/memory.go:43-66 | the tuple set after a write for any tuple; both indexes keep representing one set when the key is not taken by another tuple |
| Store.MemoryStore.Delete | zanzibar/store/memory.go:68-94 | the tuple set after a delete, no empty bucket left in either index |
| Store.MemoryStore.WriteTx | zanzibar/store/memory.go:145-156 | writes then deletes; on well-formed tuples set union then difference with both indexes in agreement |
| Store.MemoryStore.Read | zanzibar/store/memory.go:193-226 | fast path and scan alike return every stored tuple once and every materialized one that agrees with the filter in each field it names, in some order |
| Store.MemoryStore.ReadUsersets | zanzibar/store/memory.go:369-394 | each userset tuple of the bucket once, and the materialized ones of the object and relation as often as they occur |
| Store.FilterTuples | zanzibar/store/memory.go:417-425 | keeps the matching tuples with their multiplicities |
| Store.MatchesMeans | zanzibar/store/memory.go:427-447 | a tuple matches exactly when it agrees with every non-empty field of the filter |
| Store.MemoryStore.WriteMaterialized | zanzibar/store/memory.go:399-407 | what reads range over loses the materializer's former tuples and gains the new ones; stored and other materialized tuples stay |
| Store.MemoryStore.ClearMaterialized | zanzibar/store/memory.go:410-415 | what reads range over loses exactly that materializer's tuples, with their multiplicities |
| Store.MemoryStore.CollectPage | zanzibar/store/memory.go:244-260 | whatever the map order, the first capacity rows of the sorted listing after the cursor |
| Store.MemoryStore.ReadPage | zanzibar/store/memory.go:231-273 | the page, next cursor or error that the sorted listing of the tuples agreeing with the filter calls for; limits 1 to 500, cursors up to 4096 characters, rows grouped by object type and ID |
| Store.MemoryStore.ReadPageExcludingSubject | zanzibar/store/memory.go:280-329 | the same over the listing without the rows whose user type and user ID are both the excluded ones, under its own cursor scope |
| Store.MemoryStore.DirectHoldersLocked | zanzibar/store/memory.go:98-111 | the number of distinct direct tuples in a bucket |
| Store.MemoryStore.DeleteIfAbove | zanzibar/store/memory.go:118-139 | refused exactly when the entry is present and the bucket has at most min direct holders; otherwise as a delete, and nothing on refusal |
| Store.ReplacementDiff | zanzibar/store/memory.go:452-474 | writes and deletes in strict key order covering exactly the keys that differ, the later of two replacements under one key winning |
| Store.MemoryStore.ReplaceTx | zanzibar/store/memory.go:161-191 | precommit sees the ordered, minimal change of keys and its veto changes nothing; otherwise that change is made, and on well-formed tuples the replacements take the place of what matched |
| Paging.NextCursorResumes | zanzibar/store/store.go:69-122 | a page's cursor is taken back exactly when it has at most 4096 characters, and then resumes strictly after the page |
| Paging.WalkReadsEverythingOnce | zanzibar/store/store.go:31-37 | following cursors ends; it fails exactly when a boundary cursor is too long, else yields every row in order, each once if rows are distinct |
| Paging.ReadableRows | zanzibar/store/store.go:31-37 | what is read before a cursor is refused: distinct rows in order without a gap, and all rows if every boundary fits |
| Paging.LongIDStopsWalk | zanzibar/store/store.go:69-122 | an object ID over 4096 characters on a page boundary makes the scan fail with an invalid cursor |
| Paging.CursorIsBound | zanzibar/store/store.go:67-139 | with an injective digest and no NUL in components, a cursor opens only under its own scope and filter and yields its key |
| Paging.DecodesExactly | zanzibar/store/store.go:92-122 | a cursor opens exactly when it has 1 to 4096 characters, version 1, this scope's digest and a key that matches the filter |
| Paging.ExclusionIsBound | zanzibar/store/store.go:48-51 | a subject-excluding scope never equals a plain one |
| Semantics.DeadEndNeverGranted | zanzibar/check/checker.go:25-30 | nodes from which no rule grants or escapes are outside the least fixpoint |
| Semantics.GrantedMeans | zanzibar/check/checker.go:53-181 | by the tuples' own fields: granted exactly when some rule of the declared relation grants, by a tuple of the user, a userset in the bucket, the computed relation, or the lookup relation of any tuple on the from relation |
| Semantics.RulesOfInference | zanzibar/check/checker.go:63-181 | the user's own tuple, a userset tuple, the computed relation and the lookup grant of any tuple on the from relation each grant the node |
| Semantics.GrantsAreMonotone | zanzibar/store/context_store.go:31-68 | adding stored, materialized or context tuples never turns an allow into a deny |
| Semantics.OverlayIsStorage | zanzibar/store/context_store.go:39-69 | what is granted with tuples laid over the store is granted with them written; and conversely when no reachable node's bucket misreads a userset among them |
| Semantics.PlainContext | zanzibar/store/context_store.go:54-69 | among nameable tuples it is enough that each userset laid over has one reading; stored tuples are free |
| Contexts.ContextSafeExactly | zanzibar/store/context_store.go:54-69 | one nameable context tuple counts as written under every compiled model and nameable tuples if and only if it is no userset or its bucket has one reading |
| Contexts.ReadingsByText | zanzibar/store/memory.go:39-41 | unless its subject spells the same bucket, a tuple has one reading exactly when its ID, and for objects of any ID also its relation, has no `#` |
| Contexts.MisreadWhenWritten | zanzibar/store/memory.go:369-394 | for any other reading, a compiled model and tuples where the written userset grants and the laid one does not |
| Semantics.UniverseClosed | zanzibar/check/checker.go:63-181 | every node a search can reach lies in one finite set |
| Semantics.ReachableClosed | zanzibar/check/checker.go:63-181 | the reachable nodes are the least set around the queried one that no rule leads out of |
| Semantics.CleanKeysDistinct | zanzibar/check/checker.go:46-51 | visit keys are distinct when subjects and the queried object are clean |
| Semantics.DistinctKeysApart | zanzibar/check/checker.go:46-51 | where keys are distinct every grant has a derivation that repeats no key |
| Collisions.CollisionHidesGrant | zanzibar/check/checker.go:46-51 | for any two distinct nodes with one key, the second with a relation, a compiled model and tuples where the first is granted only past the other's equal key |
| Collisions.SafeExactly | zanzibar/check/checker.go:41-111 | a set of nodes loses no grant under any compiled model and tuples if and only if its keys are distinct, nodes without a relation apart |
| Collisions.SafeRootExactly | zanzibar/check/checker.go:27-30 | with tuples that text keys can name, an object's checks lose no grant if and only if its ID has no `#` |
| Semantics.GrantNeedsTuple | zanzibar/check/list.go:18-32 | among nameable tuples a grant on an object rests on some tuple about it, if the buckets its relation reads are its own |
| Semantics.GrantsRestExactly | zanzibar/check/list.go:18-32 | for every model and nameable object, all grants rest on such tuples if and only if for every direct relation reached by computed edges neither its name nor the ID has a `#` |
| Semantics.GrantWithoutTuple | zanzibar/store/memory.go:369-394 | otherwise tuples that grant the relation with none about the object, so that the candidate scan misses it |
| Semantics.ListedPassesCheck | zanzibar/check/list.go:69-99 | whoever is listed through a relation taking direct tuples passes the check for the listed relation |
| Semantics.EnumerationEndsExactly | zanzibar/check/list.go:87-99 | nested calls are bounded, and a rank exists, if and only if no relation reached by computed edges leads back to itself |
| Semantics.ChainsEnd | zanzibar/check/list.go:87-99 | without a cycle ahead calls nest no deeper than the relations reached |
| Semantics.ChainsGoOn | zanzibar/check/list.go:87-99 | with a cycle ahead calls nest to any depth |
| Collisions.CyclicModelCompiles | zanzibar/model/compiler.go:153-202 | the compiler accepts a model with such a cycle |
| Checker.RelationChecker.Read | zanzibar/store/context_store.go:39-52 | the matching tuples of the store, its overlay and the context |
| Checker.RelationChecker.ReadUsersets | zanzibar/store/context_store.go:56-69 | the userset tuples a search at this node expands |
| Checker.RelationChecker.DirectCheck | zanzibar/check/checker.go:114-127 | true exactly when some visible tuple has the object type, ID, relation, user type and user ID, blanks matching anything |
| Checker.RelationChecker.CheckNode | zanzibar/check/checker.go:41-111 | true means a derivation free of visited keys; false means the node's key is visited and all newly visited nodes lead only to visited keys |
| Checker.RelationChecker.ApplyRule | zanzibar/check/checker.go:63-108 | one rewrite rule, its direct, computed and from/lookup parts in turn |
| Checker.RelationChecker.ExpandUsersets | zanzibar/check/checker.go:132-150 | finds a granted userset or leaves them all visited |
| Checker.RelationChecker.FollowLookup | zanzibar/check/checker.go:154-181 | finds a granted lookup target or leaves them all visited |
| Checker.RelationChecker.Check | zanzibar/check/checker.go:27-30 | an allow has a derivation repeating no key, a denial a set of nodes that no rule leaves by key; equal to the least fixpoint when the reachable nodes' keys are distinct; a user's own tuple on a direct relation always allows, and where that is the only rule nothing else does |
| Checker.DenialIsRight | zanzibar/check/checker.go:46-51 | such a set refutes the grant when the reachable nodes' keys are distinct |
| Checker.RelationChecker.CheckWithContext | zanzibar/check/checker.go:35-39 | the check with the context laid over; equal to the check with it written when no bucket misreads it, for nameable tuples and IDs without `#` when the context's usersets have none in theirs |
| Checker.RelationChecker.ListObjects | zanzibar/check/list.go:11-51 | no repeats; an ID whose reachable keys are distinct is listed exactly when granted and some tuple is about it; among nameable tuples, IDs without `#` whose buckets are their own exactly when granted |
| Checker.RelationChecker.ListUsers | zanzibar/check/list.go:55-103 | without a computed cycle ahead it ends, with no repeats and exactly the user keys on the relation and all relations it computes from, each the text of a tuple's subject |
| Compiler.CompileRelation | zanzibar/model/compiler.go:103-151 | refused exactly when a floor sits beside a union rule or on no rule; direct rule first, then exactly the union's rules in order |
| Compiler.ValidateRule | zanzibar/model/compiler.go:163-198 | exactly the rules whose computed, from and lookup names resolve |
| Compiler.ValidateRelation | zanzibar/model/compiler.go:155-198 | exactly the relations whose type references and rules resolve |
| Compiler.Validate | zanzibar/model/compiler.go:153-202 | exactly the models all of whose references resolve |
| Compiler.ResolvedMeans | zanzibar/model/compiler.go:153-220 | in an accepted model every computed, from, lookup and type name is declared where it is looked for |
| Compiler.UnresolvedMeans | zanzibar/model/compiler.go:153-220 | in a refused one some name is not |
| Compiler.TypeRefMeans | zanzibar/model/compiler.go:204-220 | a type reference resolves by the text before and after its first `#` |
| Compiler.Compile | zanzibar/model/compiler.go:76-101 | accepts exactly the sources with allowed floors and resolving references; reports floors first |
| Compiler.CompilationPreservesMeaning | zanzibar/model/compiler.go:109-136 | the compiled rules grant exactly what the source's types and union entries, own tuples included, call for |
| Compiler.CompiledShape | zanzibar/model/compiler.go:112-148 | any rule implies a direct rule; a floor is 1 exactly for required relations and then direct is the only rule |
| Engine.TupleEngine.WriteTuple | zanzibar/zanzibar.go:279-314 | refused as invalid exactly by the model's declarations and type lists; validation and recorder errors change nothing; success writes the parsed tuple |
| Engine.TupleEngine.WriteRawTuple | zanzibar/zanzibar.go:435-459 | writes without validation unless the recorder refuses |
| Engine.TupleEngine.DeleteTuple | zanzibar/zanzibar.go:321-368 | the recorder's and the bucket's verdict and the resulting tuples; one step of the floor's runs |
| Engine.TupleEngine.ActivateModel | zanzibar/zanzibar.go:79-101 | only a newer model that compiles judges later operations |
| Floors.StepKeepsFloor | zanzibar/zanzibar.go:316-368 | one write or delete keeps the floor of an object that nothing intrudes on |
| Floors.WriteTakesSlot | zanzibar/store/memory.go:51-59 | writing a tuple that shares a holder's slot without being a holder removes exactly that holder |
| Floors.FloorHoldsForever | zanzibar/zanzibar.go:316-368 | in any interleaving of writes, raw writes and deletes such an object, once at its floor, stays there |
| Floors.FloorIsExact | zanzibar/zanzibar.go:316-368 | over any vocabulary, all runs keep an object's floor if and only if it cannot be attained or no tuple intrudes |
| Floors.FloorKeptExactly | zanzibar/store/memory.go:98-139 | over all tuples that text keys can name, if and only if there is no floor, the type has `:`, or ID and relation have no `#` |
| Floors.CleanVocabularyKeepsFloors | zanzibar/store/memory.go:98-139 | over clean tuples every floor is kept, whatever the relations are called |
| Floors.IntruderBreaches | zanzibar/store/memory.go:98-139 | an intruder leads to a run that loses a holder below the floor: its write takes a holder's slot, or its count lets one be deleted |
| Floors.ParsedIntruder | zanzibar/store/memory.go:98-111 | among nameable tuples only a direct one of another object or relation in the same bucket intrudes |
| Engine.TupleEngine.CanDelete | zanzibar/relationships.go:45-91 | the verdict by what reads return; with non-empty components and no overlay that of the object's own holders, which is DeleteTuple's except where the bucket misjudges |
| Floors.VerdictsDiffer | zanzibar/store/memory.go:118-139 | CanDelete's and DeleteTuple's verdicts differ exactly when the object is at its floor while the bucket holds more, or another tuple sits in the slot |
| Floors.VerdictsAgreeExactly | zanzibar/relationships.go:45-91 | for a nameable guarded tuple they agree on every store if and only if its ID and relation have no `#` |
| Floors.Misjudging | zanzibar/relationships.go:45-91 | otherwise a store where CanDelete refuses and DeleteTuple deletes the last holder |
| Engine.TupleEngine.CanDeleteBounded | zanzibar/relationships.go:96-148 | CanDelete's verdict by pages, or a cursor error exactly when a boundary cursor is refused before the answer is known |
| Engine.TupleEngine.BoundedTupleExists | zanzibar/relationships.go:150-170 | true exactly when the tuple is among the rows that can be read; otherwise false, or an error if a boundary cursor is refused |
| Engine.TupleEngine.MoreDirectThan | zanzibar/relationships.go:126-147 | early exit included, whether the rows that can be read hold more direct tuples than the minimum, or an error if that stays open |
| Engine.TupleEngine.WriteRelationships | zanzibar/relationships.go:212-264 | all writes then deletes, or nothing on an invalid or unrecorded tuple |
| Engine.TupleEngine.ReplaceRelationships | zanzibar/relationships.go:270-324 | each error exactly when due, the recorder's by the minimal change, and none changes anything; else matching tuples become the replacements and others are untouched if and only if no other tuple sits in a slot concerned |
| Replacement.ReplacedExactly | zanzibar/store/memory.go:161-191 | that equivalence for every store, filter and replacements |
| Replacement.ReplacesSafelyExactly | zanzibar/relationships.go:270-324 | a filter is safe on all nameable stores and replacements if and only if it matches nothing nameable or its ID and relation have no `#` |
| Replacement.OutsiderLost | zanzibar/store/memory.go:161-191 | otherwise a replacement whose write removes another object's tuple |
| StreamCodec.OpenSealed | hmac/stream.go:142-155 | a sealed data or close frame opens to its envelope |
| StreamCodec.OpenedWasSealed | hmac/stream.go:189-250 | only sealed frames open |
| StreamCodec.VerifierAcceptsExactlyEncodings | hmac/stream.go:86-250 | the verifier ends cleanly with these envelopes if and only if the input is their encoding |
| StreamCodec.FrameMarks | hmac/stream.go:93-128 | frame i carries sequence start + i modulo 2^64 and only the last is a close frame |
| StreamCodec.FrameContents | hmac/stream.go:142-162 | each frame holds its envelope, its predecessor's MAC and the MAC of everything before it under the frame label, at fixed offsets |
| StreamCodec.FirstFrame | hmac/stream.go:93-96 | the chain starts at sequence 0 with 32 zero bytes |
| StreamCodec.ProtocolConstants | hmac/stream.go:15-31 | magic, label, sizes and frame kinds of stream-hmac-v1 |
| StreamCodec.WireLayout | hmac/stream.go:130-140 | a frame on the wire is a zero byte, its big-endian length and the frame |
| StreamCodec.MacBinds | hmac/stream.go:157-162 | two frame bodies under one MAC are a collision of HMAC on two different messages |
| StreamCodec.TamperingRefused | hmac/stream.go:189-223 | a frame body replaced under its MAC is refused unless HMAC collides, after the envelopes before it, for lack of integrity if magic, chain and length are kept |
| StreamCodec.TruncationRefused | hmac/stream.go:189-194 | every proper prefix of a stream is refused |
| StreamCodec.TruncationKinds | hmac/stream.go:189-206 | cut between frames the stream is truncated, within one malformed, and what came before is yielded |
| StreamCodec.TrailingRefused | hmac/stream.go:237-246 | anything after the close frame is malformed |
| StreamCodec.OnlyOriginalOrderAccepted | hmac/stream.go:205-224 | of all selections of a stream's frames only the original order is accepted |
| StreamIO.MarshalFrame | hmac/stream.go:142-162 | the filled buffer holds each field at its offset, and the MAC covers the label and everything before it |
| StreamIO.EncodeStream | hmac/stream.go:93-140 | a frame per complete envelope, a close frame only after a clean end, an error exactly on a malformed body |
| StreamIO.EmittedAborted | hmac/stream.go:101-128 | on a malformed body exactly the frames of the complete envelopes were sent |
| StreamIO.VerifiedStreamReader.ReadFrame | hmac/stream.go:189-250 | state and error after one frame, checks in order |
| StreamIO.VerifiedStreamReader.Read | hmac/stream.go:173-185 | hands out what lies ahead in pieces, end and error only when nothing is left |
| StreamIO.ReadAll | hmac/stream.go:173-250 | for every choice of chunk sizes, clean exactly on an encoding and then the original bytes |
| StreamIO.RoundTrip | hmac/stream.go:74-91 | encoding and verifying a well-formed body returns it |
| StreamIO.AbortedStreamRefused | hmac/stream.go:101-120 | what an encoder sent before failing is refused |
| TokenLog.AppliedUpToToken | sync/sync.go:304-327 | in every run all mutations up to the held token have been applied |
| TokenLog.TokenedReplaysConverge | sync/sync.go:324-326 | if replayed frames carry tokens, delivery at its high-water mark has converged |
| TokenLog.ConvergenceIsExact | sync/sync.go:278-333 | a schedule gives the log prefix for every log and snapshot, by slots as the store does, if and only if it has converged |
| TokenLog.ReplicaMatchesLog | sync/sync.go:278-333 | then the fold of what was applied is the snapshot folded with the log prefix |
| TokenLog.RecoversExactly | sync/sync.go:304-327 | a run that can go on has converged at every later high-water mark of every tokened continuation if and only if it is in order |
| TokenLog.UntokenedReplayDiverges | sync/sync.go:324-326 | replaying without a token an entry at least two below the token always leaves a run that can diverge |
| TokenLog.UntokenedRun | sync/sync.go:304-327 | such runs exist |
| SyncClient.StreamClient.ApplyMutation | sync/sync.go:335-393 | a frame for another tenant is never applied and changes nothing; for no tenant or this one the engine decides, with its mutation's effect |
| SyncClient.StreamClient.Stream | sync/sync.go:304-333 | frames are applied exactly up to the first one not accepted, none at or after one for another tenant, model updates judging the frames after them; tuples, model, token and refusal follow from that |
| SyncClient.StreamClient.Run | sync/sync.go:148-207 | the state after all connections, each offering the token held; with a server over one log, token and store follow the token state machine, and with tokened replays, at the high-water mark the store is the snapshot with the log prefix applied, for every log and snapshot |
| SyncClient.CleanFold | sync/sync.go:342-355 | on clean components applying mutations is plain set union and difference |
| PolicyOverlay.SetNestedCommutes | policy/engine/engine.go:367-390 | writes to paths neither of which contains the other commute |
| PolicyOverlay.LaidReadsBack | policy/engine/engine.go:149-152 | every laid path reads back its value |
| PolicyOverlay.LaidLeavesRest | policy/engine/engine.go:149-152 | paths unrelated to all laid ones read as before |
| PolicyOverlay.PutExactly | policy/engine/engine.go:341-358 | a store write succeeds exactly when every proper prefix of its path is an object |
| PolicyOverlay.SplitSpells | policy/engine/engine.go:338-368 | the parts of a path hold no slash and joined by slashes give it back |
| PolicyOverlay.SplitJoined | policy/engine/engine.go:338-368 | splitting slash-free parts joined by slashes gives the parts |
| PolicyOverlay.VersionZeroResets | sync/sync.go:425-499 | a version 0 frame always applies and sets the guard back, so that every positive version applies next |
| PolicyOverlay.PolicyClient.LoadBundle | policy/engine/engine.go:137-188 | the bundle's data overlaid by policy data whatever the map order; unchanged on failure |
| PolicyOverlay.PolicyClient.SetPolicyData | policy/engine/engine.go:329-365 | sets the nested key that the slash-separated path names exactly when a bundle is loaded and the path's parents are objects, and fails unchanged otherwise |
| PolicyOverlay.PolicyClient.ApplyPolicyBundle | sync/sync.go:418-460 | empty bundles and stale versions dropped; otherwise succeeds exactly when the bundle compiles and has every tracked path's parents under the baseline, with all re-laid and the guard moved; a failed re-overlay leaves the bundle live with some of the tracked values |
| PolicyOverlay.PolicyClient.ApplyPolicyData | sync/sync.go:466-503 | empty paths and stale versions dropped; otherwise the path set and tracked, exactly when its parents are objects |
| PolicyOverlay.BaselineSurvives | sync/sync.go:408-445 | after any frames, seeded data that no frame is about reads back as seeded |
| PolicyOverlay.FramesConverge | sync/sync.go:404-503 | after any frames, newest bundle data under baseline under each path's newest value, guards at the maxima |
| PolicyOverlay.SwapNeverReverts | sync/sync.go:442-454 | every tracked path reads back its newest value after any frames |
| PolicyOverlay.OrderDoesNotMatter | sync/sync.go:404-503 | runs over the same frames, reordered and repeated, end in the same state |
| ModelFence.ModelEngine.ActivateModel | zanzibar/zanzibar.go:79-101 | the default model is one more fenced line of the engine, to which the run theorems apply; tenants' entries stay |
| ModelFence.ModelEngine.ActivateModelForTenant | zanzibar/zanzibar.go:174-199 | a tenant's entry moves only to a higher revision |
| ModelFence.ModelEngine.RefreshModelForTenant | zanzibar/model_cache.go:42-63 | each error exactly when due and changing nothing; else the returned snapshot is the one served and at least the stored revision |
| ModelFence.ModelEngine.LoadPersistedModels | zanzibar/model_cache.go:108-126 | succeeds exactly when every listed entry is usable, then none is below its listed revision; no line falls and each is old or listed |
| ModelFence.CachedWasCommitted | zanzibar/model_cache.go:11-36 | a cached source and revision were committed together and are no newer than the store |
| ModelFence.CacheNeverGoesBack | zanzibar/zanzibar.go:171-199 | across engines and interleavings a cached revision, the default's included, never falls and an equal one is the same model |
| ModelFence.ServedNeverGoesBack | zanzibar/zanzibar.go:211-231 | the revision a tenant is served never falls, unless its first own model takes over from the default |
| ModelFence.FirstOwnModelMayBeOlder | zanzibar/zanzibar.go:211-231 | that exception occurs |
| ModelFence.RefreshTakesHold | zanzibar/model_cache.go:38-63 | after activating an answer an engine serves at least its revision |
| ServingGate.TenantServingGate.BindTenant | sync/tenant_serving_gate.go:69-80 | write-once binding, accepted exactly for a first or the same non-empty tenant |
| ServingGate.TenantServingGate.Renew | sync/tenant_serving_gate.go:83-118 | accepted exactly by the update's own fields, the challenge, the 30-second window and the gate; then the lease is the update's |
| ServingGate.TenantServingGate.Restrict | sync/tenant_serving_gate.go:122-147 | malformed exactly by the update's own fields; an accepted newer restriction is stored field by field and ends the lease |
| ServingGate.TenantServingGate.RequireActive | sync/tenant_serving_gate.go:151-164 | allowed exactly for the bound tenant, unrestricted and before the lease expires, and otherwise why not |
| ServingGate.TenantServingGate.RequireTenantLocked | sync/tenant_serving_gate.go:166-174 | an unbound gate and another tenant are refused |
| ServingGate.ServedExactlyUnderLease | sync/tenant_serving_gate.go:69-174 | after any calls, served exactly when bound to the tenant, never restricted and before the latest accepted renewal's expiry, which matched its challenge and lies within 30 seconds |
| ServingGate.GateOnlyTightens | sync/tenant_serving_gate.go:120-147 | bindings never change, restrictions never lift, epochs never fall, one epoch has one authority |

## Left out

- Checker.RelationChecker.Check: for one given scene whose reachable keys collide, an allow and a denial each come with their basis; which it is when both exist is left open.
- Floors.FloorKeptExactly: raw deletes, batch writes and replacements are outside the floor in the source as well.
- SyncClient.StreamClient.Run: rebootstrap attempts fail; a successful one only adds tuples and is not part of a run.
- PolicyOverlay.FramesConverge: positive versions, prefix-free tracked and baseline paths and a bundle loaded first; version 0 frames always apply and reset the guard, which the step relation keeps.
- PolicyOverlay.PolicyClient.LoadBundle: nested data is a value, so the in-place walk of setNestedData and sharing between maps are not modelled; the order is pinned only for prefix-free baseline paths.
- PolicyOverlay.PolicyClient.SetPolicyData: the OPA store is a tree of objects; array indices in a path are refused here.
- Context cancellation, logging, metrics, the reconnect backoff and the notifier fan-out.
- Store backends other than MemoryStore, and store errors: the memory store has none. No store is modelled without the paging, transaction, replacement or conditional-delete capability.
- userRelation is always empty on the calls that Check can reach, so the search does not carry it.
- YAML decoding, JSON, base64, SHA-256, HMAC and ULID parsing are given functions; cursor sealing is assumed to be undone by unsealing, which Go's JSON does for valid UTF-8 only.
- Strings are compared by character; for valid UTF-8 this is the byte order Go uses.
- Bundle compilation and policy evaluation; whether a bundle compiles is an input.
- Verifier behaviour after its first error: the reader does not latch errors.
- Writer errors and pipe handling around the encoder; HTTP transport and key derivation.
- LoadModel, SetModel, engines without a model store, and CountByObjectType: they would only add easy members.
- Network, authentication, device, decision-log and test-support packages.
