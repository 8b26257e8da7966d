# Verified model of the capture engine

This project models the capture engine of an HTTP proxy and proves what its parts promise each
other: bodies kept as persistent chunk chains under a shared memory budget, a retention store that
announces every change on a bounded feed, the streaming text decoders, the request tree with its
hashed path index, the settings rewrite that must not change meaning, and the compiled mapping
rules. `dafny verify dfyconfig.toml` checks all of it.

How the modules build on each other:

- `Basics`, `Sums`: options, minima, sums over sequences.
- `Utf8`, `LossyText`, `LimitedText`, `FormDecode`, `FormRoundTrip`, `ContentEncodings`,
  `ContentDecode`: UTF-8 by the grammar of RFC 3629, lossy decoding by the Unicode Standard, text with
  a limit, form rendering and its inverse, the list of content encodings in the headers, undoing them.
- `BodyCharge`, `Bodies`, `BodyLaws`, `BodyEnds`: what keeping bytes costs, the chunk chain, and the
  laws over a body's whole life: its preview, its status, its limit. A body is a class with the
  fields the code updates, and a value that the class refines; the laws are about the value.
- `HeaderCapture`, `Records`, `Publisher`: measuring and capturing metadata, records with exact
  accounts, starting an exchange.
- `BudgetRaces`, `BudgetHolders`, `BudgetContention`, `ExchangePermit`, `BodyWork`: the concurrent
  protocols, as machines whose steps are single atomic operations of any number of threads. In
  `BudgetRaces` each record has its books and its lock, so the accounts are exact while appends,
  responses and the ends of other records go on at the same time; `BudgetHolders` says who keeps a
  lease alive, and `BudgetContention` what one reservation comes to, from its first load to its
  outcome, whatever others do meanwhile.
- `ChangeFeed`, `FeedWakeup`, `FeedLog`, `RecordTables`, `CaptureStore`, `HandleCalls`: the ring
  against an infinite log, waking up, and the store as a class, one method at a time.
- `StoreMachine`, `FeedReplay`, `RetentionRuns`: the store as a machine. Its methods are split at
  every look at a shared record, and handles change and grow records in between; the feed still
  replays to the store, and retention still holds.
- `TreePaths`, `TreeIndex`, `TreeNumbering`, `TreeView`, `TreeGrowth`, `TreeFold`, `TreeOrder`,
  `RequestNames`, `RequestTree`, `RequestActions`: the arena tree, its numbering and index for any
  hash, its visible rows, the tree of a list of requests as a value with the order of its siblings
  and the URLs its titles spell, the class that builds exactly that tree, and the cache and deletion
  on top of the store.
- `YamlValues`, `SettingsMerge`, `SettingsOrder`, `SettingsPreserve`: configuration values up to the
  order of their mappings, the entries put back, and the order restored.
- `MappingRules`, `MappingEngine`, `MappingValidation`: the rule table against a scan of the rules.

One law turned out to hold only under a condition. `set_response_at` puts the response body back to
streaming whatever it was, and a sealed preview then ignores bytes that are counted as kept.
`BodyLaws.LateResponseBreaksTheLaw` gives the shortest such life; `BodyLaws.ReopenExact` shows that
setting the response late is harmless if and only if nothing is sealed or nothing more can be kept,
and the whole-life laws are proved for all lives that meet this, which those of the proxy do
because it sets the response before any of its body.

The chunk size, the cost of a chunk node, the ring size and the flush size of the decoders are
parameters of every theorem; only their signs matter.

## Model

| member | source | states |
|---|---|---|
| Utf8.ValidIsGrammar | src/capture/decode.rs:822-847 | the scanner's notion of validity is membership in the byte grammar of section 4 of RFC 3629, both ways |
| Utf8.BoundaryIsCut | src/capture/publisher.rs:498-507 | in valid text the tail-byte test finds exactly the positions that split it into two valid texts |
| Utf8.BackOff | src/capture/decode.rs:832-839 | at most three steps back, over tail bytes only, never before the start |
| Utf8.BackOffLands | src/capture/decode.rs:832-839 | on valid input the bounded back-off always lands between two characters and makes progress |
| Utf8.ValidateCancellable | src/capture/decode.rs:822-847 | every verdict is exact by the RFC grammar for any check size of at least four; it is withheld only if some look at the flag saw a cancellation; the first look comes before anything else, and nothing is called valid without one look for every check size of it |
| Utf8.TruncatedLen | src/capture/publisher.rs:498-507 | the longest prefix within the limit that ends between characters, flagged exactly when something is lost |
| Utf8.TruncateFacts | src/capture/publisher.rs:493-507 | truncation keeps validity, is a prefix, wastes at most three bytes and is the identity exactly when the text fits |
| Utf8.LossyLen | src/capture/publisher.rs:509-526 | the measured length is the length of the lossily decoded text |
| Utf8.LossyFixpoint | src/capture/publisher.rs:509-526 | lossy decoding changes a byte string exactly when it was not valid |
| Utf8.BadIsMaximal | src/capture/publisher.rs:509-526 | an invalid piece is the maximal subpart of section 3.9 of the Unicode Standard, or one byte, and what is cut off begins a character |
| LossyText.LossyIsSubstitution | src/capture/publisher.rs:509-526 | lossy decoding cuts any bytes into characters and maximal subparts and puts one U+FFFD for each of the latter |
| LimitedText.LimitedString.WriteStr | src/capture/decode.rs:1291-1319 | unless a look at the flag saw a cancellation, what is held stays the truncation of all that was written, and failure is reported exactly when it no longer fits or was cancelled |
| LimitedText.CappedText | src/capture/decode.rs:1165-1177 | although the write's failure is dropped, a result is the exact truncation with the exact flag, and only a cancelled call has none |
| LimitedText.TruncateAppended | src/capture/decode.rs:1291-1319 | truncating after appending equals appending a truncation |
| LimitedText.AppendSuffix | src/capture/decode.rs:1201-1219 | within the limit and valid; the notice is whole whenever it fits, at the cost of the text only |
| FormDecode.DecodeFormByte | src/capture/decode.rs:1085-1104 | three input bytes are used exactly for a percent sign and two hex digits, and the byte has these digits; otherwise one, and the byte stands for itself or, from a plus sign, is a space |
| FormDecode.HexDigits | src/capture/decode.rs:1097-1104 | the sixteen digits have their place as value, in either case, and nothing else is a digit |
| FormRoundTrip.PercentRoundTrip | src/capture/decode.rs:1085-1104 | decoding gives back any bytes from any way of writing each of them: as it is, a space as plus, or percent and two digits each in either case (section 5.2 of the WHATWG URL Standard) |
| FormRoundTrip.FormRoundTrip | src/capture/decode.rs:1012-1069 | a form written in any such way from any list of names and values is rendered as one line each, in order, name and value lossily decoded and otherwise unchanged |
| FormDecode.FormTextValid | src/capture/decode.rs:1012-1069 | the whole-input rendering is valid UTF-8 for any input bytes |
| FormDecode.FormComponentDecoder.Push | src/capture/decode.rs:1112-1118 | buffering keeps the component's lossy decoding recoverable from what was written and what is buffered |
| FormDecode.FormComponentDecoder.Finish | src/capture/decode.rs:1120-1122 | after the last flush exactly the lossy decoding of the component has been written |
| FormDecode.FormComponentDecoder.Flush | src/capture/decode.rs:1124-1163 | a flush in the middle leaves at most three bytes, an unfinished character, and loses nothing |
| FormDecode.FormatForm | src/capture/decode.rs:1012-1163 | streaming equals splitting on ampersands, dropping empties, splitting at the first equals sign, percent-decoding and lossily decoding whole components (section 5.1 of the WHATWG URL Standard), cut at the last character that fits; limited exactly when something was cut; only a call that saw the flag has no result, and a write cut short by it never passes for one |
| ContentEncodings.CombinedLines | src/capture/decode.rs:469-477 | two lines of the field list what one line with a comma and any white space between them lists (section 5.3 of RFC 9110) |
| ContentEncodings.OneTidyLine | src/capture/decode.rs:469-477 | whatever the headers, one line holding the listed encodings lists the same: order kept, nothing empty, no identity, all in lower case |
| ContentEncodings.WrittenReads | src/capture/decode.rs:469-477 | writing a list of encodings into a header value and reading it back gives the list |
| ContentEncodings.KeptAreAll | src/capture/decode.rs:473-476 | listed are exactly the pieces that, trimmed and in lower case, are neither empty nor identity |
| ContentEncodings.TrimTakesSpace | src/capture/decode.rs:474-474 | trimming takes white space off both ends and nothing else |
| ContentEncodings.FieldByField | src/capture/decode.rs:469-477 | a field adds what it lists exactly if its name is content-encoding, letter by letter in either case |
| ContentDecode.ReadContentLimited | src/capture/decode.rs:773-812 | the result depends on the bytes and the final error alone, not on the pieces; an error behind the limit does not matter |
| ContentDecode.DecodeContentBytes | src/capture/decode.rs:609-685 | layers listed by the headers are undone from the last to the first, only the innermost may hit the limit, the outermost failing layer is the one reported, and the UTF-8 flag is exact |
| ContentDecode.NamesMeanCodings | src/capture/decode.rs:626-651 | each registered name is undone by its own coding, deflate by the zlib format or else raw, and other names not at all |
| ContentDecode.LayerByLayer | src/capture/decode.rs:625-665 | there are intermediate bodies, each the whole of what undoing one more layer gives, down to the result or to the first layer that is unknown, malformed or over the limit, which decides the error |
| ContentDecode.RoundTrip | src/capture/decode.rs:609-685 | encoders in listed order, then this decoder, give the body back when the body and all inner encodings fit (section 8.4 of RFC 9110), for any codecs whose decoders invert their encoders |
| ContentDecode.SentAndDecoded | src/capture/decode.rs:469-477 | the same from the header: a body sent with its encodings written into the field is decoded to itself |
| ContentDecode.WithinLimit | src/capture/decode.rs:609-685 | the output never exceeds the limit and fills it when it was cut |
| BodyCharge.BodyPrefixCharge | src/capture/model.rs:990-1015 | returns the largest prefix that fits with the overhead of every node it completes, and exactly that cost |
| BodyCharge.BestFits | src/capture/model.rs:990-1015 | the optimum fits, and nothing larger does |
| BodyCharge.CostAdds | src/capture/model.rs:990-1015 | keeping bytes in two steps costs what one step costs, nodes and remainder included |
| BodyCharge.NodeInterval | src/capture/model.rs:990-1015 | the sizes that complete a given number of nodes are exactly one interval, which justifies the search |
| Bodies.ChainUnique | src/capture/model.rs:166-171 | a chain of full chunks and a shorter rest are determined by the bytes they hold |
| Bodies.BodyCapture.AppendBytes | src/capture/model.rs:414-434 | the chain gains exactly the nodes that were charged, shares every older node, and holds the old bytes followed by the new |
| Bodies.BodyCapture.SealTrailing | src/capture/model.rs:436-441 | sealing moves the trailing block and leaves the chain alone |
| Bodies.BodyCapture.Snapshot | src/capture/model.rs:443-454 | a snapshot's content is what the body keeps at that moment |
| Bodies.Chunks | src/capture/model.rs:211-224 | the chunks, joined, are the content, and are the chain's chunks oldest first |
| Bodies.FlattenPreview | src/capture/model.rs:226-234 | flattening gives the content |
| BodyLaws.GrantsAdd | src/capture/model.rs:990-1015 | the grants, costs and limits of two appends add up to those of one |
| BodyLaws.TwoAppends | src/capture/model.rs:715-776 | two appends with an undisturbed budget are one append of both |
| BodyLaws.FragmentsDoNotMatter | src/capture/model.rs:715-776 | preview, counts, limit kind and charge depend on the bytes alone, for any split into appends |
| BodyLaws.SoundStep | src/capture/model.rs:689-808 | each step keeps the prefix law, only extends the stream and the preview, and never extends a limited or disabled preview |
| BodyLaws.LawsHold | src/capture/model.rs:689-808 | the same over every orderly life: an earlier snapshot is a prefix of every later one, across the seal |
| BodyLaws.PreviewIsPrefix | src/capture/model.rs:211-234 | from birth, the preview is exactly the retained prefix of what was observed, and all of it when no limit was set |
| BodyLaws.LateResponseBreaksTheLaw | src/capture/model.rs:689-713 | an ended one-byte response that is set afterwards and receives a byte shows a wrong preview |
| BodyLaws.ReopenExact | src/capture/model.rs:689-713 | setting the response late is harmless for every continuation if and only if the guard holds then |
| BodyEnds.EndIsNamed | src/capture/model.rs:689-808 | over every life: ended exactly if told to since it was last opened; complete, failed with that error, or cancelled as the first such end said; pending exactly before anything happened |
| BodyEnds.LimitNamesCause | src/capture/model.rs:731-758 | the memory limit exactly when what the body's own limit admits does not fit the budget with its nodes, the body's own exactly when it does and admits only a part, and then all that is admitted is kept; a limit once met stays |
| HeaderCapture.CaptureAgain | src/capture/publisher.rs:475-491 | capturing again with the limit shrunk to anything down to the measured total keeps the same headers |
| HeaderCapture.CapturedBytes | src/capture/publisher.rs:455-491 | captured headers weigh what was measured, within the limit; truncated exactly when one was dropped |
| HeaderCapture.CaptureIsFirstCome | src/capture/publisher.rs:475-491 | which fields are kept: each in turn exactly if it fits behind those kept before, with its own name and its value lossily decoded, in order |
| HeaderCapture.MeasureHeaders | src/capture/publisher.rs:455-473 | the measurement agrees with the capture in bytes and in the truncation flag |
| HeaderCapture.CaptureHeaders | src/capture/publisher.rs:475-491 | keeps each header that still fits, in order, skipping those that do not |
| HeaderCapture.MeasureRequest | src/capture/publisher.rs:423-447 | the measured size is the size of the request metadata that will be kept |
| HeaderCapture.CaptureRequest | src/capture/publisher.rs:389-409 | captured targets are valid prefixes within their limit and headers within theirs |
| Records.MemoryBudget.ReserveExact | src/capture/model.rs:920-941 | all or nothing |
| Records.MemoryBudget.ReserveBodyPrefix | src/capture/model.rs:943-964 | grants the optimum for the room there is and takes exactly its cost |
| Records.CaptureRecord.SetResponseAt | src/capture/model.rs:689-713 | accepted exactly once and never after removal; the response body is reopened, everything else is booked and announced once |
| Records.CaptureRecord.AppendBody | src/capture/model.rs:715-776 | the body becomes the specified value, record, lease and budget move by the same charge, a limit is reported only when new, a removed record keeps nothing, and exact accounting is kept |
| Records.CaptureRecord.FinishBody | src/capture/model.rs:778-808 | a body ends once, with its revision and announcement, and the accounts do not move |
| Records.HandleSetResponse | src/capture/publisher.rs:244-287 | between handle calls lease and record agree to the byte, for every budget and header limit; a refused response gives everything back |
| Publisher.CapturePublisher.TryStart | src/capture/publisher.rs:148-211 | admitted exactly when permit, memory and queue allow; a new record starts with exact accounts, and every refusal gives back permit and memory |
| ExchangePermit.PermitReturnsOnce | src/capture/publisher.rs:364-387 | over all interleavings the permit returns at most once, never before both sides have been marked, and by the time no mark is in flight exactly when both have |
| BudgetRaces.StepInv | src/capture/model.rs:689-989 | every atomic step of every thread, inside and outside record locks, keeps conservation, exact books and exact debts |
| BudgetRaces.BudgetConserved | src/capture/model.rs:857-989 | at every moment used bytes equal live leases plus amounts in flight, and never exceed the limit |
| BudgetRaces.AccountsExact | src/capture/model.rs:689-964 | at every moment of every interleaving a record's booked bytes are its metadata, bodies and chunk nodes, its lease holds exactly that plus what threads still owe it, and without debts the two are equal |
| BudgetRaces.ResponseSettles | src/capture/publisher.rs:244-287 | whatever was granted for a response, what is kept costs no more, the rest can be given back, and then either the record takes over exactly what is left or all of it can be given back |
| BudgetRaces.LeaseEndsOnce | src/capture/model.rs:896-900 | a lease is given back by the drop of its last holder, whole, and never again |
| BudgetRaces.EndedStaysEnded | src/capture/model.rs:896-900 | in every later run an ended lease stays exactly as it ended |
| BudgetRaces.AllReturned | src/capture/model.rs:857-989 | when no lease lives and no thread is in between, nothing is used |
| BudgetHolders.AliveExactly | src/capture/model.rs:857-900 | in every run a lease lives exactly as long as some thread uses it or some object it was handed to has not let go |
| BudgetHolders.ObjectStep | src/capture/model.rs:857-900 | an object holds a lease from the moment it is handed to it until it is dropped |
| BudgetHolders.LeftKeeps | src/capture/model.rs:715-776 | in every run a record that has left its store keeps and books exactly what it had, whatever appends were in flight |
| BudgetContention.ExactOutcome | src/capture/model.rs:920-941 | under any contention an exact reservation takes all it asked for at its outcome, or is refused, and refused only if at some moment since it began that much was not free |
| BudgetContention.UpToOutcome | src/capture/model.rs:966-984 | a reservation of up to so much gets exactly the lesser of that and what was free at one moment since it began |
| BudgetContention.PrefixOutcome | src/capture/model.rs:943-964 | a body reservation gets exactly the longest prefix whose cost was free at one moment since it began, behind the block being filled, and takes exactly that cost |
| BudgetContention.OnlyRacesRetry | src/capture/model.rs:920-984 | an attempt, unless it fails spuriously, fails only if the used bytes changed since the last look |
| BodyWork.Admission.TryQueue | src/capture/body_work.rs:90-123 | takes the machine's step; refuses for number exactly when eight jobs are charged, for size exactly when fewer are but their input and its own exceed what may wait, and counts each refusal |
| BodyWork.Admission.ReleaseQueued | src/capture/body_work.rs:125-136 | takes the machine's step: exactly one job and its input leave the counters, without saturating |
| BodyWork.AdmissionSafe | src/capture/body_work.rs:90-298 | queue counters equal the charged leases in number and bytes, active work stays within permits and permits within two, each charge is released once, and no saturating subtraction saturates |
| BodyWork.QueueDrains | src/capture/body_work.rs:252-264 | a queued job can always be dropped, and that releases exactly its own charge |
| ChangeFeed.Feed.Publish | src/capture/change.rs:95-121 | the change takes the next epoch and the ring stays the newest part of the log |
| ChangeFeed.Subscription.TryRead | src/capture/change.rs:143-166 | reading the ring is reading the infinite log: the change, or nothing, or a gap with the exact oldest epoch |
| ChangeFeed.ReadExactly | src/capture/change.rs:143-166 | the change of that epoch while fewer than the capacity came after it, a gap naming the oldest epoch still there once that many did, nothing while it is still to come |
| ChangeFeed.SubscriberSeesTheLog | src/capture/change.rs:83-166 | a subscriber gets later changes once each, in order, is caught up exactly when it has all of them, and after one gap sees only gaps |
| FeedWakeup.NoLostWakeup | src/capture/change.rs:83-138 | a parked subscriber with unread changes implies that each of their publishers has yet to signal, and any such signal wakes it |
| FeedWakeup.EpochCounts | src/capture/change.rs:95-121 | the epoch counts the changes, the version the signals, and unsignalled are exactly the changes nobody has signalled |
| FeedWakeup.SignalsGoBackwards | src/capture/change.rs:95-121 | late signals can leave the watch value behind the epoch with no signal outstanding |
| FeedWakeup.FlagIsUnseenMark | src/capture/publisher.rs:100-115 | in every run the flag is up exactly when some mark has not been looked at, and the waiter is served exactly when it looks and finds one |
| FeedWakeup.DirtyFlagIsSeen | src/capture/publisher.rs:100-115 | a sleeping waiter has seen every mark, unless a notification that will wake it and make it find the mark can be delivered |
| FeedLog.TableIsLast | src/capture/change.rs:11-26 | folding the feed remembers exactly the last change of each record that was not a removal |
| FeedLog.LogShape | src/capture/model.rs:666-687 | any feed that folds is, record by record, an admission, updates rising by one, and a removal at the last revision |
| FeedReplay.StepInv | src/capture/store.rs:40-141 | every atomic step of store operations and handles, in any interleaving, keeps the feed folding to what should be on it |
| FeedReplay.FeedReplaysStore | src/capture/store.rs:40-141 | whenever no store operation is running, folding all published changes gives the store's sequence-to-revision map |
| StoreMachine.RevisionCounts | src/capture/model.rs:689-808 | in every run a record's revision is the number of its changes, whatever the store does meanwhile |
| StoreMachine.DisabledStays | src/capture/model.rs:715-729 | a record that was removed from the store keeps nothing more |
| RetentionRuns.StepInv | src/capture/store.rs:40-141 | every atomic step keeps the cached bytes within what the stored records hold now, plus a record that has just left, however handles grow the records |
| RetentionRuns.RetentionHolds | src/capture/store.rs:121-141 | in every run: at rest the store is within its policy and the cached bytes are at most the true sum; while enforcing, evicting goes on exactly as long as the policy is exceeded, and then there is something to evict |
| CaptureStore.Store.EvictOldest | src/capture/store.rs:134-141 | the smallest sequence leaves, is announced as evicted, and the store stays valid |
| CaptureStore.Store.EnforceRetention | src/capture/store.rs:121-132 | evicts the k oldest for the least k that meets the policy, and there is always one |
| CaptureStore.Store.EmptyIsWithin | src/capture/store.rs:121-132 | an empty store has no cached bytes, so the loop's break is unreachable |
| CaptureStore.Store.Insert | src/capture/store.rs:40-53 | replaces a record of the same sequence, admits the new one, evicts minimally, announces all of it in order, and the feed still folds to the store |
| CaptureStore.Store.RemoveSequences | src/capture/store.rs:89-106 | exactly the wanted records go, oldest first, each announced once, with the count returned |
| CaptureStore.Store.Clear | src/capture/store.rs:108-119 | every record goes, oldest first, and the cached bytes are zero |
| CaptureStore.Store.NextAtOrBefore | src/capture/store.rs:58-63 | the newest record no newer than the cursor, or none exactly when there is none |
| CaptureStore.Store.HandleCall | src/capture/model.rs:689-808 | any handle call on any record keeps the feed folding to the store and the cached bytes below the true sum |
| HandleCalls.AppendTo | src/capture/publisher.rs:289-315 | store, feed and accounts stay right, the other body is untouched, a limit is reported exactly when it is new; a record that left the store counts what it sees and keeps none of it |
| HandleCalls.FinishOn | src/capture/publisher.rs:317-361 | completing, failing or cancelling keeps store, feed and accounts right; only the first end counts, the status then says which it was, nothing kept is lost and the other body is untouched |
| TreePaths.PathsAreUnique | src/app/request_tree.rs:274-284 | with distinct siblings a path names at most one node |
| TreePaths.NodeMatchesPath | src/app/request_tree.rs:408-420 | the upward comparison ends and succeeds exactly on the node's own path |
| TreePaths.Find | src/app/request_tree.rs:240-252 | finds the node of a path, or nothing exactly when no node has it |
| TreeIndex.PreorderIsPermutation | src/app/request_tree.rs:347-389 | the numbering visits every node exactly once, so positions are a bijection onto 0 to n-1 |
| TreeNumbering.NumberedInOrder | src/app/request_tree.rs:363-389 | of two nodes the one numbered first stands above the other, or belongs to an earlier sibling where their paths part |
| TreeIndex.IndexNodes | src/app/request_tree.rs:363-389 | one walk assigns each node its place in preorder and enters it under the hash of its path |
| TreeIndex.BucketHolds | src/app/request_tree.rs:40-55 | a bucket holds exactly the nodes whose path has its hash, collisions included |
| TreeIndex.SubtreeByPath | src/app/request_tree.rs:321-330 | walking down from a node meets exactly the nodes whose path extends its path, each once |
| TreeView.VisiblePaths | src/app/request_tree.rs:178-184 | the visible rows are the nodes all of whose proper path prefixes are opened, in tree order |
| TreeView.NothingBelowClosed | src/app/request_tree.rs:286-302 | skipping a closed branch skips no visible row |
| TreeGrowth.AttachBranch | src/app/request_tree.rs:113-147 | a new branch keeps siblings distinct, links consistent, branches ahead of captures, and the lookup table exact |
| TreeGrowth.AttachCapture | src/app/request_tree.rs:149-165 | so does a new capture |
| TreeGrowth.CaptureCounted | src/app/request_tree.rs:88-107 | once the capture is in, every node's count is its number of capture descendants |
| RequestNames.SelectedIsOwn | src/app/request_tree.rs:599-605 | selecting a request's own path reads its sequence number back |
| RequestNames.SelectedExact | src/app/request_tree.rs:599-605 | a path names a request exactly when it ends in the request prefix and a decimal number, within 64 bits, with a plus sign or zeros ahead or not |
| RequestNames.PathShape | src/app/request_tree.rs:607-623 | a request's path name by name: the origin, every segment but the last, and the request's own number |
| RequestNames.SharedParent | src/app/request_tree.rs:619-623 | two requests have one parent path exactly when they differ in nothing but the last segment |
| RequestNames.SelectedBranch | src/app/request_tree.rs:599-605 | selecting a branch names no request, whatever its segments are called |
| RequestNames.RequestIdentifiersDiffer | src/app/request_tree.rs:615-617 | different sequences have different identifiers |
| RequestTree.RequestTreeModel.FromRequests | src/app/request_tree.rs:75-176 | builds exactly the tree of these requests, node for node, and its index |
| TreeFold.GrowHolds | src/app/request_tree.rs:75-111 | the tree of some requests is well linked, branch children precede captures, counts are true, no branch is empty, and each request has one node under its own path |
| TreeFold.TitlesSpellTheUrl | src/app/request_tree.rs:75-111 | read from the root down, the titles above a request are its origin and each segment of its URL, or a slash where there is none |
| TreeFold.FoldersAreShared | src/app/request_tree.rs:75-111 | two requests hang under one node exactly when origin and all segments before the last agree |
| TreeOrder.SiblingOrder | src/app/request_tree.rs:113-165 | in the tree of some requests branches stand before captures, two branches stand as their first requests came in, and two captures as they came in |
| RequestTree.SameRequestsSameTree | src/app/request_tree.rs:75-111 | two trees of the same requests and hash agree in roots, nodes, positions and hash table |
| RequestTree.RequestTreeModel.LogicalPosition | src/app/request_tree.rs:194-200 | for any hash: position i exactly when the path is that of the i-th node in preorder |
| RequestTree.RequestTreeModel.Contains | src/app/request_tree.rs:186-188 | true exactly when some node has the path, as the plain search decides |
| RequestTree.RequestTreeModel.SequencesUnder | src/app/request_tree.rs:217-224 | exactly the requests whose own path extends the given one, each once, and as many as the node counts |
| RequestActions.App.EnsureTree | src/app/requests.rs:334-342 | afterwards the cached tree is the tree of the store's requests, oldest first, node for node and indexed |
| RequestActions.App.DeleteSelected | src/app/requests.rs:192-210 | removes exactly the requests whose path extends the selection, returns their number, and leaves a fresh tree |
| RequestActions.App.AddCapture | src/app/requests.rs:21-45 | the record is in the store in place of any of its sequence, but for the oldest that retention drops; the cache is never stale under the store's own revision, because the revision rises |
| SettingsMerge.CollectMissing | src/settings.rs:1038-1069 | collects exactly the entries the current value lacks at shared places, in previous order |
| SettingsMerge.BatchIsMerge | src/settings.rs:924-936 | every collected entry can be inserted, and all together give the recursive merge |
| SettingsMerge.MergeMeans | src/settings.rs:924-936 | read without order, that is the merge of two tables: union of keys, shared keys merged |
| SettingsPreserve.MissesAreReal | src/settings.rs:1038-1069 | each collected entry stands in the previous value at its place and is absent from the current one |
| SettingsPreserve.ExtendsInsert | src/settings.rs:1071-1106 | inserting a missing entry into any extension succeeds and stays an extension |
| SettingsPreserve.PreserveNoopEntries | src/settings.rs:919-963 | parses to the same settings, loses no entry, adds only entries that stood at the same place before, and follows the previous order; back are all missing entries if that parses right, and otherwise, each in turn, exactly those with which it does on top of those before |
| SettingsPreserve.AllIsMerge | src/settings.rs:924-936 | all missing entries put back make the recursive merge |
| SettingsPreserve.TakenAreThere | src/settings.rs:1071-1106 | every entry put back stays where it belongs, whatever is put back after it |
| SettingsPreserve.ChosenOnce | src/settings.rs:919-963 | which entries come back is determined |
| SettingsPreserve.NothingMoreFits | src/settings.rs:946-959 | where leaving an entry out never hurts, as many come back as can: nothing acceptable has all of them and one more |
| SettingsPreserve.HarmlessComeBack | src/settings.rs:946-959 | where each missing entry changes the settings or does not, whatever the others, exactly those that do not come back |
| SettingsOrder.Reorder | src/settings.rs:1108-1133 | changes no contents, and at every level shared keys come first in the previous order |
| MappingRules.CompiledRules.Insert | src/mapping.rs:211-218 | the table answers for the rules so far followed by the new one |
| MappingRules.CompiledRules.MatchTarget | src/mapping.rs:224-230 | the answer of a scan: last rule for the exact path, else last rule for the host |
| MappingEngine.CompileRules | src/mapping.rs:379-487 | compiles exactly the usable rules in order, and complains once of each other rule that is on |
| MappingEngine.LastIsLastUsable | src/mapping.rs:379-487 | among rules of one pattern the last usable one in the settings answers, with its own target and place |
| MappingEngine.ScanOverSettings | src/mapping.rs:210-231 | in the settings' terms: last usable rule for the exact path, else last for the host, else none |
| MappingEngine.SettingsDecide | src/mapping.rs:16-89 | settings to decision: the remote rule is the last usable one of the active preset for the path, else for the host; the local rule is picked alike for the URL the request was sent to; the trace names their places, and nothing is mapped without an active preset |
| MappingEngine.TraceAgrees | src/mapping.rs:39-89 | trace and decision have the same local path, and the effective URL is the mapped one whenever a remote rule matched |
| MappingEngine.ActivePresetIsNamed | src/mapping.rs:338-377 | the active preset is the first of the name that is asked for, in settings that are on |
| MappingEngine.PresetComplaints | src/mapping.rs:338-377 | a missing name and a missing preset are complained of exactly when they are |
| MappingEngine.CompileComplains | src/mapping.rs:379-487 | compiling complains of the active preset if there is cause, and else of each rule of its tables that is on and cannot be used, its source before its target, and of nothing else |
| MappingEngine.MappingEngine.Compile | src/mapping.rs:16-37 | only the active preset's switched-on tables are compiled, with its complaints |
| MappingEngine.MappingEngine.MapRequest | src/mapping.rs:39-64 | decides as scanning does, local rules under the remapped URL |
| MappingEngine.MappingEngine.TraceRequest | src/mapping.rs:66-89 | names the very rules the decision goes by and agrees on its outcome |
| MappingValidation.ValidateProxySettingsCapped | src/mapping.rs:516-592 | a prefix of the full list up to the limit, and the true total |
| MappingValidation.EveryFaultIsReported | src/mapping.rs:516-651 | the list holds exactly: each preset without a name, each that repeats one, each side of each rule that cannot be parsed, and the active preset if it is not there |
| MappingValidation.NoErrorsNothingSkipped | src/mapping.rs:516-651 | without errors, compiling complains of nothing and every rule that is on is usable |

## Left out

- Integers are unbounded naturals. Where the code checks for overflow it refuses as it does above a limit, limits are at most the largest integer, and revision and epoch counters are taken not to wrap.
- The record lock, the store and the feed's state lock are critical sections and appear as single steps; weak memory orderings of the atomics are not modelled.
- FormDecode.FormatForm: the flag is taken to stay set once it is set, as nothing in the code clears it.
- ContentDecode.DecodeContentBytes: takes the body flattened; the looks at the flag while flattening are not modelled, nor are gzip, deflate, brotli and zstd themselves.
- Decode service: its queueing, coalescing and cancellation of keys is not modelled; its byte counter is the all-or-nothing reservation of BudgetRaces.
- JSON formatting, binary summaries and the result text of the decode service are not modelled.
- Clocks, timings, metrics counters and log lines are left out of records and handles.
- Records.MemoryBudget.ReserveExact: the outcome without contention; the loads and compare-and-swap retries under contention are in BudgetContention.
- Records.MemoryBudget.ReserveBodyPrefix: the same.
- Records.HandleSetResponse: one handle call at a time; what other threads do between its reservations and its booking is in BudgetRaces and BudgetContention.
- Publisher.CapturePublisher.TryStart: one call at a time; competition for memory is in BudgetRaces and the way back of a permit in ExchangePermit; the queue is taken to be full or not.
- BudgetRaces: a response header list is settled at its size; which headers fit is HeaderCapture. Which bytes a body holds is BodyLaws; here only what they cost.
- CaptureStore.Store.Insert: a feed belongs to one store, and records reach it unbound. Store methods are atomic here; handles that change records inside one are in FeedReplay and RetentionRuns.
- CaptureStore.Store.EnforceRetention: one call at a time, as above; with records growing between two evictions it is RetentionRuns.RetentionHolds.
- CaptureStore.Store.RemoveSequences: one call at a time, as above.
- CaptureStore.Store.Clear: one call at a time, as above.
- CaptureChangeFeed's `run_if_epoch`: one comparison under the state lock.
- RequestActions.App.DeleteSelected: which rows stay open and which is selected afterwards is not modelled.
- RequestActions.App.AddCapture: expanding and selecting in the list is not modelled.
- RequestTree.RequestTreeModel.FromRequests: takes requests of distinct sequence numbers, as the store's ordered map holds them.
- RequestTree: labels shown beside the rows and the exported snapshot are not modelled. The URL of a request is split into origin and segments by a parameter; string interning is not modelled, and the node-count panic at 2^32 is not reached.
- SettingsMerge.CollectMissing: mapping keys are text; keys that are themselves mappings or sequences, and tagged values, are not modelled. Values are immutable, so inserting along a path returns the changed value instead of updating in place.
- SettingsOrder.Reorder: removing an entry moves the last one into its place, as the YAML library does; nothing is claimed about the order of entries the previous value lacks.
- SettingsPreserve.PreserveNoopEntries: reading and writing the file is not modelled; parsing is any function of what a value means.
- MappingEngine: URL parsing, home directory expansion and applying a target to a URL are parameters. Diagnostics carry the error text instead of the finished message.
- Control services, RPC, the terminal interface, certificate handling and the proxy's network code are not modelled.
