# FurTalk: a verified model of its stateful core

FurTalk is a self-hosted comment system. This project models the parts of it where several
operations share one piece of changing state, and proves what those parts are for. Each module
is one component; objects that change in place are classes with `modifies` clauses, queries and
pure code are functions, and concurrent code is a system of atomic steps.

* **The in-process cache** (`CacheSpec`, `CacheMemory`, `CacheRuns`, `CacheReplay`). A bounded map with lazy
  expiry, and beside it an index from namespace names to member maps. `CacheMemory.Memory` keeps
  both in mutable fields; the member maps are shared objects, so the member map that an admission
  holds on to can be unhooked by an eviction and hooked in again, as in the program. Every method
  is equated with a step function on values. `CacheRuns` then proves, for every run of calls under
  a monotone clock, that the store with its eviction and index is indistinguishable from a log
  that has neither, and that the index agrees with the items in every reachable state;
  `CacheReplay` runs the calls on the mutable store and lands in exactly those runs. The
  assumptions are those of the program's callers: no full key belongs to two namespaces, each
  name has one limit, and a plain `Set` stays out of namespaces. `PlainWriteIntoNamespace` says
  exactly which plain `Set` calls leave the index right without the last one.
* **The public comment tree** (`CommentTable`, `VisibleTree`, `Pagination`, `PublicPages`,
  `Moderation`, `CommentWrites`, `CommentRepo`). The recursive query is modelled level by level,
  duplicates included, and shown to stop and to give every comment one row that carries its
  nearest and topmost published ancestor. Pages are cut by the cursor predicates from listings in
  the program's own orders, and walks over pages are followed while rows change underneath.
  Hiding a comment, and deleting comments or users under ON DELETE CASCADE, are followed through
  to the tree that readers see afterwards.
* **The Artalk importer** (`ImportSource`, `ImportPrepare`, `ImportRows`, `ImportWrite`). The
  depth-first sort with its cycle test, and the second pass that reads parents written before. An
  import into a well-formed table leaves the forest that the public tree assumes. Larger promises
  are quantified over their aspects (rows, tables, counters), so that a proof can look at one of
  them at a time; `ImportedIs` spells the whole out.
* **The job supervisor and the event bus** (`JobSupervisor`, `EventBus`). Every goroutine's
  atomic steps, in every interleaving.
* **Message texts** (`NotifierText`). Truncation in three units, mention breaking, composition
  and Markdown escaping. Sizes follow section 3 of RFC 3629 and section 2.1 of RFC 2781.
* **Provider secrets** (`CryptoEnvelope`, `ProviderSecrets`). The envelope around an abstract
  authenticated cipher, and the transactional conversion from version 1 to version 2.
* **Client addresses** (`ClientIp`). Choosing the client among forwarded hops, and the privacy
  reduction of addresses.

Methods are proved equal to functions of the state before them. What such a function is worth is
said without it, in literals, columns and quantifiers, by the lemmas whose names end in `Mean`,
`Means` or `LastWrite` and by inverses and reference definitions.

`Prelude` holds `Option`, `Result` and bytes. `dafny verify dfyconfig.toml` checks everything.

## How far the documentation holds

Four expectations that a reader of the source may form are wider than the code; each is replaced
by the exact condition.

* The result of `truncateBytes` is within its maximum if and only if the text was, or the maximum
  is at least 3 and no prefix within it comes closer to it than 3 bytes
  (`NotifierText.BytesFitExactly`): the ellipsis is added after the whole maximum has been filled.
  "aa" cut to 1 byte takes 4. The Bark channel passes what a long page URL leaves of 2500 bytes,
  which may be negative; the statement covers that.
* A composed message is within its maximum if and only if the maximum is at least 1, or 0 without
  a page URL (`NotifierText.ComposedFits`): a truncation to zero still writes one ellipsis. The
  program itself composes with fixed maxima of 4000 and more, which all fit.
* Coarsening an address twice is the same as once if and only if the mode is not `none`
  (`ClientIp.CoarsenTwice`): in that mode the first result is nil, which the second call refuses.
* Unescaping an escaped Discord text gives back the text if and only if it was valid UTF-8
  (`NotifierText.UnescapeInvertsEscape`): writing a rune replaces a broken byte by U+FFFD.

## Model

| member | source | states |
|---|---|---|
| CacheMemory.Memory.constructor | internal/platform/cache/memory.go:33-43 | A new store is empty; a limit that is not positive becomes 10000. |
| CacheMemory.Memory.Get | internal/platform/cache/memory.go:46-59 | Answers and changes the store as the step function says: a dead or missing key is dropped together with its memberships in every namespace. |
| CacheMemory.Memory.GetRawJSON | internal/platform/cache/memory.go:62-80 | The same for raw reads, where only a key that is stored is dropped. |
| CacheMemory.Memory.Set | internal/platform/cache/memory.go:83-102 | Evicts only for a new key in a full store, refuses only if that frees no slot, and otherwise writes exactly one item. |
| CacheMemory.Memory.Delete | internal/platform/cache/memory.go:105-111 | Drops the key and every membership of it. |
| CacheMemory.Memory.AtomicConsume | internal/platform/cache/memory.go:114-133 | Removes the key whatever it held; hands out its value only when it was live. |
| CacheMemory.Memory.EvictExpired | internal/platform/cache/memory.go:136-143 | In any visiting order exactly the expired keys leave the items and every member map, and member maps emptied by that are unhooked. |
| CacheMemory.Memory.CompareAndSwapJSON | internal/platform/cache/memory.go:146-171 | Replaces the bytes only when they are live and equal to the expected ones, keeping the expiry; an invalid replacement is an error only after the match. |
| CacheMemory.Memory.CompareAndDeleteJSON | internal/platform/cache/memory.go:174-197 | Removes the key only when live and equal to the expected bytes. |
| CacheMemory.Memory.RemoveNamespaceMembershipLocked | internal/platform/cache/namespace.go:455-462 | In any visiting order every member map loses the key, and exactly the empty ones are unhooked. |
| CacheMemory.Memory.Sweep | internal/platform/cache/namespace.go:302-310 | The members left are exactly those unexpired whose item is live; the items lost are exactly the expired members' items. |
| CacheMemory.Memory.OpenNamespace | internal/platform/cache/namespace.go:297-310 | Finds or hooks in the member map, then sweeps it; no other namespace's map is replaced. |
| CacheMemory.Memory.MakeRoom | internal/platform/cache/namespace.go:335-347 | After an eviction the member map in hand is the one attached under its name, with the members it had, whenever a slot was found. |
| CacheMemory.Memory.FindSlot | internal/platform/cache/namespace.go:311-347 | A live key passes if tracked or if the namespace has room; any other key is cleared and needs room in the namespace and then in the store. |
| CacheMemory.Memory.NamespaceSet | internal/platform/cache/namespace.go:288-352 | The whole admission on the nested mutable maps equals its step on values, including what a refused call leaves behind. |
| CacheMemory.Memory.NamespaceDelete | internal/platform/cache/namespace.go:355-367 | Drops the item and this namespace's membership, and unhooks the map if that empties it. |
| CacheMemory.Memory.NamespaceConsume | internal/platform/cache/namespace.go:370-391 | As the plain consume, with one namespace's membership. |
| CacheMemory.Memory.NamespaceCompareAndSwapJSON | internal/platform/cache/namespace.go:394-420 | As the plain swap, except that an invalid replacement is refused before the key is looked at. |
| CacheMemory.Memory.NamespaceCompareAndDeleteJSON | internal/platform/cache/namespace.go:423-452 | As the plain compare-and-delete, with the membership. |
| CacheRuns.SweptIsLive | internal/platform/cache/namespace.go:302-310 | After the sweep a namespace's members are exactly the live keys under its prefix, and nothing visible changed. |
| CacheRuns.AdmitIsExact | internal/platform/cache/namespace.go:329-347 | A dead key gets a slot if and only if neither the namespace nor the store is full of live entries, with both limits kept. |
| CacheRuns.WrittenKeepsInv | internal/platform/cache/namespace.go:348-351 | Writing a namespaced key keeps index and items in agreement and within both limits, given the room. |
| CacheRuns.DropOwnKeepsInv | internal/platform/cache/namespace.go:355-390 | Removing a namespace's own keys from the items and from its map alone keeps the index right, since no other namespace can hold them. |
| CacheRuns.StepAgrees | internal/platform/cache/memory.go:46-197 | From agreeing states every call of either kind answers as the eviction-free log does, leaves the same live entries and keeps the index invariant. |
| CacheRuns.RefusedExactlyWhenFull | internal/platform/cache/namespace.go:311-347 | A write is refused with ErrCapacity if and only if its key is not live and the live entries already fill the store, or for a namespaced write its namespace. |
| CacheRuns.RunRefinesLog | internal/platform/cache/memory.go:46-197 | Every run of the step functions gives the log's answers and its visible entries from then on; items and member maps agree in key and expiry, and no limit is exceeded. |
| CacheReplay.Call | internal/platform/cache/memory.go:46-197 | One call of any kind on the mutable store is one step, and leaves only member maps that were there or are new, so that another call can follow. |
| CacheReplay.Replay | internal/platform/cache/memory.go:33-197 | Any scheduled list of calls on a new mutable store ends in the state and gives the answers of that run, hence exactly the log's answers; its index and limits hold and its visible entries are the log's. |
| CacheRuns.OtherKeysUntouched | internal/platform/cache/memory.go:83-143 | A call on one key changes no other live key's value or expiry, evictions included. |
| CacheRuns.PlainWriteIntoNamespace | internal/platform/cache/memory.go:83-102 | A plain Set aimed at a namespaced key keeps the index and the limits right if and only if it overwrites an item without moving its expiry, or is refused because live entries fill the store. |
| CacheRuns.LogIsLastWrite | internal/platform/cache/memory.go:46-197 | What is stored under a key can be read off the calls and their answers alone. |
| CacheRuns.ReadsLastWrite | internal/platform/cache/memory.go:46-133 | In every run a Get or a consume, plain or namespaced, answers with what decoding makes of the last successful write to its key while that is unexpired, with a decode error if it does not decode, and with not found otherwise. |
| CacheRuns.RawReadsLastWrite | internal/platform/cache/memory.go:62-80 | In every run a raw read answers with the very bytes of the last successful write while it is unexpired, and with not found otherwise. |
| CacheRuns.ComparesLastWrite | internal/platform/cache/namespace.go:394-452 | In every run a swap or compare-and-delete succeeds if and only if the expected bytes are those of the unexpired last write; an invalid replacement is an error before the comparison through a namespace and after a match otherwise. |
| CacheRuns.StoredIsRead | internal/platform/cache/memory.go:62-102 | A value stored by a call that answered without error is read back by the next call on its key, byte for byte, before the time to live is over and not from then on. |
| CacheRuns.RemovedIsGone | internal/platform/cache/memory.go:105-197 | What was deleted, consumed or taken by comparison is not found by the next call on its key. |
| CacheRuns.OthersWriteNothing | internal/platform/cache/memory.go:46-197 | Reads that remove nothing, and refused writes, swaps and comparisons, leave the last write standing. |
| CacheRuns.CancelledAnswers | internal/platform/cache/memory.go:46-197 | A cancelled context is the answer of the calls that look at it, and the key keeps its last write. |
| CacheRuns.IndexAgrees | internal/platform/cache/namespace.go:288-452 | After every run a namespace lists exactly the stored keys under its prefix with their expiries, within its quota, and the store is within its limit. |
| CacheRuns.FullMeans | internal/platform/cache/namespace.go:311-347 | The store and a namespace count as full exactly by the number of their unexpired entries. |
| CacheRuns.SwapSeesLastWrite | internal/platform/cache/memory.go:146-171 | In every run a successful swap expected exactly the bytes that the last successful write to the key left live, and keeps the expiry. |
| CacheRuns.TakenOnce | internal/platform/cache/memory.go:114-197 | Between two successful removals of one key's value, by consume or compare-and-delete of either kind, somebody stored a new one. |
| CommentTable.RootedOnce | internal/repository/comment.go:165-185 | A comment hangs under a root at one depth only, so a parent chain cannot loop back. |
| CommentTable.RootedIsChain | internal/repository/comment.go:165-185 | Being rooted at depth n is having a chain of n links, each to the parent in the same site and thread, that ends at a comment without parent; the ancestors are that chain. |
| CommentTable.ChainFits | internal/repository/comment.go:165-185 | A chain of n links visits n + 1 different comments, so it is shorter than the table is large. |
| VisibleTree.LevelHolds | internal/repository/comment.go:176-185 | Round n of the recursion holds each comment of the thread n links below a root exactly once and no other comment, counting duplicates of the join. |
| VisibleTree.LevelIsShallow | internal/repository/comment.go:165-185 | A round that yields rows is earlier than the number of comments, so the recursion terminates on every table, cyclic links included. |
| VisibleTree.CarriedIsNearestAndTopmost | internal/repository/comment.go:181-182 | The carried columns are the first and the last published comment among the proper ancestors, NULL exactly when there is none. |
| VisibleTree.VisibleIsTheThread | internal/repository/comment.go:165-185 | For every table the query yields each rooted comment of the thread exactly once, nothing else, with nearest and topmost published proper ancestor. |
| VisibleTree.VisibleRows | internal/repository/comment.go:165-185 | Every row of the query is a comment of the asked site and thread, and the parent and root that it carries are published comments there. |
| VisibleTree.ForestIsVisible | internal/repository/comment.go:165-185 | In a forest every comment of the asked site and thread has exactly one row, and no other comment has any. |
| Pagination.CursorIsStrictlyAfter | internal/repository/comment.go:239-258 | For each order the cursor predicate built from a row holds for a row if and only if that row is strictly later in the ORDER BY columns. |
| Pagination.OrderMeans | internal/repository/comment_public_pages.go:49-66 | The orders column by column: pinned rows first except among replies, then likes for the hot order, then creation time and id in the order's direction. |
| Pagination.PageSize | internal/repository/comment.go:260-264 | A page has all rows after its cursor, but no more than the limit, or 50 when that is not positive. |
| Pagination.PageOrder | internal/repository/comment.go:239-264 | A page holds rows of the snapshot after the cursor's row, each before the next in the ORDER BY. |
| Pagination.PageIsFirst | internal/repository/comment.go:239-264 | A row of the snapshot is on the page if and only if it is after the cursor's row and not after the last row of the page. |
| Pagination.ListingUnique | internal/repository/comment_public_pages.go:49-66 | A set of rows has one ordering only, so ties cannot make pages ambiguous. |
| Pagination.PageStep | internal/repository/comment_public_pages.go:49-73 | A row after the cursor is on the page or after the last row of a full page, never both and never neither. |
| Pagination.StableRowOnce | internal/repository/comment.go:233-264 | A row whose sort columns and membership stay is returned exactly once by any walk ending on a short page, whatever happens to other rows between reads. |
| Pagination.StableRowUnchanged | internal/repository/comment.go:233-264 | No page of such a walk shows that row's id with other sort columns. |
| Pagination.FixedWalkIsListing | internal/repository/comment_public_pages.go:44-73 | On a fixed snapshot the pages joined are the whole sorted listing after the cursor, for every limit including non-positive ones, and the walk ends. |
| PublicPages.ListedIsPublished | internal/repository/comment.go:217-270 | In a forest the listing holds a comment if and only if it is a published comment of the thread. |
| PublicPages.ListedRowsMean | internal/repository/comment.go:217-233 | Every listed row shows the columns of a published comment of the asked site and thread, and its likes. |
| PublicPages.RootsMean | internal/repository/comment_public_pages.go:12-13 | A comment is listed if and only if it is published, and among the roots if and only if no comment on its parent chain is published as well. |
| PublicPages.RepliesMean | internal/repository/comment_public_pages.go:35-40 | A published comment is a reply of r if and only if r is the topmost published comment on its parent chain. |
| PublicPages.VisibleRootMeans | internal/repository/comment_public_pages.go:84-90 | A visible root is a published comment of the asked site and thread without published ancestor. |
| PublicPages.RootOfRow | internal/repository/comment_public_pages.go:12-13 | A row has a visible parent if and only if it has a visible root, and that root is another published row with neither. |
| PublicPages.RootsAndRepliesPartition | internal/repository/comment_public_pages.go:12-40 | Every published comment is a root and nobody's reply, or a reply in the set of exactly one comment, which is a root. |
| PublicPages.HasRepliesMeansFirstPage | internal/repository/comment_public_pages.go:35-40 | The flag is set if and only if the first page of replies has a row, whatever the limit. |
| PublicPages.TopmostIsRoot | internal/repository/comment.go:181-182 | The topmost published ancestor, in the same thread, is itself carried without visible parent and root. |
| PublicPages.RequestedRootIs | internal/repository/comment_public_pages.go:84-90 | The root subquery has one row if the id is a visible root and none otherwise. |
| PublicPages.ListPublicReplies | internal/repository/comment_public_pages.go:82-123 | Not found if and only if the id is not a visible root of the thread; otherwise exactly the reply page, of as many rows as are left but no more than the limit, or 50, also when that is empty and the join leaves one row. |
| Moderation.CarriedDependsOnPublished | internal/repository/comment.go:176-185 | Visible parent and root depend only on the links and on which comments are published. |
| Moderation.HidingContracts | internal/repository/comment.go:176-185 | Hiding h moves exactly its visible children to its own visible parent; roots other than h stay, and under h they become the visible child on the way down. |
| Moderation.HidingContractsRows | internal/repository/comment.go:475-492 | Every row of the query before the status update has one after it that follows from it in this way. |
| Moderation.HidingAddsNoRows | internal/repository/comment.go:475-492 | Every row after the update follows from one before: no row is added and none lost. |
| Moderation.PublishingUndoesHiding | internal/repository/comment.go:475-492 | Publishing the comment again brings back exactly the rows there were. |
| CommentWrites.CascadeIsExact | migrations/sqlite/20260816021550_initial.sql:32 | A delete cascades to nothing but its targets if and only if no other row refers to one of them. |
| CommentWrites.RefersToMeans | migrations/sqlite/20260816021550_initial.sql:32 | A comment refers to another if that is its parent or its root and in the same site. |
| CommentWrites.CascadeIsLeast | migrations/sqlite/20260816021550_initial.sql:32 | What a delete takes along is the least set around its targets that holds, with a comment, every comment of the site whose parent or root it is. |
| CommentWrites.DeleteKeepsReferences | migrations/sqlite/20260816021550_initial.sql:32 | So a delete, detached or not, leaves no dangling reference. |
| CommentWrites.RowsAfterDetaching | internal/repository/comment.go:582-595 | Detaching clears in every row the parent and the root that name a target of the row's site, and nothing else. |
| CommentWrites.RowsAfterDelete | internal/repository/comment.go:598-622 | A delete of detached targets leaves the other rows, with the references to targets cleared and nothing else changed. |
| CommentWrites.RowsAfterUserDetaching | internal/repository/comment.go:661-694 | Detaching users clears in other people's rows the parent and the root that the users wrote; their own rows stay as they are. |
| CommentWrites.DetachThenDelete | internal/repository/comment.go:582-622 | After the two detaching updates the delete cascades to nothing, and leaves the survivors with exactly the references to targets cleared. |
| CommentWrites.UserDetachThenDelete | internal/repository/comment.go:661-694 | The same when the targets are all comments of some users, whose references among themselves are not cleared first. |
| CommentWrites.RemovedKeepsReferences | internal/repository/comment.go:566-622 | After a delete every parent and root reference of a survivor exists in its site, so the next delete can rely on the foreign keys again. |
| CommentWrites.OrderDoesNotMatter | internal/repository/comment.go:566-622 | Detaching and hard-deleting distinct targets one after the other, cascades included and in any order, gives the table that detaching and deleting them at once gives. |
| CommentWrites.UserOrderDoesNotMatter | internal/repository/comment.go:661-694 | The same for users deleted one after the other, each with its own detaching and its comments cascaded. |
| CommentWrites.SurvivorIsRooted | internal/repository/comment.go:582-595 | A survivor keeps its chain up to its old root, or up to the first deleted ancestor, whose child becomes its root. |
| CommentWrites.VisibleAfterDelete | internal/repository/comment.go:176-185 | After a delete a survivor's visible parent and root are the nearest and topmost published comments on the part of its chain that is left. |
| CommentWrites.RemovedIsForest | internal/repository/comment.go:582-622 | A forest stays a forest without dangling references, so the query still reaches every survivor once. |
| CommentRepo.Repo.UpdateStatus | internal/repository/comment.go:475-492 | Changes four columns of one row or reports not found; crossing the published status is exactly a hiding or its inverse. |
| CommentRepo.Repo.DetachCommentChildrenMany | internal/repository/comment.go:582-595 | Two column updates whose joint effect is the detached table; no targets, no change. |
| CommentRepo.Repo.DetachCommentChildren | internal/repository/comment.go:566-579 | The single-target form is the set form for one target. |
| CommentRepo.Repo.HardDeleteMany | internal/repository/comment.go:612-622 | Removes the addressed rows and their cascade; reports the number addressed. |
| CommentRepo.Repo.HardDelete | internal/repository/comment.go:598-609 | Removes one row and its cascade, or reports not found and changes nothing. |
| CommentRepo.Repo.DetachAndDelete | internal/service/comment/batch.go:105-113 | The callers' sequence leaves the table without the targets, with references to them cleared, and keeps a forest a forest. |
| CommentRepo.Repo.DetachUserCommentChildrenMany | internal/repository/comment.go:677-694 | Two column updates that clear other people's references to the users' comments. |
| CommentRepo.Repo.DetachAndDeleteUsers | internal/repository/comment.go:661-694 | With the users' comments cascaded away nobody else's comment is lost and a forest stays a forest. |
| ImportSource.AnchoredOnce | tools/migrate-artalk/importer.go:221-253 | A source record has one depth only. |
| ImportSource.AnchoredIsLine | tools/migrate-artalk/importer.go:221-253 | Having depth n is having a chain of n existing parents, all on one site and page, that ends at a record without parent. |
| ImportSource.ImportableIsLine | tools/migrate-artalk/importer.go:221-253 | A record is importable if and only if such a chain starts at it. |
| ImportSource.ImportableStep | tools/migrate-artalk/importer.go:232-243 | A record's chain ends at a root if and only if it is a root, or its parent exists on the same site and page and has such a chain. |
| ImportSource.CycleIsNotImportable | tools/migrate-artalk/importer.go:226-231 | A record met again while its own chain is being visited has no chain that ends. |
| ImportSource.SourcesHold | tools/migrate-artalk/importer.go:167-219 | The sources are exactly the rows that passed, each under its id, with what the row made of it. |
| ImportSource.SourceMeans | tools/migrate-artalk/importer.go:167-219 | The sources of a sound batch are its records, column by column: a parent reference is kept as it is, except that an empty one, "0" and null in any case mean no parent; the site is the name, else the URLs, else "Artalk". |
| ImportPrepare.Sorter.Visit | tools/migrate-artalk/importer.go:224-247 | Terminates on every parent map; succeeds if and only if the chain ends at a root, and then the visited comment is in the output behind its parent; an error names a record on a cycle, without its parent, or with a parent elsewhere. |
| ImportPrepare.Sorter.VisitAll | tools/migrate-artalk/importer.go:248-252 | Succeeds if and only if every comment's chain ends at a root; afterwards all are in the output; an error names a record at fault. |
| ImportPrepare.CheckRows | tools/migrate-artalk/importer.go:167-219 | Passes if and only if every id is neither empty nor "0", every page key non-empty, all times and flags parsed and no id repeated; then each row has its object under its id, in input order; otherwise it names the first bad row. |
| ImportPrepare.SortAll | tools/migrate-artalk/importer.go:221-253 | Succeeds if and only if every chain ends at a root; the output is a permutation of the input with every parent first. |
| ImportPrepare.Prepare | tools/migrate-artalk/importer.go:157-254 | Succeeds if and only if there are records, the row checks pass and every chain ends at a root; otherwise the error says which of these fails, and where. |
| ImportPrepare.DistinctPermutation | tools/migrate-artalk/importer.go:221-253 | Two lists without repeats and with the same members are permutations of each other. |
| ImportPrepare.SortedIsBatch | tools/migrate-artalk/importer.go:221-253 | What the sort leaves is a complete batch: every record once, parents first. |
| ImportRows.ExtendsStep | tools/migrate-artalk/importer.go:304-334 | Writing one more comment changes no earlier row and needs only ids assigned before. |
| ImportRows.NewIsRooted | tools/migrate-artalk/importer.go:280-292 | An imported comment hangs, inside its site and thread, at a depth equal to its source chain's length, and its stored chain ends at the image of the source chain's top. |
| ImportRows.NewRowMeans | tools/migrate-artalk/importer.go:276-330 | A new row, column by column, given its reply chain: status and publication date by the pending flag, its own creation date, not pinned or deleted, depth, parent and root those of the chain. |
| ImportRows.AddsMeans | tools/migrate-artalk/importer.go:257-338 | The table holds what it held before, unchanged, and one new comment of its own for each placed record. |
| ImportRows.ImportKeepsForest | tools/migrate-artalk/importer.go:257-338 | Importing into a well-formed table gives the forest that the public tree assumes. |
| ImportWrite.Importer.UserFor | tools/migrate-artalk/importer.go:500-539 | Finds the known user or creates one under an id that no user has, counted as one or the other. |
| ImportWrite.Importer.ResolveUsers | tools/migrate-artalk/importer.go:450-540 | Adds exactly one user per author key that was missing, keeps the known ones, leaves no two users with one id, and counts both. |
| ImportWrite.Importer.SiteFor | tools/migrate-artalk/importer.go:388-427 | Reuses the site if exactly one has the canonical address, creates one if none has, refuses if several have, and refuses a site that has comments. |
| ImportWrite.Importer.FindOrCreateSites | tools/migrate-artalk/importer.go:388-446 | One empty site with the right address per key, old sites staying; new ones are those counted as created; apart from failing writes it succeeds if and only if every key was ready on the tables as they were at the start. |
| ImportWrite.Importer.ResolveSites | tools/migrate-artalk/importer.go:341-447 | Every site key gets such a site, or all get the explicit target; apart from failing writes it succeeds if and only if the target exists and is empty, or every key is ready. |
| ImportWrite.Importer.ThreadFor | tools/migrate-artalk/importer.go:569-591 | Finds the known thread or creates one under an id that no thread has, counted as one or the other. |
| ImportWrite.Importer.ResolveThreads | tools/migrate-artalk/importer.go:552-592 | Adds exactly one thread per missing pair of target site and page, keeps the known ones, leaves no two threads with one id, and counts both. |
| ImportWrite.GrownIs | tools/migrate-artalk/importer.go:450-592 | A resolved table holds the old entries and one per key; old ids are kept and no two entries share an id. |
| ImportWrite.GrownNumbered | tools/migrate-artalk/importer.go:450-592 | A table whose ids are all different and below the next one stays so when it is resolved. |
| ImportWrite.Importer.ReplyLinks | tools/migrate-artalk/importer.go:280-292 | Parent, root and depth read off the parent's object are those of the source chain. |
| ImportWrite.Importer.WriteComment | tools/migrate-artalk/importer.go:276-336 | Adds the one row that the source chain prescribes (`ImportedRow` spells it out), and counts it as published or pending. |
| ImportWrite.Importer.WriteComments | tools/migrate-artalk/importer.go:276-337 | After the loop every comment has its row, and every parent's target id was assigned before it was read. |
| ImportWrite.Importer.ImportPrepared | tools/migrate-artalk/importer.go:257-338 | A finished pass has imported the batch; apart from failing writes it finishes if and only if the sites can be found; what it leaves is fit for another import. |
| ImportWrite.Importer.ImportedIs | tools/migrate-artalk/importer.go:257-338 | What "imported" means: old rows untouched, one row per record as its source chain prescribes, users, threads and sites the old ones and one per missing key, imported = published + pending with pending the pending sources, and exact created and reused counters. |
| ImportWrite.Importer.ImportedRow | tools/migrate-artalk/importer.go:276-330 | The row of every record after an import: pending if the record was, else published at its own date; its own creation date; not pinned and not deleted; and with the record's reply chain its depth, the new id of its parent and, as root, the new id of the chain's end, or neither. |
| ImportWrite.Importer.CommentsMean | tools/migrate-artalk/importer.go:257-338 | After an import there are the old comments, unchanged, and one new comment for each record; imported, pending and published are the numbers of records, of pending and of other records. |
| ImportWrite.Importer.PeopleAndPagesMean | tools/migrate-artalk/importer.go:450-592 | After an import users and threads are the old ones, unchanged, and one for each missing author key and each missing pair of site and page; created and reused are those numbers. |
| ImportWrite.Importer.SitesReadyMeans | tools/migrate-artalk/importer.go:341-427 | The sites can be found if and only if the explicit target exists and no comment is on it or, without one, every site key has an address that no two sites have and whose site has no comments. |
| ImportWrite.Importer.InTransaction | tools/migrate-artalk/importer.go:131-150 | A failed or dry run leaves every table as it was; a committed one leaves the tables that its counters tell of. |
| ImportWrite.Importer.Import | tools/migrate-artalk/importer.go:124-154 | Apart from failing writes it succeeds if and only if options, records, reply chains and sites are sound; its report, also that of a dry run, is that of a complete import; committed tables are the imported ones, all others unchanged; another import can follow. |
| ImportWrite.TalliedIs | tools/migrate-artalk/importer.go:450-592 | Reused keys are exactly those known before, created ones exactly the others; together they are the distinct keys. |
| ImportWrite.AllRecordsCounted | tools/migrate-artalk/importer.go:257-338 | The batch has as many comments as the input has records. |
| ImportWrite.Importer.RowsReferToTables | tools/migrate-artalk/importer.go:276-325 | After a committed import every imported row names the explicit target, or an existing site with the canonical address of its key, the user stored under its author key and the thread stored under that site and its page. |
| ImportWrite.Importer.TargetSitesHoldTheImport | tools/migrate-artalk/importer.go:341-368 | After a committed import a comment is on one of the target sites if and only if it is an imported one. |
| EventBus.StepKeepsInv | internal/platform/eventbus/eventbus.go:40-72 | Each atomic step of any goroutine keeps the capacity and the order of accepted events. |
| EventBus.EveryRunIsFifo | internal/platform/eventbus/eventbus.go:31-67 | In every interleaving the queue is within its capacity, 1024 for one that is not positive, and the events for which Publish answered true are the handled ones, the one in progress and the queued ones, in order. |
| EventBus.AcceptedIsPublished | internal/platform/eventbus/eventbus.go:40-53 | In every run the accepted events are those of the answers true, in the order of the answers. |
| EventBus.AnswerMeans | internal/platform/eventbus/eventbus.go:40-67 | True means that the event was put at the end of a queue with room; false that the queue was left alone, the bus being closed or the queue full; a receive takes the first event. |
| EventBus.EventStays | internal/platform/eventbus/eventbus.go:40-53 | A publisher enqueues the event it was called with, whatever runs in between. |
| EventBus.LatePublishIsDropped | internal/platform/eventbus/eventbus.go:40-53 | A Publish that starts after Close never enqueues, whatever runs in between. |
| JobSupervisor.StepKeepsInv | internal/app/lifecycle_runtime.go:175-237 | Each atomic step of jobs, waiter, watcher, Start, Stop and the HTTP server keeps the accounts of channels, wait group and flags. |
| JobSupervisor.ReachableInv | internal/app/lifecycle_runtime.go:175-237 | So they hold after every interleaving. |
| JobSupervisor.NoSendBlocks | internal/app/lifecycle_runtime.go:181-199 | A job about to send on the error channel always finds room. |
| JobSupervisor.OneShutdown | internal/app/lifecycle_runtime.go:60-68 | The supervisor calls Fatal at most once and shutdown is requested at most once, also when the HTTP server fails too. |
| JobSupervisor.StopSilencesWatcher | internal/app/lifecycle_runtime.go:208-230 | Once Stop has stored its flag and the watcher has not looked at it before, the supervisor calls Fatal no more, whatever the jobs do. |
| JobSupervisor.CancelledJobSendsNothing | internal/app/lifecycle_runtime.go:187-200 | A job that looks at the context only after it was cancelled never sends an error. |
| JobSupervisor.StopMeansFinished | internal/app/lifecycle_runtime.go:225-237 | When Stop returns nil every job goroutine has finished. |
| JobSupervisor.ReturnedJobIsFatal | internal/app/lifecycle_runtime.go:187-220 | Without a Stop, once nothing is left to do a job that has returned has led to Fatal and to the cancelled context. |
| NotifierText.TruncateRunesTruncates | internal/platform/notifier/text.go:9-17 | Truncation by runes is the general truncation with every unit costing one. |
| NotifierText.TruncateBytes | internal/platform/notifier/text.go:20-38 | Cuts exactly when the stored bytes exceed the maximum; the result is the prefix filling the whole maximum and an ellipsis. |
| NotifierText.CutBytesOverrun | internal/platform/notifier/text.go:24-37 | For every budget, negative ones included, a cut text has the size of the longest prefix that fits and 3 bytes more. |
| NotifierText.BytesFitExactly | internal/platform/notifier/text.go:20-38 | The result of byte truncation is within its maximum if and only if the text was, or the maximum is at least 3 and every prefix within it leaves 3 bytes of it. |
| NotifierText.BytesOverrunAtTwoLetters | internal/platform/notifier/text.go:20-38 | The text "aa" with a maximum of 1 byte comes out at 4 bytes. |
| NotifierText.TruncateUTF16 | internal/platform/notifier/text.go:41-63 | The early-exit loop computes the general truncation in UTF-16 units. |
| NotifierText.Count | internal/platform/notifier/text.go:66-80 | The counting loop computes the total cost. |
| NotifierText.CostsMean | internal/platform/notifier/text.go:20-80 | The budgets count what they are said to count: bytes of the string as stored and as written, and UTF-16 code units. |
| NotifierText.EncodingsUndone | internal/platform/notifier/text.go:27-80 | The encodings behind these counts give back the scalar value and consist of bytes and of 16-bit units. |
| NotifierText.TruncatedMeans | internal/platform/notifier/text.go:9-63 | A text within its maximum stays; any other becomes its longest prefix that leaves one unit, and U+2026. |
| NotifierText.WrittenMeans | internal/platform/notifier/text.go:26-38 | Writing decoded text keeps its runes and puts U+FFFD in the place of broken bytes. |
| NotifierText.FitIsLongest | internal/platform/notifier/text.go:48-62 | The kept prefix is within a non-negative budget and no longer prefix is. |
| NotifierText.TruncatedFits | internal/platform/notifier/text.go:41-63 | A truncated text is within its maximum if and only if that is at least 1, or 0 for an empty text. |
| NotifierText.BrokenIsHarmless | internal/platform/notifier/text.go:83-85 | After breaking, every '@' is followed by U+200B. |
| NotifierText.MendInvertsBreak | internal/platform/notifier/text.go:83-85 | Taking one zero-width space away behind every '@' gives the text again, so breaking loses nothing. |
| NotifierText.CutIsHarmless | internal/platform/notifier/text.go:101-114 | Cutting anywhere leaves no bare '@': the ellipsis stands where U+200B stood. |
| NotifierText.ComposeText | internal/platform/notifier/text.go:101-114 | Computes the composition in runes: the URL block reserved, the head cut to the rest. |
| NotifierText.ComposeTextUTF16 | internal/platform/notifier/text.go:117-130 | The same in UTF-16 units. |
| NotifierText.ComposedFits | internal/platform/notifier/text.go:101-130 | Within the maximum if and only if that is at least 1, or 0 without a URL. |
| NotifierText.ComposedMeans | internal/platform/notifier/text.go:101-130 | When everything fits, the message is title, blank line, body and, with a URL, another blank line and the URL, mentions broken in title and body; when the URL leaves no room, it is the truncated URL block. |
| NotifierText.ComposedKeepsUrl | internal/platform/notifier/text.go:101-130 | A URL block shorter than the maximum survives whole behind the whole head or its longest prefix with room for the ellipsis, and no '@' of the head is bare. |
| NotifierText.EscapeDiscordMarkdown | internal/platform/notifier/text.go:88-98 | The builder loop computes the escaped text. |
| NotifierText.EscapedMeans | internal/platform/notifier/text.go:88-98 | A backslash is put before each of the ten characters \ ` * _ ~ < > @ # and the vertical bar, and before nothing else. |
| NotifierText.UnescapeInvertsEscape | internal/platform/notifier/text.go:88-98 | Dropping the escaping backslashes recovers the decoded text, and the text itself if and only if it was valid UTF-8. |
| CryptoEnvelope.Encrypt | internal/platform/crypto/cryptox.go:86-104 | The envelope carries version and nonce in front, is 29 bytes longer than the plaintext and opens to it under the same key and version. |
| CryptoEnvelope.SealedParts | internal/platform/crypto/cryptox.go:86-129 | An envelope taken apart at the fixed offsets gives back the version, the nonce and the sealed text. |
| CryptoEnvelope.DecryptIsExact | internal/platform/crypto/cryptox.go:107-129 | An envelope opens to a plaintext if and only if it was sealed from it under that key and version with some nonce. |
| CryptoEnvelope.DecryptMeans | internal/platform/crypto/cryptox.go:107-140 | A key that is not 32 bytes is refused first; an envelope shorter than 29 bytes, of another version or not opening is a bad envelope; otherwise bytes 1 to 12 are the nonce and the rest is opened. |
| CryptoEnvelope.DerivedMeans | internal/platform/crypto/cryptox.go:46-60 | The provider key is derived under its fixed label from a source key of at least 32 bytes; a shorter one is an error. |
| ProviderSecrets.Settings.List | internal/repository/settings.go:503-521 | One undecodable provider row refuses the listing of every kind; otherwise exactly the rows of the kind are listed, once each. |
| ProviderSecrets.StoredPartsOpen | tools/migrate-provider-secrets/main.go:319-331 | Splitting the new envelope into version, nonce and ciphertext columns and joining them again opens to the old plaintext; all other columns stay. |
| ProviderSecrets.Converter.ConvertRecord | tools/migrate-provider-secrets/main.go:310-337 | One row is skipped, converted, checked or refused; a refused row is not written, and the error says whether its envelope is unreadable or its version unknown. |
| ProviderSecrets.CountedIsSize | tools/migrate-provider-secrets/main.go:308-340 | The loop's counters are the numbers of rows of each sort. |
| ProviderSecrets.Converter.ConvertRecords | tools/migrate-provider-secrets/main.go:308-340 | Exactly the rows of the scanned kind are converted, counters match the table before the run, and failure means a fault or a row that cannot be read. |
| ProviderSecrets.Converter.Convert | tools/migrate-provider-secrets/main.go:227-305 | The four scans cover every row once: the whole table is converted or the run fails for a reason in the table or the machine. |
| ProviderSecrets.Migrate | tools/migrate-provider-secrets/main.go:197-224 | Commits a fully converted table, or leaves it untouched on error or dry run; apart from faults it succeeds if and only if the raw key is long enough and every stored secret can be read. |
| ProviderSecrets.SecretsKept | tools/migrate-provider-secrets/main.go:317-349 | After a committed run every non-empty secret, which was at version 1 and opened under the legacy key or at version 2 and opened under the new one, is at version 2 and opens under the new key to the same bytes; all other columns, and rows at version 2, are as they were. |
| ProviderSecrets.AcceptableMeans | tools/migrate-provider-secrets/main.go:310-337 | A table is accepted if and only if every value decodes and every row has no secret, or one at version 1 that the legacy key opens, or one at version 2 that the new key opens. |
| ProviderSecrets.CategoriesMean | tools/migrate-provider-secrets/main.go:227-305 | The scans list captcha rows, both kinds of sign-in rows together, spam rows and notification rows. |
| ProviderSecrets.ReportsMean | tools/migrate-provider-secrets/main.go:308-340 | The counters of a scan are the numbers of rows of its kinds, of those without secret, of those at version 1 and of those at version 2 before the run. |
| ProviderSecrets.ScannedSplits | tools/migrate-provider-secrets/main.go:308-340 | scanned = converted + current + no-secret for each kind. |
| ProviderSecrets.SecondRunConvertsNothing | tools/migrate-provider-secrets/main.go:332-336 | A second run converts nothing and changes nothing. |
| ProviderSecrets.SecondRunAccepted | tools/migrate-provider-secrets/main.go:332-336 | A second run is never refused for what the first one left. |
| ClientIp.NormalFormIsExact | internal/platform/clientip/clientip.go:112-120 | Two writings of an address have the same normal form if and only if they are the same 16-byte address; normalising twice is normalising once. |
| ClientIp.ShortFormMeans | internal/platform/clientip/clientip.go:112-120 | The normal form is the last four bytes of a mapped IPv4 address, and any other address itself. |
| ClientIp.IsTrusted | internal/platform/clientip/clientip.go:81-88 | True exactly when some trusted network contains the address. |
| ClientIp.TrustIgnoresForm | internal/platform/clientip/clientip.go:81-88 | Trust does not depend on whether an IPv4 address is written in 4 or in 16 bytes. |
| ClientIp.ContainsMeans | internal/platform/clientip/clientip.go:81-88 | A network contains exactly the addresses of its own family that agree with it in every bit of its mask, also where the mask ends within a byte. |
| ClientIp.SplitInvertsJoin | internal/platform/clientip/clientip.go:65-65 | Splitting at commas gives comma-free fields that join to the header again. |
| ClientIp.TrimMeans | internal/platform/clientip/clientip.go:66-66 | Trimming takes the white space at both ends away and nothing else. |
| ClientIp.FieldMeans | internal/platform/clientip/clientip.go:65-74 | One field gives no hop if blank, else the normal form of the address before its zone, or the failure. |
| ClientIp.XffHops | internal/platform/clientip/clientip.go:62-78 | The nested loops give the hops of all non-blank fields in order, or fail at the first one that is not an address. |
| ClientIp.SpreadOverHeaders | internal/platform/clientip/clientip.go:61-78 | However a comma list is spread over headers, it gives the same hops or the same failure. |
| ClientIp.HopsAreNormal | internal/platform/clientip/clientip.go:74-74 | Every hop is an address in normal form. |
| ClientIp.Extract | internal/platform/clientip/clientip.go:38-59 | An untrusted peer decides alone; otherwise the last untrusted hop, or the first when all are trusted, or the peer when there is none; a bad hop is an error. |
| ClientIp.PeerMeans | internal/platform/clientip/clientip.go:91-109 | The peer is the address in the host part, or in the whole when there is no port. |
| ClientIp.ExtractsOnce | internal/platform/clientip/clientip.go:38-59 | That description leaves one result only. |
| ClientIp.PrependedHopsIgnored | internal/platform/clientip/clientip.go:53-58 | Behind a trusted peer and with an untrusted real hop, headers put in front leave the result alone if and only if they can be parsed. |
| ClientIp.CoarsenTwice | internal/platform/clientip/clientip.go:123-148 | Reducing an address twice is reducing it once, if and only if the mode is not none. |
| ClientIp.CoarsenMeans | internal/platform/clientip/clientip.go:123-148 | Mode none records nothing, coarse keeps the first three bytes of an IPv4 and the first six of an IPv6 address, full keeps all; other modes and no address are errors. |
| ClientIp.CoarseMeansSameNetwork | internal/platform/clientip/clientip.go:123-148 | Two addresses look the same when coarsened if and only if one /24 or /48 network holds both. |

## Left out

What the model takes as given:

- JSON is opaque bytes with a validity test and a decoder; clocks, cancellation and random bytes are inputs. A context that is cancelled is seen by the first check of a call; the later check has the same outcome.
- A transaction is all or nothing; an UPDATE is one simultaneous assignment; a table is a map. Row locks, dialects and the engines' own query plans are not modelled. Write errors of the database are arbitrary failures in the importer and in the secret conversion, and are left out of the comment repository.
- The authenticated cipher opens exactly what it sealed and adds 16 bytes; key derivation is any function to 32 bytes. The cipher's strength and its error paths other than a failed opening are not modelled.
- Parsing an address literal, splitting host and port, author keys (email normalisation and their hashes), time parsing and site origins with their canonical choice are uninterpreted functions.
- Text is a list of units, each a decoded scalar value or a byte that does not decode; the UTF-8 decoder itself is not modelled.

Where a model is coarser than the code:

- CacheMemory.Memory.NamespaceSet: the tracked and the untracked overwrite of a live key are one branch, since the value and expiry written at the end are the same.
- CacheMemory.Memory.Sweep: Go's map iteration order is any order; the same holds for EvictExpired and RemoveNamespaceMembershipLocked.
- CommentRepo.Repo.UpdateStatus: updated_at, bodies, the replied-to user and the likes table are not columns of the model.
- ImportPrepare.CheckRows: which check a row failed is not told, only the row's number.
- ImportWrite.Importer.FindOrCreateSites: keys are visited in any order where the program sorts them; adding further origins to a site is not modelled. The same visiting order holds for users and threads.
- ImportWrite.Importer.WriteComment: all tables draw ids from one counter, so ids are fresh, not consecutive per table.
- ProviderSecrets.Settings.List: rows come in any order where the query sorts by key.
- ClientIp.IsTrusted: networks are those that parsing a CIDR yields, an address and a contiguous mask of the same length; malformed network values are not modelled.
- EventBus.LatePublishIsDropped: an accepted event that races with Close may never be handled, so nothing is claimed about it.
- JobSupervisor.OneShutdown: the readiness flag is not modelled; MarkReady may run after Fatal.

What the repository does and this model does not:

- The Redis backend and its Lua scripts, GetOrLoad with its single flight, the fallback quota path of a namespace over another store, and the Namespace wrapper's own argument checks.
- UpdateStatusMany, SetPinned, soft deletes, admin and owner listings, trends and latest comments: column updates and filters without structure of their own.
- Pages report no more than their rows; signing and checking of cursor tokens in the service layer.
- Redacting addresses and user agents during an import, unsupported-field counters and body conversion.
- Lifecycle steps around the supervisor (database, cache and bus cleanup, HTTP server start and stop).
- Command-line flags and environment of the tools, and report printing.
- HTTP handlers, OAuth, CAPTCHA, mail, notifier senders and the rate limiter: request plumbing and remote I/O.
