# Lectern sync server: a verified model

Lectern keeps each user's documents in a workspace on a server, lets users share files and folders with one another or
through links, and tells connected clients over a socket when something changed. This project models the stateful core
of that server in Dafny and proves what it keeps.

`dafny verify dfyconfig.toml` checks everything.

| file | what it models |
| --- | --- |
| `Wrappers.dfy`, `Text.dfy` | an option type and the word size; splitting, joining, trimming, decimal printing, the order of strings |
| `Paths.dfy` | canonical workspace paths: the normaliser, and the prefix test of the hub |
| `FileTree.dfy` | a directory tree with the POSIX operations the server uses, and its total size |
| `Listing.dfy` | the two recursive walks: the collector of deleted files and the sync listing |
| `Workspace.dfy` | one account (tree and tombstones) and its five writing handlers, as a class |
| `TreeOperations.dfy`, `Handlers.dfy` | when each tree operation and each handler succeeds, and everything it then changes, told from what was there |
| `WorkspaceRuns.dfy`, `Quota.dfy` | whole runs of requests: tombstones, listings, the quota |
| `Shares.dfy`, `SharedWrites.dfy` | the share and link tables, what access they resolve to; which writes go through them |
| `Hub.dfy` | the notification hub: its lock-held blocks and the fan-out, as functions and as a class |
| `HubSystem.dfy` | the hub under every interleaving of its blocks, with sends, timers and a log of events |
| `HubHistory.dfy`, `HubDrain.dfy` | what every reachable hub satisfies: its record and its history, time-outs, coming to rest |
| `HubCalls.dfy`, `HubAnswers.dfy` | what each call does from start to end; what clients can count on, frame by frame |
| `HubDelivery.dfy`, `HubWatches.dfy` | from an announcement to the frames sent for it; where each connection's watch comes from |
| `EndToEnd.dfy` | from a share, through a write, to the devices that hear of it |
| `RateLimiter.dfy` | the fixed-window limiter, its pruning, and its bound over sliding intervals |
| `Migrations.dfy` | the migration runner: ledger, transactions, resumption |
| `Sessions.dfy` | cookie sessions with sliding expiry |

## How to read it

*The hub.* The mutex is dropped between "insert pending", "send" and "schedule", and between the fan-out snapshot and
its sends. A call in flight is therefore a thread holding the tasks it has left; one step runs one task of one thread,
or starts a call (a client connects, disconnects or sends a frame, a write is announced, an armed timer fires). Every
sequence of such steps is a run. The log is history only: no step reads it, and `Recorded` says the hub's state is what
the log says. Each event names the call it belongs to, so the events of one call can be read off the log.

*The workspace.* A tree is a map of names to files with a size and further trees. Handlers are functions of the account
(`AfterPut`, `AfterDelete`, …); the methods of class `Workspace` do the work with the source's loops and are proved to
reach exactly that account and that reply.

*Four results that differ from what one might expect.*

- A folder delete (`isDir`) aimed at a regular file removes the file but records no tombstone, because the collector
  yields nothing for a non-directory (`src/workspace.cpp:477-489`). `RunNeverForgetsIff` shows this is the one way a
  path can be forgotten, and `FileDeletedAsFolderIsForgotten` gives the two requests.
- `fCheckQuota` returns early on any error code (`src/workspace.cpp:340-346`). On a standard library that reports an
  error for the kind of a missing path, a new file is never checked. `Config.absentIsError` names that behaviour;
  `QuotaCheckHoldsIff` shows the check keeps its promise exactly when the early return is not taken, and
  `PutStaysWithinIff` says the same of whole writes.
- Deleting an empty folder with a file delete is accepted, and leaves a tombstone for the folder's key
  (`src/workspace.cpp:491-498`); `DeleteMeans` says so.
- A limit of 0 does not block: a missing bucket is never limited, so each window lets one hit through
  (`AtLeastOne`, `ZeroActsAsOne`).

The comment at `src/util.cpp:443-444` presents the remove-and-rename fallback as a matter of Windows; on POSIX it also
means that a write onto an empty directory replaces that directory by the file. The model follows the code.

## Model

| member | source | states |
|---|---|---|
| Text.SplitOn | src/util.cpp:237-253 | the search loop yields the pieces between separators |
| Text.PieceIff | src/util.cpp:237-253 | a name without separators is a piece iff it stands in the text between separators or at an end |
| Text.SplitJoin | src/util.cpp:237-253 | any nonempty list of pieces without the separator is recovered after joining |
| Text.JoinSplit | src/util.cpp:237-253 | joining the pieces of any text gives the text back |
| Text.PiecesHoldNoSeparator | src/util.cpp:237-253 | no piece holds a separator |
| Text.TrimLoop | src/util.cpp:199-215 | the two cursor loops cut exactly the leading and trailing white space |
| Text.TrimMeans | src/util.cpp:199-215 | blanks, tabs, line, page and vertical feeds and returns come off both ends, all of them, and nothing else |
| Text.AfterLastIsLastPiece | src/util.cpp:255-259 | what follows the last separator is the last piece of the split |
| Text.ClientIpTakesTheLastEntry | src/state.cpp:47-67 | behind a trusted proxy the client is the trimmed last list entry, or the peer when that is empty; nothing to its left matters |
| Text.DecimalInjective | src/sync_hub.cpp:80 | different counters print differently |
| Text.DecimalReadsBack | src/sync_hub.cpp:80 | a printed counter is digits that read back as the counter |
| Text.LexLessIff | src/db.cpp:323-324 | one text is before another iff at some position they agree up to, it ends or has the smaller character |
| Paths.SafeRelPath | src/workspace.cpp:153-225 | the character loop equals: refuse empty, leading separator, NUL, colon, "..", nothing left; else split on both separators, drop "" and ".", join |
| Paths.RefusedIff | src/workspace.cpp:153-216 | which paths are refused: empty, absolute, with a NUL or a colon, with ".." between slashes of either kind, or with nothing but slashes and single dots |
| Paths.SafeRelIsCanonical | src/workspace.cpp:153-225 | what is accepted comes back canonical, with exactly the surviving pieces |
| Paths.CanonicalIffFixed | src/workspace.cpp:153-225 | outputs, fixed points and canonical paths are the same set |
| Paths.SafeRelCompose | src/workspace.cpp:153-225 | normalising a joined path joins the normal forms |
| Paths.CanonicalCompose | src/share.cpp:159 | joining canonical paths concatenates their segments |
| Paths.MatchesPrefixIffAncestor | src/sync_hub.cpp:22-27 | the string test holds iff one segment list is a prefix of the other |
| Paths.MatchesPrefixIsPartialOrder | src/sync_hub.cpp:22-27 | reflexive, antisymmetric, transitive |
| FileTree.WriteFileFiles | src/util.cpp:404-453 | a successful write changes one file and no other |
| FileTree.RenameFiles | src/workspace.cpp:537-547 | a successful rename carries every file below the source to the same place below the target and leaves all others |
| FileTree.RenameTotal | src/workspace.cpp:537-547 | a rename adds no bytes |
| TreeOperations.MkDirsWhen | src/util.cpp:404-412 | making folders fails exactly when some component is a regular file |
| TreeOperations.WriteFileWhen | src/util.cpp:404-453 | a write succeeds unless a file is in the way above, or a folder that is not empty is in its place |
| TreeOperations.WriteFileWhat | src/util.cpp:404-453 | it then writes that one file, adds the folders above it, and changes no other file or folder |
| TreeOperations.RenameWhen | src/workspace.cpp:537-547 | a move's rename succeeds exactly when the source is there, the target is not inside it, no file is above the target, and what is there gives way |
| TreeOperations.RenameWhat | src/workspace.cpp:537-547 | all files and folders of the source then stand below the target, and the rest is as it was but for the folders above the target |
| Listing.CollectFilesUnder | src/workspace.cpp:124-149 | every file below the folder is appended once, under its key, and nothing else |
| Listing.Walk | src/workspace.cpp:232-317 | the nested listing shows each folder and each file without a leading dot exactly once, in its own folder and under its own name; every level has folders first and then lower-cased names in order |
| Listing.EntryIsListedIff | src/workspace.cpp:266-295 | a folder is always listed, a file iff its name does not begin with "." |
| Listing.WalksAgree | src/workspace.cpp:124-149 | the listing's files are the collector's minus those with a leading dot |
| Workspace.Workspace.DirSizeBytes | src/workspace.cpp:69-87 | the accumulator loop gives the recursive total, modulo 2^64 |
| Workspace.Workspace.QuotaAllows | src/workspace.cpp:330-356 | the check, early returns and unsigned arithmetic included |
| Workspace.Workspace.WriteAtomic | src/util.cpp:404-453 | the file is written, or only parent folders were made |
| Workspace.Workspace.PutFile | src/workspace.cpp:419-440 | new account, reply and announced paths of a write |
| Workspace.Workspace.OverwriteShared | src/share.cpp:223-248 | a shared write overwrites an existing file under the owner's quota, and never creates one |
| Workspace.Workspace.CreateFolder | src/workspace.cpp:444-463 | new account and reply of a folder create |
| Workspace.Workspace.DeleteEntry | src/workspace.cpp:465-504 | new account and reply of both kinds of delete |
| Workspace.Workspace.MoveEntry | src/workspace.cpp:506-563 | new account and reply of a move |
| Workspace.Workspace.MoveTombstones | src/workspace.cpp:549-555 | the loop that alternates record and clear ends as if all were recorded first and the destinations then cleared |
| Handlers.PutMeans | src/workspace.cpp:419-440 | when a write is refused, fails or is done; done, exactly that file is there with its size, its tombstone is gone and no other file or tombstone changed |
| Handlers.PutIsAcceptedIff | src/workspace.cpp:330-440 | a write is done iff its size and path allow it and the workspace as it leaves it fits, or the file does not grow, or the early return is taken |
| Handlers.OverwriteMeans | src/share.cpp:235-247 | the same of a shared write, which needs an existing file and touches no tombstone |
| Handlers.OverwriteIsAcceptedIff | src/share.cpp:235-247 | a shared write is done iff the file is there and fits afterwards or does not grow |
| Handlers.FolderMeans | src/workspace.cpp:444-463 | a folder create fails iff a file is in the way; done, just the folders on the path are new |
| Handlers.DeleteMeans | src/workspace.cpp:491-498 | a file delete needs a file or an empty folder; it alone goes, with a tombstone of now for its key |
| Handlers.DeleteFolderMeans | src/workspace.cpp:477-489 | a folder delete takes away all at or below the path, with a tombstone of now for every file that was in the folder and for no other key |
| Handlers.MoveMeans | src/workspace.cpp:506-563 | when a move is done, and then: the whole subtree stands at the target, every moved file has a tombstone of now at its old key, none that arrived has one, and the rest is as it was |
| Workspace.MovedKeysApart | src/workspace.cpp:549-555 | when the rename succeeds, recorded and cleared keys are the same (onto itself) or disjoint |
| WorkspaceRuns.StepKeeps | src/workspace.cpp:419-563 | every request keeps "nothing alive is reported deleted", and forgets no path unless a file is deleted as a folder |
| WorkspaceRuns.ChangesAreAnnounced | src/workspace.cpp:419-563 | whatever file a request writes, removes or brings in, its reply announces that path, or asks to look at everything |
| WorkspaceRuns.EverLiveIsLiveXorDeleted | src/workspace.cpp:419-563 | over every run from an empty workspace, a path that was ever a live file is now exactly one of live and tombstoned |
| WorkspaceRuns.DeleteForgetsIff | src/workspace.cpp:474-498 | a delete forgets a path iff it is a folder delete of a regular file |
| WorkspaceRuns.RunNeverForgetsIff | src/workspace.cpp:474-498 | a run never forgets a path iff it never deletes a file as a folder |
| WorkspaceRuns.FileDeletedAsFolderIsForgotten | src/workspace.cpp:477-489 | two concrete requests that leave a deleted file in neither place |
| WorkspaceRuns.MissingFromListingIsDeleted | src/workspace.cpp:287-295 | a file in an earlier listing and not in the present one is in the deleted list; none is in both |
| WorkspaceRuns.ListedIsLive | src/workspace.cpp:232-317 | the root listing's files are the live files without a leading dot |
| Quota.WriteTotal | src/workspace.cpp:343-349 | a write changes the total by new size less old size |
| Quota.ExistingIsPart | src/workspace.cpp:348-349 | the old size is a summand of the total, so the subtraction does not wrap |
| Quota.QuotaRefusesIff | src/workspace.cpp:330-356 | a write that would succeed is refused iff there is a quota, no early return is taken, the file would grow, and the workspace as the write leaves it would not fit |
| Quota.QuotaCheckHoldsIff | src/workspace.cpp:330-356 | the check bounds every accepted write iff a missing target is not reported as an error |
| Quota.StepWithinQuota | src/workspace.cpp:330-356 | no request of any kind takes the total above the larger of itself and the quota |
| Quota.RunWithinQuota | src/workspace.cpp:330-356 | nor does any run: an account under quota stays under, one over it never grows |
| Quota.PutStaysWithinIff | src/workspace.cpp:419-440 | a write of a new or old file stays within the quota for every size, iff the early return is not taken there, or the path cannot be written, or even the largest file fits |
| Quota.NewFilesEscapeTheQuota | src/workspace.cpp:340-346 | a concrete write of a new file past the quota where absence is an error |
| Shares.UpsertKeepsKeys | src/share.cpp:433-450 | (owner, grantee, path) stays unique, and sharing again keeps the row's id |
| Shares.ShareStore.CreateShare | src/share.cpp:407-468 | when a share is made, what row it becomes, and that every stored path is canonical |
| Shares.ShareStore.FindRow | src/share.cpp:453-460 | the row with a key, if there is one |
| Shares.ShareStore.EndShare | src/share.cpp:473-493 | owner or grantee can end a share, no one else |
| Shares.ShareStore.CreateLink | src/share.cpp:525-558 | when a link is made, and what row it becomes |
| Shares.ShareStore.EndLink | src/share.cpp:562-579 | only the owner can end a link |
| Shares.EffectiveIsUnderRoot | src/share.cpp:144-200 | a resolved path is canonical and at or under the shared root, so validating it again changes nothing |
| Shares.ShareResolvesIff | src/share.cpp:144-181 | a share resolves for its grantee alone, with its own owner and level, to the sub path below its root; every refusal with its error |
| Shares.LinkResolvesIff | src/share.cpp:183-200 | a link resolves for whoever has its token, in the same way |
| Shares.WatchIsTheirs | src/share.cpp:334-367 | no watch is accepted through a share made to someone else or a token that is no link's |
| Shares.WatchIsGranted | src/share.cpp:334-367 | a watch is accepted iff its request names a known link, or a share made to that user, and the sub path fits; it then follows the path the request asks for under that very entry's root |
| Shares.WriteThrough | src/share.cpp:223-248 | permission, file kind, existence and quota of a shared write, and the one path it announces |
| SharedWrites.WorkFileByExtension | src/workspace.cpp:227-230 | with something before its last dot, a name is a work file iff what follows is one of the nine words, in either case |
| SharedWrites.NoExtensionNoWorkFile | src/util.cpp:261-272 | a name without a dot, or with only a leading one, is not a work file |
| SharedWrites.WorkFileIff | src/workspace.cpp:227-230 | so of all paths, which are work files |
| SharedWrites.SharedWriteMeans | src/share.cpp:223-248 | every reply of a shared write, when it is given, and all that is then changed |
| SharedWrites.SharedWriteIsAcceptedIff | src/share.cpp:223-248 | it goes through iff at the edit level, onto a work file that is there, and fitting the quota or not growing |
| Hub.FrameIdInjective | src/sync_hub.cpp:80 | frame ids of different numbers differ |
| Hub.FrameIdReadsBack | src/sync_hub.cpp:80 | an id is "s" and the digits of its number |
| Hub.WhoIsTold | src/sync_hub.cpp:231-279 | of one connection, by its account: the origin's device is not told, the owner's others are of all of it, anyone else iff a watch of theirs on that owner covers an announced path, and of the covered paths only; over 100 paths the list is empty |
| Hub.Hub.VisibleTo | src/sync_hub.cpp:248-262 | the two inner loops give, watch by watch, the matching paths not seen before |
| Hub.VisibleMembers | src/sync_hub.cpp:248-262 | a watcher's list holds a path iff it was announced and some watch on that owner covers it, and none twice |
| Hub.MergedKeepsOrder | src/sync_hub.cpp:254-261 | the list keeps the order of first occurrences |
| Hub.SingleWatchSees | src/sync_hub.cpp:248-262 | with one watch the list is the deduplicated matching subsequence |
| Hub.Hub.Snapshot | src/sync_hub.cpp:229-280 | the loop over connections gives one target per connection concerned |
| Hub.TargetsExact | src/sync_hub.cpp:229-280 | a connection is a target, with that list, iff the rule for one connection says so; in ascending order, none twice |
| Hub.SentAllExact | src/sync_hub.cpp:282-286 | undisturbed, the i-th target gets the i-th next frame id and its own list |
| Hub.Hub.Add | src/sync_hub.cpp:38-55 | a user's connection starts owing one catch-up frame, a link viewer's none |
| Hub.Hub.Track | src/sync_hub.cpp:73-83 | the block that makes a fresh id pending |
| Hub.Hub.Expire | src/sync_hub.cpp:98-110 | the block that drops a connection iff the frame is pending |
| Hub.Hub.Handle | src/sync_hub.cpp:141-182 | the first block of a message, and what follows it |
| Hub.Hub.SetWatch | src/sync_hub.cpp:197-210 | the second block: one followed path at a time |
| Hub.Hub.Notify | src/sync_hub.cpp:215-287 | a whole fan-out is a snapshot followed by its tracked sends |
| HubSystem.NextKeepsInv | src/sync_hub.cpp:38-287 | every step of every call keeps all invariants |
| HubSystem.RunKeepsInv | src/sync_hub.cpp:38-287 | every interleaving keeps them: the state is what the log says, ids are fresh, every pending frame has a timer armed, about to be armed, or firing, and every change frame has a reason |
| HubSystem.AdvanceWatches | src/sync_hub.cpp:69-121 | one block never leaves a pending frame without a timer |
| HubSystem.AdvanceReasons | src/sync_hub.cpp:229-286 | every queued or issued change list is what an earlier announcement owed that connection |
| HubHistory.OwedIff | src/sync_hub.cpp:69-121 | a frame is pending iff its connection has joined and not gone, and no acknowledgement of that very id was handled for it since it was issued |
| HubAnswers.OwedUntilAckFrame | src/sync_hub.cpp:158-162 | the same in terms of frames: pending iff issued and no ack frame that the connection itself sent for it has been handled since |
| HubAnswers.AcksComeFromFrames | src/sync_hub.cpp:158-162 | what the hub counts as an acknowledgement is an ack frame of that connection for that id |
| HubAnswers.AckFramesCount | src/sync_hub.cpp:158-162 | and every ack frame counts once its call has ended, unless the connection was gone |
| HubHistory.ExpiryIsExact | src/sync_hub.cpp:98-110 | a timer drops its connection, and goes on to close the peer, iff that frame is unacknowledged there; otherwise nothing changes |
| HubAnswers.TimersRunTheirCourse | src/sync_hub.cpp:98-121 | in every run, a callback that has ended dropped its connection over its very frame and then closed that connection's peer, each once; or did nothing, the frame having been not owed at some point since it fired |
| HubAnswers.ClosedPeersTimedOut | src/sync_hub.cpp:112-120 | a peer is closed only after its connection timed out in the same call |
| HubHistory.IdsAreUnique | src/sync_hub.cpp:43-44 | connection ids and frame ids are never handed out twice |
| HubHistory.AcknowledgedForGood | src/sync_hub.cpp:158-162 | once acknowledged, a frame is never owed again, whatever happens later |
| HubHistory.RunDeserves | src/sync_hub.cpp:98-121 | in every run, each time-out hit a registered connection that owed that frame |
| HubHistory.WatchesFollowHistory | src/sync_hub.cpp:197-210 | a connection follows at most one path, that of the last setting of its watch |
| HubAnswers.WatchFramesTakeEffect | src/sync_hub.cpp:184-212 | in every run, a watch or unwatch that has ended did exactly one of: refused, nothing set, nack; accepted, exactly that watch set, ack; unwatch, cleared, ack; unless its connection was gone |
| HubAnswers.WatchSetsComeFromFrames | src/sync_hub.cpp:184-212 | every setting of a watch, also to nothing, comes from such a frame of that connection, and for a watch from the resolver's answer to it |
| HubAnswers.WatchesFollowFrames | src/sync_hub.cpp:184-212 | a connection follows what its own last watch or unwatch frame to be settled asked for; a refused one settles nothing |
| HubAnswers.HellosCount | src/sync_hub.cpp:163-166 | every hello sets the device and is answered, unless its connection was gone |
| HubAnswers.DeviceFollowsHistory | src/sync_hub.cpp:163-166 | a connection's device is what its last hello said |
| HubAnswers.UsersAreAskedToCatchUp | src/sync_hub.cpp:38-55 | a user's connection is issued one catch-up frame, sent and timed, unless it was gone after it joined; a link viewer's none |
| HubAnswers.CatchUpsComeFromJoining | src/sync_hub.cpp:47-53 | no other call issues a catch-up frame |
| HubAnswers.DisconnectedAreGone | src/sync_hub.cpp:57-61 | once a disconnect has been handled, a connection that had joined before it is gone |
| HubAnswers.LeavingComesFromDisconnects | src/sync_hub.cpp:57-61 | a connection leaves only by its own disconnect |
| HubCalls.FrameStep | src/sync_hub.cpp:141-213 | each lock-held block, question to the resolver or reply takes the call for a frame to the next stage of its course |
| HubCalls.CallsKeepTheirCourse | src/sync_hub.cpp:38-287 | in every run, each call has logged, in order, what its kind of call does up to there, and has left what comes next; it stops short only where its connection was gone |
| HubHistory.ListForEntitles | src/sync_hub.cpp:231-279 | who is told and of what, in terms of segments; and no one else is |
| HubHistory.ChangesAreEntitled | src/sync_hub.cpp:215-287 | in every run, each change frame was owed by an earlier announcement of the very call that issued it, to the connection as it then was |
| HubSystem.TracksAreOwed | src/sync_hub.cpp:229-280 | an announcement leaves one task per connection it owes a list, with that list |
| HubDelivery.NextKeepsDelivery | src/sync_hub.cpp:69-96 | every step keeps: no call issues a connection two frames, nothing owed is passed over, each frame issued is sent and sent once |
| HubDelivery.FramesAreOwedOnce | src/sync_hub.cpp:215-287 | at any moment, an announcement has led to at most one frame per connection, only to those it owes, with what it owes |
| HubDelivery.AnnouncementReachesAll | src/sync_hub.cpp:215-287 | in every run, once the announcing call has ended, each connection owed a list has been issued exactly one frame with it, sent exactly once, unless the connection was gone at some point after; no other connection was issued one |
| HubWatches.NextBacks | src/sync_hub.cpp:184-212 | every step keeps: what a connection follows was heard, asked and set by one call of its own |
| HubWatches.WatchesAreAccepted | src/sync_hub.cpp:184-212 | at every moment of every run, what a connection follows was last set by a call that heard its own watch frame and had it accepted for the account that opened it |
| HubDrain.StepLightens | src/sync_hub.cpp:69-121 | in any world, a step that starts no new call lowers a measure on timers and tasks in flight, fan-outs included |
| HubDrain.DrainsEnd | src/sync_hub.cpp:69-121 | so from any world no drain is longer than that measure |
| HubDrain.DrainGoesOn | src/sync_hub.cpp:69-121 | and one that has not come to rest can go on |
| HubDrain.IdleOwesNothing | src/sync_hub.cpp:69-121 | with no timer armed and no call in flight, no connection owes anything |
| HubDrain.DrainOutcome | src/sync_hub.cpp:69-121 | after any run that has come to rest, the connections left are exactly those that joined, never left, and sent an ack, handled after, for every frame issued to them; none owes anything |
| HubDrain.SettledDrainOutcome | src/sync_hub.cpp:69-121 | when only sends, timers and replies were left to begin with, exactly the connections that owed an acknowledgement go and the rest are untouched |
| HubAnswers.RepliesAnswerFrames | src/sync_hub.cpp:169-212 | a reply answers a frame that came in before, under its own id: a nack where the resolver refused, an ack to a watch or unwatch only once it is set; no frame gets two, and an ack gets none |
| HubAnswers.FinishedCallsHaveReplied | src/sync_hub.cpp:141-213 | a call for a frame that wants a reply does not end without one, unless the connection was gone in between |
| HubAnswers.MessagesTouchOneConnection | src/sync_hub.cpp:141-213 | in every run, no step of the call for a frame changes the record of any other connection |
| EndToEnd.OnePathIsHeardByFollowers | src/sync_hub.cpp:229-280 | a change of one path reaches the owner's devices and the followers of a path at or above it, other than the origin, and no one else |
| EndToEnd.WriteLands | src/share.cpp:235-247 | a shared write changes the one existing file it announces |
| EndToEnd.ReachedIsUnderRoot | src/share.cpp:144-200 | an access has the owner and the level of its own share or link, and a canonical path at or under its root |
| EndToEnd.AckedWatchIsSet | src/sync_hub.cpp:184-212 | an acknowledged watch was set, before the ack, to what the resolver answered |
| EndToEnd.WatchingIsFollowing | src/share.cpp:334-367 | a client whose own watch frame named a share or link, was acknowledged and not replaced, is to hear of every change under that root it did not make |
| EndToEnd.WriteReachesItsFollowers | src/share.cpp:144-248 | in every run, from share or link to frames sent: only at the entry's edit level, the announced path under its root; each connection that then followed it, all clients with an acknowledged watch on the entry among them, gets exactly one frame with just that path, unless it was gone at some point after; no other gets one |
| EndToEnd.NextTruthful | src/share.cpp:334-367 | every step keeps: each answer of the resolver in the log is what the tables said at that moment |
| EndToEnd.NothingOutsideTheRoot | src/share.cpp:334-367 | in every run, with the tables changing meanwhile: each change frame is the owner's own, or lists only paths under the root of the very share or link that the connection's own watch frame named, as the tables stood when that watch, still in force, was resolved |
| RateLimiter.RateLimiter.IsLimited | src/state.cpp:7-23 | the answer, from the bucket the recorded hits leave |
| RateLimiter.RateLimiter.Prune | src/state.cpp:31-36 | the sweep drops exactly the buckets older than the horizon |
| RateLimiter.RateLimiter.Record | src/state.cpp:25-45 | the table stays a function of the hits recorded |
| RateLimiter.PruningIsInvisible | src/state.cpp:18-44 | the pruned table answers every question like an unpruned limiter defined on the hits |
| RateLimiter.MemoryIsBounded | src/state.cpp:31-36 | after a hit there are at most as many buckets as hits within the horizon |
| RateLimiter.WindowsApart | src/state.cpp:38-44 | consecutive windows start at least one window length apart |
| RateLimiter.OpenWindowShape | src/state.cpp:38-44 | the open window holds the last hits, at most the limit of them |
| RateLimiter.SlidingBound | src/state.cpp:7-45 | check-then-record lets at most 2*max-1 hits into any half-open interval of one window's length |
| RateLimiter.SlidingBoundIsSharp | src/state.cpp:7-45 | for every limit and window some trace attains it |
| RateLimiter.LetThroughStaysLetThrough | src/auth.cpp:217-243 | a hit recorded some time after the check that let it through would still be let through |
| RateLimiter.GuardedIsAdmitted | src/auth.cpp:157-162 | hits let through by a check of the pruned 32-bit table, at any earlier time, are let through by the reference |
| RateLimiter.TableBound | src/auth.cpp:157-162 | the bound holds of the table as it runs, per address and kind |
| RateLimiter.StoppedWithCause | src/state.cpp:7-23 | whoever the table stops has at least the limit of recorded hits within the last window length |
| RateLimiter.BurstStopsIff | src/state.cpp:7-45 | hits of one moment stop the next exactly from the limit on and until a window length has passed |
| RateLimiter.AddressBounds | src/auth.cpp:26-29 | with the limits in use: per address at most 19 failed logins in any 15 minutes and 39 registrations in any hour, and 39 anonymous comments in any 10 minutes |
| Migrations.Database.ApplyOne | src/db.cpp:345-373 | one file in its transaction: applied and recorded, or exactly the state before |
| Migrations.Database.RunMigrations | src/db.cpp:300-375 | the whole run, over the sorted scripts of the directory |
| Migrations.ScriptsOf | src/db.cpp:315-322 | the scripts are the regular files whose name is something followed by ".sql" |
| Migrations.RunInCharacterOrder | src/db.cpp:323-324 | two scripts run in the order of the characters at which their names first differ |
| Migrations.RunPrefixFirst | src/db.cpp:323-324 | a name runs before any longer one that begins with it |
| Migrations.RunSucceedsIff | src/db.cpp:300-375 | a run succeeds iff nothing still to run or to look up meets a fault and the absent scripts apply one after the other in name order; then with just that schema and those names added |
| Migrations.FailureLeavesThePriorState | src/db.cpp:365-373 | a failed run leaves the state in which it reached the file it failed on |
| Migrations.ResumedIsUninterrupted | src/db.cpp:328-335 | however often interrupted, one more run ends where a single uninterrupted run would; after a success nothing more happens |
| Migrations.SeriesStaysConsistent | src/db.cpp:300-375 | over any attempts on a growing directory the schema is the scripts folded in ledger order, and no name is recorded twice |
| Migrations.SuccessAppendsTheAbsent | src/db.cpp:324-335 | a successful run records, in name order, just the files the ledger lacked |
| Migrations.UpgradeIsInstallIff | src/db.cpp:323-324 | an upgraded database has the ledger of a fresh install iff every later file also sorts later, and then the same schema |
| Sessions.IdFromCookie | src/session.cpp:50-80 | the id a cookie carries, signed and unsigned: found iff the cookie has that exact form |
| Sessions.CookieRoundTrip | src/session.cpp:128-141 | a cookie reads back as its id in both modes and after the secret is removed; unsigned cookies and other signatures do not pass |
| Sessions.SessionStore.Start | src/session.cpp:128-141 | the new row and the cookie |
| Sessions.SessionStore.CurrentUserId | src/session.cpp:97-126 | lookup with lazy deletion and sliding expiry |
| Sessions.SessionStore.Destroy | src/session.cpp:143-151 | only the cookie's own row goes |
| Sessions.SessionStore.PurgeExpired | src/session.cpp:153-157 | exactly the rows that have run out go |
| Sessions.LookupSucceedsIff | src/session.cpp:97-157 | in any history a lookup names a user iff that session was started, not ended, and no two consecutive uses are 30 days or more apart |
| Sessions.PurgingIsInvisible | src/session.cpp:153-157 | purging at any points changes no lookup |

## Left out

- The web framework, routes, JSON and the socket layer (`src/main.cpp`, `src/http.h`, `src/sync_ws.cpp`): an incoming frame is a value with its string fields, or unreadable.
- PDF export, downloads, fonts, comments, accounts and passwords: simple or outside code; they touch none of the state modelled here.
- Random ids, hashes and HMAC: ids are parameters with the freshness their callers rely on, and the signature is an arbitrary function of the id.
- SQLite: tables are maps with their unique keys, a migration script is a partial function on an arbitrary schema type, and the tombstone, share and session statements do not fail; the runner's own statements may.
- The file system below names, kinds and sizes: symbolic links, permissions, full disks, temporary files, Windows renames, and the listing's time and hash columns.
- Handlers of one account, and calls on the rate limiter, run one at a time; only the hub is modelled under interleaving. In the source two requests on one workspace can overlap.
- The reads (get file, stat, shared listings): they change nothing.
- Exceptions of the timer scheduler, and of a peer while it is sent something: a send is an event whether or not it arrives. So is the send of a frame that lists a path which is not UTF-8: there the source fails to build the text (`src/sync_hub.cpp:85-93`), sends nothing, and still arms the timer.
- Listing.Walk: entries that compare equal may come in any order in the source; the model fixes one, and claims only that the result is ordered.
- HubSystem.RunKeepsInv: for runs of fewer than 2^64 steps; beyond that the 64-bit counters wrap and ids repeat.
- Quota.RunWithinQuota: assumes sizes whose sum stays below 2^64, and the named behaviour of the library for missing paths.
- RateLimiter.PruningIsInvisible: assumes a clock that does not run back, one window per kind no longer than an hour, and fewer than 2^32 hits in one window; the last follows from the limits in `GuardedIsAdmitted`. A tick is taken to be a nanosecond; only `AddressBounds` depends on it.
- Sessions.LookupSucceedsIff: assumes a clock that does not run back and ids that never repeat; rows removed together with their account are not modelled.
- A hub set up without a resolver: it is part of `HubSystem`, but the end-to-end results are about the server's hub, which is given the share resolver (`src/sync_ws.cpp`).
- Ending a share or link does not end the watches already made through it; in the source they last until replaced, and so they do here.
- Migrations.Database.RunMigrations: the creation of the ledger table and a script that commits by itself are not modelled.
