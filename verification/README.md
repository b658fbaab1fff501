# Proofs about the skynet runtime

A Dafny model of the parts of skynet whose correctness is spread over many steps: what survives a
kill, a rewrite, a restart, a flood wait, a compaction or a reboot, and the arithmetic that decides
what fits into a budget and what a comparison may claim. Each module follows one source file. Where
the source changes objects, lists or files step by step the model does the same with classes, arrays
and loops, each method is proved against a specification function, and the lemmas beside it say what
that specification means over every input or every run.

| files | source | subject |
|---|---|---|
| `AuditLog`, `AuditLogProofs`, `AuditErasure`, `AuditReports` | `skynet/memory_audit.py` | hash-chained log, append-only anchors, replaceable checkpoint; kills, rewrites, what later calls make of a rewrite, and where a break is reported |
| `Placement`, `PlacementProofs` | `skynet/memory_store.py` | score fusion, ranking, and the three-pass bounded placement of a search page |
| `KindMerge` | `skynet/memory_store.py` | kind vocabulary, the search projection, and the migration that merges duplicates |
| `Framing`, `FramingProofs`, `FramingText` | `skynet/mcp.py` | reading newline-delimited and Content-Length frames over arbitrary chunks |
| `Restart`, `RestartProofs`, `RestartRuns`, `RestartReplay` | `skynet/mcp.py` | JSON-RPC requests over children that may die: the restart budget, the ids, whose reply a request returns, and what is never sent again |
| `Transcript` | `skynet/react.py` | the message list of an episode: pairing of calls and results, compaction and the finish cut |
| `ReAct` | `skynet/react.py` | an episode from step to step: what is held and what is sent, whatever it meets |
| `Preview`, `PreviewProofs` | `skynet/react.py` | the bounded preview, the number in its elision marker, and the lines its tail shows |
| `Contracts`, `ContractsRules`, `ContractsWalk`, `ContractsProofs`, `TrimProofs` | `skynet/model_contracts.py` | validate, drop, trim and clamp over a recursive schema |
| `Outbox` | `skynet/outbox.py` | claim, send, defer, fail and park under a channel-wide flood window |
| `Agenda`, `AgendaProofs` | `skynet/handoff.py` | the rotating agenda: pacing, identity and fairness over runs |
| `RebootGuard` | `skynet/recovery.py` | the health window after a reboot |
| `Intervals`, `IntervalsProofs`, `RequiredSample`, `DriftVerdict` | `skynet/recall_scorecard.py` | Wilson and Newcombe intervals, the drift verdict, and the sample budget |
| `MemoryBudget`, `MemoryBudgetProofs` | `skynet/memory.py` | newest-first admission, the shrinking loop, and the two digests |

SHA-256 and JSON are functions the audit log calls; the tamper theorem assumes that the hash has no
collision and that parsing reads back what rendering wrote. The square root of the intervals is any
function that squares back to its argument. Clocks, the provider, the file system's willingness to
move a file, the moment of a kill, the children an MCP client starts and what each of them writes, and
the transport's answer to each send are inputs or arbitrary choices.

## What the code does differently from what it says

Each is stated below as a lemma with a concrete input, with the exact condition, or as the weaker
bound that does hold.

- `trim_to_limit` says its limit is always honoured. It appends a two-character mark after cutting at
  up to the limit, so the result may be two characters too long (`TrimOverrunsIff`,
  `TrimOverrunWitness`); a clamped reply can still be refused for length (`ShippedClampStillTooLong`).
  It is also said never to lengthen a text, and does so by one character (`TrimGrowsIff`,
  `TrimGrowsWitness`). An array capped inside an array that is itself cut is not looked into
  (`NestedCapIsMissed`).
- A string that was long enough can be trimmed below its own minLength, even by the trim the
  documentation describes (`TrimmedBelowItsFloor`); exactly when is read off the text
  (`TrimUndercutsIff`, `IntendedTrimUndercutsIff`). An item that violates its schema is said to stay a
  violation; past the cut of an over-long array it is forgiven (`CutForgivesItems`,
  `ListForgivenIff`). `ShippedClampVerdict` has the whole condition.
- The elision marker of a preview counts the tail with the newline that was added to it: the content
  left out is two characters more than the number printed (`MarkerFallsTwoShort`).
- A flood window is said to cost one probe. It costs more than one exactly when one of its probes was
  refused for a reason other than the rate limit, and then one for each of those and one more
  (`Drainer.Live`); `TwoProbesInOneWindow` is a run in which it costs two.
- A break in the audit log is said to stay visible forever. A call looks at the log and the
  checkpoint alone and re-issues its anchor, so a log and a checkpoint replaced together by ones that
  fit each other are absorbed by the calls that follow, without a mark; when the verifier is clean
  again is exact, whatever calls are killed (`RewriteAbsorbedIff`), and a whole log can go without a
  trace (`ErasureLeavesNoTrace`). A break that the log or the checkpoint does show is recorded for
  good (`BreakIsRecordedForever`). What is said of a deleted anchor file holds: it leaves the other
  checks alone, and only until the next call that reaches its anchor (`DeletedAnchorsAcceptIff`,
  `NextAnchorClosesWindow`).
- `verify_chain` raises an IndexError on some foreign files (`VerifyRaisesIff`), and an anchor file
  past its byte cap checks nothing (`OversizedAnchorsCheckNothing`).
- A remote error raised by a request need not answer it: when a restart's handshake is refused, the
  caller gets that error, although no reply carried the request's id (`HandshakeErrorIsRaised`). It is
  the request's own exactly when the child is still there (`ReplyIsOwnIff`).
- A read that times out inside a frame with a Content-Length leaves the rest of the header part in
  the stream, and the next read takes it for a message (`TearFrame`, `TornFrameReads`); it returns the
  message exactly when the timeout left the stream alone (`ReadAgainIff`), which it does exactly when
  no line end had arrived (`Reader.Read`).
- A search index of the right count is taken for right at startup, whatever it holds
  (`StaleIndexStays`).
- The notes that tell how many rows were left out are not charged to the budgets, so the lists sent
  may exceed them by the note (`NoteIsNotCharged`, `DigestNoteIsNotCharged`,
  `HistoryNoteIsNotCharged`).
- A log past its byte cap reads as empty: with a checkpoint on disk it is reported as truncated, and
  the next line starts again at sequence 1 (`OversizedLogReadsAsBroken`).
- A kill between the anchor and the checkpoint is reported as a rollback until the next call
  (`RunVerdict`, `RolledBackIff`).
- Content-Length is only recognised as the first header (`LengthHeaderMustComeFirst`).
- A window that completed after an earlier failed rollback answers ok when it completes and not ok
  ever after (`CompletedWindowAnswers`); the count that completes it is of healthy observations in
  all, not in a row (`CompletesAtTheCount`).
- `digest_episode` is described as keeping the newest events. It keeps every event that still fits,
  so an older one may be kept over a newer one (`DigestSkipsIff`). `digest_history` notes an omission
  of zero rows when its single row is too large (`DigestHistory`).
- The first length tried when a memory row is shortened forgets the two quotes around the text and
  never fits (`FirstCutNeverFits`).
- A row is said to be sent as its shape only when there is nothing left to shorten. The loop takes an
  excess counted in encoded characters off a length counted in plain ones, so on a text with many
  escapes it overshoots and gives the row up although a cut would fit (`NewlinesAreGivenUp`); exactly
  when is `MissedIff` and, for the row, `GivenUpNeedlesslyIff`. Without escapes nothing is missed
  (`PlainTextIsNotMissed`).
- The longest text of a row is said to be cut. It is the first in a fixed order that the loop can cut
  (`LongestIsCutIff`, `LongestIsLeft`). The mark behind it prints the length of the whole text as what
  was left out (`MarkOverstates`).
- With no rotation hours configured the agenda's interval is zero, and under a clock that does not
  advance the first item is asked every turn (`NoRotationStarves`); a clock that moves between rounds
  is enough (`EveryItemComesRound`).

## Model

| member | source | states |
|---|---|---|
| `AuditLog.StateDirectory.ReadLog` | skynet/memory_audit.py:182-206 | the loop finds the first line that does not name its own position and the hash of the line before it; an oversized log has no lines |
| `AuditLog.StateDirectory.AnchorHashes` | skynet/memory_audit.py:301-331 | the last well-formed anchor per sequence, over the whole file |
| `AuditLog.StateDirectory.VerifyChain` | skynet/memory_audit.py:230-298 | the verdict of the three checks in their order, for any three files at all |
| `AuditLog.StateDirectory.CheckpointMemoryAudit` | skynet/memory_audit.py:373-430 | log line, then anchor, then checkpoint, with a kill possible before each; what each kill leaves on disk |
| `AuditLog.FirstFailing` | skynet/memory_audit.py:284-289 | the ascending walk stops at the least anchor that names no line or another line |
| `AuditLogProofs.EveryRunIsHonest` | skynet/memory_audit.py:373-430 | after every run of calls, whatever their kills: line k carries sequence k and the hash of line k-1, every anchor names a logged line, the checkpoint names the line of the last call that was not killed |
| `AuditLogProofs.HonestVerdict` | skynet/memory_audit.py:230-298 | an honest state is clean, except that an anchor ahead of an existing checkpoint is a rollback |
| `AuditLogProofs.RunVerdict` | skynet/memory_audit.py:230-298 | the verifier's answer after any run under the byte caps |
| `AuditLogProofs.RolledBackIff` | skynet/memory_audit.py:291-297 | that exception in terms of the calls: one wrote the checkpoint, a later one was killed after its anchor, none finished since |
| `AuditLogProofs.BackwardWalk` | skynet/memory_audit.py:195-206 | two chains that agree in the hash of one line agree in every line before it |
| `AuditLogProofs.AnchorsPassIff` | skynet/memory_audit.py:277-290 | all anchors pass exactly when the log up to the highest anchored sequence is the one they were made for |
| `AuditLogProofs.RewriteVerdict` | skynet/memory_audit.py:230-298 | the verdict on any replaced log and checkpoint beside an honest anchor file, both ways |
| `AuditLogProofs.RewriteIsSeen` | skynet/memory_audit.py:230-298 | the tamper theorem: after any run, any replacement of log and checkpoint verifies exactly when it is a chain whose anchored lines are the ones originally appended and the checkpoint neither lags nor misnames |
| `AuditLogProofs.LogOnlyGrows` | skynet/memory_audit.py:409-419 | no call takes a log line or an anchor away |
| `AuditLogProofs.BreakIsRecordedForever` | skynet/memory_audit.py:391-419 | a call marks its line with b exactly when line b is the first that does not link, or the first the checkpoint names and the log lacks; the marked line stays through all later calls |
| `AuditErasure.CallsContinue` | skynet/memory_audit.py:391-430 | calls, wherever they are killed, after any log and checkpoint that fit each other append unmarked, linked lines and renew the anchors of the lines whose call got that far |
| `AuditErasure.SurvivorsPassIff` | skynet/memory_audit.py:277-290 | anchors of an honest log pass exactly on the original lines up to the highest of them within the new log |
| `AuditErasure.RewriteAbsorbedIff` | skynet/memory_audit.py:385-430 | after any run, any log and checkpoint that fit each other put in place, and any calls after that, killed or not: no line is marked, and the verifier is clean exactly when the log reaches the highest anchor again, keeps the original lines up to the highest anchor that was not renewed, and the checkpoint is not behind the anchors |
| `AuditErasure.UnkilledAbsorbedIff` | skynet/memory_audit.py:385-430 | for calls that are not killed: exactly when they reached the highest anchored sequence and the new log kept the original lines up to the highest anchor within it |
| `AuditErasure.ErasureLeavesNoTrace` | skynet/memory_audit.py:385-430 | a log erased with its checkpoint leaves no trace after as many calls as lines were anchored, against what the docstring promises |
| `AuditErasure.CoveredIsShorter` | skynet/memory_audit.py:409-420 | when no call was killed before its anchor, that highest anchor is the shorter of the anchored and the kept length |
| `AuditErasure.DeletedAnchorsAcceptIff` | skynet/memory_audit.py:43-46 | without an anchor file exactly the chains whose checkpoint fits are accepted, whatever was logged |
| `AuditErasure.NextAnchorClosesWindow` | skynet/memory_audit.py:43-46 | one more call that reaches its anchor, and every rewrite of the log and the checkpoint is seen again, down to the first line |
| `AuditLogProofs.TruncationIsSeen` | skynet/memory_audit.py:209-227 | dropping committed lines is reported at the first line dropped, and recorded by the next call |
| `AuditLogProofs.OversizedLogReadsAsBroken` | skynet/memory_audit.py:188-190 | what the byte cap does to an honest log, with a checkpoint, with anchors alone, and with neither |
| `AuditLogProofs.OversizedAnchorsCheckNothing` | skynet/memory_audit.py:301-331 | past the anchors' byte cap an honest state and even an emptied log are clean |
| `AuditLogProofs.VerifyRaisesIff` | skynet/memory_audit.py:230-298 | exactly when the verifier raises instead of answering |
| `AuditReports.ChainBrokenIff` | skynet/memory_audit.py:194-206 | a broken chain is reported exactly at the first line that has not its own position and the hash of the line before it |
| `AuditReports.ShorterIff` | skynet/memory_audit.py:209-227 | lines that the checkpoint names and the log lacks are reported exactly at the first of them |
| `AuditReports.LastLineChangedIff` | skynet/memory_audit.py:266-269 | exactly when the last line is reported as changed |
| `AuditReports.AnchoredLineMissingIff` | skynet/memory_audit.py:279-283 | exactly when an anchored line is reported as missing, behind the last line |
| `AuditReports.AnchoredLineChangedIff` | skynet/memory_audit.py:284-290 | an anchored line is reported as changed exactly at the least anchor that disagrees with the line it names |
| `AuditReports.RollbackIff` | skynet/memory_audit.py:291-297 | exactly when an old checkpoint is reported, at the highest anchor |
| `AuditReports.RewriteIsLocated` | skynet/memory_audit.py:277-291 | a rewrite of an honest run that still chains is reported at the least anchored sequence up to which the new log is not the old one |
| `AuditReports.EditIsLocated` | skynet/memory_audit.py:230-298 | one line of an honest run edited: the report is at that line, at the next, or, for the last line, at it if the checkpoint or an anchor names it |
| `Placement.FuseScores` | skynet/memory_store.py:501-514 | exactly the ids some axis returned are scored, each with the sum of weight/(60 + rank) over the axes |
| `Placement.Rank` | skynet/memory_store.py:422-423 | the scored ids, each once, by score and then id |
| `Placement.RankedIsRanking` | skynet/memory_store.py:423 | that order is strict and lists every scored id |
| `Placement.PlaceFrom` | skynet/memory_store.py:429-432 | the inner loop fills the first empty slot from its start on, or none |
| `Placement.PlaceLexical` | skynet/memory_store.py:425-432 | pass 1 over the slot array |
| `Placement.PlaceOthers` | skynet/memory_store.py:433-447 | passes 2 and 3 over the slot array |
| `Placement.PlaceBounded` | skynet/memory_store.py:398-448 | the page of the three passes in order, with each id's own score |
| `PlacementProofs.NoGap` | skynet/memory_store.py:425-432 | the pigeonhole: after pass 1 no slot below the lexical count is empty |
| `PlacementProofs.NothingAbove` | skynet/memory_store.py:425-432 | and no slot past the lexical count is filled |
| `PlacementProofs.LexicalPassFillsFront` | skynet/memory_store.py:425-432 | pass 1 fills slots 0 to min(lexical count, limit)-1 and no other, with different lexical ids, the one at slot s of lexical rank at most s+1+max_lift |
| `PlacementProofs.RescueIsIdle` | skynet/memory_store.py:440-447 | the rescue pass never places anything |
| `PlacementProofs.PageShape` | skynet/memory_store.py:398-448 | every page: lexical ids first with bounded lift, then the others in fused order, no duplicates, min(limit, scored ids) entries |
| `PlacementProofs.NoLiftKeepsLexicalOrder` | skynet/memory_store.py:429 | max_lift 0 gives the lexical order itself |
| `PlacementProofs.FullLiftKeepsFusedOrder` | skynet/memory_store.py:429 | max_lift of at least the lexical count less one gives the lexical ids in fused order |
| `PlacementProofs.SearchPage` | skynet/memory_store.py:511-517 | the search's own call meets the placement's assumptions and fills the page |
| `PlacementProofs.ScoresFall` | skynet/memory_store.py:423-448 | behind the lexical ids the scores of a page fall, and no scored id left out would have come before any of them |
| `PlacementProofs.ShareIs` | skynet/memory_store.py:505-514 | an axis gives an id its weight over sixty plus its rank, counted from one, and nothing to an id it does not have |
| `PlacementProofs.AheadEverywhereFusesHigher` | skynet/memory_store.py:501-514 | an id that comes before another on every axis gets the higher score |
| `KindMerge.ShippedAliasesAreSettled` | skynet/memory_store.py:11-77 | every alias leads to a canonical kind and no canonical kind is an alias |
| `KindMerge.NormalizedKindIsCanonical` | skynet/memory_store.py:80-84 | the vocabulary is closed and normalising is idempotent |
| `KindMerge.MemoryStore.constructor` | skynet/memory_store.py:137-161 | startup leaves the two tables in agreement exactly when an index of the right count already did, or one of another count could be rebuilt |
| `KindMerge.AgreeCounts` | skynet/memory_store.py:158-161 | an index in agreement has the memories' count, so a different count does mean a stale index |
| `KindMerge.StaleIndexStays` | skynet/memory_store.py:141-161 | and an equal one does not mean a good one: an index it leaves out of step |
| `KindMerge.MemoryStore.RebuildIndex` | skynet/memory_store.py:163-169 | afterwards the projection has exactly one entry per memory, with its kind and content |
| `KindMerge.MemoryStore.IndexMemory` | skynet/memory_store.py:171-179 | the id's entries are replaced by one |
| `KindMerge.MemoryStore.DeleteMemory` | skynet/memory_store.py:181-184 | row and entries go together |
| `KindMerge.MemoryStore.NormalizeLegacyKinds` | skynet/memory_store.py:198-222 | uniqueness is kept, and the agreement of the two tables where it held, every class keeps a survivor at least as confident as each of its rows, the count is that of the legacy rows |
| `KindMerge.DeleteAgrees` | skynet/memory_store.py:181-184 | a deletion keeps the tables equal row for row |
| `KindMerge.ReindexAgrees` | skynet/memory_store.py:171-179 | a rewrite with re-indexing keeps the tables equal row for row |
| `KindMerge.DropKeepsMigrating` | skynet/memory_store.py:212-213 | the dropped row's class is still represented |
| `KindMerge.RekindKeepsMigrating` | skynet/memory_store.py:215-220 | the row that takes over keeps uniqueness and represents both |
| `KindMerge.OneSurvivorPerClass` | skynet/memory_store.py:198-222 | exactly one row per (canonical kind, content) class, an old one, with the highest confidence |
| `KindMerge.NoLegacyLeft` | skynet/memory_store.py:198-222 | no aliased kind remains |
| `KindMerge.SecondRunIsIdle` | skynet/memory_store.py:198-222 | a second run changes nothing |
| `Framing.Reader.ReadUntil` | skynet/mcp.py:341-358 | the loop over chunks finds the stream's first line end, or its excess, or its absence; nothing is lost |
| `Framing.Reader.NextLine` | skynet/mcp.py:299-307 | the next line of the stream, stripped, or the error that ends the read; a timeout leaves the stream alone and means that no line end had arrived |
| `Framing.Reader.ReadExact` | skynet/mcp.py:325-339 | exactly the bytes asked for, the rest stays; no more is taken from the pipe than they need; a timeout comes exactly after the chunks allowed for |
| `Framing.Reader.ReadHeaderLines` | skynet/mcp.py:303-312 | the header loop over chunks agrees with the headers of the whole stream |
| `Framing.Reader.Read` | skynet/mcp.py:290-323 | the reply and what is left depend on the bytes alone, not on the chunks; consumed, buffered and unread bytes always make up the stream; it waits for no more chunks than the deadline allows over all its parts, and times out only after all of them, and not while bytes keep coming; a timeout leaves the stream alone exactly when no line end had arrived, and otherwise tears a frame that announced its length |
| `FramingProofs.DecimalIsDigits` | skynet/mcp.py:313 | the printed length parses back to itself |
| `FramingProofs.FrameReadsBack` | skynet/mcp.py:281-323 | one read gives the body the server framed and takes exactly its bytes |
| `FramingProofs.StreamReadsBack` | skynet/mcp.py:281-323 | any concatenation of frames of both kinds reads back in order |
| `FramingProofs.ReadSession` | skynet/mcp.py:252-358 | reads that go on after timeouts return the messages in order and stand between them, as long as no frame with a length is torn |
| `FramingProofs.ReadStream` | skynet/mcp.py:281-358 | the same for any stream of frames of both kinds: no timeout ever harms one-line frames, and with time enough everything is read |
| `FramingProofs.TornFrameReads` | skynet/mcp.py:299-323 | what the next read makes of a torn frame: a leftover header, the blank line as an empty message, or the body read as a frame |
| `FramingProofs.ReadAgainIff` | skynet/mcp.py:252-323 | after a timeout the next read returns the message exactly when the stream was left alone |
| `FramingProofs.TearFrame` | skynet/mcp.py:299-323 | a deadline between the Content-Length line and the blank line: the next read gives an empty message |
| `FramingProofs.JsonObjectIsOneLine` | skynet/mcp.py:281-288 | what the client writes is such a frame |
| `FramingProofs.LengthHeaderMustComeFirst` | skynet/mcp.py:301-320 | any other first header is taken for a message |
| `FramingText.LineIff` | skynet/mcp.py:341-358 | exactly when the stream gives a line, which one, and exactly when it is refused for its length |
| `FramingText.StripIs` | skynet/mcp.py:300-306 | stripping takes exactly the whitespace at both ends |
| `FramingText.NumberIs` | skynet/mcp.py:314 | exactly which texts are taken for a length, and its value |
| `FramingText.LengthHeaderIff` | skynet/mcp.py:302 | exactly which first lines announce a length |
| `FramingText.FurtherHeader` | skynet/mcp.py:304-313 | what a further header does: a later length wins, others are passed over, one without a colon is refused |
| `Restart.Client.AwaitReply` | skynet/mcp.py:241-248 | the wait ends on any finite server output, as the output itself settles it |
| `RestartProofs.SettledByOwnReply` | skynet/mcp.py:241-248 | a request is settled by the first reply with its own id, if only replies to others come before it, and by no other |
| `Restart.Client.Start` | skynet/mcp.py:86-104 | the client and the error after a start, for any children: the handshake is one attempt, its remote error is raised as such, a failed one leaves no process |
| `Restart.HandshakeIsOneAttempt` | skynet/mcp.py:91-99 | the handshake's request never restarts |
| `Restart.Client.RestartLocked` | skynet/mcp.py:205-210 | counted first, then closed and started; the start's error goes to the caller |
| `Restart.Client.Request` | skynet/mcp.py:226-260 | it ends, in the state and with the outcome of the specified attempts and restarts, for any supply of children |
| `RestartProofs.RequestStaysInBudget` | skynet/mcp.py:212-260 | restarts stay within the budget and each starts one child at most; a method outside the harmless set is written at most once, any other once plus once per restart; it gives up with a child still there only when no restart is allowed any more |
| `RestartProofs.ReplyIsOwnIff` | skynet/mcp.py:231-260 | a result is the last message read, carries the request's id and follows its own write; a remote error does exactly when the child is still there, and otherwise is the reply to a restart's handshake |
| `RestartProofs.HandshakeErrorIsRaised` | skynet/mcp.py:102-104 | a request that raises a remote error although no reply carried its id |
| `RestartProofs.RequestKeepsIds` | skynet/mcp.py:226-231 | a request keeps one method per id |
| `RestartRuns.RunKeepsIds` | skynet/mcp.py:86-275 | over any run of starts, requests, restarts, notifications and closes, all that was written under one id is one method |
| `RestartRuns.CallWritesItsOwn` | skynet/mcp.py:86-275 | a call only adds to what was sent, and only under ids handed out by it |
| `RestartRuns.EveryMessageHasItsCall` | skynet/mcp.py:205-260 | over any run every message was written by one of its calls |
| `RestartRuns.IdsBelongToOneCall` | skynet/mcp.py:226-231 | over any run no id is written by two calls |
| `RestartRuns.RunStaysInBudget` | skynet/mcp.py:205-260 | over any run the restarts are those the caller asked for and at most the configured number more, and every child taken was asked for by a start or a counted restart |
| `RestartReplay.NeverReplayed` | skynet/mcp.py:212-224 | a request other than the handshake and the tool listing, `tools/call` above all, or one that may not restart, is written once at most and restarts nothing, whatever the children do |
| `RestartReplay.RunNeverReplays` | skynet/mcp.py:212-260 | over any run nothing but the handshake and the tool listing goes out twice under one id |
| `RestartReplay.StartSucceedsIff` | skynet/mcp.py:86-104 | a start succeeds exactly when the child launched takes both messages and answers the handshake with an object, and what is written and read then |
| `RestartReplay.RequestIsAnswered` | skynet/mcp.py:226-260 | a request whose child answers is written once and comes back with that answer |
| `RestartReplay.HarmlessIsSentAgain` | skynet/mcp.py:226-260 | a tool listing whose child does not answer, with a restart left and a child that does, comes back with that child's answer, written again behind one handshake |
| `Transcript.ComputeTailStart` | skynet/react.py:1545-1551 | the walk back from a tool result |
| `Transcript.SucceededToolNames` | skynet/react.py:942-972 | the first-in-first-out queue names exactly the call at each result's place in its own batch |
| `Transcript.SucceededIff` | skynet/react.py:942-972 | a tool is named exactly if a result that reports success answers a call for it |
| `Transcript.WellPairedIsPaired` | skynet/react.py:523-538 | each result follows the message that called for it, with only results of the same batch between |
| `Transcript.OpenIsRestOfBatch` | skynet/react.py:540-542 | the unanswered calls are the rest of the last batch |
| `Transcript.ResultAnswersFirstOpen` | skynet/react.py:692-696 | a result answers the first unanswered call |
| `Transcript.TailStartsClosed` | skynet/react.py:1545-1551 | no cut starts inside a batch |
| `Transcript.TailIsTheLastMessages` | skynet/react.py:1545-1551 | the tail is the last messages asked for, plus only what completes their batch |
| `Transcript.CompactKeepsPairing` | skynet/react.py:1766-1775 | compaction keeps the opening two messages and the pairing, and shrinks the request if it changes anything |
| `Transcript.CompactedLength` | skynet/react.py:1766-1775 | a compacted list has the configured length, or more only where a batch would have been split |
| `Transcript.CompactsIff` | skynet/react.py:1766-1775 | exactly when a list is compacted, and to what |
| `Transcript.LongListIsCut` | skynet/react.py:1766-1775 | where a request costs what it has messages every longer list is cut to the configured length, if that splits no batch |
| `Transcript.FinishCutKeepsPairing` | skynet/react.py:1553-1555 | so does the finish cut, even in the middle of a batch |
| `Transcript.AnsweredIffClosed` | skynet/react.py:540-542 | every call of a paired list has its result exactly when none is left open |
| `ReAct.Episode.MaybeCompact` | skynet/react.py:337-346 | compacts when that is due and changes anything, at most the configured number of times |
| `ReAct.ShrunkIsSound` | skynet/react.py:337-346 | every compaction is counted, makes the request smaller, and keeps the opening and the pairing |
| `ReAct.Episode.Repair` | skynet/react.py:1174-1216 | the loop sends what was sent before with one corrective instruction behind it, at most three times |
| `ReAct.Episode.Finish` | skynet/react.py:814-856 | the closing request and its repairs; the list itself stays |
| `ReAct.ClosingIsPaired` | skynet/react.py:814-856 | the closing request and every repair of it is paired, even in mid-batch; every call in it is answered exactly when the list holds no open one |
| `ReAct.Episode.RunBatch` | skynet/react.py:540-775 | the calls of one batch, one by one, until one of them ends the episode |
| `ReAct.BatchAppends` | skynet/react.py:540-696 | one result for each call, in their order, and nothing sent meanwhile; nothing held is lost however the batch ends |
| `ReAct.BatchEnds` | skynet/react.py:545-775 | the call that ends a batch has its result exactly if it was run, those behind it have none, and what closes is a cut of just that list |
| `ReAct.TurnWorksIff` | skynet/react.py:411-696 | exactly a turn whose calls all ran with nothing closing behind them lets the episode go on, and what is held then |
| `ReAct.StepGoesOnIff` | skynet/react.py:312-696 | exactly when a step neither ends the episode nor compacts; it adds the delivery, the warnings, the turn and its results, and asks with the list before the turn |
| `ReAct.StepCompactsIff` | skynet/react.py:337-404 | exactly when a step compacts, and that it then asks nothing |
| `ReAct.StepEnds` | skynet/react.py:314-541 | what is held and what is sent at every other ending |
| `ReAct.Episode.Run` | skynet/react.py:312-775 | the step loop over whatever it meets |
| `ReAct.RunKeepsPairing` | skynet/react.py:312-775 | through every warning, delivery, compaction, batch, ending and repair, the list held and every list sent keep their opening and each result behind its own call; until the episode is over every call sent is answered |
| `ReAct.RunAsks` | skynet/react.py:312-775 | over any run every step compacted or asked the model once; ending costs at most the closing request and its repairs more; without a compaction nothing held is lost |
| `Preview.BoundedPreview` | skynet/react.py:203-234 | never longer than the limit; head, settled marker and tail exactly where each branch says |
| `Preview.MarkerIsSettled` | skynet/react.py:226-229 | the printed number has reached its fixed point after three rounds, for every length, limit and tail |
| `Preview.DigitsSettle` | skynet/react.py:226-229 | why: the marker can add a digit to its own number only once |
| `Preview.SplitJoins` | skynet/react.py:217 | splitting and joining the content is the identity |
| `Preview.TailIsLastLines` | skynet/react.py:218-223 | the tail is the last whole lines that fit, and one more would not |
| `Preview.TailOfIsLines` | skynet/react.py:215-223 | as many whole lines as were asked for, as far as they fit a quarter of the limit |
| `Preview.TailIsTheEnd` | skynet/react.py:215-225 | a shown tail is the end of the content plus one newline |
| `Preview.MarkerFallsTwoShort` | skynet/react.py:226-233 | exactly how much is left out, against what is printed |
| `PreviewProofs.PiecesAreUnbroken` | skynet/react.py:219 | no piece of the split holds an escaped newline |
| `PreviewProofs.SplitIsUnique` | skynet/react.py:219 | the split is the only such list of pieces that joins to the content |
| `PreviewProofs.TailIsLongest` | skynet/react.py:217-226 | the tail on the content itself: from the first line on from which no more than the lines asked for are left and what is left fits a quarter of the limit |
| `Contracts.TrimToLimit` | skynet/model_contracts.py:499-522 | the two backward loops find the last sentence end, else the last space, in the upper half of the cut |
| `ContractsWalk.DropUnknownFields` | skynet/model_contracts.py:464-491 | the walk deletes exactly what the schema does not declare and lists exactly those paths |
| `ContractsWalk.Walk` | skynet/model_contracts.py:375-451 | both clamp walks: what they leave, and exactly the paths they touched |
| `ContractsWalk.ClampReply` | skynet/model_contracts.py:454-461 | lengths first, counts on what that leaves, one list of paths |
| `ContractsRules.ValidIff` | skynet/model_contracts.py:535-576 | a value is valid exactly when no place in it that the schema speaks of breaks a rule of its own: type, enumeration, length, count, field names |
| `ContractsProofs.DropThenValid` | skynet/model_contracts.py:464-491 | validation after dropping succeeds exactly when the value satisfied the schema with undeclared keys ignored |
| `ContractsProofs.DropTwice` | skynet/model_contracts.py:464-491 | dropping is idempotent |
| `ContractsProofs.DropReportsItsChanges` | skynet/model_contracts.py:464-491 | no path is reported exactly when nothing changed |
| `ContractsProofs.DropKeepsValid` | skynet/model_contracts.py:539-576 | a valid value is left as it is |
| `ContractsProofs.IntendedTrimHonoursLimit` | skynet/model_contracts.py:499-511 | a trim that keeps room for its mark honours the limit |
| `ContractsProofs.ShippedTrimGoesOverByTwo` | skynet/model_contracts.py:512-522 | the shipped one stays within limit + 2 |
| `ContractsProofs.TrimOverrunsIff` | skynet/model_contracts.py:512-522 | it goes over exactly when the last boundary of the cut leaves no room for the mark |
| `ContractsProofs.TrimOverrunWitness` | skynet/model_contracts.py:512-522 | an input on which it does |
| `TrimProofs.TrimIs` | skynet/model_contracts.py:512-522 | what the trim returns, as a relation: cut behind the last sentence end of the kept half, else before its last space, else at the limit |
| `TrimProofs.TrimUndercutsIff` | skynet/model_contracts.py:512-522 | it leaves less than a floor exactly when the boundary that decides lies too near the front |
| `TrimProofs.IntendedTrimUndercutsIff` | skynet/model_contracts.py:499-511 | the same of the trim the documentation describes |
| `TrimProofs.TrimGrowsIff` | skynet/model_contracts.py:509-522 | it lengthens a text exactly when one character is too much and the last one kept ends a sentence |
| `TrimProofs.TrimGrowsWitness` | skynet/model_contracts.py:509-522 | an input on which it does |
| `ContractsProofs.ClampKeepsValid` | skynet/model_contracts.py:454-461 | a valid value is untouched and no path reported |
| `ContractsProofs.ClampKeepsShape` | skynet/model_contracts.py:375-461 | no key is added or removed and no type changes |
| `ContractsProofs.CeilingsSplitOff` | skynet/model_contracts.py:539-576 | validity is the structural rules and the two ceilings |
| `ContractsProofs.LengthsAfterClamp` | skynet/model_contracts.py:375-461 | lengths after clamping fit exactly when every kept trim fits |
| `ContractsProofs.CountsAfterCut` | skynet/model_contracts.py:416-451 | counts after cutting fit exactly when no over-long array sits in an array that was cut |
| `ContractsProofs.SoundAfterClamp` | skynet/model_contracts.py:454-461 | what is left after clamping meets every rule but the ceilings exactly when the value did, with its strings trimmed and the items past a cut forgiven |
| `ContractsProofs.ClampVerdict` | skynet/model_contracts.py:454-461 | exactly when a clamped value validates, for any trimmer, by what it makes of the strings that are kept |
| `TrimProofs.ShippedClampVerdict` | skynet/model_contracts.py:454-461 | exactly when a value clamped by the shipped trim validates, read off the value and the schema alone |
| `ContractsProofs.HonestClampMeetsCeilings` | skynet/model_contracts.py:454-461 | with an honest trim and no capped array inside a capped one no ceiling fails, and a clamped value validates exactly when what is left of it is sound |
| `ContractsProofs.ShippedClampIsWithinTwo` | skynet/model_contracts.py:375-413 | the shipped clamp leaves every string within limit + 2 |
| `ContractsProofs.ShippedClampStillTooLong` | skynet/model_contracts.py:375-413 | a clamped reply that still fails on length |
| `ContractsProofs.NestedCapIsMissed` | skynet/model_contracts.py:416-451 | a clamped reply that still fails on count |
| `TrimProofs.TextSpoiledByTrimIff` | skynet/model_contracts.py:375-413 | a report whose one string is only too long is spoiled exactly when the boundary found leaves no room for the mark or too little before it |
| `TrimProofs.TextSpoiledByIntendedTrimIff` | skynet/model_contracts.py:375-413 | and under the documented trim exactly when it leaves too little |
| `ContractsProofs.TrimmedBelowItsFloor` | skynet/model_contracts.py:512-522 | strings that both trims leave too short |
| `ContractsProofs.ListForgivenIff` | skynet/model_contracts.py:424-434 | a list is forgiven exactly when everything wrong with its items lies past the cut |
| `ContractsProofs.CutForgivesItems` | skynet/model_contracts.py:424-434 | an item of the wrong type that passes |
| `Outbox.Drainer.Pause` | skynet/outbox.py:285-298 | the queue is postponed by the wait asked for, at least a second and at most the cap, and never brought forward |
| `Outbox.Drainer.SendWithRateLimit` | skynet/outbox.py:410-434 | one request, made when no flood wait runs, or a second one for a message that is held; how it ends is the transport's last answer; a rate limit becomes a deferral exactly outside that mode |
| `Outbox.Drainer.Try` | skynet/outbox.py:411-434 | one attempt of that loop: its request, the pause if it is rate limited, and whether another attempt follows |
| `Outbox.Drainer.ClaimOutbox` | skynet/store.py:805-813 | the oldest messages that wait or whose lease has lapsed, as many as asked for, each charged one attempt |
| `Outbox.LeaseRuns` | skynet/store.py:805-813 | a claimed message is left alone for five minutes and may be claimed again after that |
| `Outbox.Drainer.MarkFailed` | skynet/store.py:818-833 | back to the queue, or dead at the cap |
| `Outbox.Drainer.Defer` | skynet/outbox.py:345-361 | a deferral restores the attempt count the message had before it was claimed |
| `Outbox.Drainer.Deliver` | skynet/outbox.py:390-408 | a claimed message is delivered, returned or failed, and no other is touched |
| `Outbox.Drainer.Probe` | skynet/outbox.py:300-329 | one request, by the transport's answer: it ends the flood wait, opens a new window, or was refused for another reason and leaves the window open; which sends each window cost |
| `Outbox.Drainer.ProbeWith` | skynet/outbox.py:300-329 | the probe's message is delivered exactly when that request is accepted, and no other is touched |
| `Outbox.Drainer.SuppressBacklog` | skynet/outbox.py:363-388 | exactly the surplus over the limit is parked, the oldest first |
| `Outbox.Drainer.DrainBatch` | skynet/outbox.py:264-279 | the oldest claimable messages are tried in order, all of them unless a flood wait is met and still runs; the untried tail waits as it did before the claim, and nothing is left claimed |
| `Outbox.Drainer.Drain` | skynet/outbox.py:246-279 | over any queue, also one with messages an earlier process left out: nothing it claims is left out for delivery, nothing settled is touched, the count is the count delivered and accepted; no request inside a flood window, one after it, and a queue that is not empty is not passed over; the first drain parks exactly the surplus over the backlog limit, the oldest of it; of what is left, what is not tried stays as it was, and a whole batch is tried unless a flood wait is met |
| `Outbox.Drainer.Live` | skynet/outbox.py:246-434 | over any run: no message is lost; in non-blocking mode one that met only rate limits is never dead-lettered for it; a past flood window cost more than one probe exactly when one of them was refused for another reason; and no request is made while a flood wait runs that an earlier one met, save one retry of the held message in blocking mode |
| `Outbox.TwoProbesInOneWindow` | skynet/outbox.py:285-329 | a run in which one flood window costs two probes |
| `Agenda.RoadmapStore.SeedableItems` | skynet/handoff.py:165-193 | one walk over the agenda finds all unasked items and the longest rested one |
| `Agenda.RoadmapStore.SeedRounds` | skynet/handoff.py:274-312 | the ledger after one call, what was created and what was skipped |
| `AgendaProofs.CallRetiresStrays` | skynet/handoff.py:296-312 | no pending round is left off the agenda, every other earlier round is as it was |
| `AgendaProofs.DueIff` | skynet/handoff.py:146-193 | what is due, read off the ledger: an item never asked, or, if every round was created an interval ago, the one that has rested longest with no round under way |
| `AgendaProofs.WheelOpensIff` | skynet/handoff.py:146-162 | the wheel opens exactly when every round was created an interval ago |
| `AgendaProofs.LimitKeeps` | skynet/handoff.py:193 | a limit keeps that many from the front, a negative one drops that many from the end |
| `AgendaProofs.OneRotationPerCall` | skynet/handoff.py:174-193 | a call asks at most one item again, whatever its limit |
| `AgendaProofs.CallKeepsToLimit` | skynet/handoff.py:193 | a call opens at most as many rounds as its limit |
| `AgendaProofs.RotationWaits` | skynet/handoff.py:146-162 | and only one interval or more after every earlier round |
| `AgendaProofs.EveryRunIsPaced` | skynet/handoff.py:165-294 | along every run rotated rounds are at least one interval apart, and rounds are numbered without gaps |
| `AgendaProofs.IdentitiesAreUnique` | skynet/handoff.py:196-214 | no two rounds share the identity their fingerprints are made of |
| `AgendaProofs.FirstIsDue` | skynet/handoff.py:182-193 | in a calm turn the item before all others gets a round |
| `AgendaProofs.QueueShortens` | skynet/handoff.py:182-193 | an item passed over has strictly fewer items ahead of it afterwards |
| `AgendaProofs.EveryItemComesRound` | skynet/handoff.py:165-294 | if rounds close between turns, N consecutive turns ask every one of N items, whatever the ledger held: with a rotation, or without one when the clock has moved on since the last round |
| `AgendaProofs.IntervalFillsRotation` | skynet/handoff.py:132-143 | N intervals make exactly the configured rotation |
| `AgendaProofs.NoRotationStarves` | skynet/handoff.py:132-143 | without a positive rotation an item can wait through any number of turns |
| `RebootGuard.Window.Begin` | skynet/recovery.py:66-105 | a valid request opens a fresh window and is consumed; an invalid one changes no window |
| `RebootGuard.Window.Observe` | skynet/recovery.py:107-181 | the guard's file after each step, also when the rollback action raises or the process dies in it; the commit rolled back to |
| `RebootGuard.FirstEndIsFirst` | skynet/recovery.py:107-181 | the observation that ends a window is the first that does |
| `RebootGuard.WindowVerdict` | skynet/recovery.py:107-181 | over any observations: open with a true count until the first ending one, then completed, rolled back or quarantined, one of them |
| `RebootGuard.EndIsFinal` | skynet/recovery.py:126-127 | an end is absorbing |
| `RebootGuard.RolledBackMeansItReturned` | skynet/recovery.py:150-181 | a rollback on record returned, on an unhealthy observation in time, and is the first that did |
| `RebootGuard.CompletesAtTheCount` | skynet/recovery.py:134-140 | completion comes exactly at the configured count |
| `RebootGuard.CompletedWindowAnswers` | skynet/recovery.py:126-140 | what a completed window answers then and later |
| `RebootGuard.RunningWindowAnswers` | skynet/recovery.py:107-181 | what an observation of an open window answers in each case |
| `RebootGuard.EndedWindowAnswers` | skynet/recovery.py:107-127 | and of one that was rolled back or set aside |
| `RebootGuard.AttemptsAreCounted` | skynet/recovery.py:160-170 | every rollback that raised is counted |
| `RebootGuard.CommitIff` | skynet/recovery.py:20 | a commit is seven to sixty-four hexadecimal digits |
| `RebootGuard.OddFilesAreHandled` | skynet/recovery.py:107-131 | files that hold no guard, and guards without a start or a count |
| `RequiredSample.RoundIsNearest` | skynet/recall_scorecard.py:430 | the nearest integer, and the even one of two that are equally near |
| `Intervals.RequiredN` | skynet/recall_scorecard.py:406-433 | the least n from 4 to the limit at which the projected gap leaves the band, or that there is none |
| `IntervalsProofs.WilsonForm` | skynet/recall_scorecard.py:333-337 | the interval in closed form |
| `IntervalsProofs.WilsonClampsAreIdle` | skynet/recall_scorecard.py:329-341 | the interval brackets the rate inside [0, 1] without its clamps |
| `IntervalsProofs.DifferenceClampsAreIdle` | skynet/recall_scorecard.py:344-369 | the difference interval brackets the gap inside [-1, 1] without its clamps |
| `IntervalsProofs.SwapNegates` | skynet/recall_scorecard.py:344-369 | swapping the samples negates and swaps the interval |
| `IntervalsProofs.VerdictIsSymmetric` | skynet/recall_scorecard.py:372-385 | the verdict does not depend on which sample is called recorded |
| `IntervalsProofs.DriftIsWide` | skynet/recall_scorecard.py:372-385 | drift means a gap wider than the band, reproduced means equal rates |
| `DriftVerdict.VerdictIff` | skynet/recall_scorecard.py:372-385 | every verdict: reproduced for equal rates, drifted exactly for different rates of at least four scenarios each whose interval lies wholly above 0.10 or below -0.10 |
| `DriftVerdict.DriftIsCalledIff` | skynet/recall_scorecard.py:372-385 | a gap of more than 0.10 is called drift at every number of scenarios from some number on, any other at none |
| `DriftVerdict.PublishedExample` | skynet/recall_scorecard.py:344-356 | 3 of 10 against 9 of 10: the published interval to four digits, and drift |
| `RequiredSample.ProjectionIsClose` | skynet/recall_scorecard.py:430 | a rate carried to n scenarios is off by at most half of one |
| `RequiredSample.LowStaysBelow` | skynet/recall_scorecard.py:362-369 | from four scenarios on the interval reaches at least 1/n past the gap |
| `RequiredSample.InsideBandIsNeverDecided` | skynet/recall_scorecard.py:418-433 | a gap inside the band is decided at no n |
| `RequiredSample.WideGapIsDecided` | skynet/recall_scorecard.py:418-433 | a wider one is decided at every n from some n on |
| `RequiredSample.BudgetExistsIff` | skynet/recall_scorecard.py:418-433 | a budget exists exactly when the gap is wider than the band |
| `MemoryBudget.TruncatedItem` | skynet/memory.py:186-219 | the shrinking loop ends, for any escape widths, with the row, its first text that can be cut, or its shape |
| `MemoryBudget.BoundedContext` | skynet/memory.py:452-507 | the newest rows that fit, the newest of them shortened if it must be, and the count left out |
| `MemoryBudget.DigestHistory` | skynet/memory.py:170-184 | the newest rows that fit, the very newest whatever its size |
| `MemoryBudget.DigestEpisode` | skynet/memory.py:128-144 | the rows kept, and kept plus omitted is all |
| `MemoryBudgetProofs.ShavedFits` | skynet/memory.py:208-216 | a text is only replaced by a proper prefix with which the row fits |
| `MemoryBudgetProofs.FirstCutNeverFits` | skynet/memory.py:206-213 | the first length tried never fits |
| `MemoryBudgetProofs.OneShaveIsEnough` | skynet/memory.py:208-216 | once inside the text one shave decides: the loop succeeds exactly when the encoded excess leaves something of the plain length |
| `MemoryBudgetProofs.ShortenedIsHonest` | skynet/memory.py:186-219 | one text cut and everything else kept, or a shape that tells the size |
| `MemoryBudgetProofs.NewestIsHalved` | skynet/memory.py:483-496 | a newest row over the budget is shortened to half of it, and at least to one |
| `MemoryBudgetProofs.AdmittedFits` | skynet/memory.py:479-500 | an admitted newest row fits unless it became a shape, and a shortened one leaves half of the budget |
| `MemoryBudgetProofs.ShavedIff` | skynet/memory.py:206-216 | exactly when the loop cuts a text, in closed form |
| `MemoryBudgetProofs.CanBeCutIff` | skynet/memory.py:206-216 | some marked proper prefix fits exactly when the shortest does |
| `MemoryBudgetProofs.MissedIff` | skynet/memory.py:206-216 | exactly when a text could be cut and the loop does not |
| `MemoryBudgetProofs.OvershootsIff` | skynet/memory.py:206-216 | the overshoot in escapes: the characters first kept gain as many in the encoding, but for the quotes and the mark |
| `MemoryBudgetProofs.PlainTextIsNotMissed` | skynet/memory.py:206-216 | without escapes the loop cuts whatever can be cut |
| `MemoryBudgetProofs.ShapeIff` | skynet/memory.py:186-219 | the newest row is given up for its shape exactly when it is over the limit and the loop cuts no text of it to half of that |
| `MemoryBudgetProofs.GivenUpNeedlesslyIff` | skynet/memory.py:217-219 | exactly when it is given up although a text of it could be cut, against what the comment says |
| `MemoryBudgetProofs.NewlinesAreGivenUp` | skynet/memory.py:217-219 | such a row |
| `MemoryBudgetProofs.LongestIsCutIff` | skynet/memory.py:196-206 | a longest text is cut exactly when the first that the loop can cut is one |
| `MemoryBudgetProofs.LongestIsLeft` | skynet/memory.py:196-206 | a row whose longest text is left and another cut |
| `MemoryBudgetProofs.MarkOverstates` | skynet/memory.py:36-37 | the mark prints the whole length, which is never what was left out |
| `MemoryBudgetProofs.BudgetIsKeptIff` | skynet/memory.py:475-507 | the rows kept are within the limit exactly when the newest is not given up for a shape larger than it, read off that row and the limit |
| `MemoryBudgetProofs.NoteIsNotCharged` | skynet/memory.py:505-507 | the list sent is over the limit by the note at most, and by all of it when the newest row fills the budget |
| `MemoryBudgetProofs.NewestIsUnique` | skynet/memory.py:475-507 | the contract of the selection settles how many rows are kept |
| `MemoryBudgetProofs.NothingLeftOutFits` | skynet/memory.py:133-140 | no event the digest left out would still fit |
| `MemoryBudgetProofs.DigestFitsIff` | skynet/memory.py:133-140 | the rows of the digest are within its limit exactly when its newest row is |
| `MemoryBudgetProofs.DigestNoteIsNotCharged` | skynet/memory.py:142-144 | with its note the digest is over the limit by the note at most, and by all of it when the newest row fills the budget |
| `MemoryBudgetProofs.HistoryNoteIsNotCharged` | skynet/memory.py:174-184 | the same of the transcript's digest |
| `MemoryBudgetProofs.DigestSkipsIff` | skynet/memory.py:133-140 | exactly when an older event is kept over a newer one |

## Left out

- memory_audit.py: torn lines and failing reads or writes, blank lines and Unicode line separators inside a log line, `memory_digest` and the continuity report; a record's other fields are one opaque value.
- memory_store.py: SQL, FTS5, bm25, commits, the lifecycle and cohort filters, spaced replay and the attention pool; ranked id lists are inputs, ids are integers, and scores are exact reals.
- mcp.py: decoding a frame's body, the clock (a deadline is the number of chunks that arrive before it), stderr, process groups, locks, the tool map; a reply id of JSON true or 1.0, which Python takes for 1; integers of more digits than Python parses.
- react.py: providers and their retries, tools, reports, stored transcripts; a closing request that does not fit its budget or fails is counted as sent.
- `ReAct.Episode.Run`: the budgets, whether a compaction is due and what each call and reply comes to are inputs of the steps, so it does not say when they arise.
- model_contracts.py: JSON text parsing, fences and repair, error messages; schemas with `enum` off strings, and types given as lists.
- `ContractsWalk.DropUnknownFields`: returns the changed value instead of changing it in place, so aliasing is not captured, and visits keys in any order, so the order of the reported paths is not stated.
- `ContractsWalk.Walk`: the same.
- outbox.py: rendering, the transport's HTTP, other consumers at the same time, alerts other than as messages of the same queue, failing store calls; `deliver_to_jsonl` and `deliver_to_http`.
- handoff.py: goals and re-homing, canonical memories, events, timestamps that do not parse; a round's identity is its title and number, not its two hashes.
- recovery.py: failing writes of the guard's file, quarantine names, the release field.
- `RebootGuard.WindowVerdict`: is about a window that a request opened; guards written by hand are covered step by step only.
- recall_scorecard.py: rounding in floating point, the normal quantile (any z; the band theorem needs z*z of at least 2.4, the shipped level gives about 3.84), situations, readings and the report.
- memory.py: the requests, retries and parsing of the consolidation, how events become digest rows, prompt ceilings.
- policy, planner, proposal, scheduler, heartbeat, reporting and command-line modules: not part of this model.
