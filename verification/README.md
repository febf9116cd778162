# PureBoot verification

Dafny models of the parts of PureBoot's back end that carry protocols, state machines and text
transformations, with proofs about them. `dafny verify dfyconfig.toml` checks everything.

| area | modules |
|---|---|
| TFTP (RFC 1350, RFC 2347, RFC 2348) | `TftpCodec` packets, `TftpBlocks` cutting a file into payloads, `TftpTransfer` one transfer against a client and a network |
| offline sync of the site agent | `Connectivity`, `SyncQueue`, `CentralProxy`, `QueueProcessor`, and `SyncConvergence` for the end-to-end results |
| templates | `Scanner` (leftmost scanning), `IncludePattern`, `VariableResolver`, `TemplateRenderer` |
| bandwidth | `BandwidthThrottler` |
| approvals | `Approvals`, `ApprovalSessions` for requests that run side by side, `ApprovalRules` |
| proxy DHCP (RFC 2132, RFC 4578) | `DhcpProxy` |
| nodes | `NodeLifecycle`, `Conflicts`, `HealthScore`, `HealthAlerts` |
| shared | `Wrappers`, `Sequences`, `Ascii` |

How the models are made:

- Objects that the source updates are classes, its loops are loops, its dictionaries and tables are
  maps and sequences. A method is proved against a function of the old state; the lemmas are about
  those functions, and about whole runs of them.
- In `TftpTransfer`, `QueueProcessor`, `BandwidthThrottler` and `Approvals`, an `await` is a call of an
  `Interleave` method in which everything else that may run does run, any number of times and in any
  order. In `QueueProcessor` the number is a budget that may have any value; statements about an
  undisturbed drain say that the budget was not touched. The methods of `Approvals` return the row that
  their write meets; `ApprovalSessions` has all runs of such requests as sequences of checks and writes.
- In `CentralProxy`, `NodeLifecycle`, `Conflicts` and `HealthAlerts` a call is one step.
- The network of `TftpTransfer` never forgets a datagram: any datagram ever sent may be delivered at
  any time, repeatedly or never. Its client follows section 2 of RFC 1350, and works with the block
  size the OACK announces.
- Times, fresh ids, timeouts, answers of central, fetched template texts and the contents of files
  are parameters or arbitrary values. Floats are real numbers; `int(x)` truncates towards zero.

Where the code departs from what its names and comments suggest, the code is modelled:

- A queue item is sent up to `max_retries + 1` times, because the snapshot of `attempts` is taken
  before the attempt is counted; `retry_failed` leaves the count as it is.
- `find_matching_rule` documents a ranking of scopes, but only the priority ranks rules. `ApprovalRules`
  proves for which queries and for which lists of rules the ranking holds all the same.
- `cast_vote`, `cancel_approval` and `process_expired_approvals` check what they loaded and write later,
  without a second look. `ApprovalSessions` proves exactly which writes keep the four-eye principle, the
  vote counts and a decision once made, and that one request at a time always does.
- A vote on an expired approval marks it as expired and raises, so that the session of the route rolls the
  mark back; runs are proved with and without the rollback.
- A requested `blksize` of 0 is accepted and serves one empty block; -1 serves the file as one
  block. An empty file is served without any DATA packet.
- The failure callback of a deployment is accepted for pending nodes. There the third failure raises;
  the attempts stay bounded only because the database session rolls the request back.
- A node that comes back from offline to stale keeps its offline alert until it is healthy.
- `check_conflicts` reports a duplicate MAC in the cache as missing from central, even if central has it.

## Model

| member | source | states |
|---|---|---|
| TftpCodec.BuildOack | src/pxe/tftp_server.py:121-127 | the OACK holds every option in order, NUL-terminated; it fails exactly when some text is not ASCII |
| TftpCodec.ParseRequest | src/pxe/tftp_server.py:69-85 | the request parser with its option loop computes the packet function that the round-trip lemmas speak of, errors included |
| TftpCodec.ParseBuildData | src/pxe/tftp_server.py:87-109 | DATA packets can be built exactly for 16-bit block numbers, and parsing then gives block number and payload back |
| TftpCodec.ParseBuildAck | src/pxe/tftp_server.py:93-114 | the same for ACK packets |
| TftpCodec.ParseBuildError | src/pxe/tftp_server.py:99-119 | ERROR packets can be built exactly for 16-bit codes and ASCII text; they survive the round trip if and only if the text is free of NUL |
| TftpCodec.RequestOptionsPlain | src/pxe/tftp_server.py:76-83 | whatever bytes arrive, the option loop yields only non-empty lower-case NUL-free keys and NUL-free values |
| TftpCodec.ParseRequestInverts | src/pxe/tftp_server.py:69-127 | for every file name, mode and options dict, parsing the printed request gives the dict back if and only if its keys are non-empty, lower-case and NUL-free and its values NUL-free |
| TftpCodec.WireFormat | src/pxe/tftp_server.py:15-127 | every packet starts with its operation code of RFC 1350 or RFC 2347 in network order, and the number it carries follows in network order, for every payload and text |
| TftpCodec.ParsedOpcodes | src/pxe/tftp_server.py:49-67 | only packets with the codes 1 to 5 are parsed, each as what its code says; the errors for all others |
| TftpCodec.ModeDefaultsToOctet | src/pxe/tftp_server.py:72-74 | a request that ends after its file name is one in octet mode without options |
| Ascii.LowerLetters | src/pxe/tftp_server.py:74-80 | lower-casing maps each capital to its own small letter |
| Ascii.OthersKept | src/pxe/tftp_server.py:74-80 | lower-casing changes nothing but capitals |
| TftpBlocks.ReadFile | src/pxe/tftp_server.py:239-260 | the reading loop yields the chunks of the file for every block size: 0 yields nothing, -1 the whole file, anything lower raises |
| TftpBlocks.BlockSizes | src/pxe/tftp_server.py:366-387 | the payloads concatenate to the file, all but the last have the full block size, the last is strictly shorter, and their number is the least that allows it |
| TftpBlocks.BlockNumbersFit | src/pxe/tftp_server.py:367-387 | the block numbers fit in 16 bits if and only if the file is shorter than 65535 full blocks |
| TftpBlocks.ReceiverRecovers | src/pxe/tftp_server.py:366-387 | a receiver that stops at the first short block (section 6 of RFC 1350) recovers exactly the file, if and only if the file is not empty |
| TftpTransfer.InvDeliverToClient | src/pxe/tftp_server.py:366-387 | delivering any datagram ever sent to the client, late or repeated, keeps the protocol invariant |
| TftpTransfer.InvAdvance | src/pxe/tftp_server.py:375-381 | when the sender has seen the acknowledgement of its block the client holds that block, and moving on keeps the invariant |
| TftpTransfer.InvSendData | src/pxe/tftp_server.py:370-374 | putting the current block on the wire keeps the invariant |
| TftpTransfer.SentBlocksCarryPayload | src/pxe/tftp_server.py:349-387 | what is sent after any option negotiation concatenates to the payload of the request, and all blocks but the last have the agreed size, 512 where none was asked for |
| TftpTransfer.DecimalDenotes | src/pxe/tftp_server.py:344-352 | the decimal text of any integer is a numeral without leading zeros, after a minus sign below zero, and denotes that integer |
| TftpTransfer.OackAnnounces | src/pxe/tftp_server.py:336-356 | the OACK has a blksize item if and only if one was requested, denoting the requested size or 65464 if that is less, a tsize item if and only if it was requested and the path exists, denoting its size, and nothing else |
| TftpTransfer.BlocksAsAnnounced | src/pxe/tftp_server.py:349-387 | the number that the blksize item of any such OACK denotes, when at least 1, is the length of every payload but the last |
| TftpTransfer.ServedIff | src/pxe/tftp_server.py:349-352 | a request is served if and only if the file is found and the block size, if any, is a number of at least -1 |
| TftpTransfer.ErrorDatagrams | src/pxe/tftp_server.py:392-410 | the ERROR packets carry code 1 for a missing file, 2 for a refused one and 0 otherwise |
| TftpTransfer.DeliversWholeFile | src/pxe/tftp_server.py:350-352 | a served request carries the whole file if and only if the agreed block size is not 0 or the file is empty |
| TftpTransfer.ClientHoldsPrefix | src/pxe/tftp_server.py:366-390 | under the invariant the client holds a prefix of the file, and the whole file once it saw a short block |
| TftpTransfer.TFTPTransfer.DatagramReceived | src/pxe/tftp_server.py:287-304 | an ACK is remembered and wakes the sender; an ERROR aborts only after some ACK; everything else changes nothing |
| TftpTransfer.TFTPTransfer.Interleave | src/pxe/tftp_server.py:287-313 | whatever the network, the client and the transport do during an await, the invariant holds at every instant of it |
| TftpTransfer.TFTPTransfer.WaitForAck | src/pxe/tftp_server.py:315-328 | at most three waits; True exactly when the last one ended with the wanted acknowledgement; False only after a stop or three fruitless waits |
| TftpTransfer.TFTPTransfer.SendBlock | src/pxe/tftp_server.py:370-379 | a block is sent one to three times, and given up only after three waits that failed |
| TftpTransfer.TFTPTransfer.SendOack | src/pxe/tftp_server.py:333-364 | the OACK goes out, once, announcing exactly what was requested and can be met, if and only if there is something to announce and the request is not refused; which error is raised, and when; otherwise nothing is sent |
| TftpTransfer.TFTPTransfer.SendChunks | src/pxe/tftp_server.py:367-381 | after success the client has accepted every chunk and each went out under its own number; it raises only past 65535 chunks |
| TftpTransfer.TFTPTransfer.SendFinalBlock | src/pxe/tftp_server.py:383-387 | a full last chunk is followed by one empty block whose acknowledgement is not looked at; it raises exactly when its number does not fit |
| TftpTransfer.TFTPTransfer.TrySend | src/pxe/tftp_server.py:332-390 | the whole exchange: what success implies for client and wire, that the OACK is the first datagram and the only OACK, and what causes each error |
| TftpTransfer.TFTPTransfer.SendFile | src/pxe/tftp_server.py:330-400 | in every run the client always holds a prefix of the file and its block count is the sender's or one less; at most 3N+2 datagrams are sent; True means the client holds the payload; the first datagram announces the options, if there are any to announce, and no other OACK is sent; False has a cause, and each exception its ERROR packet |
| Connectivity.OfflineAfterThreshold | src/agent/connectivity.py:132-163 | after any checks the monitor is offline if and only if the last threshold-many checks failed, since the check that completed the run; listeners heard each change in turn |
| Connectivity.TrailingRun | src/agent/connectivity.py:132-163 | the failures counted are those after the last success, all of them |
| Connectivity.LastOnline | src/agent/connectivity.py:132-163 | after any checks the monitor was last online at the last successful one, and counts the successes since the last failure |
| Connectivity.ConnectivityMonitor.UpdateState | src/agent/connectivity.py:132-163 | one check changes counters, flag, times and notifications as the run function says |
| SyncQueue.OldestExists | src/agent/queue.py:143-153 | any set of rows has an oldest one |
| SyncQueue.PeekNext | src/agent/queue.py:143-153 | taking the oldest remaining row extends a selection that is sorted by age and older than the rest |
| SyncQueue.SyncQueue.OnePlace | src/agent/queue.py:185-286 | an id ever enqueued is in exactly one of pending, processing, failed, delivered and cleared |
| SyncQueue.SyncQueue.Enqueue | src/agent/queue.py:92-130 | one new pending row without attempts, or an error and no change for an id already present; ids stay in one place if and only if the id was never used before |
| SyncQueue.SyncQueue.Peek | src/agent/queue.py:132-158 | the pending rows, oldest first, none younger than one left out, as many as the limit allows |
| SyncQueue.SyncQueue.Dequeue | src/agent/queue.py:185-209 | exactly that row is gone, and counts as delivered if it was there |
| SyncQueue.SyncQueue.MarkProcessing | src/agent/queue.py:211-236 | the row is in hand and its attempts counted once more |
| SyncQueue.SyncQueue.MarkPending | src/agent/queue.py:238-262 | only the status changes |
| SyncQueue.SyncQueue.MarkFailed | src/agent/queue.py:264-293 | only status and error change |
| SyncQueue.SyncQueue.GetPendingCount | src/agent/queue.py:295-310 | the scan counts the pending rows: exactly as many as a peek without a limit would return |
| SyncQueue.SyncQueue.ClearFailed | src/agent/queue.py:352-372 | exactly the failed rows are gone, and counted |
| SyncQueue.SyncQueue.RetryFailed | src/agent/queue.py:374-398 | exactly the failed rows are pending again, with their attempts kept |
| CentralProxy.CentralProxy.EnqueueOffline | src/agent/proxy.py:351-360 | a fresh row at the current time, younger than all others, with the length of the log of requests at that time |
| CentralProxy.CentralProxy.RegisterNode | src/agent/proxy.py:308-391 | offline: exactly one fresh row and nothing sent; otherwise exactly the registration request, its reply, and the cache entry of an accepted one |
| CentralProxy.CentralProxy.UpdateNodeState | src/agent/proxy.py:393-476 | the same for state updates; the cache entry changes offline and on success only, and only if there is one |
| CentralProxy.CentralProxy.ReportNodeEvent | src/agent/proxy.py:478-542 | the same for events, which carry the site id and leave the cache alone |
| CentralProxy.CentralProxy.Issue | src/agent/proxy.py:308-542 | any operation queues its offline payload or sends its online request, exactly one of the two |
| CentralProxy.OperationCarried | src/agent/proxy.py:351-420 | registrations and state updates are sent and queued with all that their caller gave |
| CentralProxy.EventCarriesSite | src/agent/proxy.py:499-542 | an event is sent and queued with every entry of its caller, and under the site of the agent unless the caller named another |
| CentralProxy.AcceptedIff | src/agent/queue_processor.py:256-342 | a state update is done with code 200, an event with 200 or 201, a registration with 200 or 201 and data that is not marked queued and either does not deny success or has an id |
| CentralProxy.RegistrationCached | src/agent/proxy.py:369-385 | an accepted registration caches the id and state of central, or discovered, under the MAC registered, and changes nothing else |
| CentralProxy.UpdateCached | src/agent/proxy.py:427-470 | an update changes the cached node of the MAC given, if there is one, and adds, removes or changes no other |
| CentralProxy.LastUpdateWins | src/agent/proxy.py:446-470 | central knows the state of exactly the nodes it accepted an update of, the one of the last |
| QueueProcessor.WeightSplit | src/agent/queue_processor.py:231-240 | the tries left in a table are those of one row and those of the others |
| QueueProcessor.AttemptLowersWeight | src/agent/queue_processor.py:203-242 | every attempt, successful or not, uses up a try; this is why draining ends |
| QueueProcessor.GivenUpIff | src/agent/queue_processor.py:231-240 | a row is given up with exactly the attempt that takes its count past max_retries, and is pending before |
| QueueProcessor.DrainedStep | src/agent/queue_processor.py:203-242 | an attempt keeps the account of a drain: rows are delivered, pending or failed after exhausting their tries, and the rest is untouched |
| QueueProcessor.RunStep | src/agent/queue_processor.py:156-165 | an attempt on the oldest pending row keeps the whole standing of a drain, with counters, order and requests sent |
| QueueProcessor.ReceiptsKept | src/agent/queue_processor.py:203-254 | what other tasks issue and send never invalidates the receipt of a delivered id |
| QueueProcessor.ReceiptAdded | src/agent/queue_processor.py:227-230 | an accepted send gives a new receipt, at a place of the log that serves no other id |
| QueueProcessor.QueueProcessor.Reports | src/agent/connectivity.py:132-163 | connectivity reports and stops during an await touch nothing but the two flags that gate the drain |
| QueueProcessor.QueueProcessor.OtherTask | src/agent/queue_processor.py:344-350 | a step of any other task (an operation, retry, clear, another drain) leaves pending and processing rows as they are |
| QueueProcessor.QueueProcessor.Interleave | src/agent/queue_processor.py:149-168 | any number of such steps during one await |
| QueueProcessor.QueueProcessor.Dispatch | src/agent/queue_processor.py:216-225 | an item sends exactly the request of its payload, or nothing if the payload is invalid, and succeeds if and only if central accepts it |
| QueueProcessor.QueueProcessor.Send | src/agent/queue_processor.py:256-342 | success leaves a receipt: the place in the log of the request sent for this very item in this attempt, accepted and shared with no other id |
| QueueProcessor.QueueProcessor.Begin | src/agent/queue_processor.py:213 | the attempt is counted, and no other task can take the row away |
| QueueProcessor.QueueProcessor.Settle | src/agent/queue_processor.py:227-242 | success deletes the row; failure makes it pending, or failed when the snapshot had used its tries |
| QueueProcessor.QueueProcessor.Finish | src/agent/queue_processor.py:227-254 | the same between other tasks' steps |
| QueueProcessor.QueueProcessor.ProcessItem | src/agent/queue_processor.py:203-254 | one whole attempt: deletes the row only after a send of its own, made in this attempt and accepted, and touches no other pending row |
| QueueProcessor.QueueProcessor.HandleItem | src/agent/queue_processor.py:156-165 | one turn of the inner loop keeps the standing of the drain |
| QueueProcessor.QueueProcessor.ProcessBatch | src/agent/queue_processor.py:156-165 | one batch: the counters count deletions and failed attempts, and a batch that is not cut off makes progress |
| QueueProcessor.QueueProcessor.FetchBatch | src/agent/queue_processor.py:151 | the batch stays valid while other tasks run |
| QueueProcessor.QueueProcessor.Drain | src/agent/queue_processor.py:149-165 | the loop ends; undisturbed it leaves the table in a drained state with nothing pending |
| QueueProcessor.QueueProcessor.TryProcess | src/agent/queue_processor.py:148-183 | the drain and its count of what remains, under the flag that keeps others out |
| QueueProcessor.QueueProcessor.ProcessQueue | src/agent/queue_processor.py:134-201 | in every interleaving: a second drain does nothing, a finished one leaves no row processing, the result counts deletions and failures; it is a success if and only if every attempt ended with a deletion, partial if some did, failed if none did and empty if none was made; every id it delivered has an accepted request of its own, sent during the drain; undisturbed: the outcome of the whole drain, and a success delivered the oldest rows in order |
| SyncConvergence.DrainSplitsPending | src/agent/queue_processor.py:231-242 | an undisturbed drain splits the pending rows into delivered, pending and failed; a failed row was tried exactly as often as its budget allowed, a fresh row at most max_retries + 1 times |
| SyncConvergence.SuccessfulDrain | src/agent/queue_processor.py:176-183 | a drain without failures, even one cut short, delivered a prefix of the queue by age and sent each request once; failures need a refused attempt |
| SyncConvergence.QueuedAsOnline | src/agent/queue_processor.py:256-338 | a queued operation sends the very request it sends online if and only if its ids are not empty |
| SyncConvergence.IssueOrder | src/agent/queue.py:143-153 | a complete drain without failures sends first the requests of the older rows by age, and then those of the operations in the order they were issued |
| SyncConvergence.CacheAgrees | src/agent/proxy.py:429-443 | after updates of cached nodes, the cached state of every node touched equals central's |
| SyncConvergence.IssueOffline | src/agent/proxy.py:411-445 | operations issued offline are queued in order behind whatever is queued already, send nothing and update the cache |
| SyncConvergence.IssueOnline | src/agent/proxy.py:447-470 | operations issued online send exactly their requests, in order |
| SyncConvergence.DrainConverges | src/agent/queue_processor.py:148-183 | with every send accepted there is no failure, and a complete drain gives central the backlog and then the requests of the online run, leaves only rows that were not pending, and a cache that agrees |
| SyncConvergence.OfflineThenDrain | src/agent/queue_processor.py:111-201 | offline issuing behind any backlog, reconnection and one undisturbed drain give central the backlog and then what issuing online sends, for every batch size |
| Scanner.ScanIsFindAll | src/core/template_renderer.py:104 | a text has exactly one leftmost non-overlapping scan, the one computed |
| Scanner.SubstituteAgree | src/core/variable_resolver.py:84 | a substitution depends on the replacements of its matches only |
| Scanner.SubstituteRest | src/core/variable_resolver.py:84 | substituting from inside a text is substituting in the rest of it: text put in is never scanned |
| Scanner.FindAllFirst | src/core/template_renderer.py:104 | the scan of a text is its first match and then the scan of what follows it |
| Scanner.SplicedFirst | src/core/template_renderer.py:108-151 | replacing matches by position keeps the text before the first one, puts in its value, and goes on with the rest |
| IncludePattern.MatchSound | src/core/template_renderer.py:32-34 | what the include matcher accepts is the print of a well-formed directive |
| IncludePattern.MatchComplete | src/core/template_renderer.py:32-34 | every well-formed directive is accepted wherever it stands, and read back as itself |
| IncludePattern.PrintedForms | src/core/template_renderer.py:26-34 | the three forms of a directive as they are written, with or without the v |
| IncludePattern.NameCharsAre | src/core/template_renderer.py:33 | names are made of exactly letters, digits, underscores and hyphens |
| VariableResolver.MatchSound | src/core/variable_resolver.py:54 | what the variable matcher accepts is the print of a well-formed placeholder |
| VariableResolver.MatchComplete | src/core/variable_resolver.py:54 | every well-formed placeholder is accepted and read back |
| VariableResolver.ScanPrintsBack | src/core/variable_resolver.py:54-95 | replacing each placeholder by its own print gives every text back |
| VariableResolver.ResolvesLeftToRight | src/core/variable_resolver.py:65-84 | the text before the first placeholder is copied, the placeholder replaced, and the rest resolved on its own, without rescanning |
| VariableResolver.FirstPlaceholder | src/core/variable_resolver.py:65-84 | every text is free of placeholders and unchanged, or splits at its first one |
| VariableResolver.ReplacedBy | src/core/variable_resolver.py:76-82 | a placeholder gives the value in its context, else its default, else its own text as written |
| VariableResolver.PrintedForms | src/core/variable_resolver.py:38-54 | a placeholder as it is written, with and without a default |
| VariableResolver.NameCharsAre | src/core/variable_resolver.py:54 | namespaces are made of exactly small letters, keys of small letters and underscores |
| VariableResolver.ListsLeftToRight | src/core/variable_resolver.py:86-95 | the variables of a text are the first placeholder as namespace.key and then those of the rest |
| VariableResolver.ResolveReadsListed | src/core/variable_resolver.py:76-95 | contexts that agree on what list_variables names resolve a text alike |
| VariableResolver.UnknownLeftAsIs | src/core/variable_resolver.py:76-84 | a context with none of the values leaves text without defaults unchanged |
| TemplateRenderer.ResolveIncludesLoop | src/core/template_renderer.py:83-151 | the loop over positions computes the recursive resolution, with its errors in the order they arise |
| TemplateRenderer.PlainExpands | src/core/template_renderer.py:104-106 | a text without includes expands to itself and to nothing else |
| TemplateRenderer.ExpandsLeftToRight | src/core/template_renderer.py:112-151 | a text expands if and only if its first include loads and expands and the rest expands; the result is the text before it, the expansion of what was fetched, and the expansion of the rest |
| TemplateRenderer.FirstInclude | src/core/template_renderer.py:104-113 | every text is free of includes or splits at its first one |
| TemplateRenderer.GlueFirst | src/core/template_renderer.py:108-151 | the references of a text are that of its first include and then those of the rest, and their texts go into the places of the includes |
| TemplateRenderer.ReferenceOf | src/core/template_renderer.py:112-122 | what is fetched for a directive: its name, and v with the major and minor number it gives; and the key under which it is remembered |
| TemplateRenderer.ExpansionUnique | src/core/template_renderer.py:22-30 | a text has at most one recursive expansion |
| TemplateRenderer.KeyInjective | src/core/template_renderer.py:122 | the keys of the visited set tell references apart |
| TemplateRenderer.ResolvedExpands | src/core/template_renderer.py:83-151 | a successful resolution is the expansion without a visited set |
| TemplateRenderer.ExpandedResolves | src/core/template_renderer.py:99-129 | the visited set never rejects what the depth limit accepts, so siblings may share templates |
| TemplateRenderer.ExpandIffChains | src/core/template_renderer.py:83-151 | a text expands within n steps if and only if every reachable include loads and no chain is longer than n |
| TemplateRenderer.ResolveSucceedsIff | src/core/template_renderer.py:83-151 | resolution succeeds if and only if every reachable include loads and no chain has more than ten steps; it is then the unbounded recursive expansion, which ExpandsLeftToRight and PlainExpands describe as text |
| TemplateRenderer.SuccessMeansAcyclic | src/core/template_renderer.py:124-127 | after success no include chain meets a reference twice |
| TemplateRenderer.CircularBlame | src/core/template_renderer.py:124-127 | a circular-include error names a reference that some chain really meets again |
| TemplateRenderer.ErrorBlame | src/core/template_renderer.py:99-138 | the other errors are to the point: a chain of eleven steps, or a chain to an include of the reported name that does not load |
| TemplateRenderer.Render | src/core/template_renderer.py:49-81 | rendering fails exactly as resolution does, and otherwise substitutes variables once in the full expansion |
| BandwidthThrottler.PriorityRange | src/core/bandwidth_throttler.py:68-93 | priorities lie between 1 and 3 |
| BandwidthThrottler.PriorityMonotone | src/core/bandwidth_throttler.py:68-93 | a file that is no larger and at least as far on never has a lower priority |
| BandwidthThrottler.ProgressGrows | src/core/bandwidth_throttler.py:26-31 | progress goes from 0 to 1 and never falls as bytes are sent |
| BandwidthThrottler.PriorityEnds | src/core/bandwidth_throttler.py:79-93 | the values at the ends and in the middle: 1 from 10 MB on, 2 for nothing, nothing for the first four fifths and 1 more at the end |
| BandwidthThrottler.ShareInProportion | src/core/bandwidth_throttler.py:175-185 | a share is the integer part of the capacity of the interval in proportion to the priority |
| BandwidthThrottler.FloorOf | src/core/bandwidth_throttler.py:187-192 | the floor is the integer part of 125000 bytes for each second of the interval |
| BandwidthThrottler.GrantIs | src/core/bandwidth_throttler.py:166-194 | a grant is the share, the floor where that is more, or what is left where that is less; nothing if unregistered |
| BandwidthThrottler.GrantsWithinBandwidth | src/core/bandwidth_throttler.py:152-194 | the grants of one interval sum to at most the bandwidth plus one floor each, and to at most the bandwidth when the floor lifts no share |
| BandwidthThrottler.GrantAtLeast | src/core/bandwidth_throttler.py:178-194 | every grant is at least the floor and a third of an equal share, or all that remains |
| BandwidthThrottler.GrantPositive | src/core/bandwidth_throttler.py:166-194 | a stream can send something if and only if its transfer is registered and has bytes left |
| BandwidthThrottler.BandwidthThrottler.RegisterTransfer | src/core/bandwidth_throttler.py:95-120 | one new transfer with the priority of no progress; the others unchanged |
| BandwidthThrottler.BandwidthThrottler.UnregisterTransfer | src/core/bandwidth_throttler.py:122-135 | exactly that transfer is gone |
| BandwidthThrottler.BandwidthThrottler.UpdateProgress | src/core/bandwidth_throttler.py:137-150 | the bytes are counted and the priority follows; unknown ids change nothing |
| BandwidthThrottler.BandwidthThrottler.GetAllowedBytes | src/core/bandwidth_throttler.py:152-194 | the grant, its sum of priorities taken in any order |
| BandwidthThrottler.SendRound | src/core/bandwidth_throttler.py:249-267 | every round sends at least one byte, at most the chunk size and the grant, and counts exactly what it sent |
| BandwidthThrottler.ThrottledIterator | src/core/bandwidth_throttler.py:226-288 | in every interleaving with other streams the yields concatenate to the content, or to a prefix short of less than a chunk if the content fails; the transfer counts the bytes yielded and is unregistered at the end |
| Approvals.ApplyKeeps | src/services/approvals.py:267-346 | every undivided request keeps the four-eye invariant and the vote counts that decide the status; a resolved approval never changes |
| Approvals.RunKeeps | src/services/approvals.py:235-346 | both hold on every run of undivided requests with at least one required vote, and there are at most 2R-1 votes, rolled back or not; AloneIsUndivided says which runs these are |
| Approvals.ResolvedForGood | src/services/approvals.py:282-283 | no undivided request that follows changes a resolved approval; InterleavedKeepsIff says what overlapping ones may do |
| Approvals.VoteAgainstApprovesIff | src/services/approvals.py:327-336 | the first vote against approves a request if and only if no vote is required |
| Approvals.OwnVoteRefusedIff | src/services/approvals.py:294-299 | a requester's own vote is refused if and only if the id is not empty or the name is the requester's |
| Approvals.AcceptedIff | src/services/approvals.py:255-304 | by the fields of the row, exactly which votes and cancellations are not refused |
| Approvals.ExpiredWhenDue | src/services/approvals.py:285-292 | on a pending approval a vote is refused as expired at exactly the times at which a pass picks it up, those after it expires |
| Approvals.VoteDecidesIff | src/services/approvals.py:318-344 | a vote approves, rejects or leaves an approval pending exactly as the votes of each kind, counted as a set of places, reach the required number |
| Approvals.EscalationRestarts | src/services/approvals.py:477-493 | an escalated approval is due again exactly after the timeout of its rule in hours, or at once if the rule is gone |
| Approvals.RefusalLeaves | src/services/approvals.py:285-292 | a refused request changes nothing, except that a vote on an expired approval marks it where nothing rolls back |
| Approvals.EscalationsBounded | src/services/approvals.py:528-566 | escalations never exceed the limit, and after at most limit + 1 undivided passes that find it pending past its expiry an approval is resolved, whatever became of its rule |
| Approvals.Approval.Cast | src/services/approvals.py:270-346 | the checks are those of the row loaded; after any requests in between, the vote is recorded in the row then stored; with none in between it is one undivided request; errors and their rollback |
| Approvals.Approval.CheckVote | src/services/approvals.py:281-304 | the checks on the row just loaded refuse a vote for exactly the stated reasons, in their order |
| Approvals.Approval.RecordVote | src/services/approvals.py:306-344 | the vote is appended to the row as it is by then and resolves it when a side has the required number |
| Approvals.Approval.EscalateNow | src/services/approvals.py:463-493 | the count becomes one more than was loaded, and the timer restarts only if the rule still exists |
| Approvals.ApprovalStore.CastVoteOn | src/services/approvals.py:235-346 | the errors for bad votes and unknown ids, the two halves of a vote, and that other approvals are unchanged |
| Approvals.ApprovalStore.CancelOne | src/services/approvals.py:591-633 | only its requester cancels an approval that was pending when loaded; the row the cancellation meets; other approvals unchanged |
| Approvals.ApprovalStore.ProcessOne | src/services/approvals.py:550-559 | a listed approval is escalated if it was loaded below the limit and expired otherwise |
| Approvals.ApprovalStore.ProcessNext | src/services/approvals.py:550-559 | the same with other requests on all approvals before it |
| Approvals.ApprovalStore.ProcessListed | src/services/approvals.py:547-562 | every approval listed is updated once, whatever other requests do before and after, and the counts say how many were escalated and expired |
| Approvals.ApprovalStore.ProcessDue | src/services/approvals.py:545-562 | the listing and the loop of a pass together |
| Approvals.ApprovalStore.ProcessExpired | src/services/approvals.py:528-566 | a pass lists, counts and updates exactly the approvals that were pending with an expiry before the time of the listing, and leaves all others alone; with no other requests it escalates those below the limit, with their new timer, and expires the rest |
| ApprovalSessions.WriteKeepsIff | src/services/approvals.py:306-344 | a write keeps the four-eye principle, the counts and a decision once made if and only if it is timely: the approval still pending, and nobody of the voter's id or name having voted since it was loaded |
| ApprovalSessions.InterleavedKeepsIff | src/services/approvals.py:267-346 | in every interleaving of votes, cancellations and passes, all steps keep them if and only if every write is timely; then there are at most 2R-1 votes |
| ApprovalSessions.InterleavedEscalationsBounded | src/services/approvals.py:477-491 | in every interleaving escalations stay within the limit |
| ApprovalSessions.AloneIsUndivided | src/services/approvals.py:267-346 | if no two requests on an approval are under way together, every write is timely and the run equals one of undivided requests |
| ApprovalSessions.DoubleVote | src/services/approvals.py:302-316 | a concrete run: one approver's vote sent twice at once is stored twice and approves a request that needs two |
| ApprovalSessions.TwoApprovals | src/services/approvals.py:302-330 | a concrete run: two approvals at once give a request that needs one of them two votes |
| ApprovalSessions.CancelUnderPass | src/services/approvals.py:545-559 | a concrete run: a cancellation between the listing and the update of a pass is overwritten |
| ApprovalRules.OperationMatches | src/services/approvals.py:137-163 | an operation matches if and only if some pattern is everything, the operation itself, or a prefix wildcard over it |
| ApprovalRules.FindMatchingRule | src/services/approvals.py:88-134 | the first rule that governs the operation, hence of highest priority among those that do; none if and only if none governs |
| ApprovalRules.ScopeCases | src/services/approvals.py:111-131 | whom a rule of each scope is for, and that a rule of any other scope is for nobody |
| ApprovalRules.ScopeDoesNotRank | src/services/approvals.py:64-70 | a concrete list and query for which a device-group rule and a global rule both govern and the global one is found |
| ApprovalRules.RankingHoldsIff | src/services/approvals.py:64-131 | for every list, choice of active rules and query, the rule found has the best scope among the governing ones if and only if no governing rule of a better scope stands behind the first one |
| ApprovalRules.PatternsOverlapIff | src/services/approvals.py:153-163 | two patterns share an operation if and only if one of them, read as an operation, matches the other |
| ApprovalRules.CompeteIff | src/services/approvals.py:107-131 | some request is governed by both of two rules if and only if their scopes can be met together and two of their patterns overlap |
| ApprovalRules.RankingAlwaysHoldsIff | src/services/approvals.py:64-131 | the documented ranking holds for every request, whichever rules are active, if and only if no rule stands before a competing one of a better scope |
| DhcpProxy.Parse | src/pxe/dhcp_proxy.py:45-105 | the parser's loop ends on every input and computes the option scan that the lemmas speak of, errors included |
| DhcpProxy.ScanInverts | src/pxe/dhcp_proxy.py:63-94 | parsing inverts every well-formed option list with pads anywhere, ended by option 255 or by the packet (section 3.1 and 3.2 of RFC 2132) |
| DhcpProxy.LastDuplicateWins | src/pxe/dhcp_proxy.py:72-74 | exactly the codes in the list are in the result, each with its last value |
| DhcpProxy.LastArchitectureDecides | src/pxe/dhcp_proxy.py:76-82 | the last option 93 of at least two bytes decides the architecture, even by being unknown |
| DhcpProxy.IpxeDetected | src/pxe/dhcp_proxy.py:84-92 | a client counts as iPXE if and only if some user class names it or it sends option 175 |
| DhcpProxy.UserClassSays | src/pxe/dhcp_proxy.py:84-88 | a user class with the four letters in it, between any ASCII text, announces iPXE |
| DhcpProxy.ParsedIsRegular | src/pxe/dhcp_proxy.py:51-55 | every parsed request is one that offers are proved for; its address is whole if and only if the packet is long enough |
| DhcpProxy.ParsesFields | src/pxe/dhcp_proxy.py:51-55 | where the fields of a request lie, byte by byte |
| DhcpProxy.DHCPProxy.BuildHeader | src/pxe/dhcp_proxy.py:155-183 | the slice writes leave exactly the BOOTP header, for every address length; an address cut short makes the buffer smaller by what is missing |
| DhcpProxy.HeaderLayout | src/pxe/dhcp_proxy.py:155-183 | the header in one piece for a whole address of up to 80 bytes: reply, type, length, transaction id, address, server name and cookie at their places, and zeros between |
| DhcpProxy.AddressReturned | src/pxe/dhcp_proxy.py:55-183 | the hardware address comes back from an offer if and only if it agrees with the fields written over its far end; a whole address of up to 80 bytes always does |
| DhcpProxy.DHCPProxy.BuildOffer | src/pxe/dhcp_proxy.py:149-216 | an offer is built if and only if its texts are ASCII, fit an option and end within the buffer; it is header, encoded options and end; otherwise which error is raised |
| DhcpProxy.DHCPProxy.OfferParses | src/pxe/dhcp_proxy.py:45-216 | parsing an offer returns the request's transaction id, hardware type and length, exactly the offered options (sections 9.4 to 9.7 of RFC 2132), and the address if and only if it survives the header |
| DhcpProxy.DHCPProxy.OfferSays | src/pxe/dhcp_proxy.py:185-211 | what each option of an offer says |
| DhcpProxy.DHCPProxy.OfferLimits | src/pxe/dhcp_proxy.py:152-216 | when the texts fit their options, where the end option lies, and that the buffer has 512 bytes less what an address lacks |
| DhcpProxy.DHCPProxy.FirmwareGetsItsLoader | src/pxe/dhcp_proxy.py:26-211 | from request to offer: firmware whose last architecture option says 7 or 9 is offered the UEFI loader in option 67, all other firmware the BIOS one |
| DhcpProxy.DHCPProxy.ScriptOnlyForIpxe | src/pxe/dhcp_proxy.py:166-211 | options 53, 54, 67, and 66 if and only if the client is not iPXE; option 67 is the script URL if and only if it is |
| NodeLifecycle.ValidTransitions | src/core/state_machine.py:99-113 | exactly the states that can be moved to, each once |
| NodeLifecycle.ReachedFrom | src/core/state_machine.py:49-79 | the transition table read backwards: exactly from where each state can be reached |
| NodeLifecycle.Node.Transition | src/core/state_service.py:20-95 | state, counters and log after a transition, and the errors, as the run function says |
| NodeLifecycle.MoveCases | src/core/state_service.py:50-95 | exactly which moves raise, and what; a move that raises changes nothing; the attempts and the last error are reset exactly by a forced move or one to installed, and kept otherwise |
| NodeLifecycle.Node.HandleInstallFailure | src/core/state_service.py:98-131 | the failure is counted first, and the third one tries to give up |
| NodeLifecycle.FailureCases | src/core/state_service.py:114-131 | a failure is counted with its message; the third gives up while installing and raises in any other state |
| NodeLifecycle.ReportCases | src/api/routes/nodes.py:821-848 | which reports are heard in which state, and that a start counts anew |
| NodeLifecycle.LogIsChain | src/core/state_service.py:50-95 | in every run the audit log leads from the initial state to the current one; without force every step is in the table |
| NodeLifecycle.LogOnlyGrows | src/core/state_service.py:77-87 | the log is only ever appended to |
| NodeLifecycle.RetiredIsAbsorbing | src/core/state_machine.py:49-79 | without force a retired node never changes again |
| NodeLifecycle.InstalledBeforeActive | src/core/state_machine.py:49-79 | without force, a node that starts discovered is installed before it first becomes active |
| NodeLifecycle.FailureKeepsBoundIff | src/core/state_service.py:114-131 | the exact states and counts in which a failure report keeps at most three attempts, three only when given up |
| NodeLifecycle.RequestKeepsBoundIff | src/api/routes/nodes.py:980-985 | of all requests exactly the third failure of a pending node breaks the bound in memory, and that one raises |
| NodeLifecycle.CommittedAttemptsBounded | src/db/database.py:30-38 | with requests that raise rolled back, the bound holds in every run, whatever reports failures and forces moves |
| NodeLifecycle.AttemptsBoundedWhenInstalling | src/core/state_service.py:98-131 | without rollback it holds in every run that reports failures only while installing, even with forced moves |
| NodeLifecycle.PendingFailuresBreakBound | src/api/routes/nodes.py:980-985 | a concrete run in which it fails in memory |
| NodeLifecycle.GivenUpStaysFailed | src/core/state_service.py:52-62 | a node that failed three times can only be retired, or forced, which starts counting anew |
| Conflicts.ConflictDetector.MarkConflict | src/agent/conflicts.py:209-245 | the conflict is stored open under a fresh id |
| Conflicts.ConflictDetector.BuildLookup | src/agent/conflicts.py:120-125 | central's nodes by lower-cased MAC, the last duplicate winning, nodes without a MAC skipped |
| Conflicts.LastNodeWins | src/agent/conflicts.py:120-125 | the lookup has exactly the MACs, other than the empty one, that central lists, each with the last node listed |
| Conflicts.ConflictDetector.CheckCached | src/agent/conflicts.py:127-177 | each cached node is compared with what its predecessors left of the lookup |
| Conflicts.CompareCases | src/agent/conflicts.py:130-173 | exactly when a cached node is reported as missing, as a mismatch, or not at all, and every field of what is reported |
| Conflicts.OnlyCentralSays | src/agent/conflicts.py:180-202 | every field of what is reported for a node that only central has |
| Conflicts.ConflictDetector.CheckLeftover | src/agent/conflicts.py:179-202 | every node left over is reported once, in some order |
| Conflicts.ConflictDetector.CheckConflicts | src/agent/conflicts.py:103-207 | what is returned is what the comparison reports, and exactly that is stored, each under a fresh id |
| Conflicts.ExactIff | src/agent/conflicts.py:103-207 | a check reports exactly one conflict, rightly typed, for each MAC on which cache and central disagree, if and only if no two cached nodes share a lower-cased MAC |
| Conflicts.NothingReportedIff | src/agent/conflicts.py:103-207 | nothing is reported if and only if the cached MACs are distinct and both sides hold the same MACs in the same states |
| HealthScore.CalculateHealthScore | src/core/health_service.py:51-96 | score and breakdown as the score function says |
| HealthScore.ScoreAt | src/core/health_service.py:95-96 | the score lies between 0 and 100 |
| HealthScore.StatusBySeconds | src/core/health_service.py:31-48 | the status changes exactly when the seconds since the node was seen pass sixty times each threshold |
| HealthScore.SeenIsHealthy | src/core/health_service.py:31-48 | a node seen right now is healthy if and only if the stale threshold is not negative |
| HealthScore.StatusOnlyWorsens | src/core/health_service.py:31-48 | while a node is not seen its status goes only from healthy over stale to offline |
| HealthScore.StalenessInProportion | src/core/health_service.py:63-78 | the staleness penalty is the integer part of its weight in proportion to the time since the node was seen, whole from the offline threshold on |
| HealthScore.FailuresInProportion | src/core/health_service.py:80-85 | a fifth of the weight for each install attempt, up to the whole |
| HealthScore.BootsInProportion | src/core/health_service.py:87-93 | nothing up to ten boots, in proportion from there, the whole weight from thirty on |
| HealthScore.FreshScoresFull | src/core/health_service.py:95-96 | a fresh node scores 100, and any other what the penalties leave of it |
| HealthScore.ScoreMonotone | src/core/health_service.py:63-96 | the score never rises as staleness, install attempts or boots grow; never seen is worst |
| HealthScore.ZeroScoreIff | src/core/health_service.py:63-96 | with weights that sum to 100, a score is zero if and only if the node is offline or never seen, with five failed attempts and thirty boots |
| HealthScore.OfflineLosesWeight | src/core/health_service.py:43-78 | an offline node stays offline and loses the whole staleness weight until it is seen |
| HealthAlerts.HealthService.FindActive | src/core/health_service.py:269-275 | the active alert of a node and kind is found if and only if there is one |
| HealthAlerts.HealthService.CreateAlertIfNew | src/core/health_service.py:260-288 | afterwards the alert is active; a row is added only if it was not; still at most one active per node and kind |
| HealthAlerts.SeverityTable | src/core/health_service.py:17-22 | the severity of each kind of alert |
| HealthAlerts.HealthService.ResolveAlert | src/core/health_service.py:290-314 | afterwards the alert is not active; no other row changes |
| HealthAlerts.HealthService.Acknowledge | src/api/routes/health.py:98-118 | only an active alert is acknowledged, and then no longer active |
| HealthAlerts.HealthService.UpdateNodeHealth | src/core/health_service.py:98-113 | the node's status and score are those of moments during the call; a node that stayed on one side of each threshold throughout has exactly the status for it |
| HealthAlerts.HealthService.SettleStatus | src/core/health_service.py:134-168 | the stale and offline alerts follow the status, each case of the switches included |
| HealthAlerts.HealthService.SettleScore | src/core/health_service.py:170-185 | with a positive threshold the score alert is active if and only if the score is below it |
| HealthAlerts.HealthService.CheckNode | src/core/health_service.py:128-185 | one node: all its alerts follow its status and score, no other node's change, and of all rows only its own active ones may be resolved |
| HealthAlerts.HealthService.ReportHealth | src/api/routes/nodes.py:642-649 | a report updates the node's health and, if it is healthy, resolves its stale and offline alerts and nothing else |
| HealthAlerts.HealthService.CheckAllNodes | src/core/health_service.py:115-187 | after a pass the alerts of every node that is not retired fit its status and score: none about staleness if it was seen within the stale threshold throughout, the stale or the offline one, as the settings ask, if it stayed beyond; every row from before is unchanged, but for active alerts of checked nodes that were resolved; retired nodes are untouched; the rows returned are exactly the rows added, all active |
| HealthAlerts.AlertsRemember | src/core/health_service.py:128-187 | over every run of checks, acknowledgements and reports, with any settings, an alert is active if and only if some check called for it and nothing has ended it since |
| HealthAlerts.HealthService.AlertsStand | src/core/health_service.py:128-187 | the table that the methods keep is exactly what that run of events says |

## Left out

- Sockets, HTTP, SQLite and SQLAlchemy, the asyncio runtime, logging, metrics and the schemas, routes and start-up code around the modelled functions.
- Path resolution and Pi discovery of the TFTP handler: a name resolves to not found, outside the root, not a file, or the file's bytes. File reads never fail half-way.
- The texts of TFTP ERROR packets that quote a file name: fixed texts stand for them, so a name that is not ASCII does not raise a second time.
- The parsing of decimal text by `int()` in `blksize` and in the server's address: the integer, or its absence, and the four address bytes are given.
- Cancellation of tasks, crashes of the agent between two steps, and exceptions of the database: a drain always comes to its end.
- Aborted streams: a consumer that stops reading a throttled stream early.
- BandwidthThrottler.ThrottledIterator: requires a registered transfer and content within its total, since the source waits for ever otherwise (GrantPositive states this), and a chunk size of at least one, since with zero its loop never ends.
- BandwidthThrottler.Interleave: other tasks do not touch this stream's own transfer id, as ids are fresh for each request.
- SyncConvergence.IssueOrder: readings of the clock are strictly increasing; rows of equal age may be drained in any order.
- SyncConvergence.CacheAgrees: about queues of state updates that carry the MAC of a cached node, one MAC for each node.
- TTL, eviction and the MAC normalisation of the node cache, and the fields of cached nodes other than id and state: a plain map from MAC.
- The texts of queue errors, and the time stamps of attempts.
- Unicode digits, which the include pattern's digit class also accepts, and case folding outside ASCII.
- A template fetch that answers differently from one call to the next: the content function is fixed.
- Directives that arise where included text is joined to its surroundings are not rescanned by the source, so nothing is claimed about directives in the output.
- `validate` and `build_context` of the variable resolver, `check_user_can_approve`, `get_pending_approvals_for_user` and the other read-only queries, which add no state or rule of their own.
- Approvals.ApprovalStore.ProcessExpired: one reading of the clock for the listing and one for all updates of a pass; escalations started by hand outside the job.
- ApprovalSessions: a write is one step from its first flush to its commit, as SQLite, the default database, lets one writer in at a time; databases in which two open transactions insert without seeing each other are not modelled.
- Routes that set a node's state directly when a clone is started or cancelled, without the transition service.
- Conflicts: parsing of central's time stamps (a number, or none), a state of central that is explicitly null, the order of the leftover conflicts, and the resolution and expiry of stored conflicts.
- Conflicts.ConflictDetector.CheckConflicts: no other task stores conflicts during the check.
- HealthScore.ScoreAt: an offline threshold of zero, with which the source divides by zero, is excluded.
- Health snapshots, summaries and the `install_timeout` alert, which nothing creates.
