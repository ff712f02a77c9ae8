# Motor control-plane model

Motor deploys and supervises LLM inference instances on NPU clusters. This project models the parts of it whose
correctness is not visible in one function, and proves what they guarantee over every input, every run or every
reachable state. `dafny verify dfyconfig.toml` checks it.

| files | what they model |
|---|---|
| `Election.dfy`, `ElectionTiming.dfy`, `ElectionLeases.dfy`, `ElectionRecovery.dfy`, `Standby.dfy` | leader election by a leased etcd key: the step system of N pods and one server, its timing, what becomes of its leases, its recovery, and the loop of one process |
| `Lex.dfy`, `Utf8.dfy`, `EtcdStore.dfy`, `EtcdRoundTrip.dfy`, `EtcdLeftovers.dfy` | the etcd client's key space: namespacing, byte-range prefix queries, persist and restore, and what a failed delete leaves behind |
| `ConfigDiff.dfy`, `ConfigPatch.dfy`, `ConfigPath.dfy` | the whitelisted configuration update: tree comparison, filter, patch, and the strings that paths are written as |
| `ModernTyping.dfy`, `TypingText.dfy`, `TypingParser.dfy`, `Splice.dfy`, `ImportCleanup.dfy` | the annotation rewriter: a source-to-source pass with a meaning, the text it writes, a parser for that text, the splice into the file, the import clean-up |
| `Jpeg.dfy` | reading an image's size from JPEG headers |
| `NodePorts.dfy`, `NodeManagerPorts.dfy` | NodePort conflict resolution and NodeManager start-up ports |
| `PodLayout.dfy`, `Instances.dfy` | dp x tp x pp packing, endpoint counts, the controller's endpoint cache and readiness test |
| `RateLimit.dfy`, `LogCleanup.dfy` | the rate-limited logger's accounts and log retention |
| `Options.dfy`, `Sorting.dfy` | shared: optional values, Python's stable sort |

Remote calls, probes, clocks and the operator's answers are inputs, so a theorem holds for whatever they do. Code that
works by updating fields or arrays is a class or a loop with invariants, tied by its postcondition to a function; what
the source promises is then proved of that function.

## What the code does not guarantee

Where a promise fails, the model keeps the code and the promise is proved to hold exactly under a stated condition.

* **Two masters.** Role-level exclusion holds exactly when 2K + I + 2D < TTL and A + I + K + 2D < TTL (keepalive timeout
  K, check interval I, retry delay D, acquisition and callback time A) and no pod is stopped
  (`ElectionTiming.RoleExclusionExactly`). The code does not bound A: the transaction in
  motor/common/etcd/locks.py:81 has no timeout. With the shipped settings A must stay under 5 s. Shutdown revokes the
  lease before it gives up the role (motor/common/standby/standby_manager.py:185-188), so a second master can
  appear in between.
* **Orphan leases.** A lost acquisition takes its lease back (`ElectionLeases.LostAcquisitionRevoked`), but a lease whose
  grant was never heard of or whose renewal failed is left to its TTL, and a put or keepalive that is served after its
  caller gave up can bind the key to such a lease or extend it (`ElectionLeases.OrphanHoldsKey`, `OrphanIsExtended`).
* **Idle retries.** The docstring at motor/common/standby/standby_manager.py:191-199 counts three keepalives. A failed
  renewal forgets the lease (motor/common/etcd/etcd_client.py:173-177), so the two retries never reach the server
  and the verdict is the first attempt's (`Standby.StandbyManager.RenewMasterLock`).
* **Prefix ranges.** The end of a prefix's byte range is right exactly when the prefix is not empty and does not end in
  0xFF; UTF-8 text never does.
* **Persist and restore.** The dictionary comes back exactly when each item's key is namespaced like its prefix, and keys
  outside the prefix stay as they were exactly when each item is written under it. Both fail for a prefix that is the
  namespace and job name without a slash behind them (`EtcdRoundTrip.BarePrefixMisfits`).
* **Failed delete.** It is ignored; for items that fit, the dictionary then comes back exactly when the leftovers bring no
  name of their own and none that is read after an item of the same name holds another value
  (`EtcdLeftovers.FailedDeleteExactly`). In a store that holds nothing but prefix, slash and name, that is when it has
  every name of the old one. `EtcdLeftovers.RestoredExactly` says for any store whatsoever which dictionary is restored.
* **Whitelisted update.** It raises exactly when a whitelisted change has a path that does not parse back (two list
  indices in a row, or no leading key) or lies below a container that the baseline lacks. Comparing again then finds no
  whitelisted change exactly when no NaN was written: `json.load` accepts NaN, and it differs from itself.
* **Annotation rewrite.** The text that is written parses to the modern tree, which always means the same, if and only
  if no delimiter is dropped (`TypingParser.RewriteExactly`). Delimiters are dropped in four branches: around a tuple
  that holds an old name (pre-commit/check_modern_typing.py:374-385), around a subscripted union whose arguments hold
  one (365-372), and around an empty argument list or a single parenthesised tuple in brackets (404-423).
  `ModernTyping.Safe` is the absence of these. For meaning alone the condition is sufficient but not necessary:
  `TypingParser.UnsafeCanMeanTheSame` is a union in which the types that were lost and gained are members anyway.
* **Text splice.** Replacing from the end keeps pending offsets valid exactly when the ranges are disjoint and, of two
  that start together, the one listed later is empty (`Splice.OffsetsStayValidExactly`, `Splice.OrderlyExactly`).
* **Import clean-up.** A cleaned-up import takes its whole lines. The list of replacements is one that can be applied
  exactly when no two such imports share a line, nor an import and a rewritten expression
  (`ImportCleanup.CleanupOrderlyExactly`); otherwise what shares the line is lost, and a one-line file is emptied.
* **NodePort scan.** It stays in range exactly for old ports of at least 29999 (`NodePorts.InRangeExactly`).
* **NodePort rewrite.** Collecting from the rewritten yaml is remapping the collection exactly when no integer zero in
  the yaml is remapped to a port and no collected port is remapped to zero. If every conflict is resolved
  automatically, none is left in either case.
* **Readiness.** An instance is complete exactly while the addresses present, times the endpoints of each, make dp. With
  no more addresses than pods, that takes all pods and a group that divides a node; a stale address can complete an
  instance whose own pods cannot (`Instances.StaleAddressCompletes`).
* **Headless endpoints.** The docstring at motor/common/resources/instance.py:258-259 says they are not counted; the
  code counts them. In a complete instance the two counts agree exactly when no endpoint is headless
  (`Instances.DocumentedCountExactly`).
* **Cross-node groups.** The converter's packing is accepted by the NodeManager exactly when tp divides the cards
  (`PodLayout.CrossNodeAcceptedExactly`).

## Model

| member | source | states |
|---|---|---|
| `Election.StepKeepsInv` | motor/common/etcd/locks.py:38-92 | every step of every pod, the server and the clock, including lost replies and abandoned requests served later, keeps the lease invariant |
| `Election.LeaseExclusion` | motor/common/etcd/etcd_client.py:117-196 | in every reachable state, with no timing assumption, a tracked lease that is live at the server is the one bound to the key, so no two pods track a live lease |
| `Election.RoleFollowsLease` | motor/common/standby/standby_manager.py:160-188 | in every reachable state: master at the loop head exactly when a lease is tracked, no lock-out by the "already exists" check, keepalives only on the first attempt, standby once stopped |
| `ElectionLeases.NoLeaseLeaks` | motor/common/etcd/locks.py:38-92 | in every reachable state each lease the server holds is in some pod's hand, has a revocation on its way, or comes from an unheard grant or a failed renewal |
| `ElectionLeases.LostAcquisitionRevoked` | motor/common/etcd/locks.py:82-92 | whenever a pod that lost an acquisition, or whose put failed, sleeps again, its fresh lease is gone from the server or its revocation is on its way |
| `ElectionLeases.RevocationInTime` | motor/common/etcd/locks.py:82-92 | if the server is reached, the lease is revoked once, at once, and no request stays on its way |
| `ElectionLeases.MasterExactlyWhileHeld` | motor/common/standby/standby_manager.py:160-188 | in every run, a pod at its loop head or asleep is master exactly when it has won the lock and since then lost no renewal and released nothing; the lease it renews is the one it won |
| `ElectionLeases.OrphanHoldsKey` | motor/common/etcd/locks.py:81-92 | a put whose caller gave up can still be served, and then no pod tracks the lease on the key |
| `ElectionLeases.OrphanIsExtended` | motor/common/etcd/etcd_client.py:139-178 | a keepalive whose caller gave up can still extend a lease that no pod tracks |
| `ElectionTiming.StepKeepsTimedInv` | motor/common/standby/standby_manager.py:157-225 | every timely step keeps each active master on schedule, its lease unexpired and the key bound to it |
| `ElectionTiming.MastersOverlapOnlyInShutdown` | motor/common/standby/standby_manager.py:184-188 | if the step-down gap is below the TTL, two masters are only ever seen while one of them is releasing its lock in shutdown |
| `ElectionTiming.SlowAcquisitionBreaks` | motor/common/etcd/locks.py:81-85 | if acquisition can take so long that A + I + K + 2D reaches the TTL, some run has two masters |
| `ElectionTiming.SlowRenewalBreaks` | motor/common/standby/standby_manager.py:202-225 | if 2K + I + 2D reaches the TTL, some run has two masters |
| `ElectionTiming.ShutdownBreaks` | motor/common/standby/standby_manager.py:184-188 | if pods can be stopped, some run has two masters |
| `ElectionTiming.RoleExclusionExactly` | motor/common/standby/standby_manager.py:157-225 | at most one master in every timely run if and only if both gaps are below the TTL and no pod is stopped |
| `ElectionTiming.DefaultsNeedFastAcquisition` | motor/config/standby.py:24-29 | with the shipped settings, exclusion holds if and only if acquisition takes less than 5 s |
| `ElectionRecovery.RecoveryPossible` | motor/common/standby/standby_manager.py:157-188 | from every reachable state, whatever orphan leases and stray requests are left, every pod that is not being stopped has a timely continuation in which it becomes master |
| `ElectionRecovery.RetiredForGood` | motor/common/standby/standby_manager.py:184-188 | a standby that is being stopped, with no acquisition under way, never becomes master again in any run |
| `Standby.EtcdClient.AcquireLock` | motor/common/etcd/etcd_client.py:117-137 | exactly when a lock is acquired, the leases tracked afterwards, and which lease is handed to revoke |
| `Standby.EtcdClient.RenewLease` | motor/common/etcd/etcd_client.py:139-178 | a call is made only for a tracked lease; any failure forgets exactly that lease |
| `Standby.EtcdClient.ReleaseLock` | motor/common/etcd/etcd_client.py:180-196 | the lease is forgotten whatever the revoke does |
| `Standby.StandbyManager.RenewMasterLock` | motor/common/standby/standby_manager.py:190-225 | of the three attempts only the first has a say and at most one keepalive is sent |
| `Standby.StandbyManager.TryBecomeMaster` | motor/common/standby/standby_manager.py:235-270 | master exactly when grant and put succeed before a stop; role and tracked lease stay in agreement |
| `Standby.StandbyManager.MasterStandbyLoop` | motor/common/standby/standby_manager.py:157-188 | for any outcomes: master at a loop head exactly when some earlier turn took the lock as standby and every renewal since was answered with time to live, or all were from a start as master; the pod ends as standby without the lease, and other leases are untouched |
| `Standby.MasterExactly` | motor/common/standby/standby_manager.py:157-188 | the same of the role at every head, told from the outcomes of the remote calls |
| `EtcdStore.NamespacedTwice` | motor/common/etcd/etcd_client.py:99-104 | namespacing is idempotent exactly for keys that start with a slash or are already namespaced |
| `EtcdStore.PrefixRangeEnd` | motor/common/etcd/etcd_client.py:106-115 | the in-place edit of the bytes computes the range end |
| `EtcdStore.RangeExactlyPrefix` | motor/common/etcd/etcd_client.py:106-115 | the byte range holds exactly the keys with the prefix if and only if the prefix is non-empty and its last byte is below 0xFF |
| `EtcdStore.PrefixQueryExact` | motor/common/etcd/etcd_client.py:336-350 | for every non-empty text prefix the range query finds exactly the text keys that start with it |
| `Utf8.DecodeEncode` | motor/common/etcd/etcd_client.py:356-366 | decoding a key's bytes gives the key back, for every text |
| `Utf8.DecodeExactly` | motor/common/etcd/etcd_client.py:356-366 | decoding is strict: bytes decode to a text exactly when they are its encoding |
| `Utf8.PrefixIffBytePrefix` | motor/common/etcd/etcd_client.py:106-115 | a text starts with a prefix exactly when its bytes start with the prefix's bytes |
| `EtcdStore.Etcd.DeletePrefix` | motor/common/etcd/etcd_client.py:215-228 | removes exactly the covered keys, or nothing when the call fails before the server acts; a call that fails afterwards has still removed them |
| `EtcdStore.Etcd.PersistData` | motor/common/etcd/etcd_client.py:301-319 | what is stored after any pattern of calls that are answered, fail before or fail after taking effect, and when success is reported |
| `EtcdStore.GetPrefixData` | motor/common/etcd/etcd_client.py:336-371 | the loop over a range reply rebuilds the dictionary, or nothing if a key is not UTF-8 |
| `EtcdStore.Etcd.RestoreData` | motor/common/etcd/etcd_client.py:321-334 | an empty or unreadable result is reported as nothing |
| `EtcdRoundTrip.PersistThenRestore` | motor/common/etcd/etcd_client.py:301-371 | with successful calls and no other writer, restore returns the persisted non-empty dictionary if and only if every item key is namespaced like the prefix |
| `EtcdRoundTrip.UsualPrefixFits` | motor/common/etcd/etcd_client.py:99-104 | a prefix with a leading slash always satisfies that condition in a namespace without one |
| `EtcdRoundTrip.OtherKeysUntouched` | motor/common/etcd/etcd_client.py:301-319 | if every item is written under the prefix, persisting leaves every key outside the prefix as it was |
| `EtcdRoundTrip.OtherKeysUntouchedExactly` | motor/common/etcd/etcd_client.py:301-319 | for every store and key outside the prefix, if and only if every item is written under the prefix |
| `EtcdRoundTrip.BarePrefixMisfits` | motor/common/etcd/etcd_client.py:99-104 | with namespace "a", job "b" and prefix "a/b", every item is written outside the prefix and the dictionary never comes back |
| `EtcdRoundTrip.FailedDeleteBreaks` | motor/common/etcd/etcd_client.py:305-313 | after a delete that did not take effect, a leftover item with a name of its own makes the restored dictionary differ, whatever the items |
| `EtcdLeftovers.RestoredExactly` | motor/common/etcd/etcd_client.py:321-371 | for every store and every dictionary: restore returns it if and only if it is not empty, every key under the prefix reads as one of its names, and under each name the last such key holds its value |
| `EtcdLeftovers.FailedDeleteExactly` | motor/common/etcd/etcd_client.py:305-313 | for items that fit, after a delete that did not take effect, restore returns the new dictionary if and only if leftovers bring no new or unreadable name and those read after an item of their name agree with it |
| `EtcdLeftovers.FailedDeleteInTidyStore` | motor/common/etcd/etcd_client.py:305-313 | if moreover every covered key is prefix, slash and name: if and only if the new dictionary has every leftover name (and, without namespace and job name, the shadow condition) |
| `ConfigDiff.ChangedIffReported` | examples/deployer/lib/update_config_whitelist.py:88-142 | the collected paths are exactly those a walk along the path alone reports |
| `ConfigDiff.SameLeaves` | examples/deployer/lib/update_config_whitelist.py:88-142 | leaves are equal as numbers and truth values, or by being the same, except that NaN equals nothing |
| `ConfigDiff.ComparisonExact` | examples/deployer/lib/update_config_whitelist.py:88-142 | every path where leaves differ is reported, itself or by an ancestor; every reported path reads differently; none is a prefix of another and none is repeated |
| `ConfigPatch.PathIsWhitelisted` | examples/deployer/lib/update_config_whitelist.py:72-85 | accepts exactly the paths whose keys lead from the whitelist's root to a field name |
| `ConfigPatch.AllowsExactly` | examples/deployer/lib/update_config_whitelist.py:72-85 | accepted are exactly the section names that lead to a list of fields, followed by one field of it |
| `ConfigPatch.AcceptedKeysApart` | examples/deployer/lib/update_config_whitelist.py:72-85 | no accepted path's keys properly extend another's |
| `ConfigPatch.KeyTokensExactly` | examples/deployer/lib/update_config_whitelist.py:64-85 | a path's keys are its key tokens in order, without the indices |
| `ConfigPatch.HasContainerExactly` | examples/deployer/lib/update_config_whitelist.py:190-202 | a write has its container exactly when every step on the way finds an object or a list that is long enough |
| `ConfigPath.ParsesExactly` | examples/deployer/lib/update_config_whitelist.py:145-160 | a path with plain keys parses back from its string if and only if it starts with a key and has no two indices in a row; if it starts with a key, it is malformed exactly otherwise |
| `ConfigPath.RenderInjective` | examples/deployer/lib/update_config_whitelist.py:88-142 | different paths that parse have different strings |
| `ConfigPath.WhitelistKeysExactly` | examples/deployer/lib/update_config_whitelist.py:64-85 | the keys looked up in the whitelist, cut from the string at dots and brackets, are those of the path's steps |
| `ConfigPatch.SetAtSucceeds` | examples/deployer/lib/update_config_whitelist.py:190-202 | a write goes through exactly when its container exists |
| `ConfigPatch.ApplyWhitelistUpdate` | examples/deployer/lib/update_config_whitelist.py:205-242 | the loop applies the user's value at each whitelisted changed path in order, or fails |
| `ConfigPatch.UpdateSucceedsExactly` | examples/deployer/lib/update_config_whitelist.py:145-202 | the update goes through if and only if every whitelisted change parses back and has its container in the baseline |
| `ConfigPatch.UpdateFramedCompleteConvergent` | examples/deployer/lib/update_config_whitelist.py:205-242 | away from the whitelisted changes the result reads like the baseline, at each of them like the user's configuration; comparing again reports none if and only if no NaN was written |
| `ConfigPatch.ReportedAgainExactly` | examples/deployer/lib/update_config_whitelist.py:205-242 | of the whitelisted paths, comparing again reports exactly the NaNs that were written |
| `ConfigPatch.NaNNeverSettles` | examples/deployer/lib/update_config_whitelist.py:88-142 | a whitelisted field that the user sets to NaN is reported again after the update |
| `ConfigPatch.NestedListRaises` | examples/deployer/lib/update_config_whitelist.py:145-160 | a whitelisted change in a list of lists raises |
| `ConfigPatch.MissingSectionRaises` | examples/deployer/lib/update_config_whitelist.py:190-202 | a whitelisted field in a section that the baseline lacks raises |
| `TypingText.TransformRemovesOld` | pre-commit/check_modern_typing.py:333-423 | for every annotation the rewrite gives a text exactly when an old name is reachable, and then strictly fewer old names are left |
| `TypingText.OnlyOutOfReachLeft` | pre-commit/check_modern_typing.py:333-423 | the old names left in the rewritten text are exactly as many as the rewrite cannot reach |
| `TypingText.NewTextNotEmpty` | pre-commit/check_modern_typing.py:387-393 | an annotation is never rewritten to nothing, so no member of a union falls back to its original text |
| `TypingText.EmptyUnionStays` | pre-commit/check_modern_typing.py:387-393 | `Union[()] | X`, which is no annotation, is reported as rewritten and keeps its text |
| `TypingText.TextIsTree` | pre-commit/check_modern_typing.py:333-423 | the rewritten text is the printed form of the rewritten tree if and only if no delimiter is dropped; otherwise it has strictly fewer parentheses and commas |
| `ModernTyping.ModernWellFormed` | pre-commit/check_modern_typing.py:333-423 | the rewritten tree is an annotation without reachable old names |
| `ModernTyping.BuiltinExactly` | pre-commit/check_modern_typing.py:44-51 | each builtin generic has two spellings and no spelling means two of them |
| `ModernTyping.RenamesExactly` | pre-commit/check_modern_typing.py:44-51 | the rename table turns typing's spelling of each builtin, and no other name, into the builtin's own |
| `ModernTyping.MeaningPreserved` | pre-commit/check_modern_typing.py:333-423 | the rewritten tree denotes the same type, with tuples and subscripted unions anywhere: unions as sets (PEP 604), and a name is the builtin generic that either of its spellings stands for (PEP 585) |
| `TypingParser.PrintThenParse` | pre-commit/check_modern_typing.py:495-508 | the printed form of every expression parses back to it |
| `TypingParser.RewriteExactly` | pre-commit/check_modern_typing.py:308-423 | no text exactly when no old name is reachable; the modern tree means the same and is not rewritten again; the written text parses completely to that tree if and only if the annotation is safe |
| `TypingParser.RewriteCorrect` | pre-commit/check_modern_typing.py:308-423 | a safe rewrite gives text that parses completely, denotes the same type and is not rewritten again |
| `TypingParser.SubscriptedUnionBreaks` | pre-commit/check_modern_typing.py:365-372 | a subscripted union with otherwise safe arguments is rewritten exactly when they hold an old name, and then its new text denotes another type |
| `TypingParser.TupleBreaks` | pre-commit/check_modern_typing.py:374-385 | a tuple of several types that holds an old name is rewritten to a text that does not parse as one expression |
| `TypingParser.NestedTupleBreaks` | pre-commit/check_modern_typing.py:374-385 | a tuple among arguments is merged into them: two annotations of different meaning get the same text |
| `TypingParser.EmptyArgumentsBreak` | pre-commit/check_modern_typing.py:404-423 | an empty argument list under an old name is rewritten to a text that does not parse |
| `TypingParser.UnsafeCanMeanTheSame` | pre-commit/check_modern_typing.py:333-423 | an unsafe rewrite whose text means the same by accident |
| `Splice.OffsetsStayValidExactly` | pre-commit/check_modern_typing.py:587-588 | after the stable sort by descending start, every range ends before those already replaced if and only if the list is orderly |
| `Splice.OrderlyExactly` | pre-commit/check_modern_typing.py:587-588 | orderly means disjoint ranges, and of two that start together the one listed later is empty |
| `Splice.ApplyReplacements` | pre-commit/check_modern_typing.py:586-591 | the loop, on any list of replacements, applies them one after another in sorted order |
| `Splice.SpliceIsSubstitution` | pre-commit/check_modern_typing.py:586-591 | for every orderly list, replacing from the end to the start equals the simultaneous substitution |
| `Splice.EmptyFirstBreaks` | pre-commit/check_modern_typing.py:586-591 | an insertion listed before the range it starts with is overwritten |
| `Splice.KeptVerbatim` | pre-commit/check_modern_typing.py:547-549 | every character outside the ranges is kept, in order, at its shifted place |
| `Splice.ReplacedWhole` | pre-commit/check_modern_typing.py:547-549 | every replacement text stands whole where its range was |
| `Splice.SubstituteLength` | pre-commit/check_modern_typing.py:547-549 | nothing else is added or lost |
| `ImportCleanup.ImportStatementRange` | pre-commit/check_modern_typing.py:440-468 | the loops find the range from the start of the statement's line to the end of the line of its closing parenthesis, newline included |
| `ImportCleanup.ClosingExactly` | pre-commit/check_modern_typing.py:451-461 | the closing parenthesis is the first after which as many are closed as opened |
| `ImportCleanup.StatementEndExactly` | pre-commit/check_modern_typing.py:440-468 | the range ends with the line of that parenthesis if one is opened on the first line and closed anywhere, and with the first line otherwise |
| `ImportCleanup.CleanupOrderlyExactly` | pre-commit/check_modern_typing.py:559-588 | rewritten expressions followed by import statements are an orderly list if and only if no two imports share a line, nor an import and an expression |
| `ImportCleanup.SharedLineLost` | pre-commit/check_modern_typing.py:470-473 | whatever shares a line with a removed import is lost |
| `ImportCleanup.OneLineFileLost` | pre-commit/check_modern_typing.py:470-473 | a one-line file with such an import is emptied |
| `Jpeg.ParseJpegSize` | motor/common/utils/image_utils.py:38-100 | on arbitrary bytes the loop ends, stays in bounds and computes the scan |
| `Jpeg.ScanHeaders` | motor/common/utils/image_utils.py:58-98 | any list of segments with stray and fill bytes, then a frame header, scans to that header's size |
| `Jpeg.Decompose` | motor/common/utils/image_utils.py:58-98 | bytes in which a frame is found are such a list of segments and that frame header |
| `Jpeg.ParseExact` | motor/common/utils/image_utils.py:38-100 | a size is returned if and only if the bytes are SOI, segments and a frame header; it is that header's; "Not a JPEG" exactly without SOI |
| `Jpeg.MarkersExactly` | motor/common/utils/image_utils.py:21-35 | the listed markers are the frame markers from 0xC0 to 0xCF without 0xC4, 0xC8 and 0xCC |
| `NodePorts.FindConflicts` | examples/deployer/lib/nodeport_allocator.py:310-327 | each port at most once; a planned port in the cluster is reported exactly when some planned item on it is not the service that holds it, by service name and by namespace (the job's when the item has none) |
| `NodePorts.ConflictingExactly` | examples/deployer/lib/nodeport_allocator.py:304-327 | a port in the cluster conflicts unless its owner has the item's service name and namespace |
| `NodePorts.CollectExactly` | examples/deployer/lib/nodeport_allocator.py:92-196 | planned are exactly the non-zero integer ports that an entry of a service of a document sets |
| `NodePorts.RangeIs` | examples/deployer/lib/nodeport_allocator.py:33-34 | the range is 30000 to 32767 |
| `NodePorts.AllocateFreePort` | examples/deployer/lib/nodeport_allocator.py:330-354 | returns the first candidate of the scan that is not reserved, or fails after one round |
| `NodePorts.ScanVisitsEachOnce` | examples/deployer/lib/nodeport_allocator.py:338-352 | from an old port of at least 29999 the scan visits each port of the range exactly once |
| `NodePorts.FirstFreeIsNearest` | examples/deployer/lib/nodeport_allocator.py:338-352 | the result is in range, unreserved and cyclically nearest above the old port |
| `NodePorts.ScanFailsExactly` | examples/deployer/lib/nodeport_allocator.py:338-354 | the scan fails if and only if the whole range is reserved |
| `NodePorts.InRangeExactly` | examples/deployer/lib/nodeport_allocator.py:338-352 | the scan can only return ports in range if and only if the old port is at least 29999 |
| `NodePorts.ValidateUserPort` | examples/deployer/lib/nodeport_allocator.py:431-461 | a port is accepted if and only if it is in range, not another service's, and no target or effective port of another planned item |
| `NodePorts.PromptOneConflict` | examples/deployer/lib/nodeport_allocator.py:464-533 | for any answers: answers that are not understood or not acceptable are passed over and the next one decides: the named port, the next free port outside cluster, plan and remapping (or none left), or no; end of input declines |
| `NodePorts.ResolveConflicts` | examples/deployer/lib/nodeport_allocator.py:639-651 | for any answers the remapping and the declined conflicts are those of one dialogue after another, each with the plan as the ones before it left it, up to the first that finds no free port; the map from planned to effective ports stays injective; declined are exactly those not remapped; automatic answers move every conflict off the cluster's ports |
| `NodePorts.ResolutionSound` | examples/deployer/lib/nodeport_allocator.py:639-651 | what every sequence of dialogues guarantees, by induction over it |
| `NodePorts.RewritePortsInSpec` | examples/deployer/lib/nodeport_allocator.py:199-216 | each entry is rewritten once, in place, by the remapping, and keeps everything else; a change is reported exactly when some entry's port is remapped |
| `NodePorts.RewriteIsRemapExactly` | examples/deployer/lib/nodeport_allocator.py:92-239 | for every remapping, collecting from the rewritten yaml equals remapping the collection if and only if no integer zero is remapped to a port and no collected port to zero |
| `NodePorts.NoConflictLeft` | examples/deployer/lib/nodeport_allocator.py:310-327 | if every conflict moved to a port free in the cluster, the rewritten yaml has none left, zeros or not |
| `NodePorts.ResolveAndRewrite` | examples/deployer/lib/nodeport_allocator.py:580-661 | the whole resolution: the dialogues are about the first conflicting item on each port in planned order; injective for any answers, exactly when the yaml plans the remapped ports (always, for ports of at least 29999), and with automatic answers every planned port that the cluster holds belongs to the planned service itself |
| `NodeManagerPorts.AllocateAuto` | motor/common/utils/port_allocator.py:94-117 | the least usable port within the scan range, or failure if there is none |
| `NodeManagerPorts.AssignedApart` | motor/common/utils/port_allocator.py:284-322 | assigned ports are distinct, probed, within range of their preference, and their own preference or nobody's |
| `NodeManagerPorts.PreferenceKept` | motor/common/utils/port_allocator.py:290-295 | with distinct preferences a free preferred port goes to its owner |
| `NodeManagerPorts.PreferencesExactly` | motor/common/utils/port_allocator.py:274-322 | what is assigned, and in which order: the manager's port, both ports of each endpoint, and in a single container each further port that is set; all but zeros are reserved |
| `NodeManagerPorts.ReservedExactly` | motor/common/utils/port_allocator.py:274-289 | reserved are the manager's port, every endpoint port, and in a single container the further ports that are set and not zero |
| `NodeManagerPorts.AssignmentCorrect` | motor/common/utils/port_allocator.py:284-322 | all of this for a whole configuration under any fixed probe |
| `NodeManagerPorts.NodeManagerConfig.Auto` | motor/common/utils/port_allocator.py:290-295 | one allocation, remembered |
| `NodeManagerPorts.NodeManagerConfig.ApplyNodeManagerPorts` | motor/common/utils/port_allocator.py:274-322 | the configuration is rewritten field by field to exactly the assignment; it raises exactly when there is none |
| `PodLayout.PackingConserves` | examples/deployer/config_tool/vllm_to_motor.py:654-673 | pods times NPUs per pod is dp*tp*pp |
| `PodLayout.LayoutExactly` | examples/deployer/config_tool/vllm_to_motor.py:654-673 | a world is packed if and only if tp fits on a node, a group fits on one or fills whole ones, and equal pods, full ones unless alone, hold the world; the result is the only such layout, with one pod exactly when the world fits on a node |
| `PodLayout.EndpointNumExactly` | motor/config/node_manager.py:742-768 | the most endpoints that dp asks for and the devices hold; refused exactly when there is none |
| `PodLayout.LocalWorldExactly` | motor/config/node_manager.py:477-492 | a spanning group is accepted exactly when its spanning ranks divide evenly, and the nodes' shares then make up the group |
| `PodLayout.EmitExactly` | examples/deployer/config_tool/vllm_to_motor.py:746-769 | two keys are added exactly for a spanning group, what was set stays, and spanning is refused exactly with several dp ranks |
| `PodLayout.EndpointsMatchExactly` | motor/config/node_manager.py:742-768 | with one node per group the pods' endpoints never exceed dp, and add up to dp if and only if there is one pod or tp*pp divides the cards |
| `PodLayout.CrossNodeAcceptedExactly` | motor/config/node_manager.py:477-492 | a spanning group gets one pod per node, and the NodeManager accepts the emitted node count, finding the pod's NPUs, if and only if tp divides the cards |
| `PodLayout.UnevenTensorParallelRejected` | examples/deployer/config_tool/vllm_to_motor.py:662-673 | tp = 6, pp = 4 on 8-card nodes is packed but not accepted |
| `Instances.PutIsAssignment` | motor/common/resources/instance.py:217-222 | registering a pod again replaces its entry and no other |
| `Instances.RemoveIsDeletion` | motor/common/resources/instance.py:237-241 | removal drops that pod's entry and no other |
| `Instances.FilterEndpoints` | motor/common/resources/instance.py:480-489 | the nested loop computes the listing of the current map |
| `Instances.ListingExactly` | motor/common/resources/instance.py:480-489 | in either mode the listing holds exactly the endpoints to be shown, each once, in the map's order |
| `Instances.Instance.AddEndpoints` | motor/common/resources/instance.py:209-222 | the map is updated and a cached listing stays usable only if current |
| `Instances.Instance.DelEndpoints` | motor/common/resources/instance.py:234-244 | the same for removal; an unknown pod changes nothing |
| `Instances.Instance.InvalidateEndpointsCache` | motor/common/resources/instance.py:452-455 | makes the cache sound again whatever happened to the headless flags |
| `Instances.Instance.GetAllEndpoints` | motor/common/resources/instance.py:457-493 | cached or not, the answer is a fresh filter of the current map, and it is cached for the current version |
| `Instances.Instance.UpdateHeartbeat` | motor/common/resources/instance.py:411-439 | exactly when a report is refused or raises, which endpoints changed in each case, and that no listing changes |
| `Instances.MarkSlavesHeadless` | motor/controller/core/instance_assembler.py:862-879 | exactly the slaves' endpoints become headless and readers get the new listing |
| `Instances.SlavesExactly` | motor/controller/core/instance_assembler.py:862-879 | counting in groups of nnodes, all but the first node manager of each group are slaves |
| `Instances.Instance.IsEndpointsEnough` | motor/common/resources/instance.py:256-303 | the loop and both modes compute the readiness predicate |
| `Instances.ExpectedNodesExactly` | motor/common/resources/instance.py:508-529 | the expected node count is the least that holds the world |
| `Instances.HistoryTotal` | motor/common/resources/instance.py:209-254 | after any history of registrations and removals the map holds exactly the present pods, and the endpoint total is their number times the endpoints of each |
| `Instances.ReadyExactly` | motor/common/resources/instance.py:267-281 | after any history, an instance packed by the converter is complete exactly while the addresses present times the endpoints of each make dp |
| `Instances.ReadyExactlyWhenAllPresent` | motor/common/resources/instance.py:267-281 | with no more addresses than pods, that is exactly while all pods are present and a group divides a node |
| `Instances.StaleAddressCompletes` | motor/common/resources/instance.py:267-281 | with dp = 8 and tp = 3 on 8-card nodes, four addresses complete an instance of three pods |
| `Instances.DocumentedCountExactly` | motor/common/resources/instance.py:256-281 | in a complete instance the count of endpoints that are not headless is dp if and only if none is headless |
| `Instances.HeadlessIsCounted` | motor/common/resources/instance.py:441-445 | an instance of one headless endpoint is complete and shows none |
| `Instances.Instance.AddNodeMgr` | motor/common/resources/instance.py:174-185 | a node manager already listed is not listed again |
| `Instances.Instance.DelNodeMgr` | motor/common/resources/instance.py:187-198 | removes the first entry of that address and port |
| `Instances.SingleEndpointReadyExactly` | motor/common/resources/instance.py:508-529 | with one endpoint per pod, after any history of node managers joining and leaving, complete exactly while as many are there as the layout has pods |
| `RateLimit.RateLimitedLogger.ErrorWindow` | motor/common/logger/rate_limited_logger.py:85-115 | the new state and output of one error event |
| `RateLimit.RateLimitedLogger.RecordSuccess` | motor/common/logger/rate_limited_logger.py:121-134 | the new state after one success |
| `RateLimit.RateLimitedLogger.EmitPeriodic` | motor/common/logger/rate_limited_logger.py:136-189 | the new state and output of one periodic emission |
| `RateLimit.RateLimitedLogger.FlushAll` | motor/common/logger/rate_limited_logger.py:191-196 | one forced emission per known key, in order |
| `RateLimit.SuccessesConserved` | motor/common/logger/rate_limited_logger.py:121-189 | in every run and for every key, counts emitted plus pending are the successes recorded |
| `RateLimit.ErrorsConserved` | motor/common/logger/rate_limited_logger.py:85-115 | in every run and for every key, summary counts plus the open count are the events plus the number of summaries; the first event is written at once and once |
| `RateLimit.ErrorLineExactly` | motor/common/logger/rate_limited_logger.py:85-115 | in every run an error event is silent exactly when the key's latest error line is less than a window old; otherwise the line's whole content: events and seconds since that line, and the level of the key's first event |
| `RateLimit.PeriodicLineExactly` | motor/common/logger/rate_limited_logger.py:136-189 | in every run an emission writes a line exactly when it is forced or due and successes are unreported; the line tells how many, at the level of the key's first emission |
| `RateLimit.ErrorRate` | motor/common/logger/rate_limited_logger.py:103-115 | under a forward clock and a fixed window, at most 1 + elapsed/window error lines |
| `RateLimit.PeriodicRate` | motor/common/logger/rate_limited_logger.py:177-189 | under a forward clock and a fixed interval, at most elapsed/interval unforced periodic lines |
| `RateLimit.FlushReportsAll` | motor/common/logger/rate_limited_logger.py:191-196 | after a final flush every success has been reported |
| `LogCleanup.LogHandler.PerformCleanup` | motor/common/logger/logger_handler.py:253-293 | the loop queues exactly the files that the split leaves out |
| `LogCleanup.ProtectedNewest` | motor/common/logger/logger_handler.py:270-276 | the protected files are the newest uncompressed ones, as many as asked for or as there are |
| `LogCleanup.CleanupCorrect` | motor/common/logger/logger_handler.py:253-293 | kept and queued files partition the listing, no protected file is queued, totals stay within the limits or what is protected, and no queued file would have fitted |
| `LogCleanup.NewerKeptFirst` | motor/common/logger/logger_handler.py:278-293 | beyond the protected files, what is kept is newest first and fitted in its turn, and each queued file was out of room after the protected ones and those kept that are no older |

## Left out

- gRPC, TLS, HTTP, certificates, file and yaml reading, kubectl: their results are inputs, and stored values are abstract.
- The lock that `persist_data` takes is an outcome only; the lock key's own record in etcd is not part of the stored data.
- Clock skew between pods and server, and computing time between waits: it counts towards the waits around it.
- Thread scheduling inside one process: each lock-protected body is one step.
- Etcd lease ids are never reused by the server, and a lease id is never zero.
- Keys that are empty or hold `.`, `[` or `]`, and empty names in the whitelist, whose path strings are ambiguous; digits other than ASCII ones; sharing of sub-objects between the user's tree and the patched one.
- Annotation text is a token sequence; `typing.Optional` forms, list literals, string annotations and the choice of obsolete imports are not modelled; expression replacements are taken to be disjoint, as their syntax nodes are. `Optional` of other than one argument and `Union` of none, which typing refuses, have no meaning here.
- NodePort purposes, labels, conflict files and the dry-run variant `allocate_free_ports`; the services of an InferServiceSet are a flat list.
- `apply_coordinator_ports` and `apply_controller_ports`: they allocate without a skip set, so their ports need not differ.
- Single-container port offsets, and the readiness of instances whose groups span nodes (counted by node managers in the assembler).
- Log levels outside the four standard names, message formatting, alarms, banners, summaries and configuration plumbing: easy members only.
- Directory listing, compression and deletion around log retention.
- PNG sizes and image decoding by the imaging library.
