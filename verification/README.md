# p2p-ddns: a verified model

p2p-ddns lets a group of daemons find each other, keep a shared list of node records and publish
those records as host names. This project models the parts of it whose correctness depends on more
than one function, and proves properties of them with Dafny 4.11. `dafny verify dfyconfig.toml`
checks everything.

**Membership and trust** (`src/net/mod.rs`, `src/domain/`, `src/storage/mod.rs`,
`src/admin/handler.rs`). Each daemon keeps an active view `nodes`, a map of `trusted` daemons, a set
of registered management clients and a node table that survives crashes. `Daemon.Context` is that
daemon as a class; its methods change the fields in place and each is proved to take the state
exactly where a function in `Protocol` does (`Context.View()` is the state as a value). The theorems
are about those functions and hold for every state with the invariant `Inv` and every run:

- `Effects`: the same protocol a second time, as relations between the state before and after in terms of
  address sets, heartbeats and clock windows; every step is proved to be so related.
- `Invariant`: what every step keeps.
- `Trust`: replay, non-interference, provenance of trust, removal, resumption, crash recovery.
- `Convergence`: synchronisation as a last-writer-wins register, and what pulls achieve.
- `Housekeeping`: exactness and idempotence of cleanup.
- `Network`: many daemons and a bag of messages that may be lost, duplicated, reordered or
  invented by outsiders; membership closure.

**Hosts file** (`src/hosts/mod.rs`): `Hosts` edits the managed section of a file it does not own,
`HostsSync` decides what is published and shows that the section says exactly that.

**Address selection** (`src/util/mod.rs`): `Address` relates the bit arithmetic to shared networks
and shows what the scan picks.

**HTTP** (`src/admin/http.rs`, `src/app.rs`): `Http` has the hand-written reader and both writers,
over a stream that delivers bytes in arbitrary pieces.

How the model is set up:

- One step is one message handler, cleanup, save, client login, AddNode, RemoveNode or start. Steps
  are atomic and read the clock once; the clock reading and the observed address of the sender are
  inputs of the step. The daemon role is fixed (`args.daemon` is true in `src/app.rs:121`).
- A message that reaches a step has had its signature checked, so `from` is its true sender.
- Every table write is one transaction and succeeds. A crash is a restart at any point; it leaves
  the table, the own id and the network secret, and loses the rest.
- Iteration orders of concurrent maps are arbitrary; where the result depends on one (cleanup), the
  order met is part of the step.
- Node ids are their own text, so prefixes and equality speak of the same thing.
- Automatic induction is switched off wherever Dafny would apply it: an inductive proof calls its own
  lemma on a smaller argument.

## Where the code is not what one might expect

- The freshness test is an exact window, so a message can be replayed with effect for 70 s and not
  longer: no message changes anything after that, and a heartbeat stamped 10 s ahead changes the state
  of every daemon that trusts its active sender until then, unless the clock has not moved since the
  peer was last heard (`Trust.ReplayChangesNothing`, `Trust.HeartbeatEffect`,
  `Trust.ReplayWindowIsTight`).
- An AboutMe does not replace the fields of a peer that is already active: the entry is stamped with
  the clock before it is merged, so the stored alias and services win and the announced IPs are
  added. `Trust.Refreshed` states what does happen; a peer that had timed out does come back with
  exactly what it announced.
- The own id can enter the active view, against the guard of `upsert_active_node`. It does so exactly
  by an allowed first login under the own key and by a start with a ticket of its own, which file an
  entry without comparing it to the own id (`FilesSelf`, `Invariant.SelfStaysOut`, and
  `Invariant.SelfCanEnter` for one input).
- The HTTP request is read back for every arrival of its bytes exactly when the path is not empty
  and the head is at most 64 KiB + 1 byte long. With an empty path the server takes the protocol
  version for the path. Between 64 KiB + 2 and 64 KiB + 1024 bytes it depends on how the bytes
  arrive; above that the head is always refused (`Http.RequestRoundTrip`, `Http.RequestRead`).
- A repeated hosts write is skipped exactly when no end marker came ahead of the begin marker
  (`Hosts.RepeatedWriteSkipped`). An end marker two or more lines ahead makes the cut impossible;
  the original panics there, the model returns `SpliceOutOfRange`.
- The documentation says hosts synchronisation leaves the rest of the file untouched (line 200 of the
  repository's own `README.md`). That is false: clearing a file of one line adds a line
  (`Hosts.ClearAddsLine`). It holds for a run of edits if and only if there are no lines outside the
  section, or the last of them is blank, or no edit meets a file without a section; otherwise exactly one
  blank line is added, at the end (`Hosts.EditsKeepOutside`). For a file that began without a section the
  last case means that nothing is done at all, for a file with one that no edit follows a clear
  (`Hosts.MarkerlessFileKept`, `Hosts.SectionedFileKept`).
- AddNode compares the topic of the ticket, not its secret number (`Trust.AddNodeComparesTopic`).

## Model

| member | source | states |
|---|---|---|
| Merge.CollectAddrs | src/domain/merge.rs:12-36 | the two collecting loops yield the union of both IP sets in any iteration order, drop relays once there is an IP, and give the incoming address when ids differ or nobody has an IP |
| Merge.ChampionWins | src/domain/merge.rs:66-78 | the record kept for a domain is the first of highest heartbeat among those with that domain |
| Merge.IdsToRemoveForDuplicateDomains | src/domain/merge.rs:66-89 | the two loops list, in order, the ids of the records whose domain another id holds; among distinct nodes these are exactly those that do not win their domain |
| Merge.LosersAreTheOthers | src/domain/merge.rs:80-88 | among records of distinct nodes an id is listed for removal if and only if its record is not the winner of its domain |
| Storage.NodeTable.LoadNodes | src/storage/mod.rs:27-50 | returns exactly the stored records |
| Storage.NodeTable.SaveNode | src/storage/mod.rs:52-65 | files the record under its id and changes no other row |
| Storage.NodeTable.BatchSaveNodes | src/storage/mod.rs:67-87 | the table becomes the old one with all records inserted in order, in one transaction |
| Storage.InsertAllKeeps | src/storage/mod.rs:67-87 | a batch leaves the rows of ids it does not hold alone |
| Storage.InsertAllLast | src/storage/mod.rs:67-87 | the row of an id it holds becomes its last record for that id |
| Storage.NodeTable.RemoveNode | src/storage/mod.rs:89-100 | deletes that row and no other |
| Daemon.Context.constructor | src/net/mod.rs:361-450 | a start over any table with consistent keys: every id other than the invitor is active and trusted exactly by its stored daemon record, the invitor by the ticket; identity and network as the ticket or the store say; the invariant holds |
| Daemon.Context.LoadKnown | src/net/mod.rs:414-426 | the loop over persisted records keeps exactly the daemon records of other nodes |
| Daemon.Context.UpsertActiveNode | src/net/mod.rs:701-710 | files a record in the active view unless it is the own one |
| Daemon.Context.TrustDaemonNode | src/net/mod.rs:670-681 | merges a daemon record of another node into the trusted map and ignores all others |
| Daemon.Context.UntrustNode | src/net/mod.rs:683-685 | takes one id out of the trusted map and leaves everything else alone |
| Daemon.Context.RefreshSenderObservedAddr | src/net/mod.rs:650-668 | reports whether an observed address was filed, and then has stamped entry and trust, else changed nothing |
| Daemon.Context.TouchSender | src/net/mod.rs:1002-1008 | refreshes the sender's entry by observed address and clock, and only that |
| Daemon.Context.AcceptAnnouncement | src/net/mod.rs:1031-1046 | an announcement is merged with the active entry and taken into trust and view |
| Daemon.Context.AbsorbRecord | src/net/mod.rs:1132-1148 | one sync record is taken exactly when it is a daemon other than self and strictly newer than the entry |
| Daemon.Context.AbsorbRecords | src/net/mod.rs:1131-1149 | the record loop is the fold of the single-record step over the list |
| Daemon.Context.HandleMessage | src/net/mod.rs:1010-1154 | the whole match over message variants, rejections included |
| Daemon.Context.ProcessMessage | src/net/mod.rs:998-1157 | handling a message keeps the invariant, takes the state where the protocol says, and answers every sync request |
| Daemon.Context.CollectAnswer | src/net/mod.rs:1112-1121 | the answer holds each daemon-flagged active entry once and nothing else, then the own record with current address and clock |
| Daemon.Context.Cleanup | src/net/mod.rs:919-949 | the loops over stale entries and duplicate domains, for an order that lists every remaining entry once |
| Daemon.Context.Save | src/net/mod.rs:902-917 | after a save the table holds every trusted daemon record and all it held before; view and trust are unchanged |
| Invariant.AcceptInv | src/net/mod.rs:670-710 | trusting and activating a merged record keeps the invariant |
| Invariant.AbsorbAllView | src/net/mod.rs:1130-1149 | after a passing sync message the active ids are exactly those before and the daemons it lists, own id excepted |
| Invariant.ProcessKeeps | src/net/mod.rs:998-1157 | every message keeps the invariant, changes only view and trust, never shrinks trust, and adds to it at most a valid inviter or what a trusted sender lists |
| Invariant.NextKeeps | src/net/mod.rs:650-710 | every step, administration and restarts included, keeps the invariant and the own id |
| Invariant.ReachableInv | src/net/mod.rs:411-450 | in every reachable state keys name their records, trusted records are daemons other than self, and every daemon record of another node in view or table belongs to a trusted id |
| Invariant.SelfStaysOut | src/admin/handler.rs:69-100 | a step puts the own id into the active view if and only if it is an allowed first login under the own key or a start with a ticket of its own |
| Invariant.SelfCanEnter | src/admin/handler.rs:69-100 | one input at which the own id does enter: a ticketless local login under the own key |
| Effects.MergeCombines | src/domain/merge.rs:38-64 | a newer record wins every field and its address if that has an IP; an older or equal one only adds IPs; otherwise IPs are united and relays stay only where nobody has an IP |
| Effects.CombinesDetermines | src/domain/merge.rs:38-64 | that description leaves exactly one outcome |
| Effects.KnownIpsSurvive | src/domain/merge.rs:42-47 | known IPs are not lost to a record without any, however new |
| Effects.SenderAddrFiled | src/net/mod.rs:631-648 | a sender is filed at the observed address alone, else at its own announced one, else without address |
| Effects.AcceptTakes | src/net/mod.rs:670-710 | taking a record changes one active entry, and of a daemon one trusted record, which is combined with what was trusted before |
| Effects.TouchStamps | src/net/mod.rs:1002-1008 | a message that counts gives the sender's entry the clock and the observed address, and what is trusted of a daemon too if there is one; nothing else |
| Effects.StampsSenderOnly | src/net/mod.rs:650-668 | every other entry, the trusted ids, the clients and the table are as before |
| Effects.HeartbeatStamps | src/net/mod.rs:1074-1081 | heartbeats and introductions do that and nothing more; those that do not count change nothing |
| Effects.LeftRemovesSender | src/net/mod.rs:1082-1089 | a departure that counts takes exactly its sender out of the view; any other changes nothing |
| Effects.AnnouncementTakes | src/net/mod.rs:1011-1073 | which announcements are accepted, by window, trust, topic and secret number, and what they make of the entry; the others only stamp |
| Effects.AbsorbTakesRecord | src/net/mod.rs:1132-1148 | a sync record of a client, of this daemon or not strictly newer is skipped; any other is combined with the entry and taken |
| Effects.SyncTakesRecords | src/net/mod.rs:1090-1149 | a sync message that counts takes its records one by one in order; any other changes nothing |
| Effects.RecordKeepsKnownIps | src/net/mod.rs:1144-1147 | after a sync record without IPs an active third party keeps its IPs |
| Effects.AnswerIs | src/net/mod.rs:954-959 | an answer lists each daemon-flagged entry once and nothing else, then the own record under the current address and time |
| Effects.SaveWrites | src/net/mod.rs:902-917 | a save writes the trusted record of each trusted id over its row and touches no other row |
| Effects.StartIs | src/net/mod.rs:361-450 | who a started daemon is, which network it belongs to, and exactly whom it has active and trusted |
| Effects.RestartIs | src/net/mod.rs:411-450 | the same of a restart from what any state leaves behind |
| Effects.LoginFiles | src/admin/handler.rs:41-114 | which requests are authentic, and the one entry a first login files, field by field |
| Effects.AddNodeTakes | src/admin/handler.rs:159-194 | both refusals, and for a ticket of this network exactly what becomes active, trusted and stored; of a ticket naming this daemon only the row |
| Effects.PrefixMatches | src/net/mod.rs:687-693 | a prefix matches the beginning of an id letter by letter, up to the case of ASCII letters |
| Trust.FreshWindow | src/domain/message.rs:77-82 | the saturating test is the exact window from now - 60 to now + 10 over all of u64 |
| Trust.ReplayChangesNothing | src/net/mod.rs:621-629 | a message once fresh at t changes nothing on any daemon when replayed after t + 70 |
| Trust.HeartbeatEffect | src/net/mod.rs:1002-1008 | a heartbeat from a trusted active peer changes the state if and only if it is fresh |
| Trust.ReplayWindowIsTight | src/domain/message.rs:49-82 | a heartbeat stamped 10 s ahead that came in at t changes the state of any daemon that trusts its active sender, at any later clock other than the recorded one, if and only if the clock is at most t + 70 |
| Trust.NonInterference | src/net/mod.rs:998-1149 | deleting from any run all messages that had no standing on arrival leaves the final state as it was |
| Trust.PurgeLeavesNoneInert | src/net/mod.rs:998-1149 | judged along the shortened run itself, every message left has standing |
| Trust.TrustGain | src/net/mod.rs:998-1149 | one step adds to trust at most the ids it admits |
| Trust.TrustHasProvenance | src/net/mod.rs:415-450 | in every run, at every point, each trusted id has a finite chain of vouchers, each trusted at the time, back to the start, a start ticket, an AddNode or a valid invitation |
| Trust.RemoveNodeActs | src/admin/handler.rs:195-268 | a request that means exactly one id deletes it, unless it is the own one, which is refused |
| Trust.RemoveNodeRefuses | src/admin/handler.rs:214-233 | a prefix that means none or several ids changes nothing and is answered with their number |
| Trust.ForgetIsExact | src/admin/handler.rs:250-253 | removal leaves no trace of the id in view, trust, registry and table, and every other entry as it was |
| Trust.StepReadmits | src/net/mod.rs:1018-1149 | a step brings an absent id back if and only if it is a valid invitation from it, a passing sync listing it, an AddNode or start ticket naming it, or an allowed client login under it |
| Trust.RemovalLasts | src/admin/handler.rs:195-268 | a removed id is absent after every step of a run if and only if no step of the run readmits it; saves, cleanups, crashes and restarts included |
| Trust.TrustKept | src/net/mod.rs:683-685 | while a daemon runs, trust in an id ends through RemoveNode only |
| Trust.TrustEndures | src/net/mod.rs:919-1089 | along every run without a removal of it or a restart, a trusted id stays trusted |
| Trust.ResumeAfterSilence | src/net/mod.rs:1048-1073 | after any such run one fresh AboutMe makes the peer active: with exactly what it announced under the observed address if it was inactive, refreshed otherwise |
| Trust.InvitationAdmits | src/net/mod.rs:1011-1047 | a valid invitation makes its sender active, a newcomer with exactly what it announced and trusted if it is a daemon |
| Trust.AddNodeAdmits | src/admin/handler.rs:170-193 | a ticket of this network makes the node it names active, stored and, if a daemon, trusted, and changes nothing for anybody else |
| Trust.AddNodeComparesTopic | src/admin/handler.rs:170-178 | a ticket is accepted if and only if its topic matches, whatever its secret number; a refusal changes nothing |
| Trust.RemoveUndoesAdd | src/admin/handler.rs:180-253 | removing a node right after adding it gives back the whole state, if there was no trace of it before |
| Trust.RemoveUndoesLogin | src/admin/handler.rs:84-113 | removing a client right after its first login gives back the whole state |
| Trust.LoginFilesClient | src/admin/handler.rs:35-126 | a first login files a marked entry and nothing else; it earns no trust and no storage, cannot be hit by a removal prefix, and logging in again is a no-op |
| Trust.SaveCapturesTrust | src/net/mod.rs:902-917 | right after a save, load-and-filter yields exactly the trusted map |
| Trust.CrashRevivesNobody | src/net/mod.rs:415-426 | a ticketless restart at any point of any run trusts only ids trusted at that point |
| Trust.StoredEndures | src/storage/mod.rs:52-100 | a stored daemon stays stored along every run that neither removes it nor files a client record under its id |
| Trust.CrashKeepsSaved | src/net/mod.rs:411-450 | whoever was trusted at a save and not removed since is trusted again after a crash at any later point, further restarts included |
| Convergence.AbsorbAllSettles | src/net/mod.rs:1131-1149 | folding sync records leaves for each third party the record of highest heartbeat, strictly newer records replacing older ones |
| Convergence.SettledAgree | src/net/mod.rs:1139-1142 | two outcomes of the same records agree in every field but the address, and entirely when the records carry an IP |
| Convergence.LastWriterWins | src/net/mod.rs:1090-1149 | trusted sync messages with the same records for an id leave the same entry for it, in any order, split and repetition |
| Convergence.PullDominates | src/net/mod.rs:1127-1150 | after a passing SyncResponse every other daemon in it is active with a heartbeat at least as high as reported |
| Convergence.AnswerRecords | src/net/mod.rs:1112-1121 | an answer carries for each third party exactly the active entry, if there is one |
| Convergence.MutualPullAgrees | src/net/mod.rs:1112-1149 | when B has pulled from A and A then from B, both views hold the same third parties with the same heartbeats, the greater of the two for each |
| Convergence.GatherSettles | src/net/mod.rs:1127-1149 | a hub that takes the answers of any number of peers holds for each third party the latest record it or any of them held |
| Convergence.HubAgreement | src/net/mod.rs:1112-1149 | when each peer then takes the hub's answer, all views hold the same third parties, each with the greatest heartbeat anybody held for it |
| Network.ReplySafe | src/net/mod.rs:1112-1125 | a daemon whose trust stays within the circle reports members only |
| Network.RunSafe | src/net/mod.rs:998-1157 | safety of every daemon and of every message in flight is kept along every legal run |
| Network.MembershipClosed | src/net/mod.rs:998-1157 | if outsiders hold no secret ticket, then in every reachable network state, under loss, duplication, reordering and outsider traffic, every trusted id, daemon-flagged entry and reported daemon is a member |
| Network.InvitationArrives | src/net/mod.rs:712-737 | a daemon may announce itself at any time, and where its invitation arrives inside the window, in the same network, it becomes active and trusted |
| Housekeeping.CleanupExact | src/net/mod.rs:919-949 | cleanup keeps exactly the non-stale entries that win their domain: highest heartbeat, first in snapshot order on ties |
| Housekeeping.CleanupOnlyDrops | src/net/mod.rs:922-938 | what survives is unchanged, and no surviving daemon is more than 90 s old |
| Housekeeping.OneEntryPerDomain | src/domain/merge.rs:66-89 | each domain some non-stale entry had is then held by exactly one entry, with a heartbeat nobody exceeded; client entries are not dropped for age |
| Housekeeping.CleanupIdempotent | src/net/mod.rs:919-949 | a second cleanup at the same time changes nothing, in whatever order it scans |
| Admin.AuthenticateAndRegister | src/admin/handler.rs:35-126 | success exactly when the ticket validates or the mode waives it; the daemon then takes the login step |
| Admin.HandleAddNode | src/admin/handler.rs:159-194 | malformed and foreign tickets are refused without effect, others take the AddNode step; the invariant is kept |
| Admin.ActiveNodeIdsWithPrefix | src/admin/handler.rs:201-207 | lists each unregistered active id with the prefix once |
| Admin.TrustedNodeIdsWithPrefix | src/net/mod.rs:687-693 | lists each trusted id with the prefix once |
| Admin.ResolveId | src/admin/handler.rs:196-236 | the search over both lists finds the one id meant, or counts the distinct ids meant |
| Admin.HandleRemoveNode | src/admin/handler.rs:195-268 | removes what was resolved from registry, view, trust and table, refuses self, and keeps the invariant |
| Hosts.HostsFile.WriteSection | src/hosts/mod.rs:240-313 | told by the lines: an unpaired marker fails with the file unchanged; with both markers the lines between the first of each give way to the section and all others stay in order; without markers the section goes to the end; true exactly if the file was written; the same as the plain splice |
| Hosts.HostsFile.Plan | src/hosts/mod.rs:240-285 | the marker match decides between error, nothing to do and an insertion point that makes the splice |
| Hosts.SpliceIs | src/hosts/mod.rs:240-300 | the splice, for every file and marker layout, told by its lines |
| Hosts.HalfSectionRefused | src/hosts/mod.rs:279-284 | a file with one kind of marker only is refused |
| Hosts.HostsFile.Emit | src/hosts/mod.rs:287-300 | the three write loops put the section between the two halves of the rest |
| Hosts.UpToDateIsFixed | src/hosts/mod.rs:262-266 | skipping the write is the same as writing: an up-to-date file is its own splice |
| Hosts.EditKeepsOutside | src/hosts/mod.rs:260-300 | one write over a file without markers or with one section succeeds, and leaves the lines outside untouched if and only if the file has a section, is empty, or ends in a blank line; else it adds one blank line |
| Hosts.EditsKeepOutside | src/hosts/mod.rs:215-313 | any run of syncs and clears keeps that shape and every outside line in order; the lines outside are untouched if and only if there are none, the last is blank, or no edit meets a file without a section; else one blank line is added in all |
| Hosts.MarkerlessFileKept | src/hosts/mod.rs:270-278 | a file that began without a section is kept by a run of edits if and only if there were no edits, no lines, or a blank last line |
| Hosts.SectionedFileKept | src/hosts/mod.rs:260-278 | outside a section that was there, the file is kept if and only if no edit follows a clear, or there is nothing outside, or its last line is blank |
| Hosts.ClearAddsLine | src/hosts/mod.rs:396-398 | one input at which the rest of the file does not stay untouched |
| Hosts.LastEditDecides | src/hosts/mod.rs:260-300 | on a file that began without markers only the last write or clear determines the lines |
| Hosts.RepeatedWriteSkipped | src/hosts/mod.rs:262-266 | a repeated write of the same non-empty section is skipped if and only if no end marker came ahead of the begin marker |
| HostsSync.HostsBuilder.Add | src/hosts/mod.rs:141-150 | names are appended to those of the address, in order; other addresses are unchanged |
| HostsSync.HostsBuilder.WriteTo | src/hosts/mod.rs:215-313 | rendering and writing the map is splicing in one line per address in address order, or cutting the section for an empty map |
| HostsSync.SyncNodesToHosts | src/hosts/mod.rs:364-394 | a sync leaves the splice of the section of the given nodes, and reports whether it wrote |
| HostsSync.ClearManagedHosts | src/hosts/mod.rs:396-398 | a clear leaves the file without its section |
| HostsSync.CanonicalChars | src/hosts/mod.rs:336-357 | an accepted name is lower-case letters, digits, hyphens and dots, not ending in a dot |
| HostsSync.CanonicalIsFixedPoint | src/hosts/mod.rs:348-357 | every accepted name is a fixed point of the canonical form |
| HostsSync.LabelsByPlace | src/hosts/mod.rs:336-346 | all labels between dots are valid exactly if the characters, the places of hyphens and dots, and the distance between dots are |
| HostsSync.CanonicalIs | src/hosts/mod.rs:336-357 | which names are accepted, character by character, and that the result is the trimmed name with letters in lower case |
| HostsSync.RecordIpIs | src/hosts/mod.rs:359-362 | the published address is the chosen one, or the first in listing order where there is no choice; none exactly if there is no IP |
| HostsSync.NamesInOrder | src/hosts/mod.rs:373-391 | under each address the names stand in the order of the nodes, plain before suffixed |
| HostsSync.EntryLines | src/hosts/mod.rs:246-256 | one line for each address in address order, with its names separated by spaces |
| HostsSync.EntriesAreClean | src/hosts/mod.rs:246-256 | no entry line is ever taken for a marker |
| HostsSync.EntryReadsBack | src/hosts/mod.rs:253-255 | splitting an entry line at spaces gives back the address and the names |
| HostsSync.HostnameMapHolds | src/hosts/mod.rs:373-391 | the map holds exactly the selected address and the canonical and suffixed names of non-client nodes with an address and a valid name |
| HostsSync.SectionRoundTrip | src/hosts/mod.rs:364-394 | after a sync, reading the managed section gives exactly the published pairs, in any node order |
| Address.LeadingZerosIsPrefix | src/util/mod.rs:211-225 | at any width, leading_zeros(a ^ b) >= k if and only if a and b agree in their top k bits |
| Address.PrefixBitsInRange | src/util/mod.rs:211-225 | the score is between 0 and the width of the address |
| Address.PrefixIsNetwork | src/util/mod.rs:211-225 | for k >= 1 the score reaches k if and only if both addresses are of one family and share a /k (section 3.1 of RFC 4632) |
| Address.ScoreIsMaximum | src/util/mod.rs:227-233 | the score against a list is attained by one local address and exceeded by none |
| Address.Scan | src/util/mod.rs:259-279 | the loop over candidate triples computes the running choice of the specification |
| Address.PickPrecedes | src/util/mod.rs:259-279 | the scan finds an address exactly when one is eligible, and one that precedes every eligible address |
| Address.BestIsMaximal | src/util/mod.rs:239-285 | the result is the single eligible address of longest common prefix, then preferred family, then listing order; otherwise the remote address unchanged |
| Address.ChoiceRespectsNetworks | src/util/mod.rs:239-285 | if some eligible remote address shares a /k with a used local address, so does the chosen one |
| Address.ChoiceIsStable | src/util/mod.rs:239-285 | choosing again returns the same address |
| Address.LocalRanges | src/util/mod.rs:97-106 | the tests on addresses are membership in eight networks: loopback, multicast, unspecified and link-local of both families |
| Address.RankIsListing | src/util/mod.rs:237 | the listing order is IPv4 before IPv6, then address, then port |
| Address.PreferenceIs | src/util/mod.rs:240-257 | the own addresses that count are the routable ones, or all if none is; which remote ones are eligible and which family is preferred follow from them |
| Address.ChoiceIs | src/util/mod.rs:239-285 | in terms of the two address sets: the chosen address shares with an own one every network length any eligible one shares, is of the preferred family if an equally near one is, and is listed first among the rest |
| Address.ChoiceIsUnique | src/util/mod.rs:239-285 | that description leaves exactly one choice |
| Address.ChooseEndpointAddr | src/util/mod.rs:239-285 | the method, early returns included, makes the choice the lemmas are about |
| Http.ReadHead | src/admin/http.rs:123-139 | terminates; the result is that of the header loop on the pieces its reads returned, nothing is lost, and less than one chunk is read past the head |
| Http.LoopReadsOn | src/admin/http.rs:123-139 | pieces the loop reads past leave exactly their bytes in the buffer, and the next piece is judged with them |
| Http.TrickleIsRead | src/admin/http.rs:123-139 | bytes without a terminator within the limit can trickle in one at a time without ending the loop |
| Http.HeadReadsExactly | src/admin/http.rs:123-139 | the loop ends with a given result for some list of pieces if and only if the bytes have a point where a piece of at most 1024 bytes brings that result |
| Http.HeadIsSeen | src/admin/http.rs:123-139 | a head is taken at its terminator or refused, and each only within its size range |
| Http.HeadRefused | src/admin/http.rs:136-138 | for a head longer than 64 KiB + 1 byte there is a list of pieces on which the loop refuses it |
| Http.HeadTaken | src/admin/http.rs:123-138 | for a head of at most 64 KiB + 1024 bytes there is a list of pieces on which the loop takes it |
| Http.CollectHeaders | src/admin/http.rs:151-159 | the loop over header lines stops at the first empty one and keeps the last value of each name |
| Http.DecodeHead | src/admin/http.rs:141-169 | decoding, request line, headers and content length, with every error case |
| Http.ReadBody | src/admin/http.rs:171-185 | terminates; fails exactly when the connection ends early, otherwise returns what was there already and exactly the bytes missing to the announced length |
| Http.ReadHttpRequest | src/admin/http.rs:119-188 | the result is determined by the bytes and the pieces the header loop read, head errors, parse errors and body included |
| Http.SendHttpPost | src/app.rs:429-434 | the bytes written are the request head followed by the body |
| Http.HeadEndsAtTerminator | src/admin/http.rs:132-135 | in the bytes of a head of non-empty lines, whatever follows, the first CRLFCRLF is its last four bytes |
| Http.RequestHeadParses | src/app.rs:429-432 | the server's parser recovers POST, path, headers and length from the client's head |
| Http.RequestRead | src/admin/http.rs:119-188 | every outcome of reading the client's request is a size refusal or the request itself, with the size ranges for each |
| Http.RequestRoundTrip | src/admin/http.rs:119-188 | POST, path and exactly the body come back under every arrival of the bytes if and only if the path is not empty and the head is at most 64 KiB + 1 byte |
| Http.WriteResponse | src/admin/http.rs:190-214 | the bytes written are status line, headers and body |
| Http.ResponseRoundTrip | src/app.rs:441-454 | the client recovers status and body from every response, whatever bytes the body has (sections 2.1 and 6.2 of RFC 9112) |
| Http.ResponseHeadParses | src/admin/http.rs:190-214 | the head of a response carries status, content type and the length of its body |
| Http.StatusLineIs | src/admin/http.rs:196-205 | each known status goes out with its reason phrase (section 15 of RFC 9110), any other with OK |
| Http.ResponseNeedsBlankLine | src/app.rs:441-445 | a response without a blank line is refused |
| Http.ResponseAccepted | src/app.rs:441-454 | what is accepted is text up to the first blank line, and the body is whatever follows it |
| Http.HeadIsText | src/admin/http.rs:142 | a head is refused for its encoding exactly if it encodes no text |
| Http.LengthDecides | src/admin/http.rs:161-169 | a content length that is no number, too large for a word or over 4 MiB is refused; without one the body is empty |
| Http.HeaderLinesRead | src/admin/http.rs:151-159 | header lines count up to the first empty one, lines without a colon are skipped, names lose their case, later values win |
| Utf8.DecodeUndoesEncode | src/admin/http.rs:142 | decoding the bytes of a text gives the text back |
| Utf8.EncodeUndoesDecode | src/admin/http.rs:142 | only the encoding of a text is read as that text |
| Utf8.AsciiIsItself | src/app.rs:429-434 | ASCII text is its own encoding |
| Text.TrimIs | src/hosts/mod.rs:240-241 | trimming takes off the whitespace at both ends and nothing else |
| Text.TrimEndMatchesIs | src/hosts/mod.rs:349 | taking off final dots takes off all of them and nothing else |

## Left out

- Endpoints, gossip, QUIC, relays, discovery and the static address provider: messages arrive as step inputs, and the observed address of a sender is an input.
- Signatures and the postcard and base64 encodings: a verified message is taken to have its true sender and content.
- Endpoint binding, storage reset, signal handling, timeouts and scheduling between tasks; handlers that interleave with each other.
- Failing storage operations: the error answers of AddNode and RemoveNode for a failed write.
- `Ticket` refreshing, and `run_for`, which nothing but tests uses.
- Management commands that only read or control (Query, Status, GetTicket, Pause, Resume, Shutdown), client permissions (every registered client gets all four), and the texts of answers.
- Daemon.Context.RefreshSenderObservedAddr: the source reads the clock anew for each record it stamps; the model takes one reading per step.
- Convergence.LastWriterWins: says nothing about the addresses in the trusted map, which depend on the order of arrival because an older record adds its IPs to a newer one.
- Convergence.MutualPullAgrees: needs that neither side holds client-flagged entries for third parties, because a client entry on one side is never reported to the other.
- Convergence.HubAgreement: needs the same of the hub and every peer, and that nothing else happens on them in between.
- Trust.CrashKeepsSaved: excludes an AddNode ticket that names a client under the saved id, because that row is then skipped at the next start.
- Network.MembershipClosed: a member without a modelled daemon is taken to vouch for members only.
- File operations behind hosts writing (temporary file, swap, clobber), directories as paths, files that are not UTF-8, line terminators and the Windows layout of one name per line; the section tag is the fixed one of the daemon.
- HostsSync.SectionRoundTrip: how an IP address is displayed is a parameter, of which only what `Displays` says is used: distinct, non-empty, without whitespace, not starting with a comment sign.
- HostsSync.CanonicalIsFixedPoint: lengths are counted in characters, not bytes; names with other than ASCII characters are rejected either way.
- Flow labels and scope ids of IPv6 socket addresses, which only refine the listing order of otherwise equal addresses.
- Interface enumeration, address filtering by interface and the display helpers.
- Lower-casing beyond ASCII: node ids are hexadecimal text, so no other letter can match a prefix.
- The constant second result of `merge_node`.
- Http.RequestRoundTrip: the Host value is taken to be non-empty and free of whitespace, as the text of a socket address is.
- The Unix socket server, command line parsing, configuration paths and the routing of HTTP requests to commands.
