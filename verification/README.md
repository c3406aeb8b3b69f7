# VectorCore ePDG, verified core

A Dafny model of the stateful cores of the VectorCore ePDG (a VoWiFi gateway) and proofs about
them. `dafny verify dfyconfig.toml` checks everything.

How the model is built:

- Code that changes state in place is a class or a method with loops (`Dataplane`, `Manager`,
  `RollbackState`, `Kernel`, `Server`, `Client`, `CookieState`, the parsers and encoders). Each is
  proved equal to a specification function, and the laws are proved about that function.
- Protocols and concurrency are state machines: a `State`, one step per handler, lock region,
  atomic operation or kernel call, and lemmas over every run.
- Kernel maps, XFRM and routes are finite maps and sets. A kernel call fails when the environment
  says so and then changes nothing. Random numbers, clocks, network answers and the PRF, MAC and
  ciphers are parameters.

| module | what it models |
|---|---|
| `Tft`, `TcRules`, `TcTable`, `UplinkPath` | traffic flow templates, their compilation to rules, the kernel tables, the classifier and the TC program as a whole |
| `SessionFsm`, `Activation` | the session state machine and one attach interleaved with deletes |
| `IkeLifecycle`, `IkeOwnership`, `IkeSessions`, `IkeAuth`, `IkeRuns`, `IkeServer`, `XfrmDeletes`, `XfrmRuns` | IKE SAs, CHILD SA rekeys, XFRM states, sessions and their authentication over whole runs, and refused XFRM deletes |
| `GtpuIndex`, `GtpuManager`, `BearerAlloc` | the GTP-U manager, its undo stack, Create Bearer handling |
| `S2bEngine`, `Gtpv2`, `Gtpv2Bearer`, `BearerCache` | the GTPv2-C transaction engine, codec and response cache |
| `Checksum`, `GtpuWire`, `DownlinkPath`, `SkPayload`, `Diameter`, `Octets` | wire formats, and the XDP program with the maps that the manager keeps |
| `HalfOpen`, `Cookie` | the bound on the IKE SA table and the cookie lifetime |

## What does not hold, and exactly when it does

- Filters of equal precedence on different bearers: the Go map order decides
  (`EveryChoiceReached`, `TieIsPrescribed`); with distinct precedences it is irrelevant
  (`OrderIrrelevant`).
- A filter of precedence 255 is never chosen (`LastPrecedenceIsDead`). More than 32 rules send a
  packet on the bearer of the full list exactly when `TruncationExactIff` says so
  (`TruncationLoses` is a packet that changes bearer).
- A packet that is being classified while its table is rewritten may get a bearer that neither
  table would choose (`OverlapCanMix`). It never does iff every matching old and new rule within
  the old count names the default, the old or the new choice (`OverlapExactIff`).
- A CHILD SA rekey leaves kernel states without an owner iff another rekey was outstanding or the
  request came from a new address (`ChildRekeyExactIff`); so does a reused initiator SPI iff its
  SA owned states (`InitExactIff`), a failed attach iff its SPIs were installed already
  (`FailedAttachExactIff`), and an attach iff its random own SPI is 0 (`AttachExactIff`); such a
  pair outlives its SA (`AttachedPairGoneIff`, `PromotedPairGoneIff`). `IkeRuns` has a run from
  the empty server for each.
- A refused XFRM delete leaves its state in the kernel until a later delete of it works. A
  teardown, or one SPI of a delete payload, leaves the kernel with exactly the owned states iff no
  state it deletes, and none left from before, has all its deletes here refused
  (`TeardownExactIff`, `EspDeleteExactIff`). `RefusedDeleteStays` is a run after which a state
  stays, `RepeatedDeleteClears` one in which the teardown removes it after all.
- `CanActivate` holds at activation iff the PGW's bearer context did not carry EBI 0
  (`ActivationIsEarned`).
- A handover attach can give a subscriber two active sessions (`HandoverUniqueIff`,
  `HandoverDuplicates`).
- `AddBearer` on an EBI in use, which the TEID retry loop does after a failed rule sync, leaves a
  stale TEID in the index (`InsertBearerIff`, `BusyEbiBreaks`); the loop keeps the index exact iff
  it inserts at most one TEID (`AttemptsExactIff`). `AddSession` on an id in use leaves one too
  (`InsertSessionIff`, `RepeatedIdBreaks`), and on an address in use it cuts off the session that
  had it (`InsertPaaIff`, `SharedPaaBreaks`).
- A pending entry is lost iff a registration, a deferred delete or a claim hits another
  transaction's number (`StepExactIff`, `RunExactIff`); `RepeatLoses` is such a run. A message is
  still delivered at most once (`SingleDelivery`).
- Within a secret's lifetime a cookie is refused iff a failed random read spoiled the secret and
  another call was due after it (`RefusedIff`, `CookieLost`).
- The XDP program hands on the inner packet whole iff the outer IP header has no options: it
  removes a fixed length (`StripsInnerIff`).
- Inner packets above 65499 octets wrap the outer length fields (`LengthsConsistentIff`); an SK
  payload of 65536 octets or more has a wrong length field (`LengthFieldIff`) but still decrypts.
- TFT directions 1 and 3 are compiled to uplink rules, as the code reads the direction bits;
  TS 24.008 gives 1 to downlink filters.
- The SA table can exceed `maxHalfOpenSAs` by the worker pool less one, and by one more for each
  IKE SA rekey (`BoundReached`).

## Model

| member | source | states |
|---|---|---|
| Tft.ParsePacketFilterContents | internal/gtpu/dataplane.go:1059-1129 | the component loop computes `ParseContents`: type by type, unknown types and truncated values are errors, SPI, TOS and flow label are stepped over unchecked |
| Tft.ParseTFT | internal/gtpu/dataplane.go:1017-1057 | the parser computes `ParseTft` for every input, error cases included |
| Tft.FilterRoundTrip | internal/gtpu/dataplane.go:1036-1056 | one encoded packet filter, followed by anything, parses back to itself and leaves the rest |
| Tft.TftRoundTrip | internal/gtpu/dataplane.go:1017-1057 | parsing inverts the encoding of every TFT that creates, adds or replaces filters |
| Tft.TftMeaning | internal/gtpu/dataplane.go:1017-1057 | operations 1, 3 and 4 give the filters carried, 2, 5 and 6 an empty list, 0 and 7 no TFT; empty octets and a filter that is cut short or has broken contents are errors |
| Tft.EveryContents | internal/gtpu/dataplane.go:1059-1129 | any octets are components of TS 24.008, in any order, followed by an end, a broken component or an unread one cut short; they give the filter the components describe, the last of a kind winning, and fail iff one is broken |
| TcRules.CompileTft | internal/gtpu/dataplane.go:1156-1184 | the filter loop emits `CompileFilters`: one rule per uplink or bidirectional filter with the flags of its components |
| TcRules.BuildTcBpfTftRules | internal/gtpu/dataplane.go:1147-1187 | for some order that visits every bearer once, the result is `Compile` in that order |
| TcRules.RuleMeansFilter | internal/gtpu/bpf/tc_gtpu_encap.c:142-176 | the BPF match on a compiled rule holds exactly for the packets the filter's remote address, protocol and port components match |
| TcRules.PickIsBest | internal/gtpu/bpf/tc_gtpu_encap.c:230-254 | the scan ends with the first matching rule of lowest precedence below 255, else the default TEID |
| TcRules.CompileExact | internal/gtpu/dataplane.go:1151-1185 | a rule is emitted exactly for the eligible filters of the dedicated bearers |
| TcRules.MeaningPreserved | internal/gtpu/dataplane.go:1147-1187 | in every emission order the scan of the compiled rules chooses a best matching filter's bearer, or the default if none matches |
| TcRules.OrderIrrelevant | internal/gtpu/dataplane.go:1152-1152 | with precedences distinct across bearers, the scan's result is the one prescribed choice, whatever the order |
| TcRules.EveryChoiceReached | internal/gtpu/dataplane.go:1152-1152 | each prescribed choice is the result of some iteration order |
| TcRules.TieIsPrescribed | internal/gtpu/dataplane.go:1152-1152 | a session for which two different TEIDs are prescribed |
| TcRules.TruncationExactIff | internal/gtpu/dataplane.go:1136-1139 | the first 32 rules send a packet on the same bearer as all rules iff the first best matching rule, if it is a dropped one, names the TEID the kept rules prescribe |
| TcRules.TruncationLoses | internal/gtpu/dataplane.go:1136-1139 | 33 rules for which dropping the last changes the bearer |
| TcRules.LastPrecedenceIsDead | internal/gtpu/bpf/tc_gtpu_encap.c:245-246 | a rule of precedence 255 changes no packet's bearer |
| TcTable.SelectTeid | internal/gtpu/bpf/tc_gtpu_encap.c:213-254 | the kernel loop with its bound, missing-rule and precedence checks computes `Classify` |
| TcTable.ScanIsPick | internal/gtpu/bpf/tc_gtpu_encap.c:230-254 | scanning a table that holds a rule list picks what the list prescribes |
| TcTable.ZeroCountIsSafe | internal/gtpu/tc_loader.go:153-159 | with rule count 0 every packet of the UE takes the default bearer and other UEs are unaffected, whatever rules are in the table |
| TcTable.FullCountIsSafe | internal/gtpu/tc_loader.go:181-184 | with the final rule count every packet of the UE is decided by the new list |
| TcTable.StageSafe | internal/gtpu/tc_loader.go:136-186 | after any number of its kernel calls SetTFTRules leaves the UE wholly on the old table, on the default or on the new table, and others unaffected |
| TcTable.OverlappingScan | internal/gtpu/bpf/tc_gtpu_encap.c:230-254 | a scan whose look-ups fall in any stages of the rewrite gives the default or the TEID of a matching old or new rule at an index it looked up |
| TcTable.OverlapExactIff | internal/gtpu/bpf/tc_gtpu_encap.c:230-254 | over all ways in which the look-ups of a scan fall between the kernel calls of a rewrite, the packet gets the old choice, the default or the new choice iff every matching old and new rule below precedence 255 within the old count names one of these |
| TcTable.OverlapCanMix | internal/gtpu/bpf/tc_gtpu_encap.c:230-254 | a scan, overlapping the stages in order, that gives a TEID which is neither |
| TcTable.Dataplane.AddUeSession | internal/gtpu/tc_loader.go:112-134 | succeeds iff all addresses are IPv4 and the put succeeds; the UE then uses its default bearer and others are unaffected |
| TcTable.Dataplane.ClearRules | internal/gtpu/tc_loader.go:196-206 | deletes the UE's 32 slots one after the other and nothing else, stopping at the first failed delete; the log has each table in between |
| TcTable.Dataplane.SetTftRules | internal/gtpu/tc_loader.go:136-186 | goes through the stages in order, one per kernel call, and stops at the first that fails; each stage, and the one an abort leaves, is safe; it succeeds iff every call does |
| TcTable.Dataplane.RemoveUeSession | internal/gtpu/tc_loader.go:230-245 | on success exactly the UE's entry and slots are gone; other UEs are never affected |
| TcTable.Dataplane.SyncTftRules | internal/gtpu/dataplane.go:1131-1145 | from the session's filters to the classifier: on success with at most 32 rules every packet of the UE gets a prescribed choice, and every intermediate table is safe |
| UplinkPath.TcGtpuEncap | internal/gtpu/bpf/tc_gtpu_encap.c:184-342 | a packet is redirected to the PGW iff it is option-free IPv4 from a known UE and no helper call fails, and then it leaves unchanged behind an outer header with the classified TEID; unknown packets are passed unchanged; a failed redirect drops |
| UplinkPath.DatagramRead | internal/gtpu/bpf/tc_gtpu_encap.c:204-228 | the classifier reads a datagram's addresses and protocol, and the ports of TCP and UDP, source first, if it is long enough |
| UplinkPath.PortsRead | internal/gtpu/bpf/tc_gtpu_encap.c:218-228 | a body starting with two port numbers is read as these |
| UplinkPath.UplinkEndToEnd | internal/gtpu/bpf/tc_gtpu_encap.c:184-319 | with a session's compiled rules installed, every IPv4 datagram of the UE, given by its header fields and body, is carried unchanged to the PGW under the TEID that the session's filters prescribe for its addresses, protocol and ports |
| SessionFsm.EndedForGood | internal/session/fsm.go:5-65 | no sequence of transitions revives an ended session, and Active is reached only through every attach phase |
| SessionFsm.AllowedIff | internal/session/fsm.go:5-65 | exactly which transitions are allowed, by how far along the attach the phases are |
| Activation.RunKeeps | internal/ikev2/auth.go:386-643 | the joint invariant of attach, session table and deleters holds in every interleaving |
| Activation.ActivationIsEarned | internal/session/fsm.go:68-80 | in every interleaving the step to Active is the attach's last, with all of CanActivate just before it iff the EBI is not 0; earlier EAP gave a key of 64 octets, the AUTH payload was verified, the profile had both rates, the PGW answered with the session's S2b context, and XFRM and GTP-U were installed |
| Activation.EndedStaysEnded | internal/session/fsm.go:5-65 | after CleaningUp, Failed or Deleted no further step of attach or delete makes the session Active |
| Activation.AttachSucceeds | internal/ikev2/auth.go:423-643 | an undisturbed attach reaches Active with every S2b context the response parser accepts |
| Activation.AttachAdvances | internal/ikev2/auth.go:146-643 | each step of an attach takes it forward, except for the listed answers that send it back to waiting for the UE or end it; steps it does not wait for do nothing |
| Activation.RequestStarts | internal/ikev2/auth.go:87-139 | which request of the UE starts which step |
| Activation.CanActivateNeeds | internal/session/fsm.go:68-80 | each condition of CanActivate counts |
| Activation.DeleteEnds | cmd/epdg/main.go:211-238 | a PGW delete or a teardown that finds the session ends it and takes it out of the table, or after a handover takes its S2b context |
| IkeOwnership.TeardownKeeps | internal/ikev2/inform.go:184-265 | teardown removes exactly the states its SA owns and leaves none of its claims |
| IkeOwnership.EspDeleteKeeps | internal/ikev2/inform.go:101-179 | for any SPI list, delete with promotion, abort or removal keeps the kernel states exactly owned |
| IkeOwnership.ChildRekeyKeeps | internal/ikev2/rekey.go:234-369 | a CHILD SA rekey, successful or not, keeps the kernel states exactly owned |
| IkeOwnership.IkeRekeyKeeps | internal/ikev2/rekey.go:462-506 | an IKE SA rekey moves the current pair's ownership, with or without a rekey outstanding |
| IkeOwnership.AuthFinalKeeps | internal/ikev2/auth.go:423-643 | an attach with implicit detach and install keeps the kernel states exactly owned |
| IkeOwnership.StepKeeps | internal/ikev2/inform.go:27-265 | every handler keeps ownership exact |
| IkeOwnership.OwnershipExact | internal/ikev2/rekey.go:336-348 | after every admissible run the kernel's ESP states, but for those whose delete was refused, are the disjoint union of what the SAs own |
| IkeOwnership.ChildRekeyExactIff | internal/ikev2/rekey.go:336-348 | a successful CHILD SA rekey keeps ownership exact iff none was outstanding and the UE's address is the known one |
| IkeOwnership.InitExactIff | internal/ikev2/server.go:394-398 | storing a new SA keeps ownership exact iff its SPI names no SA that owns states |
| IkeOwnership.FailedAttachExactIff | internal/ikev2/auth.go:559-605 | tearing down an attach whose install failed keeps ownership exact iff its pair was not in the kernel |
| IkeOwnership.AttachExactIff | internal/ikev2/auth.go:549-605 | an attach with SPIs nobody else claims keeps ownership exact iff it does not install a pair with own SPI 0 |
| IkeOwnership.AttachedPairGoneIff | internal/ikev2/inform.go:269-322 | after teardown an attached pair is gone from the kernel iff its own SPI is not 0; otherwise both states stay |
| IkeOwnership.PromotedPairGoneIff | internal/ikev2/inform.go:101-322 | likewise for a pair that a rekey installed and a delete promoted |
| IkeSessions.RunKeeps | internal/ikev2/auth.go:233-246 | in every run with distinct initiator SPIs sessions and SAs stay tied; without handover attaches one session per IMSI and APN is active |
| IkeSessions.ActiveNamesItsSa | internal/ikev2/rekey.go:466-506 | an active session's IkeSPII names the one SA that holds its id, with the same ESP pair |
| IkeSessions.AuthFinalUnique | internal/ikev2/auth.go:451-468 | an attach that is no handover never makes a second session active |
| IkeSessions.HandoverUniqueIff | internal/ikev2/auth.go:451-468 | a handover attach keeps active sessions unique iff none was active for that subscriber and APN |
| IkeSessions.RekeyedAwayIsHarmless | internal/ikev2/inform.go:184-265 | tearing down a rekeyed-away SA, now or after any further events, leaves every session as it is |
| IkeSessions.IkeRekeyDetaches | internal/ikev2/rekey.go:462-506 | after an IKE SA rekey the new SA holds the session and its pair, the old one neither |
| IkeSessions.PhasesOnward | internal/session/fsm.go:5-65 | no event moves a session back to an earlier phase or revives one that is over |
| IkeSessions.GuardsHold | internal/ikev2/auth.go:87-139 | events for an unknown SPI or an SA in the wrong phase change nothing |
| IkeSessions.DeletesTouchOne | cmd/epdg/main.go:211-238 | the reaper and the PGW's deletes change one SA or one session and nothing else |
| IkeSessions.DetachOnly | internal/ikev2/auth.go:451-468 | the implicit detach tears down the SA of the subscriber's only active session and does nothing when there are several |
| IkeAuth.AttachIsProved | internal/ikev2/auth.go:386-643 | over every run from the empty server, a session is active, an SA established or an ESP state installed only after an IKE_AUTH with verified AUTH payload on an SA that had a 64-octet MSK, S2b and SPI |
| IkeAuth.UnprovedChangesNothing | internal/ikev2/auth.go:423-450 | a final IKE_AUTH without verified AUTH payload or without MSK changes nothing but the SA's address |
| IkeAuth.RefusedInstallsNothing | internal/ikev2/auth.go:469-560 | one that S2b refuses, or without SPI, IMSI or APN, installs and activates nothing |
| IkeRuns.AttachRun | internal/ikev2/auth.go:233-643 | from any state the four events of an attach that nothing refuses install its pair and activate its session, or stop at S2bAccepted if the kernel holds a state of the pair |
| IkeRuns.DeleteRun | internal/ikev2/inform.go:101-160 | after an attach and a CHILD SA rekey, a delete of either old SPI leaves SA, session and kernel with the new pair only, of either new SPI with the old pair only; without a rekey it empties the kernel; other SPIs do nothing |
| IkeRuns.IkeRekeyRun | internal/ikev2/rekey.go:375-515 | after an attach and an IKE SA rekey the new SA has pair and session, and its teardown removes both, the old one's neither |
| IkeRuns.SecondRekeyOrphans | internal/ikev2/rekey.go:336-348 | from the empty server, an attach and two rekeys leave a pending pair without an owner |
| IkeRuns.MovedRekeyOrphans | internal/ikev2/rekey.go:336-348 | likewise an attach and a rekey from another address |
| IkeRuns.RepeatedInitOrphans | internal/ikev2/server.go:394-398 | likewise an attach and an IKE_SA_INIT with the same initiator SPI |
| IkeRuns.SharedSpiLoses | internal/ikev2/auth.go:559-605 | two attaches behind one address whose UEs chose the same SPI: tearing down the second takes the outbound state of the first, whose session stays active |
| IkeRuns.ZeroSpiOrphans | internal/ikev2/auth.go:549-560 | an attach with own SPI 0: its pair has no owner and stays after teardown |
| IkeRuns.HandoverDuplicates | internal/ikev2/auth.go:451-468 | an attach and a handover attach of the same subscriber: two active sessions |
| IkeServer.Kernel.InstallChildSA | internal/xfrm/xfrm.go:60-102 | both states and the three policies, or, at whichever call it fails, what the numbered undo deletes leave: nothing new unless one is refused |
| IkeServer.Kernel.AddChildSAStates | internal/xfrm/xfrm.go:328-344 | both states, or what the undo delete of the inbound one leaves |
| IkeServer.Kernel.RemoveChildSAStates | internal/xfrm/xfrm.go:349-380 | the tables after its two numbered deletes, outbound first, neither skipped: which state stays for which refused number |
| IkeServer.Kernel.RemoveChildSA | internal/xfrm/xfrm.go:178-201 | likewise after three policy deletes, each policy gone iff its delete is not refused |
| IkeServer.PoliciesAfterAt | internal/xfrm/xfrm.go:178-201 | a policy goes iff it is the CHILD SA's and its own delete is not refused |
| IkeServer.PoliciesUndoneAt | internal/xfrm/xfrm.go:60-102 | a failed install leaves of its policies those whose undo delete is refused |
| XfrmDeletes.AfterAllAt | internal/xfrm/xfrm.go:178-201 | after any sequence of numbered deletes a state is in the kernel iff it was and all its deletes were refused, and is stuck iff it is there and was to be deleted or was stuck before |
| XfrmDeletes.TeardownExactIff | internal/ikev2/inform.go:184-322 | after a teardown the kernel holds exactly the states the remaining SAs own iff no state the SA claims, and none left from earlier refusals, has all its deletes under failing numbers |
| XfrmDeletes.CleanTeardownExactIff | internal/ikev2/inform.go:184-322 | without leftovers, iff no delete of a state in the kernel has a failing number |
| XfrmDeletes.EspDeleteExactIff | internal/ikev2/inform.go:101-160 | likewise for one SPI of a delete payload, be it promotion, removal or abort |
| XfrmRuns.RefusedDeleteStays | internal/ikev2/inform.go:184-265 | from the constructor, an attach and a teardown whose fourth delete is refused: no SA, no session, and the outbound state in the kernel |
| XfrmRuns.RepeatedDeleteClears | internal/ikev2/inform.go:101-322 | the same refusal on a delete of the CHILD SA: the state stays until the teardown deletes it again |
| IkeServer.Server.FindSingleActiveByImsiApn | internal/session/manager.go:74-91 | the session that is the only active one for that subscriber and APN, else none |
| IkeServer.Server.HandleAuthRound1 | internal/ikev2/auth.go:146-246 | the first round's changes to SA and session, up to the SWm answer, are `AuthRound1` of the lifecycle |
| IkeServer.Server.HandleEapSuccess | internal/ikev2/auth.go:386-412 | the state change of a successful EAP answer is `EapSuccess` of the lifecycle |
| IkeServer.Server.RemoveXfrmChildSa | internal/ikev2/inform.go:269-322 | the in-place removal is `RemoveChildSa` of the lifecycle, on what the program believes installed; kernel tables and policies are those after its numbered deletes |
| IkeServer.Server.FullTeardown | internal/ikev2/inform.go:184-265 | the in-place teardown is `Teardown` of the lifecycle; kernel tables and policies are those after its numbered deletes |
| IkeServer.Server.DeleteEspSpis | internal/ikev2/inform.go:101-160 | the loop over the SPIs of a delete payload is `EspDeleteAll` of the lifecycle, with the kernel tables after its numbered deletes |
| IkeServer.Server.HandleChildSaRekey | internal/ikev2/rekey.go:234-369 | the handler's state change is `ChildRekey` of the lifecycle, with the adds that the kernel refuses or a stuck state prevents |
| IkeServer.Server.HandleIkeSaRekey | internal/ikev2/rekey.go:375-515 | the handler's state change is `IkeRekey` of the lifecycle |
| IkeServer.Server.DetachOther | internal/ikev2/auth.go:451-468 | the implicit detach is `Detach` of the lifecycle, with the kernel tables and policies its deletes leave |
| IkeServer.Server.HandleAuthFinal | internal/ikev2/auth.go:423-643 | without a verified AUTH payload or an MSK sessions and kernel stay as they are; the final round's state change is `AuthFinal` of the lifecycle, its faults being exactly the refused adds, the stuck states and the policies in place after the detach |
| GtpuIndex.RunInverse | internal/gtpu/dataplane.go:415-603 | over every run with fresh ids and free EBIs, whatever the kernel answers, the local-TEID index is exactly the inverse of sessions containing bearers |
| GtpuIndex.RunAgrees | internal/gtpu/bpf_loader.go:114-139 | if the teid_map calls succeed too, teid_map has the same TEIDs, each with its session's UE address and its bearer's PGW address |
| GtpuIndex.InsertBearerIff | internal/gtpu/dataplane.go:538-575 | an accepted bearer keeps the inverse iff its EBI was free |
| GtpuIndex.DropUndoesInsert | internal/gtpu/dataplane.go:538-603 | an inserted bearer is found under both its TEIDs, and dropping it restores the index |
| GtpuIndex.UpdatedMeaning | internal/gtpu/dataplane.go:1189-1215 | an update sets a non-zero QCI, sets the filters that the octets carry, none for operations 2, 5 and 6, leaves them for empty octets, other operations and broken filters, and changes nothing else |
| GtpuIndex.BusyEbiBreaks | internal/gtpu/dataplane.go:538-575 | from the empty manager, a session, a dedicated bearer and the same bearer under another TEID break the inverse |
| GtpuIndex.InsertSessionIff | internal/gtpu/dataplane.go:415-424 | a new session keeps the inverse iff its id is new or names a session without bearers |
| GtpuIndex.RepeatedIdBreaks | internal/gtpu/dataplane.go:415-424 | from the empty manager, two sessions with one id break the inverse |
| GtpuIndex.InsertPaaIff | internal/gtpu/dataplane.go:415-424 | a new session keeps the address index the inverse of sessions having addresses iff no other session has its address and its id had no other |
| GtpuIndex.SharedPaaBreaks | internal/gtpu/dataplane.go:415-424 | from the empty manager, two sessions with one address break that inverse |
| GtpuIndex.RunAddresses | internal/gtpu/dataplane.go:325-603 | over every run in which sessions have ids and addresses of their own and keep their default bearer, the address index is that inverse, and with working calls ue_session_map has the same addresses, each with its session's default TEID |
| GtpuIndex.Exclusive | internal/gtpu/dataplane.go:415-424 | no local TEID is received on by two bearers |
| GtpuManager.Manager.RunRollback | internal/gtpu/dataplane.go:1316-1335 | the undo actions run once, from the top of the stack, and a second call does nothing; with working undo calls the world is the undone one |
| GtpuManager.Manager.RemoveSessionState | internal/gtpu/dataplane.go:1337-1356 | takes the session and its bearers out of all four indexes |
| GtpuManager.Manager.AddSession | internal/gtpu/dataplane.go:325-493 | succeeds iff the local TEID is unused, no kernel call of the install fails, the route is new and the interface is known; then every index, kernel map and route is installed and the session object gets its address; otherwise the undo stack ran in reverse, the index makes the failed step, and, if the undo calls of this call work and id, address and remote TEID were fresh, the world is exactly as before |
| GtpuManager.Manager.InstalledUes | internal/gtpu/dataplane.go:440-454 | a completed install makes the step of ue_session_map |
| GtpuManager.Manager.RemoveUndoesInstall | internal/gtpu/dataplane.go:495-536 | removing a session takes away exactly what installing it added |
| GtpuManager.Manager.RemoveSession | internal/gtpu/dataplane.go:495-536 | the session leaves every index, and with working kernel calls every kernel map and the routes; ue_session_map makes its step |
| GtpuManager.Manager.AddBearer | internal/gtpu/dataplane.go:538-575 | refused without effect for a zero TEID or EBI, an unknown session or a local TEID in use; otherwise one `AddBearer` step of the index model; a failed rule sync is reported with the bearer left in place; on success the classifier follows the session's filters |
| GtpuManager.Manager.RemoveBearer | internal/gtpu/dataplane.go:577-603 | one `RemoveBearer` step of the index model; on success the classifier follows the remaining filters |
| GtpuManager.Manager.UpdateBearer | internal/gtpu/dataplane.go:1189-1220 | refused without effect for an unknown bearer; otherwise that bearer alone changes, its QCI iff the new one is not zero, its filters to those the octets carry, to none for operations 2, 5 and 6, and not at all for empty octets, other operations or a broken filter; on success the classifier follows the session's filters |
| GtpuManager.Manager.FollowsPrescribes | internal/gtpu/dataplane.go:1131-1187 | once the classifier follows a session with at most 32 rules, each packet of its UE gets the PGW's TEID of the dedicated bearer with the best matching uplink filter, or of the default bearer if none matches |
| BearerAlloc.AllocateDedicatedEbi | cmd/epdg/main.go:503-513 | the lowest EBI of 6..15 that is neither default nor in use; none only if all are taken |
| BearerAlloc.AllocateBearerTeid | cmd/epdg/main.go:486-501 | the returned TEID was unused, is non-zero and is installed under the EBI with the bearer's remote TEID, QCI, filters and PGW address; the index is that after one `AddBearer` per draw; retries touch nothing but that EBI |
| BearerAlloc.AttemptsExactIff | cmd/epdg/main.go:486-501 | from an exact local-TEID index and a free EBI the loop keeps it exact iff it inserts at most one TEID |
| BearerAlloc.AnswerOne | cmd/epdg/main.go:297-353 | one context: refused without effect if no EBI can be had, accepted if one can and the first TEID drawn is installable; an accepted bearer is installed with the context's PGW TEID, QCI, PGW address or the session's, and the filters its TFT octets carry; every other bearer stays as it was |
| BearerAlloc.AnswerAll | cmd/epdg/main.go:282-360 | one outcome per context in order; accepted EBIs are distinct, were free and are not the default, allocated ones in 6..15; each accepted bearer is installed as its context asks, under distinct TEIDs; the bearers there were are unchanged; accepted overall iff all were; the local-TEID index stays exact iff no context inserts two TEIDs |
| BearerAlloc.FirstTeidIs | cmd/epdg/main.go:340-343 | the reply's local TEID is that of the first accepted bearer |
| BearerAlloc.HandlePgwCreateBearer | cmd/epdg/main.go:240-360 | refused without effect iff ten look-ups find no session or the caller cancels during one of the two waits; otherwise as `AnswerAll` for the first session found |
| S2bEngine.CycleDistinct | internal/s2b/codec.go:117-132 | within one turn of the allocator's cycle no number repeats |
| S2bEngine.RunIssued | internal/s2b/codec.go:117-132 | in every interleaving of the CAS loops the k-th success returns the k-th number of the cycle 1..cap |
| S2bEngine.DeliverKeeps | internal/s2b/client.go:840-848 | the non-blocking send always finds room |
| S2bEngine.SingleDelivery | internal/s2b/client.go:778-851 | in every interleaving a transaction's channel is sent at most one message, with its own sequence number and, in strict mode, from its peer; none is dropped for lack of room |
| S2bEngine.StepExactIff | internal/s2b/client.go:689-851 | a step keeps the pending table exact iff it does not register over, delete or claim another transaction's entry |
| S2bEngine.RunExactIff | internal/s2b/client.go:689-851 | the pending table holds exactly the unanswered transactions after every step of a run iff no step of the run does that |
| S2bEngine.RunExact | internal/s2b/client.go:689-745 | that is so if fewer than cap numbers are issued during any transaction's life |
| S2bEngine.ResponseReaches | internal/s2b/client.go:778-851 | in such a run any message but the five requests that fits a transaction is delivered to it, and is what it receives if it still waits |
| S2bEngine.RequestsNeverDelivered | internal/s2b/client.go:778-851 | Echo, Delete Session and bearer requests are never delivered to a transaction |
| S2bEngine.ReaderReturns | internal/s2b/client.go:778-851 | the read loop never gets stuck between look-up and delivery |
| S2bEngine.TransactionEnds | internal/s2b/client.go:689-745 | giving up or taking the answer, then the deferred delete, ends a waiting transaction and frees its number |
| S2bEngine.ThreeAttempts | internal/s2b/client.go:703-745 | a request is sent at most three times, and three times if nobody answers |
| S2bEngine.RepeatLoses | internal/s2b/client.go:689-705 | a run in which a repeated number loses a waiting transaction |
| Gtpv2.Encode | internal/s2b/codec.go:162-189 | the buffer filled is the header and payload of `EncodeMessage`; a sequence number or length out of range is an error |
| Gtpv2.MessageRoundTrip | internal/s2b/codec.go:162-225 | decoding an encoded message gives it back |
| Gtpv2.ReencodeMessage | internal/s2b/codec.go:191-225 | re-encoding an accepted buffer gives the buffer with its spare bits and spare octet zeroed |
| Gtpv2.DecodeList | internal/s2b/codec.go:244-258 | the loop computes `DecodeIes`, truncation errors included |
| Gtpv2.DecodeListWithRaw | internal/s2b/codec.go:260-287 | the loop computes `DecodeRaw` |
| Gtpv2.IeRoundTripIff | internal/s2b/codec.go:227-258 | a list of elements survives encoding and decoding iff every length and instance fits its field |
| Gtpv2.RawAgrees | internal/s2b/codec.go:244-287 | both decoders accept the same inputs with equal elements, and the raw slices concatenate to the input |
| Gtpv2.RawSlices | internal/s2b/codec.go:260-287 | each raw slice lies at its offset, has its length and is its element's encoding up to the spare half octet |
| Gtpv2.FteidRoundTrip | internal/s2b/codec.go:377-430 | parsing an F-TEID gives back interface, TEID and address |
| Gtpv2.Find | internal/s2b/codec.go:289-296 | the first element of that type and instance |
| Gtpv2Bearer.CreateBearerResponseMessage | internal/s2b/client.go:1237-1303 | the loop builds `ResponseMessage`: cause, one context per bearer in order with the configured address for one without, recovery, addressed to the PGW's TEID if known |
| Gtpv2Bearer.ResponseRecovered | internal/s2b/client.go:1250-1303 | decoding the response recovers its cause and every bearer's EBI, cause, both F-TEIDs and charging id, in order |
| Gtpv2Bearer.ResponseEncodable | internal/s2b/client.go:1237-1303 | the response to up to 1336 bearers fits a GTPv2-C message |
| Gtpv2Bearer.ParseCreateBearerRequest | internal/s2b/client.go:1363-1455 | the nested loops compute `ParseRequest` |
| Gtpv2Bearer.ParsedRequest | internal/s2b/client.go:1430-1454 | a parsed request names at least one bearer, each with an EBI or a request for one and a non-zero PGW TEID |
| Gtpv2Bearer.RequestRecovered | internal/s2b/client.go:1363-1455 | a request whose bearer contexts each ask for one bearer, by children that do not contradict each other, is parsed to exactly the linked EBI and these bearers, in order; F-TEID instance and interface, the other QoS octets, the arrangement and further elements do not matter |
| Gtpv2Bearer.SessionRecovered | internal/s2b/client.go:490-551 | an accepting response whose options are not refused is parsed to its first PAA, its control F-TEID by interface or fallback instance, and the EBI and user F-TEID of its last bearer context, with the configured PGW address as fallback, whatever else it carries |
| Gtpv2Bearer.AcceptedSession | internal/s2b/client.go:490-551 | an accepted Create Session Response has cause 16 and no refused options and yields the IPv4 address of its first PAA, non-zero TEIDs and a PGW user address; the EBI is that of the last bearer context naming one, else 5 |
| BearerCache.Client.Purge | internal/s2b/client.go:1340-1346 | exactly the expired entries are removed |
| BearerCache.Client.HandleCreateBearerRequest | internal/s2b/client.go:917-1063 | look-up, parse, handler or the refusal without one, encode and store are one `Handle` step |
| BearerCache.HandledIsStored | internal/s2b/client.go:1058-1063 | the response to any parsed request from the 4096-octet buffer encodes, so a decided request is always cached; the handler, if installed, is asked for exactly these |
| BearerCache.StoredResponse | internal/s2b/client.go:1025-1063 | the bytes cached decode to the request's sequence number, the PGW's control TEID if known, the verdict's cause and every bearer of the verdict |
| BearerCache.RefusedResponse | internal/s2b/client.go:937-949 | a request that does not parse is answered with cause 64 and is neither decided nor cached |
| BearerCache.Idempotent | internal/s2b/client.go:917-932 | until 60 seconds after caching, the same peer, TEID, sequence and type get the same bytes without the handler |
| BearerCache.HandlerCalledIff | internal/s2b/client.go:1313-1346 | a request is decided, by the handler if there is one, iff it parses and no earlier answer to it is still valid |
| Checksum.TwoFoldsSuffice | internal/gtpu/bpf/tc_gtpu_encap.c:137-139 | two folds bring any ten-word sum into 16 bits without changing it modulo 65535 |
| Checksum.HeaderSumsToAllOnes | internal/gtpu/bpf/tc_gtpu_encap.c:128-140 | the checksum computed over host words makes the ten network-order words add up to 0xffff in one's complement |
| GtpuWire.LengthsConsistentIff | internal/gtpu/bpf/tc_gtpu_encap.c:256-261 | IP, UDP and GTP-U lengths agree iff the inner length is at most 65499 |
| GtpuWire.OuterChecksum | internal/gtpu/bpf/tc_gtpu_encap.c:272-284 | the outer header's words add up to 0xffff |
| GtpuWire.OuterLayout | internal/gtpu/bpf/tc_gtpu_encap.c:263-319 | every octet of the outer IP, UDP and GTP-U headers |
| GtpuWire.Encap | internal/gtpu/bpf/tc_gtpu_encap.c:263-319 | wherever the room is opened, the stores leave the outer header followed by the unchanged inner packet iff none fails; other packets, and those without room, are unchanged, and the inner payload is never touched |
| GtpuWire.RemoveGtpHeader | internal/gtpu/bpf/headers/gtp_utils.h:45-86 | the copy inside the frame leaves the Ethernet header with the inner type in front of the inner packet; if the head cannot be moved the frame is passed as the copy left it |
| GtpuWire.DecapUndoesEncap | internal/gtpu/bpf/xdp_gtpu_decap.c:118-221 | the addressed endpoint that knows the TEID strips the outer header and hands on the inner packet byte for byte, if the head can be moved |
| GtpuWire.WrongPeerDropped | internal/gtpu/bpf/xdp_gtpu_decap.c:168-181 | with the peer check on, a packet from another source is dropped |
| GtpuWire.DecapStrips | internal/gtpu/bpf/xdp_gtpu_decap.c:118-221 | only a G-PDU to the local address on port 2152, on a known TEID, from its peer if checked, and for its UE is handed on, with its first twelve octets, the inner type, and what follows a fixed length |
| GtpuWire.StripsInnerIff | internal/gtpu/bpf/headers/gtp_utils.h:45-86 | what is handed on is the inner packet iff the outer IP header has no options |
| GtpuWire.HandedIsStripped | internal/gtpu/bpf/xdp_gtpu_decap.c:118-221 | such a packet without outer IP options is handed on whole, with or without optional GTP fields, if it is IPv4 or IPv6 inside |
| DownlinkPath.DownlinkReachesOwner | internal/gtpu/bpf/xdp_gtpu_decap.c:118-221 | with the maps the manager keeps, a G-PDU is handed on iff it comes on a bearer's local TEID, from that bearer's PGW address unless peers are not checked or it is zero, for that session's UE; the inner packet is unchanged if the head can be moved; otherwise it is dropped, or passed if no bearer has the TEID |
| GtpuWire.ParseGTPU | internal/gtpu/dataplane.go:1393-1431 | the parser with its extension-header loop computes `ParseGtpu` |
| GtpuWire.ParseUndoesEncap | internal/gtpu/dataplane.go:1393-1431 | behind the outer header the parser finds the TEID and the packet announced |
| GtpuWire.ExtensionsParsed | internal/gtpu/dataplane.go:1393-1431 | behind any chain of extension headers the parser finds TEID, sequence number and payload; a chain that goes on with length zero or beyond the packet is refused |
| GtpuWire.PathRoundTrip | internal/gtpu/dataplane.go:1377-1431 | an encoded path message parses back to its type, sequence number and payload |
| SkPayload.PadBuffer | internal/ikev2/crypto.go:334-341 | the buffer filled is `Pad` |
| SkPayload.PadRoundTrip | internal/ikev2/crypto.go:334-371 | padding takes 1 to 16 octets, fills whole blocks and is undone |
| SkPayload.LengthPredicted | internal/ikev2/crypto.go:508-525 | the length computed before encryption is the length produced, for CBC and AEAD |
| SkPayload.LengthFieldIff | internal/ikev2/crypto.go:531-556 | the header is sent as given, then next payload type, a zero octet and the length, which is right iff the payload is under 65536 octets |
| SkPayload.HeaderLengthTrue | internal/ikev2/auth.go:791-807 | a header carrying the predicted length carries the true one |
| SkPayload.SkRoundTrip | internal/ikev2/crypto.go:531-670 | decryption under the peer's view of the keys returns inner payload type and plaintext, for CBC and AEAD |
| SkPayload.OnlyAuthentic | internal/ikev2/crypto.go:558-670 | what is accepted ends with the MAC of all before it under the sender's key, or opens under the sender's key, salt, IV and headers |
| SkPayload.PrfPlus | internal/ikev2/crypto.go:484-495 | the output is the prefix of the asked length of the block stream |
| SkPayload.StreamBlocks | internal/ikev2/crypto.go:484-495 | the first two blocks are those of section 2.13 of RFC 7296, and so is each next one |
| SkPayload.PrfPlusPrefix | internal/ikev2/crypto.go:484-495 | shorter key material is a prefix of longer |
| SkPayload.DeriveKeys | internal/ikev2/crypto.go:444-481 | the seven keys are consecutive slices of the stream with the lengths the algorithms ask for |
| Diameter.EncodeAvp | internal/diameter/message.go:178-198 | the buffer filled is header, vendor, data and zero padding |
| Diameter.DecodeAVPs | internal/diameter/message.go:200-241 | the loop computes `DecodeAvps`, every error included |
| Diameter.RoundTripIff | internal/diameter/message.go:178-241 | a list of AVPs decodes back with V bits normalised iff V is set only with a vendor and lengths fit 24 bits |
| Diameter.Reencode | internal/diameter/message.go:178-241 | re-encoding an accepted buffer gives it with padding zeroed |
| Diameter.TreeRoundTrip | internal/diameter/message.go:265-271 | grouped AVPs decode back to the tree at any depth |
| Diameter.MessageRoundTrip | internal/diameter/message.go:121-176 | a message read off a stream is the one written, and what follows is untouched |
| HalfOpen.TableBound | internal/ikev2/init.go:92-99 | in every interleaving the SA table has at most max + workers - 1 entries, plus one per IKE SA rekey |
| HalfOpen.BoundReached | internal/ikev2/server.go:311-333 | some interleaving reaches that bound, and a rekey goes beyond it |
| HalfOpen.TableExact | internal/ikev2/init.go:92-130 | in every interleaving the table holds exactly the SAs stored by workers past the check or by rekeys and not deleted since |
| HalfOpen.PassedExact | internal/ikev2/init.go:92-99 | likewise for the workers past the check |
| HalfOpen.BusyExact | internal/ikev2/server.go:311-333 | likewise for the workers with a pool token |
| Cookie.CookieState.Secrets | internal/ikev2/cookie.go:47-57 | rotation of the secrets is `After` |
| Cookie.CookieState.Issue | internal/ikev2/cookie.go:63-66 | the cookie is the MAC under the secret current after the call |
| Cookie.CookieState.Verify | internal/ikev2/cookie.go:70-77 | accepts exactly the MAC under the current or previous secret; an empty cookie is refused |
| Cookie.CookieLives | internal/ikev2/cookie.go:47-77 | a cookie verifies at every call within one secret lifetime of its issue, unless a failed random read spoiled the secret and another call was due after it |
| Cookie.AcceptedIff | internal/ikev2/cookie.go:47-77 | with a separating MAC a cookie is accepted iff its secret is still current or previous |
| Cookie.RefusedIff | internal/ikev2/cookie.go:47-77 | within one lifetime of its issue it is refused iff that happened |
| Cookie.CookieLost | internal/ikev2/cookie.go:47-57 | three calls in which it happens |

## Left out

- XFRM policies over runs: removal rebuilds the selector from a session address that a PGW delete may have dropped; exactness is claimed for SA states.
- MOBIKE migration: it moves only the current pair and re-derives keys, so it does not compose with a pending rekey.
- The remote-TEID index as an exact inverse: TEIDs are unique only per PGW and the code does not check for collisions.
- TFT local addresses, SPI, TOS and flow labels in rules: parsed, never compiled.
- Sockets, netlink, BPF loading, logging, packet counters, goroutine shutdown and timers.
- DH groups, AES, HMAC and certificates: only lengths, slicing and inverse laws are used.
- IKE payload unmarshalling, DNS, the SWm connection, configuration, the admin API, PCO and NAI codecs: the strict PCO decoder is a parameter.
- Delete and Update Bearer messages: their octets; what they do to sessions and bearers is the `RemoveSession`, `RemoveBearer` and `UpdateBearer` steps.
- Interleavings of IKE handlers on different SAs: in `IkeLifecycle` one handler runs at a time.
- BearerCache.Idempotent: the handler is taken to give no more bearers than the request has, as `HandlePgwCreateBearer` does.
