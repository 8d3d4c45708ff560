# CatchB, modelled and verified

CatchB watches network cameras. A main thread (CatchB) keeps the registry of cameras, an analyzer
thread visits them in turn and judges them, and a detector thread blocks or frees their addresses on
network switches. The threads talk through message queues; a server answers clients over sessions.
Underneath lie hand-written containers and codecs. This project models the parts with state,
ordering or arithmetic in them and proves what they keep over every run.

`dafny verify dfyconfig.toml` checks everything.

| files | what they model |
|---|---|
| `SwitchControl`, `ControlThreads` | camera status, the detector's queue and the switches' access-control (AC) lists |
| `Registry`, `RegistryHandlers` | the camera registry, the analyzer's list, the database and the messages between them |
| `RegistrySafety`, `RegistryRefinement` | the same at every interleaving point, with the analyzer's lock; and that nothing is lost by taking handlers in one piece |
| `AnalyzerRotation` | the analyzer's round robin |
| `LinkedList`, `Iteration` | the doubly linked ring with its removal-tolerant iterator; the closing loop over sessions |
| `MessageQueue`, `MessageProtocol` | the queue with its counting semaphore, as objects and as interleaved threads |
| `TcpOptions`, `Score`, `PacketSort` | fingerprint scoring of captured packets |
| `Base64`, `RingBuffer`, `Checksum` | codecs and arithmetic on arrays |
| `Paging` | log pages from the client's chunk loop down to the database's offset window |
| `Session`, `Statistics` | session expiry; the bounded statistics log |
| `Tokenizer`, `ShellCommands` | the shell's line tokenizer and its sorted command list |
| `Sequences`, `Names`, `Bytes` | shared sequence operations; comparing names; bytes |

Objects that the source updates in place are classes, and every method is proved against a function
of the old state; the results about runs are lemmas over those functions. Threads are interleaved
step by step.

## Where the code departs from its intent

The model follows the code. Where a property fails, a lemma names an input, and where there is a
condition under which it holds, another one states it exactly.

- Leaving UNREGISTERED for NORMAL or ABNORMAL issues no switch control, so an address can stay
  blocked (`SwitchControl.UnregisteredLosesControl`, exact condition `SwitchControl.StatusAgreesIff`).
- The analyzer's list compares IDs without regard to case, the registry and the database with it:
  `Registry.CreateAgreesIff`, `Registry.CheckReconcilesIff`. A check of an empty table removes nothing.
- The removal handler unregisters a camera before it detaches it; the delete handler does it the
  other way round. Only the former lets the analyzer's lookup fail
  (`RegistrySafety.RemovalCanMakeLookupFail`, `RegistrySafety.LookupFailsOnlyDuringRemoval`; exact
  condition `RegistrySafety.LookupFailsIff`, for discoveries announced of unregistered IDs only).
- A check handled while discoveries are still queued announces them again, and a discovery is
  registered without a lookup, so the camera is registered twice (`Registry.TwoChecksRegisterTwice`,
  exact conditions `Registry.CheckAnnouncesIff` for one check and `Registry.AgreementWithChecksIff`
  for whole runs). The timer that asks for checks is compiled out (lib/ftm_catchb.c:1067-1073).
- A sorted insertion without a comparator returns with the list's lock held (`LinkedList.List.Insert`);
  removal by position does not repair the iterator (`LinkedList.List.RemoveAt`).
- The message queue library is safe for one consuming thread and for no more: with any two, a pop
  behind a successful wait can fail, and a recycled message pointer can overtake
  (`MessageProtocol.OneConsumerIff`). Each queue of the daemon has one consumer, so this concerns
  the library and not the daemon.
- Reading the first byte of the ring buffer ignores the wrap (`RingBuffer.Buffer.GetFirst`,
  `RingBuffer.StaleHead`); a push longer than the ring can absorb in two copies corrupts it
  (`RingBuffer.PushOverrun`).
- Base64 decoding turns a NUL input byte into 1, the flag value in its table's first slot.
- The packet sort compares a stale header and sorts only up to two protocols (`PacketSort.SortsIffAtMostTwo`).
- A TCP option of length zero stops the option walk from ending (`TcpOptions.WalkEndsIff`), and
  twenty options or more overrun the letter buffer (`TcpOptions.LettersFitIff`).
- Log times are stored as the text of a signed 32-bit number, so pages are ordered as such texts: at
  the billionth second and at second 2^31 they come out oldest first (`Paging.PagesOutOfOrder`, exact
  condition `Paging.WindowsRightIff` with `Paging.IncreasingIff`); index plus count wraps at 32 bits
  (`Paging.PageIsSliceIff`); the statistics loop has no zero-progress break (`Paging.StatLoopEndsIff`).
- Lowering the statistics limit frees samples without unlinking them (`Statistics.Log.SetMaxCount`).
- A command whose name another one spells in a different case may not be found by its own name
  (`ShellCommands.NameFindsCommandIff`).

## Model

| member | source | states |
|---|---|---|
| SwitchControl.EntryFollowsStatus | lib/ftm_catchb.c:1841-1950 | over every interleaving of status messages and detector turns, once pending controls are applied an address has an entry exactly if the last NORMAL or ABNORMAL status was ABNORMAL, and no address has two |
| SwitchControl.DenialFollowsStatus | lib/ftm_catchb.c:1841-1950 | the same for cameras and switches with distinct IDs, in their names: on the switch of the camera's switch ID, the camera's address is listed exactly if the last NORMAL or ABNORMAL status said of its ID was ABNORMAL, and every entry denies |
| SwitchControl.StatusAgreesIff | lib/ftm_catchb.c:1853-1936 | one status message keeps entry and verdict in agreement if and only if it does not leave UNREGISTERED for a verdict the pending controls contradict |
| SwitchControl.UnregisteredLosesControl | lib/ftm_catchb.c:1862-1889 | a three-message run through UNREGISTERED that leaves a NORMAL camera's address blocked |
| SwitchControl.RunKeepsOneEntryEach | lib/ftm_detector.c:305-347 | no run gives an address two entries on a switch |
| SwitchControl.ControlledListed | lib/ftm_detector.c:305-347 | what one control does to every address on the list: deny lists its address, allow delists it if the device obeys, no other address changes |
| SwitchControl.ControlledEntries | lib/ftm_switch.c:261-342 | a denial adds a denying entry exactly for an address that has none; an allowance adds nothing |
| SwitchControl.AllowedEntry | lib/ftm_switch.c:306-342 | an obeyed allowance takes the first entry of the address away |
| SwitchControl.RunKeepsOnlyDenials | lib/ftm_detector.c:321-344 | no run, and no draining of the queue behind it, leaves an entry that allows |
| SwitchControl.ControlReaches | lib/ftm_catchb.c:2468-2485 | a control changes the first switch that has its ID, the first of all for an empty ID, and no other; there it lists or delists its own address and no other |
| SwitchControl.StatusReaches | lib/ftm_catchb.c:1853-1936 | a status changes the first camera that has its ID and no other, and any control it queues carries that camera's switch and address |
| SwitchControl.UnregisteringRepeats | lib/ftm_catchb.c:1892-1905 | unregistering a camera asks for its last verdict again, which makes up for a command the device refused |
| SwitchControl.ConsumeKeepsOutcome | lib/ftm_detector.c:216-263 | applying the head of the queue leaves the outcome of all pending controls as it was |
| SwitchControl.RunKeepsAgreement | lib/ftm_catchb.c:1841-1950 | agreement survives every run that never takes the lossy step and whose allowances are carried out |
| ControlThreads.SwitchObject.GetAC | lib/ftm_switch.c:344-356 | the linked list yields an entry exactly if the address is listed, and then its first, without changing the list |
| ControlThreads.SwitchObject.AddAC | lib/ftm_switch.c:261-304 | the linked list gains the entry at its end, the device is sent the same policy, and success is reported whatever the device answered |
| ControlThreads.SwitchObject.DeleteAC | lib/ftm_switch.c:306-342 | lookup, device and removal together are the model's allowance: a listed address is allowed on the device, and an entry leaves the linked list exactly if it was listed and the device obeyed |
| ControlThreads.SwitchObject.OnSetControl | lib/ftm_detector.c:321-344 | looking up, adding and deleting on the linked list is one control of the model: a denial of an unlisted address enters and sends a denial, an allowance of a listed one sends an allowance and enters nothing, and otherwise nothing happens |
| ControlThreads.System.SetControl | lib/ftm_detector.c:265-303 | the control is announced behind all others on the message queue, and no camera and no switch changes |
| ControlThreads.System.OnSetCctvStat | lib/ftm_catchb.c:1841-1950 | the handler on objects is the status step of the model |
| ControlThreads.System.DetectorTurn | lib/ftm_detector.c:216-263 | the detector thread's turn is the consuming step of the model |
| ControlThreads.System.OnSetControl | lib/ftm_detector.c:305-347 | only the list of the switch that was found changes, by the model's control; no other switch, camera or pending control does |
| ControlThreads.System.FindSwitch | lib/ftm_catchb.c:2468-2485 | finds the first switch of an ID by comparing IDs, none if there is none, and the first of all for an empty ID |
| ControlThreads.System.FindCamera | lib/ftm_catchb.c:1856-1860 | finds the first camera of an ID by comparing IDs, or none |
| Registry.AgreementWithChecksIff | lib/ftm_catchb.c:1079-1168 | from start-up, runs of found, create, delete, hash and check messages keep registry, analyzer's list and table in agreement at every point exactly if no check is handled while a discovery is pending |
| Registry.CheckAnnouncesIff | lib/ftm_catchb.c:1456-1463 | in any state, the FOUND messages a check posts are for exactly the unregistered rows, those already pending included |
| Registry.CheckAgreesIff | lib/ftm_catchb.c:1413-1489 | a check in agreement keeps it exactly if no discovery is pending, and then posts nothing |
| Registry.TwoChecksRegisterTwice | lib/ftm_catchb.c:1517-1558 | two queued checks register an unregistered row twice |
| Registry.AgreementOverRuns | lib/ftm_catchb.c:866-908 | starting with one FOUND message per row, after any run of found, create, delete and hash messages the registered IDs with those still to be found are the rows, without duplicates, and the analyzer lists exactly the registered ones |
| Registry.FoundKeepsAgreement | lib/ftm_catchb.c:1517-1558 | handling a FOUND message keeps that agreement |
| Registry.CreateKeepsAgreement | lib/ftm_catchb.c:1244-1309 | handling a create keeps it, a failed insert rolled back included |
| Registry.DeleteKeepsAgreement | lib/ftm_catchb.c:1337-1385 | handling a delete keeps it |
| Registry.HashKeepsAgreement | lib/ftm_catchb.c:1765-1805 | handling a hash update finds its ID already listed |
| Registry.CreateAgreesIff | lib/ftm_analyzer.c:863-908 | a create that goes through keeps agreement exactly if no listed ID equals the new one up to case |
| Registry.CheckReconcilesIff | lib/ftm_catchb.c:1413-1489 | one check and the messages it posts make registry and analyzer equal the table exactly if the rows differ by more than case and the table is not empty while cameras are registered |
| Registry.CheckedState | lib/ftm_catchb.c:1413-1489 | cameras with a row stay as they are and in order, and each row without a camera gets a new one |
| Registry.RemovalPhase | lib/ftm_catchb.c:1585-1621 | draining the posted removals leaves exactly the cameras that have a row |
| Registry.DiscoveryPhase | lib/ftm_catchb.c:1517-1558 | draining the posted discoveries adds one camera per missing row, in order |
| RegistryHandlers.CatchB.OnCreateCctv | lib/ftm_catchb.c:1244-1309 | the create handler on the linked lists and the table is the model's step |
| RegistryHandlers.CatchB.OnDeleteCctv | lib/ftm_catchb.c:1337-1385 | the delete handler on the linked lists and the table is the model's step |
| RegistryHandlers.CatchB.OnFoundCctvInDb | lib/ftm_catchb.c:1517-1558 | the found handler on the linked lists is the model's step |
| RegistryHandlers.CatchB.OnRemovedCctvInDb | lib/ftm_catchb.c:1585-1621 | the removal handler on the linked lists is the model's step |
| RegistryHandlers.CatchB.OnSetCctvHash | lib/ftm_catchb.c:1765-1805 | the hash handler on objects is the model's step |
| RegistryHandlers.CatchB.AddCctv | lib/ftm_catchb.c:1268-1306 | registering, inserting and attaching, or taking the camera back out by pointer when the insert fails, is the model's create |
| RegistryHandlers.CatchB.PostRemovals | lib/ftm_catchb.c:1437-1453 | iterating over the linked registry while posting posts one removal per camera without a row, in order |
| RegistryHandlers.CatchB.PostDiscoveries | lib/ftm_catchb.c:1456-1463 | looking up each row posts one discovery per row without a camera, in order |
| RegistryHandlers.CatchB.InitProcess | lib/ftm_catchb.c:866-908 | start-up leaves one FOUND message per row |
| RegistryHandlers.CatchB.OnCheckNewCctv | lib/ftm_catchb.c:1413-1489 | the check posts its removals, then its discoveries, and changes nothing itself |
| RegistryHandlers.CatchB.HandleOne | lib/ftm_catchb.c:1079-1168 | one turn of the thread takes the head of its message queue and is the model's handling step |
| RegistryHandlers.Analyzer.Rotate | lib/ftm_analyzer.c:809-812 | removing the head by pointer and appending it again rotates the linked list |
| RegistryHandlers.Analyzer.Attach | lib/ftm_analyzer.c:863-908 | the linked list grows by the ID exactly if no ID on it is the same up to case |
| RegistryHandlers.Analyzer.Detach | lib/ftm_analyzer.c:910-946 | the entry found by name is the one removed by pointer: the first that is the same up to case, and none without such an entry |
| Names.SameIgnoringCaseIff | lib/ftm_analyzer.c:995-1004 | names are the same up to case exactly if they are equally long and at each place hold the same character or the two cases, 32 apart, of an ASCII letter |
| Registry.AttachedIff | lib/ftm_analyzer.c:863-908 | an ID is attached exactly if no listed ID is the same up to case |
| Registry.DetachedIff | lib/ftm_analyzer.c:910-946 | the first ID that is the same up to case is detached, none without one |
| RegistrySafety.RunKeepsInvariant | lib/ftm_catchb.c:1244-1309 | the invariant over registry, list, lock and live objects holds after every interleaved run |
| RegistrySafety.ListedIsRegistered | lib/ftm_analyzer.c:620-822 | in runs without removals every listed ID names a live registered camera at every point, and no lookup has failed |
| RegistrySafety.LockedCameraSurvives | lib/ftm_analyzer.c:628-822 | the camera the analyzer holds is alive as long as it holds it |
| RegistrySafety.LookupFailsOnlyDuringRemoval | lib/ftm_analyzer.c:628-643 | a failed lookup means that the removal handler is between unregistering and detaching that camera |
| RegistrySafety.LookupFailsIff | lib/ftm_analyzer.c:628-643 | with discoveries only of unregistered IDs, the lookup of the head fails exactly while the removal handler has unregistered that ID and not yet got the analyzer's lock |
| RegistrySafety.RemovalCanMakeLookupFail | lib/ftm_catchb.c:1585-1621 | a run in which it does fail |
| RegistryRefinement.HandlersAreAtomic | lib/ftm_catchb.c:1244-1621 | over every interleaving of the handlers' locked calls with the analyzer's pass, whenever the CatchB thread is idle its registry and the IDs on the analyzer's list are those of handling the messages one at a time |
| RegistryRefinement.IdleAgreement | lib/ftm_catchb.c:1244-1385 | from start-up over any table, over every such interleaving of discoveries, creates, deletes and hash updates, whenever the thread is idle the registered IDs with those still to be found are the rows, without duplicates, and the analyzer lists exactly the registered ones |
| AnalyzerRotation.EveryOtherOnce | lib/ftm_analyzer.c:809-812 | between two analyses of one camera every other camera is analysed exactly once |
| AnalyzerRotation.Rounds.ProcessAll | lib/ftm_analyzer.c:628-643 | any sequence of passes over the linked list rotates it and analyses heads as the model does |
| LinkedList.List.Forward | lib/ftm_list.c:116-148 | following next n times from the sentinel reaches the n-th element |
| LinkedList.List.Backward | lib/ftm_list.c:116-148 | following prev n times reaches the n-th element from the end |
| LinkedList.List.Append | lib/ftm_list.c:116-148 | the ring's contents gain one element at the end and the iterator keeps its place |
| LinkedList.List.Insert | lib/ftm_list.c:150-247 | the element lands in front of all, behind all, or where an ascending or descending walk stops; without a comparator a sorted insertion fails and leaves the lock held |
| LinkedList.List.WalkBeyond | lib/ftm_list.c:175-226 | the walk stops at the first element that compares beyond the new one |
| LinkedList.List.Remove | lib/ftm_list.c:249-287 | the first entry of an item leaves the ring, and an iterator standing on it steps back |
| LinkedList.List.RemoveAt | lib/ftm_list.c:289-326 | the entry at a position leaves the ring; the iterator stays usable exactly if it did not stand on it |
| LinkedList.List.Get | lib/ftm_list.c:328-361 | the first element the seeker accepts, or none |
| LinkedList.List.GetAt | lib/ftm_list.c:393-427 | the element at a position, or none |
| LinkedList.List.GetFirst | lib/ftm_list.c:363-376 | the first element of a non-empty list |
| LinkedList.List.GetLast | lib/ftm_list.c:378-391 | the last element of a non-empty list |
| LinkedList.List.IteratorStart | lib/ftm_list.c:429-441 | puts the iterator before the first element |
| LinkedList.List.IteratorNext | lib/ftm_list.c:443-472 | yields the element behind the iterator's place or reports the end |
| Iteration.IterationSurvivesChanges | lib/ftm_list.c:249-287 | an iteration interleaved with any removals and fresh appends yields no element twice and every element still present, in list order |
| Iteration.RemoveKeepsFaithful | lib/ftm_list.c:264-276 | removing the current or any other element keeps yields and contents in step |
| Iteration.NextKeepsFaithful | lib/ftm_list.c:443-472 | so does a step of the iterator |
| Iteration.Drive | lib/ftm_list.c:429-472 | the heap list carries out the interleaved run of the model |
| Iteration.DestroySession | lib/ftm_server.c:661-700 | a session leaves the server's list and is released once |
| Iteration.CloseSessions | lib/ftm_server.c:434-445 | the closing loop stops and releases every session exactly once and empties the list |
| MessageQueue.Queue.Push | lib/ftm_queue.c:48-54 | a message joins the rear |
| MessageQueue.Queue.Pop | lib/ftm_queue.c:56-70 | read head, then remove, takes the front message when nobody interferes |
| MessageQueue.MsgQueue.Push | lib/ftm_msgq.c:72-86 | appends and announces one message |
| MessageQueue.MsgQueue.TimedPop | lib/ftm_msgq.c:111-144 | times out only when nothing is announced and otherwise delivers the front |
| MessageProtocol.OneConsumerIsFifo | lib/ftm_msgq.c:72-144 | with many producers and one consumer a pop behind a wait never fails, delivered then queued messages are the appended ones in order, and queue length is semaphore value plus threads in between |
| MessageProtocol.RunKeepsCounted | lib/ftm_msgq.c:72-144 | the counting law holds over every run with any number of consumers |
| MessageProtocol.GrantedSeesMessage | lib/ftm_msgq.c:88-109 | whoever got past the semaphore finds a message in the queue |
| MessageProtocol.RunKeepsInOrder | lib/ftm_queue.c:56-70 | with distinct messages, any number of consumers delivers each at most once and in append order |
| MessageProtocol.OneConsumerIff | lib/ftm_msgq.c:72-144 | for any set of consuming threads: no run makes a pop behind a wait fail, and every run delivers in append order whatever the messages, exactly if the set has at most one thread |
| MessageProtocol.TwoConsumersCanMiss | lib/ftm_queue.c:56-70 | of any two consumers of the two-step pop one can come away empty-handed |
| MessageProtocol.RecycledPointerOvertakes | lib/ftm_queue.c:56-70 | with any two consumers a message pointer used twice can overtake another message |
| TcpOptions.WalkInvertsSerialised | lib/ftm_score.c:91-128 | well-formed options, padded and followed by any payload, are read back as they were |
| TcpOptions.SynOptionsRead | lib/ftm_score.c:91-396 | the options of a usual SYN packet, byte by byte, give its segment size, its shift and the letters MSTNW, whatever follows them |
| TcpOptions.WalkEndsIff | lib/ftm_score.c:94-128 | the loop ends inside the packet exactly if every option on its way is readable and has a length other than zero |
| TcpOptions.ZeroLengthNeverEnds | lib/ftm_score.c:109-112 | a four-byte option area on which the loop never moves |
| TcpOptions.FirstWalk | lib/ftm_score.c:91-128 | recovers the last segment size and the last window scale |
| TcpOptions.SecondWalk | lib/ftm_score.c:353-396 | recovers the letters of all options in order, in a 20-byte buffer |
| TcpOptions.LettersFitIff | lib/ftm_score.c:358-396 | every write of the second walk stays inside its 20-byte buffer exactly if fewer than twenty options are walked |
| TcpOptions.TwentyNopsOverrun | lib/ftm_score.c:358-396 | twenty or more no-operations are walked to their end and overrun it |
| Score.TwoPacketsDecide | lib/ftm_analyzer.c:1059-1063 | from a zeroed score the total is the IP points of the first packet plus the TCP points of the first SYN packet |
| Score.LaterPacketsChangeNothing | lib/ftm_score.c:131-475 | packets behind the first SYN never change the total |
| Score.TotalTells | lib/ftm_score.c:15-476 | a total's last digit in tenths is the first packet's IP points, and it reaches ten thousand points exactly if a SYN packet was captured |
| Score.ScoreInfo.ProcessIP | lib/ftm_score.c:15-65 | adds a tenth per time-to-live bound exceeded and the fragment flag's tenths, each once |
| Score.ScoreInfo.ProcessTCP | lib/ftm_score.c:68-476 | carries out the rules of the six characteristics of a SYN packet, each once; the worth lemmas say in numbers what they give |
| Score.WindowEarnsIff | lib/ftm_score.c:175-326 | a window earns points exactly if it lies within slack of one of fourteen fixed windows, of 512, of the segment size or of eleven of its multiples |
| Score.FixedWindowWorth | lib/ftm_score.c:175-326 | the points of every window that is near no multiple of the segment size |
| Score.MultipleWindowWorth | lib/ftm_score.c:175-326 | the points of a window near one multiple of the segment size and nothing else |
| Score.SizeWindowWorth | lib/ftm_score.c:179-182 | a window near the segment size alone earns ten |
| Score.NoSizeWindowWorth | lib/ftm_score.c:175-326 | the points of a tiny window without a segment size, where rules are met in several ways and count once |
| Score.PlainWorth | lib/ftm_score.c:15-476 | the total of a capture that earns as little as one with a SYN packet in front can |
| Score.IdWorth | lib/ftm_score.c:461-473 | of two SYN packets alike but for the identification, the one with zero makes the total ten thousand points higher |
| Score.LengthWorth | lib/ftm_score.c:330-350 | what the lengths 44, 48, 52 and 60 add to a total |
| Score.WindowWorth | lib/ftm_score.c:175-327 | what a window adds to a total |
| Score.SizeWorth | lib/ftm_score.c:131-139 | what a segment size of 1380 adds to a total |
| Score.ShiftWorth | lib/ftm_score.c:142-174 | what each window scale, and its absence, adds to a total |
| Score.OrderWorth | lib/ftm_score.c:398-455 | what a listed order of options adds to a total |
| Score.IpWorth | lib/ftm_score.c:27-62 | what the time to live and the fragment flag of the first packet add to a total |
| Score.OrderScore | lib/ftm_score.c:398-455 | each option order earns what the table of orders says, all others nothing |
| Score.WhoIsScored | lib/ftm_analyzer.c:1040-1063 | sorting and scoring a capture of ICMP and TCP: an ICMP packet gives the IP points whenever one was captured, and the TCP points come from a SYN packet exactly if one was captured |
| Score.CalcScore | lib/ftm_analyzer.c:1027-1067 | the capture is sorted in place, then two of its packets decide the total |
| Score.ScoreInfo.ProcessAll | lib/ftm_analyzer.c:1059-1063 | the scoring loop folds the packets in order, whatever was scored before |
| PacketSort.Exchange | lib/ftm_analyzer.c:1040-1056 | the nested loops in place perform the modelled exchanges and touch nothing else |
| PacketSort.TwoProtocolsSort | lib/ftm_analyzer.c:1040-1056 | over two protocols the result is a sorted permutation although the compared header is stale |
| PacketSort.SortsIffAtMostTwo | lib/ftm_analyzer.c:681-701 | the loop sorts every capture over a set of protocols exactly if the set has at most two |
| PacketSort.ThreeProtocolsFail | lib/ftm_analyzer.c:1040-1056 | three packets it leaves unsorted, for any three protocols |
| Base64.DecodeUndoesEncode | lib/ftm_base64.c:25-155 | decoding an encoding gives the data back |
| Base64.EncodeUndoesDecodeIff | lib/ftm_base64.c:25-155 | encoding a decoding gives the text back exactly if the text was canonical, in the sense of section 3.5 of RFC 4648 |
| Base64.Codec.Encode | lib/ftm_base64.c:25-79 | the loop writes the encoding of section 4 of RFC 4648, nothing behind it, and reports its length; its characters come from the literal encoding table |
| Base64.EncodedGroup | lib/ftm_base64.c:48-70 | the four characters of every group stand in the encoding table at the base-64 digits of the 24-bit number its bytes make; characters without a byte are padding |
| Base64.Codec.Decode | lib/ftm_base64.c:82-155 | the loop writes exactly the announced number of bytes, which are the decoding |
| Base64.Codec.FillTable | lib/ftm_base64.c:99-107 | the lazily built table maps every alphabet character to its value |
| RingBuffer.PushContents | lib/ftm_buffer.c:61-98 | a push leaves the last size - 1 bytes of old contents followed by the new ones |
| RingBuffer.PushKeepsConsistent | lib/ftm_buffer.c:61-98 | first, last and length agree again after a push |
| RingBuffer.PushOverrun | lib/ftm_buffer.c:75-87 | for every longer push there are bytes the buffer does not hold afterwards |
| RingBuffer.Pop | lib/ftm_buffer.c:100-143 | a pop hands out the front, keeps the rest and leaves the fields in agreement |
| RingBuffer.Buffer.PushBack | lib/ftm_buffer.c:61-98 | the in-place push is the modelled one, its 32-bit length arithmetic included |
| RingBuffer.Buffer.PopFront | lib/ftm_buffer.c:100-143 | returns and removes the longest allowed prefix across the wrap |
| RingBuffer.Buffer.GetFirst | lib/ftm_buffer.c:145-162 | reads the head exactly if first is inside the ring, or by coincidence |
| RingBuffer.Buffer.GetAt | lib/ftm_buffer.c:164-183 | reads the byte at an index of the contents |
| RingBuffer.StaleHead | lib/ftm_buffer.c:145-162 | a run of pushes and pops after which the reported head is wrong |
| Checksum.Compute | lib/ftm_ping.c:761-790 | the deferred-carry loop gives the complement of the end-around-carry sum (section 1 of RFC 1071) without overflowing its 32-bit sum, for every length up to the packet maximum |
| Checksum.TwoFolds | lib/ftm_ping.c:785-787 | two folds of any sum reach the one's-complement residue |
| Checksum.OnesSumIsResidue | lib/ftm_ping.c:761-790 | the end-around-carry sum is that residue of the plain sum |
| Checksum.WordsAt | lib/ftm_ping.c:771-783 | the words summed take the first byte of each pair as the low one, an odd last byte alone |
| Checksum.ResidueMeans | lib/ftm_ping.c:785-787 | that residue is congruent to the sum, and zero only for a zero sum |
| Checksum.VerifiesIff | lib/ftm_ping.c:474-492 | a field's value makes the packet verify exactly if it is the checksum, up to the two forms of zero |
| Checksum.FilledVerifies | lib/ftm_ping.c:474-492 | recomputing after filling in a zeroed field gives 0 |
| Checksum.Seal | lib/ftm_ping.c:474-492 | the sender's fill-in makes the packet verify |
| Paging.Client.GetChunks | lib/ftm_client.c:1465-1498 | the chunk loop always ends within the caller's rows; with texts that increase, no wrap and any cap of at least one it returns exactly the newest-first rows from index on |
| Paging.Client.GetList | lib/ftm_client.c:1420-1501 | a request within the client's own limit returns what the server's cap lets through |
| Paging.SingleRequestIff | lib/ftm_client.c:1422-1461 | that single answer is the whole slice exactly if the cap covers it |
| Paging.Server.GetList | lib/ftm_server.c:1253-1272 | an answer is the database's for the smaller of cap and request |
| Paging.Database.GetLogList | lib/ftm_db.c:1626-1665 | the row callback delivers the database's answer to the computed window, cut at the caller's count |
| Paging.PageIsSliceIff | lib/ftm_db.c:1626-1641 | the window is the slice asked for exactly if index plus count does not wrap, or wraps to where nothing is wanted |
| Paging.AnswerIsReversedWindow | lib/ftm_db.c:1643-1656 | over an increasing log the nested query has one answer: the window, newest first |
| Paging.WindowsRightIff | lib/ftm_db.c:1643-1656 | in a log of distinct times every window is answered newest first exactly if the stored texts increase |
| Paging.IncreasingIff | lib/ftm_db.c:1405-1406 | that condition on the times themselves, which are stored as signed numbers |
| Paging.StoredOrder | lib/ftm_db.c:1405-1406 | when the stored text of one time precedes that of another, in terms of the two times |
| Paging.StoredReads | lib/ftm_db.c:1405-1406 | the stored text reads back as the time taken as a signed 32-bit number, without leading zeros |
| Names.TextLessIff | lib/ftm_db.c:1643-1656 | one text precedes another exactly if they agree up to a place where the one ends or holds the smaller character |
| Paging.TextOrderIsTimeOrder | lib/ftm_db.c:1405-1406 | among texts of equal width the order is that of the times below 2^31 and its reverse from there on |
| Paging.PagesOutOfOrder | lib/ftm_db.c:1405-1406 | two logs of two consecutive seconds whose page comes out oldest first, whatever the database does with ties |
| Paging.StatLoopEndsIff | lib/ftm_client.c:2043-2059 | the statistics loop ends exactly if it asks for no more than there is |
| Session.AcceptedIffAlive | lib/ftm_ssid.c:128-191 | with keys that are new when created, a key is valid exactly if it was created, not destroyed since, and no gap between accepted uses exceeded the timeout, 0 meaning never |
| Session.ListRepresentsTable | lib/ftm_ssid.c:26-191 | over every run that creates new keys only, the list of sessions is the table of keys and times, without two entries of one key |
| Session.RejectedForever | lib/ftm_ssid.c:155-165 | a key once turned down stays invalid unless created anew |
| Session.LazyRefinesEager | lib/ftm_ssid.c:128-191 | dropping sessions only when asked for accepts the same uses as dropping them at every look at the clock |
| Session.SessionStore.Create | lib/ftm_ssid.c:26-109 | a session joins the end of the linked list with its creation time, whatever its key |
| Session.SessionStore.Destroy | lib/ftm_ssid.c:111-126 | the first session of the key leaves the linked list; an absent key is reported |
| Session.SessionStore.Get | lib/ftm_ssid.c:128-177 | finds the first session of the key if it has not expired, and takes it off the linked list if it has |
| Session.SessionStore.IsValid | lib/ftm_ssid.c:179-191 | accepts and refreshes the session object in place, or drops it, as the model does |
| Session.SessionStore.ServiceCall | lib/ftm_server.c:523-542 | no command but the creating one is served without a valid session |
| Statistics.AddedAllKeepsLast | lib/ftm_catchb.c:3245-3293 | repeated adding keeps exactly the newest samples in order |
| Statistics.DeletesPeriodIff | lib/ftm_catchb.c:3332-3370 | the scan with its early stop deletes exactly the period if and only if no sample of the period stands behind the stop |
| Statistics.SortedDeletesPeriod | lib/ftm_catchb.c:3332-3370 | on a log in order of time it always does: what is left is exactly what lies outside the period |
| Statistics.Log.Add | lib/ftm_catchb.c:3245-3293 | adds a sample, reusing the oldest one's memory when full, and refuses when nothing may be held |
| Statistics.Log.Delete | lib/ftm_catchb.c:3332-3370 | the shifting index performs the scan and frees each deleted sample once |
| Statistics.Log.SetMaxCount | lib/ftm_catchb.c:3489-3522 | leaves the list free of freed samples exactly if none had to go, and frees none twice exactly if at most one had to |
| Tokenizer.TokensOfPrinted | lib/ftm_shell.c:428-487 | every line printed from bare and quoted arguments, with tabs, blanks, line feeds and carriage returns between them, is split into those arguments |
| Tokenizer.ParseLine | lib/ftm_shell.c:428-487 | the in-place scan succeeds exactly if no quote stays open, and its pointers then stand on the tokens as terminated strings |
| ShellCommands.InsertionKeepsSorted | lib/ftm_list.c:175-215 | an ascending or descending insertion keeps a list of that order in order, for any total comparator |
| ShellCommands.InsertionPlace | lib/ftm_list.c:175-215 | it is stable: the new element goes behind all that compare equal |
| ShellCommands.AppendedReplaces | lib/ftm_shell.c:330-366 | registering a command replaces the one of its name, keeps all others, and each name precedes all later ones in the order of strcmp |
| ShellCommands.NameFindsCommandIff | lib/ftm_shell.c:368-398 | a command is found by its own name exactly if none before it has that name in another case |
| ShellCommands.FullNameFinds | lib/ftm_shell.c:377-385 | the first command of that name up to case is found |
| ShellCommands.BeginningFinds | lib/ftm_shell.c:387-398 | without one, two letters and more find the first command whose name begins with them up to case, fewer find nothing |
| ShellCommands.Shell.AppendCmd | lib/ftm_shell.c:330-366 | the operation on the linked list is that replacement |
| ShellCommands.Shell.GetCmd | lib/ftm_shell.c:368-398 | a full match wins over a beginning, a single letter is no beginning |

## Left out

- Sockets, SSH, telnet, packet capture, mail and SQL text: the device's answer, the database's answer and the clock are parameters; the camera table is a sequence of keys (`RegistryHandlers.CatchB.AddRow`, `DeleteRow`), SQLite's log query is the relation `Paging.Answers`, and its inner selection is taken to scan in insertion order.
- Paging.Client.GetList: says which rows arrive only for a log whose stored texts increase, an index plus count within 32 bits and a cap of at least one; `Paging.WindowsRightIff` and `Paging.PageIsSliceIff` say what the first two are needed for. The log does not change during the call.
- Paging.Client.GetChunks: the same.
- Failed requests of the paging client are a connection that breaks for good after some number of answers.
- Allocation failures, and database deletes that fail.
- Floating-point rounding of the score: it is counted in tenths.
- TcpOptions.FirstWalk: requires options whose walk ends inside the packet, since the loop otherwise never returns or reads foreign memory; `TcpOptions.WalkEndsIff` says when it ends.
- TcpOptions.SecondWalk: requires the same and fewer than twenty options, since more overwrite foreign memory; `TcpOptions.LettersFitIff` says so.
- Score.ScoreInfo.ProcessTCP: requires both of a SYN packet.
- Score.ScoreInfo.ProcessAll: requires both of every SYN packet.
- Score.CalcScore: requires both of every SYN packet.
- Base64.Codec.Encode: requires data whose encoded length fits 32 bits; beyond that the code's length wraps and its loop leaves the buffer.
- RingBuffer.Buffer.PushBack: the buffer is at most 2^28 bytes, so that its index sums stay within 32 bits; the slack behind the ring is zeroed, as the allocator does.
- Base64.Codec.Decode: requires a non-empty input, because the code reads the last character first.
- The content of an analysis (ARP, ports, hashes): an arbitrary verdict for each pass.
- AC entries loaded from the database at start, and setting a policy or resetting a camera by hand, which add entries without looking.
- The message loop's dispatch over other message kinds, events, logs and alarms.
- Session.AcceptedIffAlive: requires keys that are new when created, which the code leaves to SHA-1 over time and address; with two sessions of one key the first on the list decides (`Session.ListApply`).
- Session.LazyRefinesEager: requires the same.
- Deleting statistics by position, the rest of the shell, the CGI programs, configuration files, time arithmetic and string formatting: they would add only easy members.
