# Verified models of the agent's cores

Dafny models of the algorithmic and protocol cores of the agent, each proved
against a declarative account of what it is for. `dafny verify dfyconfig.toml`
checks everything.

| file | what it models |
|---|---|
| `Glob.dfy` | the `*` / `?` matcher with one backtrack point |
| `FindFiles.dfy` | the directory walk with its stack, filter and limit |
| `Delta.dfy`, `DeltaRuns.dfy` | planning a delta inventory, and whole runs against several servers |
| `Ipc.dfy` | length-prefixed frames between the agent and a worker process |
| `Oid.dfy`, `SnmpWalk.dfy` | the GETNEXT walk, against an ordered map and against any agent |
| `VSphere.dfy`, `VSphereHosts.dfy`, `VSphereFields.dfy` | the response parser as a stack machine, the join of hosts with machines, and what their fields stand for |
| `Numerals.dfy` | reading unsigned decimal numbers |
| `Scanner.dfy`, `ScanResult.dfy` | the bounded-concurrency scan as interleaved steps, and its sorted result |
| `Bits.dfy`, `Checksum.dfy` | bit operations, ICMP echo requests and the Internet checksum |
| `Cidr.dfy`, `IpRange.dfy` | the three readings of a CIDR block, range enumeration, scan targets |
| `Deploy.dfy` | checks, verified files and actions of a deploy order |
| `SysObject.dfy` | longest-prefix classification of a sysObjectID |
| `NetBios.dfy` | the node status parser and its rendering |
| `Escape.dfy`, `Shell.dfy` | XML escaping and shell quoting, with the readers that undo them |

What the model takes as given, as parameters: the checksum of a section, the
SHA-512, the JSON codec (a pair of functions of which one undoes the other), the
lossy UTF-8 decoding of NetBIOS names, the file system tree, the network (every
attempt of every request), the delivery of a submission, the disk, where a file name
leads, and what each deploy action comes to and does to the files. Addresses are
numbers; text parsing of addresses is left out.

Results that are sharper than, or differ from, what the code's comments say:

- The glob matcher takes a `*` of the pattern as a literal when the text has a `*`
  there (`crates/glpi-collect/src/file.rs:139`). It never accepts too much. It is
  right about a text under every pattern exactly when the text has no `*`, and right
  about a pattern on every text exactly when the pattern has no `*`.
- A length prefix cut after one to three bytes reads as a clean end of the stream
  (`crates/glpi-scheduler/src/ipc.rs:101-104`), although the comment there speaks of
  an end before any byte of the next frame. The model follows the code.
- The frame writer accepts lengths up to 2^32 - 1, the reader up to 64 MiB: the parent
  reports success exactly when the event is within the reader's limit, the job
  succeeded, and every frame of it is within that limit and got through the pipe.
- Delta agreement, in any run: a server that gets a request agrees with the content
  exactly if the request was full, or each section whose checksum equals the saved one
  was last sent to this server, for this device, with its present value
  (`AgreementIff`). With all-or-none delivery, no checksum collision and one device per
  state file that always holds. A collision, a delivery that was not saved and a shared
  state file may break it, and the condition for each is an equivalence on the contents
  (`StepAgreesIff`, `TornAgreesIff`, `SharedFileAgreesIff`), with a witness for the
  last two.
- The bound on partials in a row holds in every run of a device with a state file of
  its own, whatever fails or collides. It holds in all runs of some devices exactly if
  none of them share a file: of two that do and take turns with bound 1 the second never
  sends a full inventory.
- The sum of the Internet checksum is a wrapping `u32`. A message still carries the
  checksum that makes its own checksum zero at every length, because 2^32 - 1 is a
  multiple of 65535. The sum cannot overflow up to exactly 131074 bytes; beyond that
  the value is no longer the one of section 2 of RFC 1071, and a build with overflow
  checks would panic.
- The client's walk leaves out an entry stored at the root itself, which the
  in-memory session's walk returns. It fails where the session answers when the client
  cannot encode the root or an identifier on the way
  (`crates/glpi-discovery/src/snmp/client.rs:132`), and only then.
- A partial never removes a section: after an accepted submission a server holds exactly
  the sections of the content if the submission was full or no section has vanished.
- Files of a deploy order whose names lead to one place overwrite each other, be they
  one name or aliases such as `a.bin` and `./a.bin`: the first action finds all files
  in place exactly when files that share a place share a digest key.

## Model

| member | source | states |
|---|---|---|
| Glob.ConsumeText | crates/glpi-collect/src/file.rs:136-153 | the two-pointer loop stops where the greedy segment search says, and ends by a lexicographic measure on segment start, mark and text pointer |
| Glob.GlobMatch | crates/glpi-collect/src/file.rs:132-158 | a positive answer is a true wildcard match; the answer is exact whenever pattern or text has no `*` |
| Glob.SeekSound | crates/glpi-collect/src/file.rs:146-149 | whatever the backtracking search accepts is a match of a suffix of the text, at its very start without a preceding `*` |
| Glob.SeekComplete | crates/glpi-collect/src/file.rs:139-149 | backtracking to the last `*` only loses no match while no `*` of the pattern can be used up by a `*` of the text |
| Glob.TextIsSafeIff | crates/glpi-collect/src/file.rs:139-145 | the matcher is right about a text under all patterns if and only if the text has no `*` |
| Glob.PatternIsSafeIff | crates/glpi-collect/src/file.rs:139-145 | the matcher is right about a pattern on all texts if and only if the pattern has no `*` |
| Glob.WildcardsMean | crates/glpi-collect/src/file.rs:130-131 | a pattern without wildcards matches itself only, `?` any one character, `*` anything |
| Glob.ConcatMatchesIff | crates/glpi-collect/src/file.rs:130-131 | patterns side by side match exactly the texts that split accordingly |
| FindFiles.ListDirectory | crates/glpi-collect/src/file.rs:58-76 | one listing adds its hits and its directories in order, or stops with exactly the limit reached |
| FindFiles.ListingOrder | crates/glpi-collect/src/file.rs:58-69 | hits and stacked directories keep the order of the listing |
| FindFiles.FindFiles | crates/glpi-collect/src/file.rs:49-79 | the walk returns the full list, or its first `limit` entries; the full list has the same entries as the plain recursive descent; every reported size is within the bounds that are set |
| FindFiles.VisitIsBelow | crates/glpi-collect/src/file.rs:56-77 | whatever is on the stack, the walk reports the entries below it with the right multiplicity; ends by the weight of the trees on the stack |
| FindFiles.ExactlyTheReachableHits | crates/glpi-collect/src/file.rs:46-79 | an entry is reported if and only if a path of directories that may be entered leads to a matching entry, and then exactly once |
| FindFiles.ReportedMeets | crates/glpi-collect/src/file.rs:81-126 | every reported entry is reached by the walk, has its size reported, and meets each field of the filter that is set: kind, name as a glob, sizes and digests, the last two only as a regular file |
| FindFiles.MeetingIsReported | crates/glpi-collect/src/file.rs:81-126 | conversely every reachable entry that meets each field is reported, its name being exact where stars cannot collide |
| FindFiles.ChildrenOnly | crates/glpi-collect/src/file.rs:65-67 | without recursion the walk stays in the root directory |
| FindFiles.BelowIsDistinct | crates/glpi-collect/src/file.rs:61-76 | no path is reported twice when names differ within each directory |
| Delta.SectionChecksums | crates/glpi-core/src/protocol/delta.rs:76-89 | the loop gives every section but the version and the partial flag its checksum, in any key order |
| Delta.BuildPartial | crates/glpi-core/src/protocol/delta.rs:156-168 | a partial holds the version, the changed sections that exist, the flag and nothing else |
| Delta.PartialCarries | crates/glpi-core/src/protocol/delta.rs:134-168 | a partial carries the flag, the version if there is one, and exactly the sections that are new or differ in checksum, with the values of the content; the saved checksums are those of every section but the version |
| Delta.PlanFor | crates/glpi-core/src/protocol/delta.rs:111-152 | a full plan resets the counter and carries all content; the counter never exceeds the bound and its increment stays within `u32` |
| Delta.StepAgreesIff | crates/glpi-core/src/protocol/delta.rs:134-151 | a view in agreement stays in agreement after a partial if and only if no checksum collision hides a change; after a full it equals the content |
| Delta.AcceptedAgreesIff | crates/glpi-core/src/protocol/delta.rs:111-168 | whatever was saved and whatever a server holds, after a request it agrees with the content if and only if the request was full or it already held every section left out |
| Delta.ExactlyIff | crates/glpi-core/src/protocol/delta.rs:134-168 | after a request a server holds exactly the content if and only if it agrees with it and the request was full or nothing it held has vanished |
| Delta.TornAgreesIff | crates/glpi-cli/src/main.rs:545-559 | after a delivery that was not saved, the next accepted submission leaves agreement if and only if it is full or each section that is again as saved was the same in between, or absent from a partial |
| Delta.SharedFileAgreesIff | crates/glpi-core/src/protocol/delta.rs:134-151 | with a state file saved for another device, agreement holds if and only if the submission is full or the server already held every section that is the same on both devices |
| Delta.FullComesForward | crates/glpi-core/src/protocol/delta.rs:119-150 | over whole sequences of submissions, lower bounds and lost state files never put more partials before the next full inventory, whatever the contents |
| Delta.FullIsDue | crates/glpi-core/src/protocol/delta.rs:119-150 | with one bound and no loss exactly the partials that are left precede the next full inventory |
| Delta.SameFileIff | crates/glpi-core/src/protocol/delta.rs:239-250 | two device ids share a state file if and only if they differ only where both characters become an underscore |
| Delta.StemIs | crates/glpi-core/src/protocol/delta.rs:239-250 | the stem of a device id has its length, keeps digits, ASCII letters, `-`, `.` and `_` in place and has underscores elsewhere, so it names no other directory |
| DeltaRuns.Agent.SubmitInventory | crates/glpi-cli/src/main.rs:537-559 | a state file that does not load ends the run; otherwise the servers up to the first failure get the planned request, and the state is saved only after the last one |
| DeltaRuns.RunStaysInStep | crates/glpi-cli/src/main.rs:537-559 | over every all-or-none run, each server agrees with the last accepted content and the saved state is its checksums and the number of partials since the last full |
| DeltaRuns.AgreementAfterSubmission | crates/glpi-core/src/protocol/delta.rs:76-168 | after every accepted submission each server agrees with the content on every section, exactly after a full, and the saved checksums are those of the content |
| DeltaRuns.ExactAfterSubmission | crates/glpi-cli/src/main.rs:537-559 | in every all-or-none run a server holds exactly the accepted content if and only if the submission was full or nothing it held has vanished |
| DeltaRuns.AgreementIff | crates/glpi-cli/src/main.rs:537-559 | in any run, with any deliveries, collisions and shared files, a server that gets a request agrees with the content if and only if the request was full or each section that looks as saved was last sent to it with its present value |
| DeltaRuns.VersionArrives | crates/glpi-core/src/protocol/delta.rs:158-160 | in any run a server that gets a request has the version of its content |
| DeltaRuns.PartialsStayBounded | crates/glpi-core/src/protocol/delta.rs:119-150 | in every run, whatever fails or collides, the partials of a device with a file of its own since its last full inventory never exceed the bound |
| DeltaRuns.SharedFileStarvesFull | crates/glpi-core/src/protocol/delta.rs:239-250 | two devices that share a file and take turns with bound 1: the second has as many partials in a row as there are rounds |
| DeltaRuns.CadenceIff | crates/glpi-core/src/protocol/delta.rs:111-152 | the bound on partials in a row holds in all runs of some devices if and only if no two of them share a state file |
| DeltaRuns.SharedFileBreaksAgreement | crates/glpi-core/src/protocol/delta.rs:239-250 | the first submission of the second device may be a partial without its section, which no server then has |
| DeltaRuns.PartialDeliveryBreaksAgreement | crates/glpi-cli/src/main.rs:545-557 | if one server accepts and the next fails, a section that then reverts is not in the next submission, which saves it as known: the first server keeps the other value until the section changes or the next full inventory |
| Ipc.InputStream.ReadMessage | crates/glpi-scheduler/src/ipc.rs:96-119 | one frame is consumed, or the end, an oversize, a truncated or a malformed frame is told apart |
| Ipc.InputStream.CollectMessages | crates/glpi-scheduler/src/fork.rs:139-166 | the loop hands over the messages up to the terminal one, or reports that none came |
| Ipc.InputStream.ReadInitialEvent | crates/glpi-scheduler/src/fork.rs:174-187 | the first frame is taken if it is an event, everything else is an error |
| Ipc.OutputStream.WriteMessage | crates/glpi-scheduler/src/ipc.rs:74-88 | a frame is refused when its length does not fit, else written as far as the pipe takes it |
| Ipc.FrameLayout | crates/glpi-scheduler/src/ipc.rs:78-86 | a frame is the length of its body in network order, then the body |
| Ipc.LimitsAre | crates/glpi-scheduler/src/ipc.rs:26-112 | the reader takes bodies of up to 67108864 bytes, the writer of less than 2^32 |
| Ipc.SuccessMeans | crates/glpi-cli/src/main.rs:909-940 | a success carries the one result of the self-test or of a network discovery, never that of an unsupported task |
| Ipc.TaskSucceedsIff | crates/glpi-cli/src/main.rs:913-939 | the self-test and a network discovery with devices succeed, and nothing else |
| Ipc.ProgressRises | crates/glpi-cli/src/main.rs:913-939 | a job reports rising progress under its task's name, never past 100, and all of it before the one result |
| Ipc.RunTask | crates/glpi-cli/src/main.rs:909-940 | frames are emitted in order up to the first that cannot be written or the break of the pipe, which becomes the failure |
| Ipc.EmittedIsPrefix | crates/glpi-cli/src/main.rs:915-936 | what is emitted is what was to be emitted, up to the first frame that cannot be written |
| Ipc.RunTaskWorker | crates/glpi-cli/src/main.rs:884-905 | without an initial event nothing is written; otherwise what arrives is the start line, the emitted frames, the log of a failure and one terminal message, cut where the pipe breaks |
| Ipc.FrameRead | crates/glpi-scheduler/src/ipc.rs:74-119 | a written frame is read back with the rest untouched if it is within the limit, and refused otherwise |
| Ipc.CutFrameRead | crates/glpi-scheduler/src/ipc.rs:100-117 | a frame cut before its fourth byte is an end of stream, cut later it is an error |
| Ipc.MalformedRead | crates/glpi-scheduler/src/ipc.rs:113-118 | a whole frame whose body is not a message is an error of its own |
| Ipc.DrainFrames | crates/glpi-scheduler/src/fork.rs:146-156 | whole frames are handed over once each, in order, with their results |
| Ipc.ComesThroughIffReadable | crates/glpi-scheduler/src/ipc.rs:26-112 | a run of writable frames gives the sent outcome, results and messages if every frame is readable, and an oversize error otherwise |
| Ipc.WorkerToParent | crates/glpi-cli/src/main.rs:884-905 | for a job within the limits the parent's outcome is the worker's own success flag, detail and results in order |
| Ipc.ParentReport | crates/glpi-scheduler/src/fork.rs:139-166 | what the parent reports of any task, whichever of its frames cannot be written or read |
| Ipc.SuccessIffDelivered | crates/glpi-scheduler/src/fork.rs:139-166 | for any task and any break of the pipe the parent reports success if and only if the job succeeded and all of its frames are readable and got through, and then it has all results in order |
| Ipc.RunForked | crates/glpi-scheduler/src/fork.rs:54-123 | the same for the whole fork over two pipes that may break, from the event the parent sends to the outcome it reports |
| Ipc.CutRun | crates/glpi-scheduler/src/ipc.rs:100-117 | a stream cut inside a frame hands over exactly the messages before it and ends without success |
| Ipc.TruncatedNeverSucceeds | crates/glpi-scheduler/src/fork.rs:139-166 | every truncated stream shows a proper prefix of the messages and never success |
| Ipc.EventReachesWorker | crates/glpi-scheduler/src/fork.rs:174-187 | the worker reads back the event the parent sent, whatever follows |
| Oid.LessIff | crates/glpi-discovery/src/snmp/client.rs:136 | the order is lexicographic: a proper prefix comes first, else the first different arc decides |
| Oid.SubtreeIsConvex | crates/glpi-discovery/src/snmp/client.rs:136 | a subtree is an interval of the lexicographic order, so leaving it is final |
| Oid.RankIsMonotone | crates/glpi-discovery/src/snmp/client.rs:136 | the order of identifiers of bounded length embeds in the naturals |
| SnmpWalk.Client.QueryNext | crates/glpi-discovery/src/snmp/client.rs:146-163 | the first response within the allowed attempts, the last included, is the answer; without one the query fails |
| SnmpWalk.Client.Walk | crates/glpi-discovery/src/snmp/client.rs:128-143 | against any agent with bounded identifiers the walk ends; its pairs are data, strictly ascending and properly below the root, and complete |
| SnmpWalk.Client.CompleteIsUnique | crates/glpi-discovery/src/snmp/client.rs:128-143 | what a complete walk returns is determined by the agent's answers |
| SnmpWalk.NextInOrder | crates/glpi-discovery/src/snmp/walk.rs:70-76 | past each entry of a subtree the session answers with the next entry in order |
| SnmpWalk.WalkIsFilter | crates/glpi-discovery/src/snmp/walk.rs:78-85 | the session's walk holds exactly the entries whose key begins with the root's arcs, the root's own included, in ascending order |
| SnmpWalk.WalkRefinesFilter | crates/glpi-discovery/src/snmp/walk.rs:70-85 | against a served session a walk is complete if and only if it is the session's filter, minus an entry at the root, up to an exception value, and the client can encode what it asks for |
| SnmpWalk.WalkServed | crates/glpi-discovery/src/snmp/client.rs:128-143 | walking a session that answers within the allowed attempts succeeds if and only if the root and every identifier on the way can be encoded, and then returns exactly that; without exception values, the session's own walk minus an entry at the root |
| SnmpWalk.RefusedRootFails | crates/glpi-discovery/src/snmp/client.rs:132 | with a root that cannot be encoded no walk is complete, although the session lists an entry below it |
| VSphere.ParseObjects | crates/glpi-vsphere/src/parse.rs:138-200 | the event loop runs the stack machine over the whole stream and commits the last object |
| VSphere.NodesRun | crates/glpi-vsphere/src/parse.rs:150-243 | a structured value adds exactly its harvested elements and references in document order, whatever wrappers and other elements surround them |
| VSphere.RoundTrip | crates/glpi-vsphere/src/parse.rs:138-243 | any list of printed objects with trimmed non-empty texts, values nested to any depth, is read back in order and complete |
| VSphere.PropFound | crates/glpi-vsphere/src/parse.rs:217-240 | with distinct names each property is found under its name with its text, or with its references in order |
| VSphere.MacsAndIpsFound | crates/glpi-vsphere/src/parse.rs:227-228 | the MAC and IP lists are those found in nested values at any depth, in document order |
| VSphere.LeavesOfOne | crates/glpi-vsphere/src/parse.rs:150-190 | an element counts as itself, an empty reference as its id, a wrapper as what it wraps, any other element as nothing |
| VSphere.LeafGoesTo | crates/glpi-vsphere/src/parse.rs:222-228 | references, MAC and IP addresses go to the list of their kind only |
| VSphere.TrimIs | crates/glpi-vsphere/src/parse.rs:182 | trimming cuts white space off both ends and nothing else |
| VSphere.WhiteIff | crates/glpi-vsphere/src/parse.rs:182 | which code points are white space |
| VSphere.TextsJoin | crates/glpi-vsphere/src/parse.rs:211-241 | texts of one value are joined by blanks, texts of an object id by nothing |
| VSphereHosts.VmAddresses | crates/glpi-vsphere/src/parse.rs:114-128 | the guest's address comes first, then each harvested address that is new |
| VSphereHosts.AddMissingIsUnion | crates/glpi-vsphere/src/parse.rs:122-126 | the address list has no duplicates and is the union of both sources |
| VSphereHosts.AddMissingOneByOne | crates/glpi-vsphere/src/parse.rs:122-126 | an address is added at the end unless it is there, one after the other |
| VSphereHosts.ElementText | crates/glpi-vsphere/src/soap.rs:344-362 | the loop scans for the first text inside the element |
| VSphereHosts.TextIsFound | crates/glpi-vsphere/src/soap.rs:344-362 | what is found is the trimmed text of the first element of that name, whatever stands around it |
| VSphereHosts.EmptyElementIsPassed | crates/glpi-vsphere/src/soap.rs:356 | an element closed without a text does not take a later one |
| VSphereHosts.FaultIsReported | crates/glpi-vsphere/src/parse.rs:37-40 | a response with a fault is an error with that text, whatever else it holds |
| VSphereHosts.ParseHosts | crates/glpi-vsphere/src/parse.rs:37-60 | a fault is an error; otherwise the machines are indexed, the hosts kept in order and joined with them |
| VSphereHosts.IndexIgnoresPosition | crates/glpi-vsphere/src/parse.rs:44-54 | with unique ids the index does not depend on where the machines stand |
| VSphereHosts.LastMachineCounts | crates/glpi-vsphere/src/parse.rs:44-50 | of several machines with one id the last one counts |
| VSphereHosts.EachHostGetsItsVms | crates/glpi-vsphere/src/parse.rs:37-75 | a printed response without a fault element is no error, and each host of it gets exactly the machines its references name, in reference order, or none without a `vm` property |
| VSphereFields.VmIsDescribed | crates/glpi-vsphere/src/parse.rs:102-130 | every field of a printed machine is the text, or the number, of the property it is meant for, or absent with it |
| VSphereFields.HostIsDescribed | crates/glpi-vsphere/src/parse.rs:65-99 | so is every field of a printed host, the name being that of the first of three properties |
| VSphereFields.ResponseIsRead | crates/glpi-vsphere/src/parse.rs:37-130 | in a printed response each `HostSystem` keeps its place among the hosts, has the values of its own properties, and the machines its `vm` property refers to, each with the values of its own |
| Numerals.UnsignedIff | crates/glpi-vsphere/src/parse.rs:132-135 | a text reads as a number exactly if it is its decimal text, perhaps signed and behind zeros, and the number fits |
| Scanner.ReachableInv | crates/glpi-discovery/src/scanner.rs:86-107 | in every interleaving running probes plus free permits equal the concurrency, and no target is probed or joined twice |
| Scanner.NeverStuck | crates/glpi-discovery/src/scanner.rs:95-107 | until all tasks are joined some step is enabled |
| Scanner.CompleteIffAllSteps | crates/glpi-discovery/src/scanner.rs:89-117 | every interleaving ends after exactly three steps per target |
| Scanner.JoinOrderIsPermutation | crates/glpi-discovery/src/scanner.rs:107-117 | at the end every target has been joined exactly once |
| Scanner.StoreByIndex | crates/glpi-cli/src/main.rs:1158-1162 | results stored by index do not depend on the order of completion; a task that cannot be joined is an error |
| ScanResult.HostRecord.Merge | crates/glpi-discovery/src/traits.rs:96-104 | the first value of each attribute is kept, every method is recorded |
| ScanResult.ProbeAddress | crates/glpi-discovery/src/traits.rs:112-132 | a host is reported if and only if a method responded, with the first MAC and name any method found and the methods in order |
| ScanResult.ResponsesAre | crates/glpi-discovery/src/traits.rs:116-126 | the responses are all methods that answered, in order, and no others |
| ScanResult.CollectJoined | crates/glpi-discovery/src/scanner.rs:105-123 | progress counts from one up to the number of joined tasks, and the hosts come out sorted |
| ScanResult.SortedIsUnique | crates/glpi-discovery/src/scanner.rs:119-122 | sorting by address leaves one possible list when an address has one host |
| ScanResult.OutcomesStayProbed | crates/glpi-discovery/src/scanner.rs:89-117 | in every interleaving a task that ended carries what the probe of its own target produced |
| ScanResult.ScheduleDoesNotMatter | crates/glpi-discovery/src/scanner.rs:76-124 | if every probe step answers by its address, every complete schedule returns the same list: the responding hosts of the targets, sorted |
| ScanResult.Scan | crates/glpi-discovery/src/scanner.rs:76-124 | a scan that has joined all tasks has reported progress from one to the number of targets; with deterministic probes it returns exactly the hosts the probes of the targets found, IPv4 before IPv6 and by rising number |
| Checksum.InternetChecksum | crates/glpi-discovery/src/methods/ping.rs:150-163 | the loops compute the complement of the folded, wrapped word sum, an odd byte padded with zero |
| Checksum.Encode | crates/glpi-discovery/src/methods/ping.rs:131-142 | the message layout with a checksum that validates |
| Checksum.EncodedLayout | crates/glpi-discovery/src/methods/ping.rs:127-142 | byte by byte: type, code, checksum, identifier and sequence in network order, payload |
| Checksum.SelfConsistent | crates/glpi-discovery/src/methods/ping.rs:145-163 | the checksum of a message that carries its checksum is zero, for every identifier, sequence and payload of any length |
| Checksum.FoldIsResidue | crates/glpi-discovery/src/methods/ping.rs:159-161 | the fold loop keeps the sum modulo 65535 and a positive sum positive |
| Checksum.WordSumLaws | crates/glpi-discovery/src/methods/ping.rs:151-158 | the sum adds words in network order, a single last byte as the high half of its word |
| Bits.BitByBit | crates/glpi-discovery/src/methods/ping.rs:159-161 | the operations on masks work bit by bit |
| Checksum.NoOverflowIff | crates/glpi-discovery/src/methods/ping.rs:151-158 | no data of a length overflows the sum if and only if the length is at most 131074 |
| Checksum.IsRfc1071Iff | crates/glpi-discovery/src/methods/ping.rs:150-163 | exactly when the wrapped value still is the checksum of RFC 1071 |
| Cidr.ThreeTestsAgree | crates/glpi-discovery/src/ip_range.rs:72-94 | membership in the range, the trust test and equality of the leading prefix bits coincide |
| Cidr.BlockLength | crates/glpi-discovery/src/ip_range.rs:82-125 | a block has 2^(32 - prefix) addresses, its own among them, and ends within 32 bits |
| Cidr.PeersAreInnerBlock | crates/glpi-deploy/src/p2p.rs:26-50 | for prefixes 20 to 30 the peers are the block in order without its ends; shorter prefixes are refused, longer ones have no peers |
| Cidr.ParseTrustList | crates/glpi-http/src/trust.rs:36-46 | empty entries are skipped and one bad prefix refuses the list |
| Cidr.AllowsIff | crates/glpi-http/src/trust.rs:51-91 | a trust list admits a client of either family if and only if it is loopback, a listed address, or in the range of a listed block |
| Cidr.LoopbackIff | crates/glpi-http/src/trust.rs:55-58 | loopback is 127.0.0.0 to 127.255.255.255, or the IPv6 address one |
| IpRange.Ipv4RangeIter.Next | crates/glpi-discovery/src/ip_range.rs:175-188 | each call yields the next remaining address, at the end nothing, without overflow |
| IpRange.Ipv4RangeIter.SizeHint | crates/glpi-discovery/src/ip_range.rs:190-196 | both bounds are the exact remaining count at every state |
| IpRange.Exhaust | crates/glpi-discovery/src/ip_range.rs:142-188 | iterating yields every address of the range once, ascending |
| IpRange.ParseIff | crates/glpi-discovery/src/ip_range.rs:41-107 | a specification is accepted if and only if it stands for some address, and its range holds exactly the addresses it stands for |
| IpRange.Targets | crates/glpi-discovery/src/tasks/net_discovery.rs:244-251 | the targets are the addresses of all ranges, range after range, and number `target_count` |
| IpRange.FlattenedInOrder | crates/glpi-discovery/src/tasks/net_discovery.rs:249-251 | one range gives its addresses, lists of ranges one after the other |
| IpRange.TargetsOf | crates/glpi-cli/src/main.rs:591-596 | one bad specification refuses the scan; otherwise the targets are exactly the addresses the specifications stand for |
| Deploy.Evaluate | crates/glpi-deploy/src/checks.rs:175-190 | every check is evaluated; the order may proceed if and only if no `ko` check failed |
| Deploy.ChecksMean | crates/glpi-deploy/src/checks.rs:192-240 | what each kind of check decides about presence, size, free space and digest |
| Deploy.SameDigestIff | crates/glpi-deploy/src/checksum.rs:36-41 | digests are equal character by character up to the case of ASCII letters |
| Deploy.Workdir.Assemble | crates/glpi-deploy/src/downloader.rs:52-84 | the file is written if and only if every part and the whole are verified |
| Deploy.WrittenIsTheParts | crates/glpi-deploy/src/downloader.rs:58-81 | what is written has each part, verified, behind those before it, and nothing else |
| Deploy.ContentIsWrittenBack | crates/glpi-deploy/src/downloader.rs:52-84 | any content cut into consecutive pieces, delivered under their digests, is written back as that content |
| Deploy.Workdir.RunActions | crates/glpi-deploy/src/task.rs:156-171 | actions run in order up to the first that does not succeed, each on the files the one before left |
| Deploy.Workdir.Run | crates/glpi-deploy/src/task.rs:128-181 | the whole effect of a run on files and record, when it succeeds, and when the inventory flag is set |
| Deploy.WrittenIsVerified | crates/glpi-deploy/src/downloader.rs:52-84 | over every order and outcome, what is written is a file of the order with all parts and the whole digest verified |
| Deploy.ActionsAreGuarded | crates/glpi-deploy/src/task.rs:129-171 | the actions that ran are the first ones after all writes, all but the last succeeded, and none ran unless the checks passed and every file was written |
| Deploy.StopsAtFirstFailure | crates/glpi-deploy/src/task.rs:141-154 | after the first file that is not fetched no other file is touched and no action runs |
| Deploy.SucceedsIffAllRan | crates/glpi-deploy/src/task.rs:156-180 | success holds if and only if the checks passed, every file was fetched and all actions ran and succeeded |
| Deploy.InPlaceIff | crates/glpi-deploy/src/task.rs:141-154 | once fetched, all files are in place with their key digest if and only if files whose names lead to one place share a key |
| Deploy.ActionsFindFiles | crates/glpi-deploy/src/task.rs:141-159 | so the first action finds every file in place if and only if no two keys were written to one place |
| Deploy.DistinctFilesInPlace | crates/glpi-deploy/src/task.rs:141-154 | with distinct names, none an alias of another, they are in place |
| Deploy.AliasesLose | crates/glpi-deploy/src/task.rs:143 | where `a.bin` and `./a.bin` lead to one place, an order of two such files with different digests is fetched and leaves one of them out of place |
| SysObject.LongestDevice | crates/glpi-discovery/src/snmp/sysobject.rs:98-109 | the shrinking loop finds the longest key of at least two arcs, or rules all of them out |
| SysObject.Lookup | crates/glpi-discovery/src/snmp/sysobject.rs:88-114 | for a numeric identifier the entry of the longest arc prefix that is a key; otherwise the manufacturer alone, or nothing |
| SysObject.EnterpriseIff | crates/glpi-discovery/src/snmp/sysobject.rs:54-59 | what is looked up is what follows the enterprises arc in any of its four spellings |
| SysObject.NumericArcIff | crates/glpi-discovery/src/snmp/sysobject.rs:136-144 | a numeric arc is the decimal text of a number, perhaps behind zeros |
| NetBios.SkipNameLoop | crates/glpi-discovery/src/methods/netbios.rs:135-147 | the loop ends and stays within the data |
| NetBios.NameIsSkipped | crates/glpi-discovery/src/methods/netbios.rs:135-147 | any sequence of labels that ends in a zero byte or in a two-byte pointer is skipped up to its end |
| NetBios.EndlessNameFails | crates/glpi-discovery/src/methods/netbios.rs:135-147 | a name without an end is refused |
| NetBios.LayoutBehindName | crates/glpi-discovery/src/methods/netbios.rs:94-103 | behind header and name stand ten bytes, the count and the entries |
| NetBios.ParseNodeStatusResponse | crates/glpi-discovery/src/methods/netbios.rs:91-120 | success if and only if all announced entries are there, and then exactly those, at 18-byte strides |
| NetBios.TrimEndIs | crates/glpi-discovery/src/methods/netbios.rs:107-109 | trimming a name cuts blanks and zero characters off its end and nothing else |
| NetBios.GroupIff | crates/glpi-discovery/src/methods/netbios.rs:111-115 | a name is a group name if the highest bit of its two flag bytes, in network order, is set |
| NetBios.RoundTrip | crates/glpi-discovery/src/methods/netbios.rs:91-147 | up to 255 rendered ASCII names with suffix and flags are read back in order, whatever the other fields and the trailer |
| NetBios.EncodeNetbiosName | crates/glpi-discovery/src/methods/netbios.rs:73-82 | 32 letters from A to P that decode to the wildcard name |
| Escape.WinrmIsOnePass | crates/glpi-inventory-remote/src/winrm.rs:300-305 | the chained replaces equal one pass over the characters |
| Escape.SoapIsOnePass | crates/glpi-vsphere/src/soap.rs:365-371 | so do those of the five-character variant |
| Escape.EscapesByCharacter | crates/glpi-vsphere/src/soap.rs:365-371 | both chains escape character by character, with the five predefined entities |
| Escape.EscapesRoundTrip | crates/glpi-vsphere/src/soap.rs:365-371 | entity decoding (section 4.6 of XML 1.0) undoes both for every string |
| Escape.NoMarkupLeft | crates/glpi-inventory-remote/src/winrm.rs:300-305 | no angle bracket or double quote is left, nor an apostrophe in the second variant |
| Shell.ShellQuoteIsOneWord | crates/glpi-inventory-remote/src/session.rs:68-71 | a shell reads the quoted text as exactly the one original word |
| Shell.QuotedInCommand | crates/glpi-inventory-remote/src/session.rs:68-71 | in any command, a quoted argument between blanks is one word and leaves the reading of what stands before and after it alone |
| Shell.ReadFileReads | crates/glpi-inventory-remote/src/session.rs:34-36 | the command of `read_file` is read as `cat`, `--` and the one given path |
| Shell.CanRunReads | crates/glpi-inventory-remote/src/session.rs:40-46 | the whole command of `can_run` is read as the conditional that looks up the one given program, silently, and prints the marker |
| Shell.PerlModuleReads | crates/glpi-inventory-remote/src/session.rs:50-60 | the whole command of `perl_module`, for a literal module name, has the given code as one word |

## Left out

- Sockets, HTTP, TLS, SSH and WinRM transports, process spawning and file-system calls: they appear as parameters or not at all.
- JSON, XML tokenizing, base64, SHA-512 and `DefaultHasher` internals: parameters with the stated hypotheses.
- FindFiles.FindFiles: entry names that are not UTF-8 are not modelled; the filter compares the name that was decoded.
- Submitting without a state directory (`crates/glpi-cli/src/main.rs:560-570`), and pruning by age beyond the loss of a state file; why a state file does not load.
- Delta.PlanFor: content that is not a JSON object is not modelled, and the changed sections are a set, so their order in the list is not captured.
- DeltaRuns.AgreementAfterSubmission: collected content never has a section called `partial`, as in the content type.
- Ipc.RunTaskWorker: a pipe breaks for good after some number of bytes; the text of a failure is the code's own only for an unsupported task, otherwise a fixed or given one.
- SnmpWalk.Client.Walk: encoding and decoding of identifiers (`make_oid`, `parse_oid_parts`) are a predicate and an error reply; parsing of `snmpwalk` text is not modelled.
- VSphereHosts.ParseHosts: the interfaces of a host, which the parser leaves empty, are not carried; end events carry no name, as in a well-nested response.
- ScanResult.SortedIsUnique: the library sort is represented by an insertion sort that is proved to sort and to keep the entries.
- The device discovery on top of the scan (`from_parts`, SNMP probing) and the socket side of each method: field copies and plumbing.
- Cidr.ParseTrustList: entries start after their text is taken apart into an address or a block; so do those of IpRange.TargetsOf.
- Deploy.Workdir.Run: where a name leads and what an action does to the files are parameters, so links and directories are not modelled.
- Mirrors, credentials and retries of part downloads, return checks of commands, the proxy hop guard, and pid files.
- Shell.ShellQuoteIsOneWord: the lexer reads single quotes, backslashes, blanks and operators; a character the shell may expand, a double quote, a comment or a newline outside quotes counts as not literal. Reserved words are left to the grammar.
