# Verification of the node's discovery, configuration and utility code

A Dafny model of the parts of the repository that carry its protocol and its hand-written text
handling, with proofs. `dafny verify dfyconfig.toml` checks everything.

| files | what they model |
|---|---|
| `Lifecycle`, `StopOutcome` | `Thread`, `ThreadMonitor` and the discovery worker: any number of controllers behind one mutex, one lock-free worker, one atomic step per read or write of shared memory |
| `Ticks`, `ByteOrder`, `Registration`, `PacketMemory`, `Discovery` | the heartbeat: which tick sends what, the packed packet on machines of both byte orders, the interface it uses |
| `CText`, `Trim`, `Ini`, `IniTheorems` | the in-place trimmer, the INI reader and what reading undoes and ignores |
| `AddressText`, `Split` | IPv4 and MAC text, address ranges and lists |
| `Hosts` | the rewrite of the hosts file |
| `Paths`, `CreatePath` | path stripping, the keep-list search, and path creation over a model of the directory tree |
| `MemAlign`, `Registry`, `Memory` | aligned allocation, and the registries of live memory objects and threads |
| `Options` | a value that may be missing |

Where the source changes things step by step (the trimmer, the INI reader, the parsers, the hosts file,
paths, packets, the discovery thread, the registries) the model is a method over arrays or a class, proved
against a specification function; the theorems are about that function. The worker and its controllers run
concurrently, so they are a state machine over single steps, and the theorems are about every run.

## What turned out to hold only under a condition

Each of these is proved as an equivalence, or with a run or an input that shows the failure.

- A Stop that has written Stopping returns, in every fair run, if and only if the worker is past RunBegin
  and has not ended. Otherwise the request is overwritten or comes too late, and the Stop keeps the
  monitor's mutex for ever; `HASTY_STOP` is a run that does it.
- Teardown is safe as long as the Start comes before any Stop. With a usable interface the rule forbids
  nothing that is safe: the first step that breaks it can always be continued to a send through a null
  channel.
- The signature is narrowed to 16 bits before it is swapped, so a receiver recognises it exactly when its
  byte order is the sender's. Every other byte of a packet is the same on both kinds of machine.
- The packet length is computed from the number of interfaces already narrowed to eight bits: it is the
  size of the packet if and only if there are at most 255 interfaces.
- `Trim` drops text back to the last blank before a comment, not to the comment: a comment with no blank
  before it takes the whole line with it. Its description promises that trailing space is removed; a text
  without a comment keeps all of it, "a " for one, and `TrailingSpaceIff` says exactly which results still
  end in space.
- A setting is read back exactly under `SettingOk`; in particular `key=[x]` on one line is taken for a
  section heading, and keys of one character are ignored.
- `SplitIpv4` comes back from a range if and only if its last number is below 255.
- `IsFolderInFileList` comes back from an entry it does not match if and only if the first name of the
  entry has at most one character.
- `CreatePath` takes a backslash for a separator, the system does not. A prefix it looks at names a
  directory on the way to the path if and only if it does not end at a backslash inside a name, and only
  directories on the way are created if and only if all such prefixes, up to the first refusal, name
  directories that are there already. `StrayDirectory` is an input that leaves another one behind.
- `MemAlignPointer` complements a 32-bit mask and so clears the upper half of the address: its result is
  aligned and inside the intended range if and only if the address is below 2^32 - 127. Even then the
  aligned block fits its allocation only if the address is aligned already or is at least as far into its
  64-byte block as the length is.
- A registry holds exactly the live objects throughout a history, even past the wrap of its counter, if
  and only if no birth meets a number that is taken; the wrap itself is where that can begin.

Where a comment and the code differ the model follows the code: the packet identifier on the wire is 0,
not 1 (libs/protocol/protocol.h:59 and 201), and Pause only changes the state, which the worker's loop does
not look at for anything but Stopping.

## Model

| member | source | states |
|---|---|---|
| Lifecycle.TeardownSafe | libs/protocol/discovery.cpp:128-178 | In every interleaving of any number of controllers with the worker, no tick sends through a deleted or nulled channel, no channel is deleted twice, at most one controller is past the mutex, and the channel is torn down only after the worker has left RunEnd |
| Lifecycle.RunKeepsInv | libs/service/threadmonitor.cpp:85-132 | Every disciplined run keeps mutual exclusion and the relation between state, thread pointer, channel, worker and the controller inside the mutex |
| Lifecycle.ControlKeepsMutex | libs/service/threadmonitor.cpp:124-132 | A controller's step keeps the mutex exclusive, and the step it leaves the mutex's holder at is the next one of its operation |
| Lifecycle.ControlKeepsCore | libs/base/thread.cpp:79-127 | Each step of Start, Pause, Resume and Stop keeps the invariant, given the run discipline |
| Lifecycle.WorkKeepsCore | libs/protocol/discovery.cpp:139-161 | Each step of the worker keeps the invariant, whatever the controllers have written |
| Lifecycle.OnlyStoppingEndsLoop | libs/protocol/discovery.cpp:148-157 | In any state but Stopping, Paused included, the loop goes round, and into a tick when the second has passed; in Stopping it leaves |
| Lifecycle.TicksFollowClock | libs/protocol/discovery.cpp:148-157 | In every run, whatever the controllers do, the ticks begun are exactly the looks at the clock that found the second passed; where none did nothing was prepared or sent |
| Lifecycle.PauseWritesPaused | libs/base/thread.cpp:79-83 | From entering the mutex to returning, Pause sets the state to Paused and changes nothing else |
| Lifecycle.ResumeWritesRunning | libs/base/thread.cpp:88-92 | Resume sets the state to Running and changes nothing else |
| Lifecycle.StartSpawnsWorker | libs/base/thread.cpp:121-127 | Start leaves a detached thread at its first step and does not touch the state |
| Lifecycle.StopWithoutThread | libs/base/thread.cpp:97-116 | A Stop that finds no thread waits for nothing, leaves the state Stopped and drops the channel |
| Lifecycle.LaterStopReturns | libs/base/thread.cpp:97-102 | A Stop that finds the thread stopped returns at once and only drops the channel |
| Lifecycle.StopBeforeStartFaults | libs/base/thread.cpp:97-127 | From every initial state with a usable interface, any controller's Stop before its Start leads to a send through a null channel |
| Lifecycle.BreachLeadsToFault | libs/base/thread.cpp:97-127 | After every disciplined run, from any initial state with a usable interface, whichever Stop first enters the mutex before the Start, that step has a continuation to a fault: the discipline is exact |
| Lifecycle.HeartbeatsOnSchedule | libs/protocol/discovery.cpp:183-218 | Whatever the controllers do, after n <= 2^32 ticks the worker has sent exactly the first ceil(n/10) heartbeats of the schedule, in order, and prepared exactly ceil(n/10) + ceil(n/60) packets; none without a usable interface |
| Lifecycle.PacketNumbersDistinct | libs/protocol/discovery.cpp:218 | In every run, disciplined or not and of any length, two prepared packets, for the multicast group or the remote office, carry the same number exactly when a multiple of 2^16 preparations lies between them |
| StopOutcome.StepTowardsEnd | libs/base/thread.cpp:66-116 | Once Stopping is written, the state moves only to Stopped and only by RunEnd, at most the tick in progress is finished, the rank never grows and every useful step lowers it until the Stop has returned |
| StopOutcome.UsefulStepEnabled | libs/base/thread.cpp:104-112 | On the way there is never a deadlock: the worker, or after it the controller, has a useful step |
| StopOutcome.FairRunCompletes | libs/base/thread.cpp:106-112 | Every fair run completes the Stop within as many rounds as the rank |
| StopOutcome.HungForever | libs/base/thread.cpp:66-69 | A Stop whose request RunBegin overwrites, or that comes after RunEnd, is still waiting after any further run |
| StopOutcome.StopCompletesIff | libs/base/thread.cpp:66-116 | In every disciplined run, a Stop about to write Stopping completes in every fair continuation if the worker is past RunBegin and has not ended, and otherwise never returns and never frees the mutex |
| StopOutcome.HastyStopHangs | libs/base/thread.cpp:97-124 | From every initial state, a disciplined run of Start and an early Stop ends in that wait for ever |
| Ticks.TicksAreCeilings | libs/protocol/discovery.cpp:183-188 | The first n ticks hold ceil(n/10) ten-second ticks and ceil(n/60) minute ticks |
| Ticks.HeartbeatIsNext | libs/protocol/discovery.cpp:183-218 | The k-th heartbeat's number (k + ceil(k/6) + 1) mod 2^16 is the one drawn next after everything prepared in the ticks before it |
| Ticks.SameSequenceIff | libs/protocol/discovery.cpp:249-260 | Two multicast heartbeats carry the same number exactly when a multiple of 2^16 packets of either kind was prepared between them; never when fewer were |
| ByteOrder.Swapped16 | libs/utility/memoryutility.h:81-94 | On either kind of machine CheckAndSwap(v) lies in memory as the big-endian bytes of v, 16 bits |
| ByteOrder.Swapped32 | libs/utility/memoryutility.h:101-117 | The same for 32 bits |
| ByteOrder.Swapped64 | libs/utility/memoryutility.h:124-144 | The same for 64 bits |
| ByteOrder.OrderOfBytes | libs/utility/memoryutility.h:81-144 | Network order is most significant byte first, and a little-endian machine keeps the least significant first, on given numbers of each width |
| ByteOrder.ReadBack16 | libs/utility/memoryutility.h:91-94 | On either kind of machine loading big-endian bytes and applying CheckAndSwap gives the value back, 16 bits |
| ByteOrder.ReadBack32 | libs/utility/memoryutility.h:114-117 | The same for 32 bits |
| ByteOrder.ReadBack64 | libs/utility/memoryutility.h:141-144 | The same for 64 bits |
| Registration.PacketFitsIff | libs/protocol/discovery.cpp:214-216 | n interfaces end at byte 44 + 24n, inside the 1400-byte buffer exactly up to n = 56; the length stored is that of n mod 256 interfaces, never cut by its 16 bits, and is 44 + 24n exactly up to n = 255 |
| Registration.WireRoundTrip | libs/protocol/discovery.cpp:212-244 | For every field assignment and 1 to 56 interfaces, a machine of either kind reads back, from the packet a machine of either kind prepared, every field, every interface, and a length field equal to the number of bytes |
| Registration.WireHeader | libs/protocol/protocol.h:168-185 | At which byte offsets of every packet the header fields lie, the reserved bytes being zero |
| Registration.WireBody | libs/protocol/protocol.h:199-215 | At which byte offsets the fields after the header lie, the reserved bytes being zero |
| Registration.WireInterface | libs/protocol/protocol.h:188-196 | At which byte offsets the fields of the k-th interface lie, its reserved bytes being zero |
| Registration.WireMachineIndependent | libs/protocol/protocol.cpp:21-39 | Outside the four signature bytes both kinds of machine prepare the same packet |
| Registration.SignatureNamesMachine | libs/protocol/protocol.cpp:28 | The four signature bytes on each kind of machine, and that a receiver recognises them exactly when its kind is the sender's |
| Registration.InterfaceAt | libs/protocol/protocol.h:188-196 | The k-th interface lies at offset 24k of the interface area |
| PacketMemory.Protocol.GetNextSequence | libs/protocol/protocol.h:261 | The counter goes up by one modulo 2^16, and the new value is returned |
| PacketMemory.Protocol.SetAppVersion | libs/protocol/protocol.h:268 | In network order the version is the major byte followed by the minor byte |
| PacketMemory.Protocol.PrepareHeader | libs/protocol/protocol.cpp:21-39 | Whatever the header held before, on either machine its 20 bytes are then the network-order header, and the length swaps back to the packet length |
| PacketMemory.RegistrationFields.Clear | libs/protocol/discovery.cpp:222 | Every field of the header, of the body and of the interfaces to be filled is zero afterwards, and the interface slots behind them are untouched |
| PacketMemory.RegistrationFields.ClearedBytes | libs/protocol/discovery.cpp:222 | That is, all bytes up to the packet length are zero on either kind of machine |
| PacketMemory.RegistrationFields.FillBody | libs/protocol/discovery.cpp:229-235 | Whatever order the fields are stored in memory, the 24 bytes after the header are then the network-order body |
| PacketMemory.RegistrationFields.RawPrefix | libs/protocol/protocol.h:282-287 | The bytes of a packet with n interfaces are the first 44 + 24n of the scratch pad |
| Discovery.ClassesArePrivateBlocks | libs/base/ip.h:76-85 | Classes A, B and C are exactly the private address blocks of section 3 of RFC 1918; loopback, link-local and multicast are given number ranges |
| Discovery.ChosenIff | libs/protocol/discovery.cpp:84-94 | An entry is taken if and only if it is an IPv4 address in one of the three number ranges and its flags have 0x1 (up), 0x40 (running) and 0x1000 (multicast) all set |
| Discovery.DiscoveryThread.Initialize | libs/protocol/discovery.cpp:41-123 | On every interface map the usable list holds at most one entry: the address of the first entry in map order that lies in the number ranges and has the three flag bits, with type 1 and capabilities 0x1000E; the channel uses that address and device; without such an entry, and only then, there is no channel |
| Discovery.DiscoveryThread.PrepareRegistrationPacket | libs/protocol/discovery.cpp:212-244 | A receiver of either kind reads from the buffer type 4, retry 0, version 100, packet identifier 0, the next sequence number, the node's type, identifier, version, application type, public address, features and storage, and the usable list entry by entry; the stored length swaps back to the packet's size |
| Discovery.DiscoveryThread.FillInterfaces | libs/protocol/discovery.cpp:236-243 | Every interface slot holds the list entry, with capability bits swapped and reserved bytes still zero |
| Discovery.DiscoveryThread.SendHeartbeatToMcGroup | libs/protocol/discovery.cpp:249-260 | With a usable interface exactly one packet is sent, cut at its own length, from which a receiver of either kind reads the same; without one nothing changes |
| Discovery.DiscoveryThread.SendHeartbeatToRemoteOffice | libs/protocol/discovery.cpp:265-274 | With a usable interface the buffer then holds the wire form of the current data under the next sequence number; without one no number is drawn |
| Discovery.DiscoveryThread.ProcessTenSecondTick | libs/protocol/discovery.cpp:193-198 | Exactly one heartbeat is sent when there is a usable interface, none otherwise |
| Discovery.DiscoveryThread.ProcessOneMinuteTick | libs/protocol/discovery.cpp:203-209 | The public address found is kept, and a number drawn for the remote office when there is a usable interface |
| Discovery.DiscoveryThread.ProcessSecondTick | libs/protocol/discovery.cpp:183-209 | How a tick moves the counter, the sequence, the public address and the log of sends; a heartbeat goes out before the minute's address lookup |
| Discovery.DiscoveryThread.RunTicks | libs/protocol/discovery.cpp:148-157 | The bytes sent in n <= 2^32 ticks of a fresh node are exactly the wire forms of the scheduled heartbeats; without a usable interface nothing is sent and no number drawn; the public address is the last one looked up |
| Discovery.HeartbeatAt | libs/protocol/discovery.cpp:183-260 | The k-th heartbeat of a run carries sequence (k + ceil(k/6) + 1) mod 2^16 and the public address last looked up before tick 10k |
| Discovery.CurrentIpIs | libs/protocol/discovery.cpp:183-209 | The public address in force in a tick is the one looked up in the last minute tick before it, the given one before the first |
| Discovery.SequencesAgree | libs/protocol/discovery.cpp:183-218 | The sequence numbers of a run's packets are those in the interleaved worker's log of sends |
| Discovery.HeartbeatReadable | libs/protocol/discovery.cpp:212-260 | Each heartbeat of a run, read on a machine of either kind, is the node's data with that sequence and that address, and fits the buffer |
| Trim.TrimInPlace | libs/utility/stringutility.cpp:25-63 | The in-place loop leaves the trimmed string in the buffer and touches nothing behind the old string |
| Trim.TrimmedShape | libs/utility/stringutility.cpp:25-63 | The result is a contiguous piece of the input, empty or starting with a non-space, without ';' and "//"; trimming again changes nothing |
| Trim.TrailingCommentVanishes | libs/utility/stringutility.cpp:43-54 | A blank, a ';' or "//", and any text after any line leave its trimmed form unchanged |
| Trim.CommentVanishes | libs/utility/stringutility.cpp:42-53 | For every line l, c a blank or a tab, and every text x, l + c + ";" + x and l + c + "//" + x are trimmed as l is |
| Trim.CutFalls | libs/utility/stringutility.cpp:42-53 | What is kept of a line with a comment ends before the last blank or tab in front of the comment, and is empty without one |
| Trim.TrailingSpaceIff | libs/utility/stringutility.cpp:23-63 | Exactly which trimmed strings still end in space |
| Trim.TrailingSpaceStays | libs/utility/stringutility.cpp:23-63 | Space after a text without comment is never removed, with "a " as an instance |
| Trim.SkippedIff | libs/utility/stringutility.cpp:66-78 | Exactly which lines the reader skips, among them those whose comment has no blank before it |
| Trim.CommentCharacters | libs/utility/stringutility.cpp:66-78 | The texts IsComment holds of: empty, or starting with ';', '/', CR or LF |
| Ini.GetLine | libs/utility/stringutility.cpp:105-111 | The line buffer receives the next line, cut at 126 characters, and the flag says whether the stream is still good |
| Ini.InterpretIniFile | libs/utility/stringutility.cpp:99-162 | The loop over the file makes exactly the calls of the line-by-line reader; a file that cannot be opened makes none |
| IniTheorems.LinesOfFileIff | libs/utility/stringutility.cpp:105-111 | A list of lines is delivered as it was written exactly when each has at most 126 characters and no newline |
| IniTheorems.LongLineEndsFile | libs/utility/stringutility.cpp:109-111 | A line of more than 126 characters is cut there, and nothing behind it is read |
| IniTheorems.NoiseInvariant | libs/utility/stringutility.cpp:109-159 | From any state of the reader, inside a multiline value or not, blank and comment lines put in anywhere and comments put after any line change nothing |
| IniTheorems.FileNoiseInvariant | libs/utility/stringutility.cpp:99-162 | Such a noisy copy of a file makes the same sequence of calls |
| IniTheorems.RoundTrip | libs/utility/stringutility.cpp:99-200 | Reading the printed text of any well-formed configuration makes exactly its (section, key, value) calls, a multiline value being the concatenation of its lines |
| IniTheorems.SettingReadBackIff | libs/utility/stringutility.cpp:138-154 | A printed setting makes its own call if and only if SettingOk holds for it |
| IniTheorems.PlainLineIff | libs/utility/stringutility.cpp:112-114 | A line reaches the interpreter unchanged exactly when it starts with neither space nor '/', has no comment and is not empty |
| IniTheorems.HeadingWithTail | libs/utility/stringutility.cpp:138-178 | A line that opens with a bracket sets the section to what stands before the first closing one, whatever follows, and nothing else |
| IniTheorems.SectionOf | libs/utility/stringutility.cpp:165-178 | With text before the brackets the section is as many characters longer, out of what follows the opening bracket |
| IniTheorems.ValueWithSemicolon | libs/utility/stringutility.cpp:182-200 | With a ';' in the text the value has as many characters as stand before the ';', out of what follows the '=' |
| IniTheorems.OtherLineIgnored | libs/utility/stringutility.cpp:135-154 | A line that is neither a heading nor a setting with a key of two characters changes nothing |
| IniTheorems.ListCloses | libs/utility/stringutility.cpp:117-127 | Any line with a closing bracket ends a multiline value with its call, and is itself dropped |
| IniTheorems.UnclosedListCallsNothing | libs/utility/stringutility.cpp:117-151 | A multiline value that is never closed makes no call |
| IniTheorems.HeadingReadBack | libs/utility/stringutility.cpp:138-158 | A printed heading sets the section and nothing else |
| IniTheorems.ListReadBack | libs/utility/stringutility.cpp:117-151 | A printed multiline setting makes one call with the concatenated lines and leaves the reader outside a multiline value |
| AddressText.StrToIpt | libs/base/ip.h:88-112 | The nested loops fill the four bytes with the numbers of the text, a numeral being cut after eight digits |
| AddressText.StrToMac | libs/base/mac.h:69-94 | The constructor's loops fill the six bytes with the hexadecimal numbers of the text; its scratch buffer has room for seven digits at a time |
| AddressText.StrtoulOfNumeral | libs/base/ip.h:106 | strtoul, with its spaces, signs, prefix and saturation, gives a numeral of at most eight digits its value |
| AddressText.StrtoulOfText | libs/utility/stringutility.cpp:294 | On any text strtoul gives the number behind leading space and a sign, whatever follows it, saturated, and modulo 2^64 behind a minus sign |
| AddressText.Numerals | libs/base/mac.h:81-87 | Which characters are digits in base 10 and 16, and for how much each counts, in both cases |
| AddressText.NumbersRecovered | libs/base/ip.h:88-112 | From any numerals no longer than the limit, kept apart by other characters or as long as the limit, each number comes back modulo 256, and bytes without a numeral are zero |
| AddressText.Decimal | libs/base/ip.h:115-120 | A printed number consists of digits, has that number as its value and no leading zero |
| AddressText.IpRoundTrip | libs/base/ip.h:88-120 | Every IPv4 address is read back from its text, which the 20-byte buffer never cuts |
| AddressText.IpTextForm | libs/base/ip.h:115-120 | The text of an address is its four decimal numbers with dots between them |
| AddressText.MacRoundTrip | libs/base/mac.h:69-145 | Every MAC address is read back from its text, which the 18-byte buffer never cuts and the scratch buffer can take |
| AddressText.MacTextForm | libs/base/mac.h:135-145 | The text of an address is its six pairs of small hexadecimal digits with colons between them |
| AddressText.CapitalMacReadBack | libs/base/mac.h:69-94 | Every MAC address is read back from capital digits too, with any separator |
| Split.Split | libs/utility/stringutility.cpp:250-265 | The loop appends all the tokens to the output and counts them |
| Split.TokensOfJoined | libs/utility/stringutility.cpp:250-265 | Splitting undoes joining if and only if no text is empty or holds the delimiter |
| Split.TokensAppend | libs/utility/stringutility.cpp:250-265 | A delimiter anywhere cuts a text into two whose tokens follow each other |
| Split.TokensOfWord | libs/utility/stringutility.cpp:250-265 | A text without a delimiter is one token, and none if it is empty |
| Split.SplitIpv4 | libs/utility/stringutility.cpp:273-308 | The output is the range the text stands for, or its comma-separated texts |
| Split.RangeReadsBack | libs/utility/stringutility.cpp:293-300 | A range from a.b.c.d to e has e - d + 1 texts, none if e < d, and the i-th reads back as a.b.c.(d + i) |
| Split.PrintedRange | libs/utility/stringutility.cpp:283-301 | "a.b.c.d-e" is exactly that range, for every address and every e, with any space before e and any text without a '-' behind it |
| Split.PrintedList | libs/utility/stringutility.cpp:302-304 | A comma list without dashes is undone if and only if no text is empty or holds a comma |
| Split.LoopEndsIff | libs/utility/stringutility.cpp:296 | The loop with its 8-bit counter ends if and only if the last number is below 255 |
| Hosts.UsesLine | libs/utility/osinterface.cpp:424-449 | A line survives exactly when it is not of the form a + t + b for any listed address or host t |
| Hosts.HostsFile.UpdateEtcHosts | libs/utility/osinterface.cpp:412-485 | Of the new file's lines those before the mappings are exactly the old lines that are of the form a + t + b for no listed address or host t; if the file cannot be read or written it is unchanged and the answer is false |
| CText.ContainsIff | libs/utility/osinterface.cpp:429 | A text is found in a line exactly when the line is of the form a + t + b |
| Hosts.UpdatedLines | libs/utility/osinterface.cpp:422-477 | The new file's lines are the surviving lines in their order and then those of the mappings |
| Hosts.UpdateTwice | libs/utility/osinterface.cpp:412-485 | Updating twice is updating once, even when mappings are cut by the formatting buffer and run together |
| Hosts.UpdateIsAuthoritative | libs/utility/osinterface.cpp:412-485 | Lines that mention a listed address or host are the freshly written mapping lines, one for each address in order; every line that mentions none is still there |
| Hosts.KeptFacts | libs/utility/osinterface.cpp:422-450 | The surviving lines are exactly the unmentioning ones, and filtering them again removes nothing |
| Hosts.KeptAppend | libs/utility/osinterface.cpp:422-450 | The filter works on each part of a file alone, so the order of the lines stays |
| Hosts.MappingLines | libs/utility/osinterface.cpp:470-477 | Mappings under 4096 characters are written as one line each |
| Paths.StripFilenameFromPath | libs/utility/fileutility.cpp:77-103 | In the buffer the path is cut at its last separator, the root keeping its own; paths under two characters or without separator stay |
| Paths.StrippedForm | libs/utility/fileutility.cpp:83-101 | The last name goes together with its '/' or backslash; when nothing stands before that, it stays |
| Paths.NothingToStrip | libs/utility/fileutility.cpp:81-101 | Paths without separator, or with fewer than two characters, stay |
| Paths.IsFolderInFileList | libs/utility/fileutility.cpp:48-75 | True if and only if the folder has more than one character and is an entry, or a prefix of one followed by a separator; null pointers find nothing |
| Paths.IsAboveIff | libs/utility/fileutility.cpp:60-68 | The folder found is the entry, or the entry goes on behind it with a '/' or backslash |
| Paths.EntriesOfListed | libs/utility/fileutility.cpp:52-70 | The list of entries each ended by a NUL, with one more at the end, holds exactly those entries |
| Paths.IsAboveEntry | libs/utility/fileutility.cpp:60-68 | The inner loop finds the folder exactly among the entry and the folders above it |
| Paths.ClimbEndsIff | libs/utility/fileutility.cpp:60-68 | Stripping a path over and over gets below two characters if and only if its first name has at most one |
| Paths.StripSkipsNothing | libs/utility/fileutility.cpp:77-103 | A strip makes the path shorter and passes over no folder above the entry |
| CreatePath.FileSystem.CreatePath | libs/utility/fileutility.cpp:146-185 | The answer and the directories afterwards are exactly Creation; a failure is always a refusal by the system, never a missing parent or a directory that is there |
| CreatePath.CreatableIff | libs/utility/fileutility.cpp:150-153 | Null, empty and relative paths are turned down and change nothing |
| CreatePath.CreatesExactly | libs/utility/fileutility.cpp:163-181 | After a success, unless a backslash cuts a name, the directories are the old ones and exactly those on the way to the path |
| CreatePath.ResolveNames | libs/utility/fileutility.cpp:163-181 | A path of names joined by '/' leads to those names, from the root or from the working directory |
| CreatePath.CreationSucceedsIff | libs/utility/fileutility.cpp:163-181 | The answer is true if and only if no directory on the path is both missing and denied |
| CreatePath.CreationTwice | libs/utility/fileutility.cpp:146-185 | Creating again gives the same answer and changes nothing |
| CreatePath.AncestorsPresent | libs/utility/fileutility.cpp:163-181 | After a success every directory on the way to the path exists |
| CreatePath.AncestorIff | libs/utility/fileutility.cpp:165-175 | A prefix looked at names a directory on the way to the path if and only if it does not end at a backslash inside a name |
| CreatePath.OnlyAncestorsIff | libs/utility/fileutility.cpp:163-181 | Only directories on the way to the path are created if and only if every prefix that ends at a backslash inside a name, before the first refusal, names a directory already there |
| CreatePath.StrayDirectory | libs/utility/fileutility.cpp:163-181 | With only the root there, creating "/a\b" succeeds and leaves a directory "a" that is not on the way |
| CreatePath.ParentMade | libs/utility/fileutility.cpp:165-179 | When a prefix is looked at, the directory it is to be created in exists |
| MemAlign.AndMask | libs/utility/memoryutility.h:42-55 | Masking with the bits k to m - 1 keeps the remainder modulo 2^m less the remainder modulo 2^k |
| MemAlign.AlignedIff | libs/utility/memoryutility.h:52-55 | The pointer is a multiple of 64 in [p + 64, p + 127] if and only if p + 127 < 2^32 |
| MemAlign.AllocatedIff | libs/utility/memoryutility.h:42-66 | The allocation is larger than the length if and only if length + 128 < 2^32, and then it is 64 (length / 64) + 128 |
| MemAlign.FitsIff | libs/utility/memoryutility.h:52-66 | The aligned block lies inside the allocation if and only if p mod 64 = 0 or p mod 64 >= length mod 64 |
| MemAlign.OneMoreBlockFits | libs/utility/memoryutility.h:57-66 | What the allocation can fall short by is always less than one 64-byte block more |
| TrackedMemory.Memory.constructor | libs/base/memory.cpp:36-49 | The object gets the next index, is in the map under it, and records the requested and the adjusted length; all other objects stay under their own index |
| TrackedMemory.Memory.Delete | libs/base/memory.cpp:54-60 | The index leaves the map; all other objects stay under their own index |
| TrackedMemory.BlockInAllocation | libs/base/memory.h:82 | FitsIff for the block an aligned object hands out |
| Registry.CounterIsBirths | libs/base/memory.cpp:41 | Over any history of births and deaths the counter is the number of births modulo its width |
| Registry.TableHoldsLive | libs/base/memory.cpp:36-60 | Until the counter wraps the map holds exactly the live objects, each under the ordinal of its birth, so that numbers increase and are never used again |
| Registry.BirthKeepsIff | libs/base/memory.cpp:41-48 | A birth keeps every entry of the map if and only if the next number is free, or leads to the very same object |
| Registry.AgreesThroughoutIff | libs/base/memory.cpp:36-60 | Over any history, past any number of wraps, the map held exactly the live objects, each under its own number, throughout if and only if no birth met a taken number |
| Registry.IterationIsCreationOrder | libs/base/memory.cpp:75-86 | Ascending iteration over the map meets the live objects in the order of their creation |
| Registry.WrapLosesObject | libs/base/memory.cpp:41-48 | The birth after a full round of the counter takes the place of the first object if that is still alive, and the map no longer agrees with the live objects |
| Registry.LiveTable.Register | libs/service/threadmonitor.cpp:50-59 | The handle is the wrapped number of births and leads to the object |
| Registry.LiveTable.Unregister | libs/service/threadmonitor.cpp:65-71 | The history grows by that death, and the handle leads nowhere |
| Registry.LiveTable.Visit | libs/service/threadmonitor.cpp:85-132 | As long as the counter has not wrapped, the loop over the map visits exactly the live objects in the order of their creation |

## Left out

- The C++ memory model: every read and write of the shared fields is one atomic step, and the steps of all threads form one sequence.
- A second Start or Initialize, and the deletion of the addresses in the interface map, which a second Stop would repeat.
- The destructor of Thread, and ConfigurationThread, whose operations do nothing; the monitor's loops are modelled for the discovery thread alone.
- Sockets, multicast joins, the search for interfaces, drives and the public address, clocks, sleeping and logging: their results are parameters, the send is a log.
- The twelve address bytes of a usable interface that the source never assigns: a parameter of Initialize. The scratch pad's last twelve bytes, which no packet reaches.
- More than 56 usable interfaces: PrepareRegistrationPacket would write past its buffer.
- Register: does not stop at the largest int as a thread handle would; the theorems about handles hold for as many values as the counter has.
- RunTicks: more than 2^32 ticks, where the second counter wraps, and a worker that does not start from zero counters.
- StrToMac: runs of eight or more hexadecimal digits, which overflow the source's scratch buffer.
- SplitIpv4: texts of 1024 characters and more, ranges with fewer than two '-' tokens, and ranges ending in 255, from which the source does not come back.
- UpdateTwice: addresses of 4096 characters and more, which the formatting buffer cuts, and texts with a newline or, in addresses, a NUL.
- UpdateEtcHosts: host or name lists shorter than the address list, past whose end the source would read; changes to the file by others in between.
- IsFolderInFileList: entries of 256 characters and more before the first match, and entries it would climb for ever.
- CreatePath: paths of 256 characters and more; '.', '..' and symbolic links, which Resolve takes for ordinary names.
- The name of a memory object, whose terminating NUL the source does not write for names of 15 characters and more.
- The state machine template, IPv6 addresses, GIDs, GUIDs and node identifiers, MakePath, the file-list search, enumerations and text formatting other than what the theorems need.
