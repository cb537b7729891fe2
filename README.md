# Verified model of the open-simh tail queues, counters and OpenVPN TAP back end

This project models the sequential core of several C components of open-simh and proves
properties about them.

- **Ring-buffer tail queue** (`sim_tailq.c`, `sim_tailq.h`). The queue is a circular ring of
  nodes, 17 of them to start with. `head` is the oldest item and `tail` is the node the next
  enqueue fills. Enqueue splices in a fresh node when the ring is full, so the ring grows and
  never overflows. Dequeue leaves the item pointer in its node, and destroy with `free_elems`
  frees the item of every node, so an item that was dequeued and already freed by its
  consumer is freed a second time. Module `SimTailq`, class `Tailq`.
- **Linked-list tail queue** (`sim_atomic.c`). This is the older design: a chain from `head`
  and a `tail` that addresses the next link to write. It supports insert at head, append,
  take, splice, dequeue at head and destroy. Module `AtomicTailq`, class `TailqList`.
- **Atomic counter** `sim_atomic_value_t` (`sim_atomic.h`). It supports init, paired init,
  destroy, get, put, add, sub, inc and dec. Module `SimAtomic`, class `AtomicValue`.
- **Unit-test helpers** (`unittests/test_atomic.c`). These are the xoshiro128** 1.1 generator
  over `bv32`, plus the timespec arithmetic of the Windows `nanosleep`, `clock_gettime` and
  `clock_getres` replacements. Module `TestAtomic`.
- **OpenVPN argument vector** (`argv.c`). It covers word separation of a format, the growable
  argument array, and the in-place split of the formatted text at GS separators. The pure
  text functions are in module `ArgvText`; the container class `VpnArgs` is in module
  `VpnArgv`.
- **Adapter lookups** (`win32_utilities.c`). These are the brace-enclosed GUID comparison,
  the MAC lookup by GUID and the lookup by interface index. Module `Win32Utilities`.
- **TAP device discovery** (`vpnintfs.c`). It recognises OpenVPN hardware IDs, chooses an ID
  from a REG_SZ or REG_MULTI_SZ value, and fills the ETH_LIST array. Module `VpnIntfs`.
- **Opening a TAP device** (`opentap.c`). It parses the device name, searches the device
  list, opens the device and makes it ready. Module `OpenTap`.
- **Packet functions** (`apifuncs.c`). These are the reader and the writer over the
  overlapped-I/O state, and the rewriting of Ethernet address fields between the simulator's
  MAC address and the TAP adapter's. Module `TapApi`, class `EthDev`.

Conventions used throughout:

- Pointers that may be NULL are `Option` values.
- C strings are `seq<char>` without their terminator. Reading at or past the end gives NUL.
- Operating-system calls become parameters: their outcomes, or oracle functions such as
  `openFromGuid`.
- The concurrent variants (compare-and-swap loops, interlocked intrinsics, memory orders) are
  modelled by their single-threaded meaning, the mutex branch, with each update as a single
  assignment.

## Model

| member | source | states |
|---|---|---|
| SimAtomic.AtomicValue.Init | sim_atomic.h:131-140 | the value is 0 and the wrapper owns a fresh mutex of its own |
| SimAtomic.AtomicValue.PairedInit | sim_atomic.h:142-152 | the value is 0; the mutex is the caller's and is marked as not owned |
| SimAtomic.AtomicValue.Destroy | sim_atomic.h:154-167 | the value becomes -1; the mutex is released only when the wrapper owned it, i.e. was not paired |
| SimAtomic.AtomicValue.Get | sim_atomic.h:173-200 | returns the stored value, the one the last put, add or sub left; Put's contract and CounterLaws state get after each of those |
| SimAtomic.AtomicValue.Put | sim_atomic.h:202-224 | after a put of v, get returns v; the lock pairing is unchanged |
| SimAtomic.AtomicValue.Add | sim_atomic.h:226-258 | stores old + x and returns the new value |
| SimAtomic.AtomicValue.Sub | sim_atomic.h:260-293 | stores old - x and returns the new value |
| SimAtomic.AtomicValue.Inc | sim_atomic.h:295-316 | the value goes up by one and the incremented value is returned |
| SimAtomic.AtomicValue.Dec | sim_atomic.h:318-339 | the value goes down by one and the decremented value is returned |
| SimAtomic.CounterLaws | sim_atomic.h:46-59 | the documented laws on a fresh counter: get after put returns v; add then sub of x restores it; inc and dec move it by one |
| SimTailq.Tailq.TailqAlloc | sim_tailq.c:122-147 | gives a ring of exactly INITIAL_TAILQ_NODES (17) empty item slots, or NULL exactly when allocation fails |
| SimTailq.Tailq.Init | sim_tailq.c:36-51 | returns 1 and an empty, valid queue (head == tail, count 0, 17 empty nodes, own mutex), or 0 with NULL head and tail when the ring cannot be allocated |
| SimTailq.Tailq.PairedInit | sim_tailq.c:53-66 | as Init, but the counter and the queue share the caller's mutex and are marked paired |
| SimTailq.Tailq.Enqueue | sim_tailq.c:102-110 | keeps the invariant count == distance(head, tail) < ring size; the items become old items + [elem]; the ring grows by one node exactly when tail->next == head |
| SimTailq.Tailq.MakeRoom | sim_tailq.c:104-106 | after the growth check, the node after tail is not head, the items are unchanged, and one node was added only when the ring was full |
| SimTailq.Tailq.Dequeue | sim_tailq.c:112-115 | on an empty queue returns NULL and changes nothing; otherwise returns the oldest item and drops it from the items; the ring and tail are untouched |
| SimTailq.Tailq.AdvanceHead | sim_tailq.c:149-179 | returns the old head, moves head one node on along `next`, and lowers the count by one |
| SimTailq.Tailq.AdvanceTail | sim_tailq.c:181-211 | returns the old tail, moves tail one node on along `next`, and raises the count by one |
| SimTailq.Tailq.TailqAddNode | sim_tailq.c:213-250 | splices an empty node in directly after tail; head shifts with the nodes after the splice point, and the items are unchanged |
| SimTailq.Tailq.EnqueueStep | sim_tailq.c:213-250 | after a splice into a full ring, the distance from head to tail is unchanged, the same items sit between them, and the node after tail is no longer head |
| SimTailq.Tailq.EnqueueFill | sim_tailq.c:108 | with room in the ring, filling the tail node and advancing tail appends the item and raises the distance by one |
| SimTailq.Tailq.Destroy | sim_tailq.c:68-96 | visits every ring node once; frees items only when free_elems is set, starting with the queue's items in order; leaves head and tail NULL and the counter at -1; releases the mutex unless paired |
| SimTailq.Tailq.Next | sim_tailq.h:215-218 | the successor of a node is a node of the ring |
| SimTailq.Tailq.Empty | sim_tailq.h:248-251 | true exactly when the queue holds no items, i.e. head and tail are the same node |
| SimTailq.Tailq.Count | sim_tailq.h:232-235 | the stored count equals the number of items |
| SimTailq.Tailq.AtTail | sim_tailq.h:226-229 | true exactly when the node is the one at the item count's distance from head, i.e. the current tail |
| SimTailq.Tailq.Item | sim_tailq.h:146-149 | the item of the head node of a non-empty queue is its oldest item |
| SimTailq.DequeuedItemFreedAgain | sim_tailq.c:68-115 | an item enqueued and then dequeued is still among the items a destroy with free_elems frees |
| SimTailq.FifoOrder | sim_tailq.c:102-115 | enqueuing xs on an empty queue and dequeuing as many gives back xs in order; the queue ends empty and the ring has grown to at least \|xs\| + 1 nodes |
| AtomicTailq.TailqList.Contents | sim_atomic.c:126-184 | the item list has one entry per chain node |
| AtomicTailq.TailqList.Init | sim_atomic.c:30-55 | an empty queue whose tail addresses its own head, with count 0 and a mutex of its own |
| AtomicTailq.TailqList.PairedInit | sim_atomic.c:57-73 | as Init, sharing the caller's mutex |
| AtomicTailq.TailqList.InsertHead | sim_atomic.c:126-156 | prepends the item and counts it; the first node of an empty queue becomes the tail; an allocation failure changes nothing |
| AtomicTailq.TailqList.Append | sim_atomic.c:158-184 | appends the item after the existing ones, counts it, and moves tail to the new node's link |
| AtomicTailq.TailqList.Take | sim_atomic.c:186-219 | an empty source leaves both queues as they were; otherwise dst gets the source's items and count, and the source is empty with count 0 and tail at its own head; returns dst |
| AtomicTailq.TailqList.Splice | sim_atomic.c:221-264 | an empty `from` is a no-op; otherwise onto becomes onto ++ from, takes from's tail, the counts add up, and from is emptied with tail at its own head; returns onto |
| AtomicTailq.TailqList.DequeueHead | sim_atomic.c:266-296 | NULL on an empty queue; otherwise returns and removes the first item and counts down; removing the last item points tail back at head |
| AtomicTailq.TailqList.Count | sim_tailq.h:232-235 | the counter equals the number of items in the chain |
| AtomicTailq.TailqList.Destroy | sim_atomic.c:75-114 | frees every node, and the items in order only when free_elems is set; leaves an empty chain, a NULL tail and the counter at -1; releases the mutex unless paired |
| AtomicTailq.HeadInsertAll | unittests/test_atomic.c:152-153 | head inserts of xs, last item first, put xs in order before the existing items |
| AtomicTailq.AppendAll | unittests/test_atomic.c:163-164 | appends of xs in order add them after the existing items |
| AtomicTailq.HeadThenTail | unittests/test_atomic.c:144-175 | head inserts of a give a with count \|a\|; appends of b then give a ++ b |
| AtomicTailq.TailThenHead | unittests/test_atomic.c:177-202 | appends of a then head inserts of b give b ++ a |
| AtomicTailq.TakeScenario | unittests/test_atomic.c:204-225 | take returns l2, which then holds a with count \|a\|; l is empty with count 0 and tail at its own head |
| AtomicTailq.TakeSpliceScenario | unittests/test_atomic.c:204-256 | splice returns l, which holds b ++ a; l2 is emptied; later appends of c land after the spliced items, giving b ++ a ++ c |
| TestAtomic.Rotl | unittests/test_atomic.c:579-582 | at the distances 7 and 11 that rand_next passes, the two shifts give x rotated left by that many bits |
| TestAtomic.RotlIsRotation | unittests/test_atomic.c:579-582 | the two-shift rand_rotl is a 32-bit left rotation at every distance from 1 to 31 |
| TestAtomic.ZeroStateIsFixed | unittests/test_atomic.c:584-600 | the all-zero state steps to itself and outputs 0, which is why the seed must not be all zero |
| TestAtomic.RandNext | unittests/test_atomic.c:584-600 | returns rotl(s[1]*5, 7)*9 mod 2^32 of the state on entry; the four words become the xor/shift/rotate update of that state |
| TestAtomic.IntRange | unittests/test_atomic.c:643-646 | the result is a uint32; for 0 <= begin < end it lies in [begin, end) and is begin plus the output modulo end - begin |
| TestAtomic.RandIntRange | unittests/test_atomic.c:643-646 | one generator step, reduced as IntRange; for 0 <= begin < end the value is in [begin, end) |
| TestAtomic.Normalise | unittests/test_atomic.c:536-537 | C's truncating / and % keep the total nanoseconds; the nanoseconds end within (-10^9, 10^9) with their sign kept; an already normal timespec is unchanged |
| TestAtomic.TimerDelay | unittests/test_atomic.c:540 | the due time is -(total ns) / 100, truncated toward zero; for a non-negative time it is the whole 100 ns units of the time, negated |
| TestAtomic.Nanosleep | unittests/test_atomic.c:528-547 | 0 exactly when the timer was created and the timed wait succeeded, else -1 |
| TestAtomic.ClockGettime | unittests/test_atomic.c:550-564 | succeeds exactly when both the counter and the frequency queries succeed |
| TestAtomic.ClockGettimeSplit | unittests/test_atomic.c:560-561 | for count >= 0 and freq > 0: tv_sec = count / freq, 0 <= tv_nsec < 10^9, and together they are count * 10^9 / freq nanoseconds |
| TestAtomic.ClockGetres | unittests/test_atomic.c:567-576 | succeeds exactly when the frequency query does; tv_sec = 0 and tv_nsec is the tick length 10^9 / freq rounded down |
| Wrappers.CDivMod | unittests/test_atomic.c:536-537 | C's truncating quotient and remainder satisfy (a / b) * b + a % b == a, with the remainder's sign following a |
| ArgvText.Words | sim_networks/openvpn/argv.c:43-58 | a text ending in a non-space has at least one word |
| ArgvText.WordsShape | sim_networks/openvpn/argv.c:43-58 | every word is non-empty and holds no space |
| ArgvText.JoinWordsStep | sim_networks/openvpn/argv.c:43-58 | one more character of the format: a space adds nothing; a word start adds a separator (unless first) and the character; a word continuation adds the character |
| ArgvText.JoinEmpty | sim_networks/openvpn/argv.c:43-58 | a join of non-empty words is empty exactly when there are no words |
| ArgvText.SeparateStep | sim_networks/openvpn/argv.c:43-58 | one character of the separating loop: a space keeps the words; a non-space either extends the last word or starts one, preceded by the separator unless nothing has been written |
| ArgvText.Split | sim_networks/openvpn/argv.c:109-119 | a text always splits into at least one piece |
| ArgvText.SplitJoin | sim_networks/openvpn/argv.c:109-119 | splitting the separated words at the separator gives back the words, when there is at least one and none holds the separator |
| ArgvText.SplitLoopStep | sim_networks/openvpn/argv.c:111-116 | one round of the split loop clears the separator it found and finishes the piece before it |
| ArgvText.SplitLoopEnd | sim_networks/openvpn/argv.c:119 | with no separator left, the buffer has every separator cleared and the remaining text is the last piece |
| VpnArgv.VpnArgs.Init | sim_networks/openvpn/argv.c:12-19 | capacity 16, argc 0, an empty argument array and no argument string |
| VpnArgv.VpnArgs.Free | sim_networks/openvpn/argv.c:21-29 | capacity and argc 0, both buffers NULL |
| VpnArgv.VpnArgs.Extend | sim_networks/openvpn/argv.c:63-78 | stores the argument at index argc and counts it; a full array first grows by 8 slots; returns 1 |
| VpnArgv.VpnArgs.VsnPrintf | sim_networks/openvpn/argv.c:80-129 | returns 1 exactly when the text was formatted and the piece count matches the format's word count; then the pieces and a NULL are appended and argc is words + 1; otherwise the container is freed and 0 returned |
| VpnArgv.VpnArgs.SplitInto | sim_networks/openvpn/argv.c:109-119 | stores a pointer to every piece between separators in order, and leaves the buffer with every separator overwritten by NUL |
| VpnArgv.VpnArgs.StorePiece | sim_networks/openvpn/argv.c:111-116 | overwrites the found separator with NUL and stores the piece ending there |
| VpnArgv.VpnArgs.StoreLast | sim_networks/openvpn/argv.c:119 | stores the piece after the last separator, which completes the split |
| VpnArgv.SeparateFmt | sim_networks/openvpn/argv.c:31-61 | the output is the format's words joined by the separator, with no leading or trailing separator; n_seps is the word count; the output is no longer than the input |
| VpnArgv.ArgvFromFormat | sim_networks/openvpn/argv.c:80-129 | with formatting that changes nothing, a fresh container holds one argument per word and a NULL, and succeeds exactly when the format has a word |
| Win32Utilities.AfterBrace | sim_networks/win32_utilities.c:252-263 | there is no text after a brace exactly when the name has no '{'; otherwise it is a proper suffix of the name |
| Win32Utilities.Guid | sim_networks/win32_utilities.c:266-271 | the GUID text is everything before the first '}', and is None exactly when there is no '}' |
| Win32Utilities.GuidAtStop | sim_networks/win32_utilities.c:266-271 | where the comparison loop stops with equal prefixes, both sides are at '}' exactly when the two GUIDs are equal and closed |
| Win32Utilities.GuidDiffers | sim_networks/win32_utilities.c:266-269 | at a first difference, the two GUIDs cannot be equal and closed |
| Win32Utilities.CompareGuid | sim_networks/win32_utilities.c:247-272 | -1 when the first name has no '{'; 1 when the second has none; *ic - *pc at the first difference; 0 exactly when both GUIDs are closed by '}' at the same offset with equal text, so an unclosed GUID never matches, even itself |
| Win32Utilities.GuidIgnoresPrefix | sim_networks/win32_utilities.c:251-263 | text before the first '{' of a name plays no part in its GUID |
| Win32Utilities.PcapMacIfWin32 | sim_networks/win32_utilities.c:335-357 | the search stops at the first GUID match; it copies the 6 address bytes and returns 0 only when that adapter's address length is 6; otherwise -1 with the output unchanged |
| Win32Utilities.CopyAddress | sim_networks/win32_utilities.c:346 | the output holds the first 6 address bytes |
| Win32Utilities.AdapterByIndex | sim_networks/win32_utilities.c:136-147 | the first adapter whose IfIndex equals the argument, or NULL when none does |
| VpnIntfs.IsOpenvpnHwid | sim_networks/openvpn/vpnintfs.c:38-48 | true exactly when the ID is "root\\tap0901" or "tap0901" |
| VpnIntfs.MultiSzStrings | sim_networks/openvpn/vpnintfs.c:224-227 | the list of strings is empty exactly when the first string is the empty terminator |
| VpnIntfs.FirstHwid | sim_networks/openvpn/vpnintfs.c:224-232 | the chosen ID is one of the strings and an OpenVPN ID; None exactly when no string is one |
| VpnIntfs.MultiSzFirst | sim_networks/openvpn/vpnintfs.c:224-232 | from a non-empty string, the choice is that string if it is an OpenVPN ID, otherwise the choice among the strings after it |
| VpnIntfs.ScanMultiSz | sim_networks/openvpn/vpnintfs.c:221-232 | the REG_MULTI_SZ scan chooses the first OpenVPN ID in order and rejects the device at the empty terminator |
| VpnIntfs.SelectHardwareId | sim_networks/openvpn/vpnintfs.c:213-236 | REG_SZ keeps the device exactly when its one string is an OpenVPN ID, and that string is chosen; REG_MULTI_SZ as ScanMultiSz; any other type skips the device |
| VpnIntfs.Strlcpy | sim_networks/openvpn/vpnintfs.c:271 | the copy is a prefix of the source shorter than the size: the whole source when it fits, and exactly size - 1 characters when it does not |
| VpnIntfs.Description | sim_networks/openvpn/vpnintfs.c:273-276 | a truncated description gets nothing appended; a whole one is kept whole at the start and followed by as much of " [hwid]" as fits, so the length is \|desc\| + \|hwid\| + 3 when that fits and size - 1 otherwise |
| VpnIntfs.FindAdapterNamed | sim_networks/openvpn/vpnintfs.c:258-290 | the walk finds the first adapter whose AdapterName equals the GUID text, or none |
| VpnIntfs.DeviceEntryKept | sim_networks/openvpn/vpnintfs.c:207-294 | a device gives a record exactly when its ID is an OpenVPN one, its GUID was read and an adapter carries that GUID; the record is marked TAP API with is_openvpn = 1 and carries the GUID and that adapter's two indices |
| VpnIntfs.TapEntries | sim_networks/openvpn/vpnintfs.c:189-299 | there are at most as many records as devices |
| VpnIntfs.TapEntriesPrefix | sim_networks/openvpn/vpnintfs.c:189-299 | the records of the first devices start the records of all of them |
| VpnIntfs.TapEntriesMarked | sim_networks/openvpn/vpnintfs.c:279-280 | every record is marked TAP API and OpenVPN |
| VpnIntfs.UnmatchedDeviceAddsNothing | sim_networks/openvpn/vpnintfs.c:258-294 | a device whose GUID names no adapter adds no record |
| VpnIntfs.OpenvpnTapDevices | sim_networks/openvpn/vpnintfs.c:150-305 | returns 0 on the early exits; otherwise writes the first min(maxList, kept) records in enumeration order and returns that count, which never exceeds maxList; slots past it are untouched |
| VpnIntfs.Written | sim_networks/openvpn/vpnintfs.c:189 | the count is at most the candidates and at most maxList, and is one of the two |
| VpnIntfs.TapEntriesTaken | sim_networks/openvpn/vpnintfs.c:189-299 | when the enumeration stops, the records written are the first records of all devices |
| VpnIntfs.AddDevice | sim_networks/openvpn/vpnintfs.c:207-294 | one round writes the device's record, if any, at the current slot and counts it; other slots are untouched |
| OpenTap.SkipSpaces | sim_networks/openvpn/opentap.c:78-79 | stops at the first non-space character, and everything skipped is white space |
| OpenTap.WordEnd | sim_networks/openvpn/opentap.c:92-93 | stops at the first white space or at the end, and everything passed is not white space |
| OpenTap.DevName | sim_networks/openvpn/opentap.c:71-94 | parsing fails only at an opening double quote after the spaces; a parsed name is no longer than the text after the 4-character prefix |
| OpenTap.DevNameQuoted | sim_networks/openvpn/opentap.c:82-89 | a quoted name is the text between two quotes and holds none; parsing fails exactly when no closing quote follows |
| OpenTap.DevNameWord | sim_networks/openvpn/opentap.c:90-94 | an unquoted name runs from after the white space to the next white space or the end, and holds no white space |
| OpenTap.ParseDevName | sim_networks/openvpn/opentap.c:71-94 | the scanning loops, starting 4 characters in, find DevName |
| OpenTap.ScanSpaces | sim_networks/openvpn/opentap.c:78-79 | the skipping loop stops where SkipSpaces says |
| OpenTap.ScanWord | sim_networks/openvpn/opentap.c:92-93 | the loop over an unquoted name stops where WordEnd says |
| OpenTap.ScanQuoted | sim_networks/openvpn/opentap.c:84-85 | stops at the next double quote, or at the end when there is none |
| OpenTap.StopIsFirst | sim_networks/openvpn/opentap.c:98-113 | with an empty name the search stops at the first candidate that opens; with a name, at the first candidate with exactly that name; no earlier entry qualifies, and it runs off the list only when none does |
| OpenTap.LastCandidate | sim_networks/openvpn/opentap.c:101 | the last entry before a position that is flagged OpenVPN with a non-empty GUID |
| OpenTap.OpenFailure | sim_networks/openvpn/opentap.c:179-182 | the failure message fits the 256-character error buffer |
| OpenTap.OpenFromGuid | sim_networks/openvpn/opentap.c:167-186 | the handle is the oracle's; a failure leaves the message naming the GUID in the error buffer, and a success leaves the buffer as it was |
| OpenTap.Search | sim_networks/openvpn/opentap.c:96-113 | the loop stops where StopIsFirst says, with the handle opened there; the error buffer ends as SearchMessage |
| OpenTap.SearchStep | sim_networks/openvpn/opentap.c:98-113 | one round at an entry where the search does not stop keeps the first stop ahead, and keeps track of the last failure message |
| OpenTap.Lookup | sim_networks/openvpn/opentap.c:71-122 | a found device is in the list and carries the oracle's handle for its GUID; parsing fails exactly when DevName does |
| OpenTap.InitializeOverlappedIo | sim_networks/openvpn/opentap.c:211-220 | both overlapped structures start zeroed; nothing else changes |
| OpenTap.FindTap | sim_networks/openvpn/opentap.c:71-122 | a found and opened device gives its handle, SCPE_OK and the search's message; every other outcome gives SCPE_OPENERR with the message for how it failed |
| OpenTap.Bool | sim_networks/openvpn/opentap.c:132 | a BOOL result is 0 or 1 |
| OpenTap.FailedMissesBool | sim_networks/openvpn/opentap.c:132-138 | FAILED (negative) never holds for a BOOL |
| OpenTap.OpenvpnOpenAsWritten | sim_networks/openvpn/opentap.c:68-164 | errors: unterminated name, "No such OpenVPN TAP device." or "No available OpenVPN devices.", and "Unable to open OpenVPN TAP device." for a found device that does not open, each SCPE_OPENERR with the device unchanged; once opened it always returns SCPE_OK with the handle, TAP API, openvpn_api_funcs and zeroed I/O state |
| OpenTap.OpenvpnOpen | sim_networks/openvpn/opentap.c:68-164 | as OpenvpnOpenAsWritten, except that a failed driver query returns SCPE_OPENERR with the operating system's error text and the device not made ready |
| OpenTap.OnlyAdapterFound | sim_networks/openvpn/opentap.c:98-106 | with an empty name and one candidate that opens, the search stops there with nothing in the error buffer |
| OpenTap.QueryFailureUnnoticed | sim_networks/openvpn/opentap.c:132-138 | both driver queries failing: as written the open succeeds, while the corrected open fails |
| TapApi.Rewrite | sim_networks/openvpn/apifuncs.c:51-56 | rewriting keeps the frame's length |
| TapApi.RewriteParts | sim_networks/openvpn/apifuncs.c:51-56 | each address field equal to `from` becomes `to`, any other is kept, and every byte from offset 12 on is unchanged |
| TapApi.RewriteNoMatch | sim_networks/openvpn/apifuncs.c:118-123 | a frame with neither field equal to `from` is unchanged |
| TapApi.RewriteRemoves | sim_networks/openvpn/apifuncs.c:118-123 | after rewriting, neither field holds `from` (when from != to) |
| TapApi.SendThenReceive | sim_networks/openvpn/apifuncs.c:51-56 | send rewriting followed by receive rewriting equals receive rewriting alone |
| TapApi.SendReceiveRoundTrip | sim_networks/openvpn/apifuncs.c:118-123 | a frame that carries the adapter MAC in neither address field comes back unchanged when sent and then received |
| TapApi.RewriteMacs | sim_networks/openvpn/apifuncs.c:118-123 | the two memcmp/memcpy pairs rewrite the buffer in place as Rewrite |
| TapApi.Landed | sim_networks/openvpn/apifuncs.c:72-73 | the read's bytes sit at the start of the buffer and the rest is untouched |
| TapApi.Received | sim_networks/openvpn/apifuncs.c:72-76 | the buffer keeps its size; without rewriting it starts with the read's bytes |
| TapApi.SyncFramesPlain | sim_networks/openvpn/apifuncs.c:74-76 | without rewriting, the frames handed over are exactly the reads' bytes, in order |
| TapApi.Land | sim_networks/openvpn/apifuncs.c:72-73 | fills the buffer with one read's bytes as Landed |
| TapApi.EthDev.constructor | sim_networks/openvpn/opentap.h:45-60 | a closed device with zeroed I/O status, no handle and an empty log |
| TapApi.EthDev.CompleteRead | sim_networks/openvpn/apifuncs.c:33 | the outstanding read completes: its bytes land in the buffer; the status is 0 and the byte count is their number |
| TapApi.EthDev.Deliver | sim_networks/openvpn/apifuncs.c:48-61 | the buffer's address fields are rewritten from the adapter MAC to the simulator's, and the first byte-count bytes are delivered |
| TapApi.EthDev.QueueRead | sim_networks/openvpn/apifuncs.c:63-93 | the loop delivers every read that completes at once, up to the first that does not; a pending read leaves STATUS_PENDING and returns 0; a failed read returns -1 |
| TapApi.EthDev.EndQueue | sim_networks/openvpn/apifuncs.c:78-88 | a pending read returns 0 with the status pending; a failure returns -1 |
| TapApi.EthDev.ReadAndDeliver | sim_networks/openvpn/apifuncs.c:72-76 | one read completing at once is delivered, with or without rewriting |
| TapApi.EthDev.ReaderAsWritten | sim_networks/openvpn/apifuncs.c:25-94 | a wait that times out returns 0 with nothing changed; one that fails returns -1 and leaves the failed I/O's status in Internal, so the next call also returns -1; an error status returns -1; a completed read is rewritten, delivered and returns 1, its count left in place; a read the wait completes falls through to the queueing loop; reads that complete at once are not rewritten |
| TapApi.EthDev.Reader | sim_networks/openvpn/apifuncs.c:25-94 | as ReaderAsWritten, except that a read the wait completes is delivered, a delivered read is consumed, and reads that complete at once are rewritten |
| TapApi.EthDev.Writer | sim_networks/openvpn/apifuncs.c:96-137 | an outstanding write whose wait fails returns -1, sends nothing and leaves the failed write's status in Internal; an earlier error returns -1 and sends nothing; otherwise the simulator MAC is rewritten to the adapter's, the packet is written, and the result is -1 only if WriteFile fails outright |
| TapApi.FailedWaitReported | sim_networks/openvpn/apifuncs.c:31-47 | after a wait that fails with an I/O error, that call and the next one both return -1 and nothing is delivered |
| TapApi.FirstBlocking | sim_networks/openvpn/apifuncs.c:65-90 | the loop leaves at the first read that did not complete at once, and every read before it did |
| TapApi.CompletedWaitDropsFrame | sim_networks/openvpn/apifuncs.c:31-42 | a pending read completed by the wait: as written nothing is delivered; corrected, the frame is delivered |
| TapApi.RedeliveredAsWritten | sim_networks/openvpn/apifuncs.c:48-61 | two reader calls after one completed read deliver the frame twice |
| TapApi.DeliveredOnce | sim_networks/openvpn/apifuncs.c:48-61 | the corrected reader delivers the same frame once |
| TapApi.ImmediateAsWritten | sim_networks/openvpn/apifuncs.c:72-76 | a frame to the adapter MAC that is read at once is delivered with the adapter MAC still in it |
| TapApi.ImmediateRewritten | sim_networks/openvpn/apifuncs.c:72-76 | the corrected reader delivers that frame with the simulator's MAC as its destination |

## Left out

- Concurrency: the compare-and-swap retry loops, the interlocked and atomic intrinsics, memory orders and mutex locking are modelled by the single-threaded mutex branches. The threaded reader/writer test (unittests/test_atomic.c:304-510) is not modelled.
- sim_threads.h is not part of this model: a mutex is known only by its identity.
- SimAtomic.AtomicValue.Add: the counter is an unbounded integer. It does not model the overflow of `long`/`LONG`, which the queues cannot reach.
- Allocation failure is a flag for `tailq_alloc` and for the node allocation in insert_head and append. In argv.c, vpnintfs.c and the temporary buffers it is left out: allocation always succeeds.
- SimTailq.Tailq.Enqueue: the node allocation in `tailq_add_node` (sim_tailq.c:216-219) always succeeds here. In the source a failed `malloc` returns NULL, which `sim_tailq_enqueue` ignores. `advance_tail` would then move `tail` onto `head`, and the queue would look empty with its items lost.
- VpnArgv.VpnArgs.Extend: models capacity growth by whole slots. The byte-size argument that argv.c:67 passes to `realloc` is not mirrored.
- `vsnprintf` (argv.c:97, argv.c:105) is foreign: the formatted text, or a formatting error, is an input.
- `argv_printf` is only a varargs wrapper and is not modelled separately.
- `sim_tailq_enqueue_xform` is declared without a definition here. `sim_tailq_allocated`, `sim_tailq_item_status` and `get_tailq_pointer` read fields that the modelled operations never change, so they are not modelled.
- `rand_init` seeds from the clock and process id: the seed is an input.
- The real waiting, the timer, `QueryPerformanceCounter` and `QueryPerformanceFrequency` become parameters.
- Registry reads (`queryWindowsRegistry`, `windows_eth_dev_description`, `get_net_adapter_guid`, `get_device_reg_property`), `windowsSystemRoot` and the adapter-list heap are outside the model. The adapter list and the device-information set are input sequences.
- The console-window lookup and SetupAPI enumeration errors become the `devices` input: None for the early returns, and an enumeration-error element for a skipped index.
- GUIDs are given by their brace-enclosed text. `StringFromGUID2` and the wide-to-narrow conversions are the identity.
- VpnIntfs.OpenvpnTapDevices: ETH_DEV_NAME_MAX and ETH_DEV_DESC_MAX are parameters, since their values are not part of this model.
- Win32Utilities.CompareGuid: the difference `*ic - *pc` is taken on character codes. Whether `char` is signed is not modelled.
- A REG_MULTI_SZ buffer without its final empty string is read as if the end of the buffer terminated it.
- `open_from_guid` is an oracle from the GUID text to a handle. The device path it builds is not modelled.
- `DeviceIoControl` is an oracle: whether the version query succeeded, and the MAC address the second query returns. OpenTap.OpenvpnOpenAsWritten does not model the pointer size passed as that query's output size at opentap.c:136; the reply is taken as 6 bytes.
- `set_forwarding` (which only formats a command and discards it), `set_enabled`, the event handles, `CloseHandle` and the messages written with `sim_messagef` or `sim_printf` are not modelled.
- `eth_devices` and ETH_MAX_DEVICE: the device list is an input sequence.
- TapApi.EthDev.Reader: the overlapped fields that the operating system fills in are modelled as follows.
  - A read that completes at once leaves the status and count that the next round resets.
  - A read that fails outright leaves status 0 and count 0. The real status then depends on the operating system.
- TapApi.EthDev.Writer: a write that fails outright leaves its status in `send_overlapped.Internal`. On Windows that field may not be written.
- The receive buffer's size is OPENVPN_MAX_READ. Reads larger than the buffer are excluded as inputs, as the operating system never produces them.
- sim_networks/tuntap_eth.c, udp_eth.c, vde_eth.c and cmake/simgen/vax_simulators.py are not part of this model.

## Findings

| source | as written | input that shows it | evidently intended | confidence | as-written member | corrected member |
|---|---|---|---|---|---|---|
| sim_networks/openvpn/apifuncs.c:31-42 | when `GetOverlappedResultEx` succeeds, control falls through to queue the next read, which resets the status and reads over the buffer | a pending read that the wait completes with a 60-byte frame | the completed frame is delivered (as at lines 48-61) | not executed | TapApi.CompletedWaitDropsFrame | TapApi.EthDev.Reader |
| sim_networks/openvpn/apifuncs.c:48-61 | a delivered read's status and count are left as they were, so the next call delivers the same frame again | status 0 and count 60, reader called twice | each completed read is delivered once, then the next read is queued | not executed | TapApi.RedeliveredAsWritten | TapApi.DeliveredOnce |
| sim_networks/openvpn/apifuncs.c:74-76 | a read that completes at once is handed over without the address rewriting of lines 51-56 | a 60-byte frame addressed to the adapter MAC, read at once | the adapter MAC is replaced by the simulator's, as for any other received frame | not executed | TapApi.ImmediateAsWritten | TapApi.ImmediateRewritten |
| sim_networks/openvpn/opentap.c:132-138 | FAILED tests for a negative HRESULT, but `DeviceIoControl` returns a BOOL (0 or 1), so failed driver queries are never noticed | "tap:" with one OpenVPN adapter that opens, both driver queries failing | a failed query goes to open_error and returns SCPE_OPENERR | not executed | OpenTap.OpenvpnOpenAsWritten | OpenTap.OpenvpnOpen |
