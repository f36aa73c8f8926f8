# Store-and-forward network bridge, modelled in Dafny

The bridge reads one frame description per line, `sender,port,receiver`: a sender MAC, the
bridge port the frame arrived on, and a receiver MAC. For each accepted line it does three
things in order:

1. **Learning.** It records the sender and port in its MAC table, a singly linked list.
2. **Filtering.** It decides the frame's fate against the table as learning left it. The
   frame is ignored when sender and receiver are the same MAC. Otherwise it is forwarded to
   the receiver's port, broadcast, or reported as having no target.
3. **Ageing.** It removes entries older than 300 seconds (`AGEING_TIME`).

`bridge.cpp` and `network-bridge/bridge.cpp` hold the same code; the second has no comments.
Both are modelled by the same Dafny members, and the table below cites whichever file is
clearer for each row.

The project has five modules:

- `Wrappers`: `Option`.
- `MacTable`: table entries, and the specification functions of learning (`Learn`,
  `Learned`) and of ageing (`Walk`, `Sweep`). Ageing also has an independent
  characterisation (`Evicted`, `SurvivorsFrom`) and lemmas tying the two together.
- `Forwarding`: the outcomes of `searchPort` (`SearchCode`, `Passed`), the contents of the
  `values[100]` scratch array (`Scratch`), and filtering's decision (`Decide`).
  - `SearchPort`, `BroadcastList` and `Filtering` are methods over a Dafny `array<int>`.
    Each is proved against those functions.
- `Records`: the line validator of `main`.
  - `strtok(…, ",")`, `atoi` and the 17-position MAC check are modelled character by
    character in `StrTok`, `Atoi` and `MacAccepted`.
  - `ParseRecord` is the specification; `ValidateRecord` is the check loop, proved equal to it.
  - `ParseRecordSound` and `ParseRecordComplete` together characterise exactly which lines
    are accepted.
- `Bridge`: class `BridgeState` holds the state `main` keeps across lines:
  - the list (`table: seq<Entry>`);
  - the `IsEmpty` flag;
  - the `values` array.

  Its methods `Learning`, `Remove`, `CleanList`, `Step` and `ProcessLine` update that state
  in place. They are proved against the `MacTable` and `Forwarding` functions. Concrete
  lemmas replay the three records of the output example at the end of `bridge.cpp`, and
  the edge cases listed below.

A list node is represented by its index in `table`. The index `|table|` plays the role of
`NULL`. `remove(current)` therefore splices out index `current + 1`, and `cleanList`'s
`current` pointer is a `nat`.

Behaviour the model keeps as the code has it:

- **Ageing skips after an eviction.** After `cleanList` evicts an entry, it moves past the
  entry that followed without testing it. Entry i is evicted iff it is expired and entry
  i-1 was not evicted: in a run of adjacent expired entries, the 1st, 3rd, 5th, … are
  evicted and the others stay.
  `SweepIsSurvivors` and `SweepSkipsAfterEviction` state this.
  - The head is tested once, before the loop. After a head eviction the new head is never
    tested.
- **A one-entry table never forwards.** `searchPort` returns -2 for a one-entry list before
  comparing any MAC. So a frame to any other receiver gets "no port to broadcast to", even
  when the single entry is the receiver.
- **The ingress port is not excluded from forwarding.** A known receiver is forwarded to
  even when its port is the one the frame came in on. Only the broadcast list drops the
  ingress port.
- **The broadcast list is cut short by zeros.** It ends at the first stored port equal to 0,
  and it keeps duplicate ports.
- **Non-positive ports are accepted.** The header comment (`bridge.cpp:28`) says so-called
  invalid inputs, among them non-positive ports, are ignored. No such check exists in the
  code; the model follows the code.
  - Ports 0 and -1 are accepted (`ZeroPortAccepted`, `NegativePortAccepted`).
  - A matched entry with port -1 is indistinguishable from "not found" and broadcasts.
  - A matched entry with a port below -1 gives "no target" (`DecideNegativeMatch`).
- **The port field need not hold four digits.** Any non-comma run between the commas at 17
  and 22 is accepted (e.g. `,12,`), and atoi reads it.
  - An accepted port always lies in -999..9999 (`AcceptedPortRange`), so C's `int` never
    overflows there.
- **The "hex" test accepts more than hex.** It is `'0' <= c <= 'F'`, which also lets
  through `:;<=>?@` (`HexCheckAcceptsAt`). Lower-case hex is refused
  (`HexCheckRefusesLowerCase`).
- **An empty table with `IsEmpty` cleared dereferences NULL.** If `IsEmpty` is false and the
  table is empty, `learning` dereferences a NULL `current` (`bridge.cpp:217`). `Learning`
  states this as its precondition `isEmpty || table != []`.
  - Under one clock reading per record, as the model takes it, the precondition always
    holds from `main`. The sender's entry, stamped with that time, survives the sweep of
    the same line, so after every `Step` the table is non-empty.
  - The code reads the clock separately in `initialize` and in each test of `cleanList`.
    If more than 300 seconds pass between those reads, a one-entry table is emptied
    (`SweepCanEmptyNewTable`), `IsEmpty` stays false, and the next accepted line
    dereferences NULL.
- **`searchPort` writes one `values` slot per entry it passes.** On a list of two or more
  entries, a receiver found at index k, or absent from a list of k entries, means k writes.
  A one-entry list returns -2 with no write, and a self-addressed frame never reaches
  `searchPort`. `values[100]` overflows when k > 100. `Step` requires k ≤ 100
  (`FitsValues`) only for frames that are not self-addressed.

## Model

| member | source | states |
|---|---|---|
| MacTable.IndexOf | bridge.cpp:201-215 | learning's walk finds the first entry holding the MAC: that entry holds it and no earlier one does; the list length means "absent" |
| MacTable.LearnKeepsUnique | bridge.cpp:198-221 | learning keeps MACs unique in the table; afterwards exactly one entry holds the sender, with its port and the current time, at the sender's old position or else at the new tail |
| MacTable.LearnLength | network-bridge/bridge.cpp:130-150 | the table grows by exactly one entry iff the sender MAC was absent, and keeps its length iff it was present |
| MacTable.LearnChangesNothingElse | bridge.cpp:201-221 | on any list, learning keeps every position's MAC and leaves every entry of another MAC untouched; a new entry is appended after all old entries, which keep their order |
| MacTable.LearnedFirstCall | bridge.cpp:189-196 | while IsEmpty is set, learning builds a one-entry list from the sender, port and time, whatever the old pointer held |
| MacTable.WalkSplice | bridge.cpp:107-110 | one loop turn that removes an expired successor leaves the outcome of the sweep unchanged |
| MacTable.WalkAdvance | bridge.cpp:111-113 | one loop turn that moves to a fresh successor leaves the outcome of the sweep unchanged |
| MacTable.WalkIsSurvivors | network-bridge/bridge.cpp:57-65 | the cleaning loop from a kept entry keeps exactly the entries the skip rule spares |
| MacTable.SweepIsSurvivors | bridge.cpp:94-124 | cleanList keeps exactly the entries that are not expired or whose predecessor was evicted, in order |
| MacTable.SurvivorsContain | bridge.cpp:106-114 | every entry the skip rule spares is in the result |
| MacTable.SurvivorsFromInput | bridge.cpp:106-114 | every entry in the result was in the list |
| MacTable.SurvivorsUnique | network-bridge/bridge.cpp:57-65 | removing entries keeps MACs unique |
| MacTable.SweepKeepsFresh | bridge.cpp:98-114 | no entry within the ageing time is removed |
| MacTable.SweepKeepsUnique | network-bridge/bridge.cpp:45-76 | cleanList keeps MACs unique and introduces no entry |
| MacTable.SweepSkipsAfterEviction | bridge.cpp:106-114 | a removed entry was expired and the entry after it is kept, even when that one is expired too |
| MacTable.SweepNewHeadKept | bridge.cpp:98-105 | after the head is evicted the new head is kept untested, however old it is |
| MacTable.SweepWithoutAdjacentExpired | network-bridge/bridge.cpp:49-65 | when no two adjacent entries are both expired, cleanList removes exactly the expired entries |
| Forwarding.UntilZero | bridge.cpp:171-172 | the listed ports are a prefix of values[] holding no 0, ending at the first 0 slot |
| Forwarding.Without | bridge.cpp:173-175 | a port is listed iff it is in the scanned prefix and differs from the ingress port; nothing is added |
| Forwarding.DecideIgnored | bridge.cpp:160-161 | a frame is ignored iff sender and receiver MAC coincide, whatever the table holds |
| Forwarding.DecideSingleEntry | network-bridge/bridge.cpp:79 | with a one-entry table every other receiver gets "no target", even the MAC of that entry |
| Forwarding.DecideForward | bridge.cpp:133-149 | with two or more entries, the first entry holding the receiver decides; its non-negative port is forwarded to, even when it is the ingress port |
| Forwarding.DecideNegativeMatch | network-bridge/bridge.cpp:104-117 | a matched entry with port -1 broadcasts the ports before it; one with a lower port gives "no target" |
| Forwarding.DecideBroadcast | bridge.cpp:169-176 | an unknown receiver broadcasts the table's ports in order, cut at the first 0, without the ingress port; the list never holds the ingress port or 0, holds only table ports, and holds every other port when none is 0 |
| Forwarding.SearchPort | bridge.cpp:133-149 | returns -2 for a one-entry list, the first matching entry's port, or -1; writes the ports of the entries it passes to values[0..) and nothing else |
| Forwarding.BroadcastList | network-bridge/bridge.cpp:108-113 | prints values[] in order up to its first 0 slot, skipping the ingress port |
| Forwarding.Filtering | bridge.cpp:159-182 | decides as Decide does; a self-addressed frame leaves values[] alone, any other leaves it zeroed with the passed ports written over its start |
| Records.SkipCommas | bridge.cpp:253 | strtok skips leading commas: it stops at the first non-comma |
| Records.TokenEnd | bridge.cpp:253 | a token runs up to the next comma or the end of the line |
| Records.StrTok | network-bridge/bridge.cpp:182-189 | a token strtok yields is non-empty and the position it resumes at lies strictly after the old one, within the line |
| Records.StrTokSpec | network-bridge/bridge.cpp:182-189 | strtok yields NULL exactly when only commas are left, and a token it yields holds no comma |
| Records.DigitsBound | bridge.cpp:258 | atoi's digit loop over n characters stays below 10^n |
| Records.AtoiShort | bridge.cpp:258 | atoi of at most four characters lies in -999..9999 |
| Records.ValidateRecord | bridge.cpp:252-270 | the validation steps accept exactly the lines ParseRecord accepts and return its record |
| Records.MacAcceptedLength | bridge.cpp:263-269 | a MAC token shorter than 17 characters fails the check at its terminating NUL |
| Records.ParseRecordSound | network-bridge/bridge.cpp:181-199 | an accepted line has length 40, commas at 17 and 22, two well-formed 17-character MACs, and a port field of one non-comma run that atoi reads |
| Records.ParseRecordComplete | bridge.cpp:252-270 | every line of that shape is accepted, with exactly those sender, port and receiver |
| Records.BadSenderCharRejected | bridge.cpp:263-270 | a sender character failing its position's test rejects the line |
| Records.AcceptedPortRange | bridge.cpp:252-258 | an accepted port lies in -999..9999 |
| Bridge.BridgeState.constructor | bridge.cpp:227-236 | main starts with an empty list, IsEmpty set and values[] zeroed |
| Bridge.BridgeState.Learning | bridge.cpp:186-222 | learning (with initialize, lines 57-61) leaves the table Learned describes, MACs unique and IsEmpty cleared; the head must exist once IsEmpty is cleared |
| Bridge.BridgeState.Remove | bridge.cpp:63-69 | remove unlinks the successor of current and returns the new successor, or does nothing and returns current when it or its successor is NULL |
| Bridge.BridgeState.CleanList | bridge.cpp:94-124 | cleanList leaves the table Sweep describes, MACs unique, and reports how many entries it evicted |
| Bridge.BridgeState.Step | bridge.cpp:272-275 | one record: the decision is taken on the learned, unswept table; the table ends swept, non-empty and holding the sender's fresh entry; values[] is untouched for a self-addressed frame and as filtering leaves it otherwise |
| Bridge.BridgeState.ProcessLine | network-bridge/bridge.cpp:181-204 | a rejected line changes nothing, whatever the state; an accepted one decides, updates the table and leaves values[] as Step does; self-addressed lines carry no bound on the table |
| Bridge.LearnedKeepsSender | bridge.cpp:272-275 | with one clock reading per record, the sender's entry just learned survives the sweep of the same record |
| Bridge.SweepCanEmptyNewTable | bridge.cpp:94-117 | a one-entry table built at time t1 is emptied by a sweep that reads the clock more than 300 seconds later |
| Bridge.ExampleLineAccepted | bridge.cpp:252-270 | a line made of any well-formed sender MAC, four non-commas and any well-formed receiver MAC is accepted, with port atoi of the field |
| Bridge.LineOneAccepted | bridge.cpp:289 | the first line of the output example is accepted with port 1000 |
| Bridge.LineTwoAccepted | bridge.cpp:300 | the second line of the output example is accepted with port 2000 |
| Bridge.FirstRecordScenario | bridge.cpp:289-297 | the first record builds a one-entry table and gets "no port to broadcast to" |
| Bridge.SecondRecordScenario | bridge.cpp:300-310 | the second record appends its sender after the first, broadcasts to port 1000 only, and both entries survive |
| Bridge.LineThreeAccepted | bridge.cpp:312 | the third line of the output example, addressed by its sender to itself, is accepted with port 3000 |
| Bridge.ThirdRecordScenario | bridge.cpp:312-322 | the third record is ignored as self-addressed, yet its sender is learned after the two earlier entries and all three survive |
| Bridge.HexCheckAcceptsAt | bridge.cpp:267 | a MAC with '@' in a hex position passes the check |
| Bridge.HexCheckRefusesLowerCase | bridge.cpp:267 | a MAC with a lower-case hex digit fails the check |
| Bridge.ZeroPortAccepted | bridge.cpp:258 | a line with port field "0000" is accepted with port 0, against the header comment at line 28 |
| Bridge.NegativePortAccepted | bridge.cpp:258 | a line with port field "-001" is accepted with port -1 |
| Bridge.ExpiredReceiverStillForwarded | bridge.cpp:272-275 | a receiver whose entry has expired is still forwarded to, because filtering runs before cleanList removes it |

## Left out

- `printList` and every message written to the console: they are output only. The decision
  a message reports is the `Decision` value.
- `main`'s read loop is not modelled. This covers `getline`, `cin.fail()` recovery and the
  `"stop"` line (a 4-character line is rejected anyway). `ProcessLine` models one loop body.
  The loop's `strcmp(tokens, "stop")` reads the buffer after `strtok` has written a NUL over
  the first comma. So a 40-character line that starts with `stop,`, has commas at 17 and 22
  and fails the MAC check also ends the program; the model does not capture this.
- `time(NULL)` is a parameter `now`. `cleanList` reads the clock once per test; the model
  uses one reading per record for learning and ageing alike. This abstraction is what makes
  the NULL dereference in `learning` unreachable from `main` in the model (see `Learning`).
- `new`/`delete` and pointer identity: the list is a sequence, a node is its index, and no
  aliasing between nodes is modelled.
- The delete-and-return of the head in `cleanList` is the assignment of `table[1..]`.
- A line is the text of the `tokens` buffer up to its NUL. Two buffer effects are not modelled:
  - `cin.getline(tokens, 43)` into a 40-byte buffer can write past it; a 40-character line
    needs 41 bytes.
  - `tokens[17]` and `tokens[22]` are read before the length test. For shorter lines they
    are stale bytes, and any failed test drops the line anyway.
- The MAC buffers are modelled as the token followed by its NUL (`BufferChar`); bytes past
  the NUL are never decisive and are not modelled.
- `Step`: for a frame that is not self-addressed, its precondition requires at most 100
  entries before the receiver. Beyond that the code writes past `values[100]`, which is
  undefined behaviour.
- `Learning`: its precondition excludes a cleared `IsEmpty` over an empty list, where the
  code dereferences NULL. Under one clock reading per record `main` never reaches that
  state (see `Step`); with the code's separate clock reads it can (`SweepCanEmptyNewTable`).
- Characters are Dafny `char`s compared by code point. The code compares `char` bytes;
  non-ASCII input is not modelled.
