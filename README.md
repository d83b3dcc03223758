# LocLib: a verified model of the locomotive record store

This project models `LocLib` (`Loclib.cpp`), the component of a handheld
model-railway controller that keeps its locomotives in EEPROM. The store is
a version byte, a count byte and a packed table of fixed-size locomotive
records (`LocLibData`: address, decoder steps, direction, speed, function
word, five function-slot assignments). In RAM, `LocLib` holds the number of
records, a cursor (the selected record) and one cached copy of the current
record. On top of that table it offers these operations:

- format-or-load at start-up (`Init`);
- lookup by address, which answers 255 on a miss (`CheckLoc`);
- insert-or-update with a capacity bound (`StoreLoc`);
- deletion that compacts the table (`RemoveLoc`);
- a cursor that wraps around at both ends (`GetNextLoc`);
- an in-place bubble sort by address (`LocBubbleSort`);
- the throttle, direction and function-bit edits of the cached record.

The model has four modules:

- `LocRecord` (LocRecord.dfy) holds the record datatype and the value
  semantics of the cache edits. `SpeedSetOf` is the throttle/direction
  state machine followed by the per-decoder speed limit. It also holds the
  function-word bit operations on `bv32` and the function-slot lookup, with
  lemmas stating what each operation means.
- `LocTable` (LocTable.dfy) views the table as a sequence of records. It
  holds first-match lookup (`FindLoc`, and `LocIndex` with the sentinel),
  deletion of one slot (`Deleted`), sortedness, and `WithAddress`. That
  function gives the records carrying one address in table order, so a sort
  is stable exactly when it keeps `WithAddress` for every address.
- `LocLibrary` (LocLib.dfy) holds the class `LocLib`. The EEPROM is the
  fields `storedVersion` and `storedCount` plus the array `slots`, one
  element per record slot. The RAM state is `numberOfLocs`,
  `actualSelectedLoc` and `locLibData`. Each method follows the C++ control
  flow and states the complete new state. `CheckLoc`, the compaction loop of
  `RemoveLoc` and the two nested loops of `LocBubbleSort` are loops with
  invariants.
- `LocScenarios` (LocScenarios.dfy) is a set of client methods. Each one
  builds a store, calls the library through one usage scenario and proves
  the outcome from the method contracts alone. Two of them take any valid
  library and show that `StoreLoc` and `RemoveLoc` keep the addresses
  distinct.

The getters are class functions that read the cache. `SpeedGet`,
`DecoderStepsGet`, `DirectionGet` and `GetActualLocAddress` each read one
field, and `DataGet` returns the whole cached record. These five carry no
contract of their own; `LocScenarios.UpdatesReadBack` and
`LocScenarios.AddSecondLoc` prove that they read back what the setters and
`StoreLoc` wrote. `FunctionAssignedGet` and `FunctionStatusGet` compute
their answer and state it in their contracts.

The model keeps these behaviours of the code, including ones that look unintended:

- On a version mismatch, `Init` sets the address, steps, direction, speed
  and assignment of the cache, but not its function word
  (Loclib.cpp:30-40). The function word is 0 only because the constructor
  zeroed the cache. `LocScenarios.FreshStore` shows this.
- The speed, direction and function edits change only the cached record.
  They never write the EEPROM slot (Loclib.cpp:57-171). Their contracts say
  so with `CacheOnly()` and the absence of `slots` from their frames.
- `RemoveLoc` of an address that is not in the table still succeeds
  (Loclib.cpp:329-346). It decrements the count, so the last record drops
  out of the table, and it then selects and caches the new last record
  (`LocScenarios.RemoveMissing`).
- After `RemoveLoc` has cut out slot `i` with `i` below the new count, it
  caches the record that slid into slot `i` but leaves the cursor where it
  was (Loclib.cpp:349-351). Each such removal can push the cursor one
  further past the end of the table: one removal leaves it one past the
  end (`LocScenarios.RemoveLeavesCursorOutside`), two removals two past
  the end (`LocScenarios.CursorDrifts`). The class invariant `Valid()`
  only keeps the cursor inside the slot array.
- "Cursor in range" (`CursorInRange`) holds after `StoreLoc` appends. After
  start-up it holds only because the constructor set the cursor to 0:
  `Init`'s load branch keeps the cursor it finds. `GetNextLoc` with a
  positive delta always brings the cursor back into a non-empty table, since it
  wraps to 0 (Loclib.cpp:207-212). A negative delta only decrements a
  non-zero cursor (Loclib.cpp:213-219), so it restores the range only
  when the cursor was at most the count. From two past the end it lands
  one past the end and loads that slot, outside the live table, into the
  cache (`LocScenarios.CursorDrifts`).
- `StoreLoc` that updates an existing record leaves the cursor untouched,
  although it caches that record (Loclib.cpp:271-282).
- `LocBubbleSort` does not reload the cache, so afterwards the cache may
  differ from the record under the cursor.

## Model

| member | source | states |
|---|---|---|
| `LocRecord.FactoryDefaults` | Loclib.cpp:29-41 | the factory record: address 3, 28 steps, forward, speed 0, assignment 0..4; the function word is kept |
| `LocRecord.NewLoc` | Loclib.cpp:286-292 | an appended record carries the given address and assignment, 28 steps, forward, speed 0, no function on |
| `LocRecord.Reversed` | Loclib.cpp:145-151 | reversing always yields the other direction |
| `LocRecord.Throttled` | Loclib.cpp:57-98 | the throttle step changes only speed and direction, never address, steps, function word or assignment |
| `LocRecord.SpeedSetOf` | Loclib.cpp:57-121 | after `SpeedSet` the speed is within 14/28/127 for its mode; the result is false exactly when the throttle step overshot the limit, and then the speed is the limit |
| `LocRecord.SpeedSetStops` | Loclib.cpp:60-64 | a zero delta on a moving locomotive sets speed 0, keeps the direction, returns true |
| `LocRecord.SpeedSetReversesStanding` | Loclib.cpp:60-66 | a zero delta on a standing locomotive reverses it and returns true |
| `LocRecord.SpeedSetGradual` | Loclib.cpp:67-94 | from an in-range record a non-zero delta moves the speed by at most one step and never below 0; the direction changes only at standstill |
| `LocRecord.SpeedSetLimitedIff` | Loclib.cpp:99-120 | from an in-range record the result is false if and only if the locomotive is at its top step and the delta pushes it further in its direction of travel |
| `LocRecord.FunctionBit` | Loclib.cpp:170 | the mask of a function is a single bit |
| `LocRecord.FunctionToggled` | Loclib.cpp:169-171 | toggling differs from the old word in exactly the function's bit |
| `LocRecord.FunctionToggleInvolution` | Loclib.cpp:169-171 | toggling the same function twice restores the word |
| `LocRecord.FunctionUpdated` | Loclib.cpp:163-165 | the stored word never has bit 0 set |
| `LocRecord.FunctionStatusOf` | Loclib.cpp:187-199 | `FunctionNone` exactly for numbers above 28; otherwise on exactly when bit number+1 is set |
| `LocRecord.FunctionToggleStatus` | Loclib.cpp:169-199 | toggling function n flips the status of n and keeps the status of every other function |
| `LocRecord.FunctionUpdateStatus` | Loclib.cpp:163-199 | after `FunctionUpdate(data)` function m is on exactly when bit m of `data` is set |
| `LocRecord.FunctionAssignedOf` | Loclib.cpp:175-183 | slot k below 5 yields assignment k; any other slot yields 255 |
| `LocRecord.NewLocAssignment` | Loclib.cpp:292 | the assignment given when a record is added is read back slot by slot |
| `LocTable.FindLoc` | Loclib.cpp:241-251 | the index of the first record with the address, or the table length when none has it |
| `LocTable.LocIndex` | Loclib.cpp:253-257 | 255 exactly when no record has the address; otherwise a matching index inside the table |
| `LocTable.FindLocUnique` | Loclib.cpp:241-251 | the first match is the only index that matches with no match before it |
| `LocTable.FindLocAddressesOnly` | Loclib.cpp:271-282 | changing fields other than the address keeps every lookup result |
| `LocTable.FindLocAppended` | Loclib.cpp:294-299 | a record appended for an absent address is found at the old count |
| `LocTable.Deleted` | Loclib.cpp:329-340 | deleting slot i keeps the slots before i and moves the later ones down by one |
| `LocTable.DeletedMultiset` | Loclib.cpp:329-340 | deleting slot i removes exactly the record of slot i from the contents |
| `LocTable.DeletedDistinct` | Loclib.cpp:329-340 | cutting out a slot keeps the addresses distinct |
| `LocTable.PrefixDistinct` | Loclib.cpp:342 | dropping the last records keeps the addresses distinct |
| `LocTable.AppendedDistinct` | Loclib.cpp:284-299 | appending a record only for an address the table lacks keeps the addresses distinct |
| `LocTable.ReassignedDistinct` | Loclib.cpp:271-282 | giving a record a new assignment keeps the addresses distinct |
| `LocTable.WithAddress` | Loclib.cpp:388 | the subsequence of records carrying one address |
| `LocTable.WithAddressAppend` | Loclib.cpp:376-400 | that subsequence distributes over concatenation |
| `LocTable.Swapped` | Loclib.cpp:388-396 | an exchange of neighbours swaps exactly two slots and keeps the contents |
| `LocTable.SwappedWithAddress` | Loclib.cpp:388-396 | exchanging neighbours with different addresses keeps every address's records in order, so the strict comparison makes the sort stable |
| `LocLibrary.LocLib.constructor` | Loclib.cpp:12-16 | count 0, cursor 0, zeroed cache; the EEPROM is as found |
| `LocLibrary.LocLib.Init` | Loclib.cpp:20-51 | on a version mismatch: version written, count 1, cursor 0, cache the factory record, slot 0 equal to the cache; on a match: count loaded from its byte, cache equal to slot 0, nothing else changed |
| `LocLibrary.LocLib.SpeedSet` | Loclib.cpp:57-121 | cache and result equal `SpeedSetOf` of the old cache; nothing but the cache changes |
| `LocLibrary.LocLib.SpeedUpdate` | Loclib.cpp:129 | only the cached speed changes, to the given value, unlimited |
| `LocLibrary.LocLib.DecoderStepsUpdate` | Loclib.cpp:133-135 | only the cached decoder mode changes |
| `LocLibrary.LocLib.DirectionToggle` | Loclib.cpp:145-151 | only the cached direction changes, to the other one |
| `LocLibrary.LocLib.DirectionSet` | Loclib.cpp:159 | only the cached direction changes, to the given one |
| `LocLibrary.LocLib.FunctionUpdate` | Loclib.cpp:163-165 | only the cached function word changes, to the shifted bus word |
| `LocLibrary.LocLib.FunctionToggle` | Loclib.cpp:169-171 | only the bit of the given function in the cache flips |
| `LocLibrary.LocLib.GetNextLoc` | Loclib.cpp:203-227 | delta 0 changes nothing; otherwise the cursor moves by one with wrap-around in the delta's direction, the cache is the slot under it, the result its address, and a cursor in range stays in range |
| `LocLibrary.LocLib.CheckLoc` | Loclib.cpp:235-258 | the smallest index inside the table whose record has the address, or 255 when none has; nothing changes |
| `LocLibrary.LocLib.StoreLoc` | Loclib.cpp:262-313 | a present address gets the new assignment in its slot only and is cached, with count and cursor kept; an absent one is appended as `NewLoc`, counted, selected and cached; a full table refuses and nothing changes; afterwards the address is found and its slot equals the cache |
| `LocLibrary.LocLib.RemoveLoc` | Loclib.cpp:317-362 | refused with fewer than two records; otherwise the count drops by one; a found record is cut out (slots before it kept, later ones shifted down) and the slid-in record cached with the cursor kept, or the new last one selected; an absent address changes no slot and the table loses its last record |
| `LocLibrary.LocLib.CutOut` | Loclib.cpp:329-358 | cutting out slot i of a table of at least two records (`RemoveLoc` calls it for the slot `CheckLoc` found): the table becomes the old one with slot i deleted, slots past the new count are kept, the count byte mirrors the count, and the cache is the slid-in record with the cursor kept, or the new last record, selected |
| `LocLibrary.LocLib.DropLast` | Loclib.cpp:342-358 | once no slot holds the address: no slot changes, the table is the old one without its last record, and that new last record is cached and selected |
| `LocLibrary.LocLib.CompactFrom` | Loclib.cpp:329-340 | the shift loop leaves the table with slot i deleted and the last slot untouched |
| `LocLibrary.LocLib.DataGet` | Loclib.cpp:55 | no contract; returns the whole cached record, read back by `LocScenarios.UpdatesReadBack` |
| `LocLibrary.LocLib.SpeedGet` | Loclib.cpp:125 | no contract; returns the cached speed, read back by `LocScenarios.UpdatesReadBack` |
| `LocLibrary.LocLib.DecoderStepsGet` | Loclib.cpp:139-141 | no contract; returns the cached decoder mode, read back by `LocScenarios.UpdatesReadBack` |
| `LocLibrary.LocLib.DirectionGet` | Loclib.cpp:155 | no contract; returns the cached direction, read back by `LocScenarios.UpdatesReadBack` |
| `LocLibrary.LocLib.GetActualLocAddress` | Loclib.cpp:231 | no contract; returns the cached address, read back by `LocScenarios.AddSecondLoc` |
| `LocLibrary.LocLib.FunctionAssignedGet` | Loclib.cpp:175-183 | slot k below 5 yields the cached record's assignment k; any other slot yields 255 |
| `LocLibrary.LocLib.FunctionStatusGet` | Loclib.cpp:187-199 | `FunctionNone` exactly for numbers above 28; otherwise on exactly when bit number+1 of the cached function word is set |
| `LocLibrary.LocLib.GetNumberOfLocs` | Loclib.cpp:366 | the count never exceeds the capacity |
| `LocLibrary.LocLib.GetActualSelectedLocIndex` | Loclib.cpp:370-372 | the cursor counted from one, between 1 and the capacity |
| `LocLibrary.LocLib.LocBubbleSort` | Loclib.cpp:376-400 | the table ends sorted by address, as a permutation of the old one, with the records of every address in their old order; slots past the count, count, cursor and cache unchanged |
| `LocLibrary.LocLib.BubblePass` | Loclib.cpp:383-398 | one inner pass carries the largest address to the end of the unsorted part and keeps the contents and the order of equal addresses |
| `LocLibrary.LocLib.OrderAdjacent` | Loclib.cpp:384-397 | the compare-and-exchange step: afterwards the two neighbours are in address order; they are exchanged exactly when the left address is larger, so equal addresses are never exchanged; the contents and the order of every address's records are kept |
| `LocScenarios.FreshStore` | Loclib.cpp:29-45 | a store with a foreign version tag comes up with one record: locomotive 3, 28 steps, forward, speed 0, assignment 0..4, no function on |
| `LocScenarios.AddSecondLoc` | Loclib.cpp:284-308 | adding locomotive 5 beside 3 gives count 2, cursor 1, cached address 5 |
| `LocScenarios.ReassignFunctions` | Loclib.cpp:271-282 | re-storing locomotive 7 changes only its assignment; count and cursor stay |
| `LocScenarios.TableFull` | Loclib.cpp:285 | a full table refuses a new locomotive and keeps its count |
| `LocScenarios.SortThree` | Loclib.cpp:376-400 | the table 10, 5, 7 sorts to 5, 7, 10 |
| `LocScenarios.RemoveFirst` | Loclib.cpp:324-351 | removing 5 from 5, 10 leaves count 1 with record 10, which is cached |
| `LocScenarios.RemoveMissing` | Loclib.cpp:329-358 | removing the absent 7 from 5, 10 succeeds and leaves only 5 |
| `LocScenarios.RemoveLeavesCursorOutside` | Loclib.cpp:349-351 | with the last of three records selected, removing the first leaves the cursor at 2 in a table of 2 |
| `LocScenarios.CursorDrifts` | Loclib.cpp:213-223 | after two front removals the cursor is two past the end of a one-record table, and a backward step leaves it one past the end |
| `LocScenarios.UpdatesReadBack` | Loclib.cpp:125-159 | `SpeedGet`, `DecoderStepsGet` and `DirectionGet` read back what `SpeedUpdate`, `DecoderStepsUpdate` and `DirectionSet` wrote; `DataGet` returns the whole edited record |
| `LocScenarios.StoreKeepsDistinct` | Loclib.cpp:262-313 | on any valid library whose addresses are distinct, they stay distinct after `StoreLoc` |
| `LocScenarios.RemoveKeepsDistinct` | Loclib.cpp:317-362 | on any valid library whose addresses are distinct, they stay distinct after `RemoveLoc`, whether or not the address was present |
| `LocScenarios.TopSpeed` | Loclib.cpp:107-111 | a 28-step locomotive at speed 28 forwards reports the limit on +1 and stays at 28 |
| `LocScenarios.StopWhileStanding` | Loclib.cpp:60-66 | a stop command on a standing forward locomotive turns it backwards at speed 0 |
| `LocScenarios.ToggleFunctionFour` | Loclib.cpp:169-199 | toggling function 4 turns on only function 4, toggling again turns it off, and 29 reports no function |

## Left out

- `EEPROM.begin(1024)` and `EEPROM.commit()` are platform flash I/O. Commit is treated as a no-op.
- `EEPROM.get` and `EEPROM.put` are whole-record reads and writes of one element of `slots`. The byte layout and `sizeof(LocLibData)` packing are not modelled. `CheckLoc`'s literal start offset 2 is taken to be the first slot.
- The order of EEPROM writes and commits inside one operation, and what a power loss between them would leave behind, are not modelled. Each method states only its final state.
- LocStorage.h is not part of this model. It only declares the platform EEPROM wrapper and option-flag accessors, with no bodies.
- The header that defines `locLibMaxNumberOfLocs`, `locLibEepromVersion`, the enumerations and the record type is not part of this model.
  - The capacity and the version tag are constructor parameters. The capacity is taken to be between 1 and 254, so 255 can never be an index.
  - The speed field is taken to be 8 bits wide and wraps at 256.
  - The decoder mode holds one of its three enumerators only.
  - The zeroed cache of the constructor is taken to hold the first enumerator of each enumeration (14 steps, forward).
- The constructor takes the EEPROM contents found at power-on as parameters. If that store carries the current version tag, its count byte must be between 1 and the capacity; `Init` trusts this without checking.
- `LocLibrary.LocLib.FunctionToggle`: requires `number <= 29`, the range in which `1 << (number + 1)` is defined on a C++ `int`.
- `LocLibrary.LocLib.SpeedSet`: the final `else` branch of the delta test (`Result = false`) cannot be reached by an `int8_t` delta, so it is not modelled.
- `LocLibrary.LocLib.GetNextLoc`: requires that the table is not empty when a negative delta wraps from cursor 0. Before `Init` the count is 0, and in the code the cursor would wrap to 255, outside the table.
- `LocLibrary.LocLib.LocBubbleSort`: does not state that distinct addresses stay distinct. That follows from the permutation it does state.
- `LocLibrary.LocLib.StoreLoc`: does not state that distinct addresses stay distinct. It states the new table exactly; `LocScenarios.StoreKeepsDistinct` derives distinctness from it with `LocTable.ReassignedDistinct` and `LocTable.AppendedDistinct`.
- `LocLibrary.LocLib.RemoveLoc`: does not state distinctness or the removed record's multiset directly. It states the new table as `Deleted` of the old one or as its prefix, `LocScenarios.RemoveKeepsDistinct` derives distinctness from it with `LocTable.DeletedDistinct` and `LocTable.PrefixDistinct`, and `LocTable.DeletedMultiset` gives the multiset fact.
- `LocLibrary.LocLib.DataGet`: the code returns a pointer to the cached record (Loclib.cpp:55), through which a caller can rewrite any field of the cache. The model returns a copy, so writes through that pointer are not modelled.
