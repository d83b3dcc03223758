/** Clients of `LocLib` that call the library through typical usage
    scenarios; each outcome is proved from the method contracts alone. */
module LocScenarios {
  import opened LocRecord
  import opened LocTable
  import opened LocLibrary

  const Version: Byte := 1

  /** A new store whose version byte does not match is formatted with the
      default locomotive 3; after the constructor its function word is 0. */
  method FreshStore(foundVersion: Byte, foundCount: Byte, found: seq<LocLibData>) returns (count: nat, loc: LocLibData)
    requires foundVersion != Version && |found| == 8
    ensures count == 1
    ensures loc.Addres == 3 && loc.Steps == DecoderStep28 && loc.Dir == DirectionForward
    ensures loc.Speed == 0 && loc.FunctionAssignment == [0, 1, 2, 3, 4] && loc.Function == 0
  {
    var lib := new LocLib(8, Version, foundVersion, foundCount, found);
    lib.Init();
    count, loc := lib.GetNumberOfLocs(), lib.DataGet();
  }

  /** Storing a new locomotive 5 beside locomotive 3 appends and selects it. */
  method AddSecondLoc() returns (ok: bool, count: nat, selected: nat, address: Word)
    ensures ok && count == 2 && selected == 1 && address == 5
  {
    var loc3 := NewLoc(3, DefaultAssignment);
    var lib := new LocLib(4, Version, Version, 1, [loc3, loc3, loc3, loc3]);
    lib.Init();
    ok := lib.StoreLoc(5, DefaultAssignment);
    count, selected, address := lib.GetNumberOfLocs(), lib.actualSelectedLoc, lib.GetActualLocAddress();
  }

  /** Storing a locomotive that is already present changes only its
      function assignment and does not move the cursor. */
  method ReassignFunctions() returns (ok: bool, count: nat, selected: nat, loc: LocLibData)
    ensures ok && count == 2 && selected == 0
    ensures loc == NewLoc(7, [4, 3, 2, 1, 0])
  {
    var lib := new LocLib(2, Version, Version, 2, [NewLoc(5, DefaultAssignment), NewLoc(7, DefaultAssignment)]);
    lib.Init();
    FindLocUnique(lib.Locs(), 7, 1);
    ok := lib.StoreLoc(7, [4, 3, 2, 1, 0]);
    count, selected, loc := lib.GetNumberOfLocs(), lib.actualSelectedLoc, lib.DataGet();
  }

  /** A full table refuses a new locomotive. */
  method TableFull() returns (ok: bool, count: nat)
    ensures !ok && count == 1
  {
    var lib := new LocLib(1, Version, Version, 1, [NewLoc(3, DefaultAssignment)]);
    lib.Init();
    ok := lib.StoreLoc(5, DefaultAssignment);
    count := lib.GetNumberOfLocs();
  }

  /** The table 10, 5, 7 sorts to 5, 7, 10. */
  method SortThree() returns (addresses: seq<Word>)
    ensures addresses == [5, 7, 10]
  {
    var a10, a5, a7 := NewLoc(10, DefaultAssignment), NewLoc(5, DefaultAssignment), NewLoc(7, DefaultAssignment);
    var lib := new LocLib(3, Version, Version, 3, [a10, a5, a7]);
    lib.Init();
    assert lib.Locs() == [a10, a5, a7];
    lib.LocBubbleSort();
    var s := lib.slots[..3];
    assert s == lib.Locs();
    assert multiset(s) == multiset{a10, a5, a7};
    assert s[0] in multiset(s) && s[1] in multiset(s) && s[2] in multiset(s);
    addresses := [s[0].Addres, s[1].Addres, s[2].Addres];
  }

  /** Removing locomotive 5 from 5, 10 leaves 10, which becomes the cache. */
  method RemoveFirst() returns (ok: bool, count: nat, remaining: Word, cached: Word)
    ensures ok && count == 1 && remaining == 10 && cached == 10
  {
    var lib := new LocLib(2, Version, Version, 2, [NewLoc(5, DefaultAssignment), NewLoc(10, DefaultAssignment)]);
    lib.Init();
    ok := lib.RemoveLoc(5);
    count, remaining, cached := lib.GetNumberOfLocs(), lib.slots[0].Addres, lib.GetActualLocAddress();
  }

  /** Removing a locomotive that is not in the table still succeeds and
      drops the last record, 10, from the table. */
  method RemoveMissing() returns (ok: bool, count: nat, remaining: Word, cached: Word)
    ensures ok && count == 1 && remaining == 5 && cached == 5
  {
    var lib := new LocLib(2, Version, Version, 2, [NewLoc(5, DefaultAssignment), NewLoc(10, DefaultAssignment)]);
    lib.Init();
    ok := lib.RemoveLoc(7);
    count, remaining, cached := lib.GetNumberOfLocs(), lib.slots[0].Addres, lib.GetActualLocAddress();
  }

  /** With the last of three records selected, removing the first leaves the
      cursor where it was, one past the end of the shortened table. */
  method RemoveLeavesCursorOutside() returns (count: nat, selected: nat)
    ensures count == 2 && selected == 2
  {
    var lib := new LocLib(3, Version, Version, 3,
      [NewLoc(3, DefaultAssignment), NewLoc(4, DefaultAssignment), NewLoc(5, DefaultAssignment)]);
    lib.Init();
    var address := lib.GetNextLoc(-1);
    var ok := lib.RemoveLoc(3);
    count, selected := lib.GetNumberOfLocs(), lib.actualSelectedLoc;
  }

  /** A 28-step locomotive at top speed forwards cannot go faster. */
  method TopSpeed() returns (ok: bool, speed: Byte)
    ensures !ok && speed == 28
  {
    var lib := new LocLib(1, Version, Version, 1, [NewLoc(3, DefaultAssignment).(Speed := 28)]);
    lib.Init();
    ok := lib.SpeedSet(1);
    speed := lib.SpeedGet();
  }

  /** A stop command on a standing forward locomotive reverses it. */
  method StopWhileStanding() returns (ok: bool, speed: Byte, dir: Direction)
    ensures ok && speed == 0 && dir == DirectionBackward
  {
    var lib := new LocLib(1, Version, Version, 1, [NewLoc(3, DefaultAssignment)]);
    lib.Init();
    ok := lib.SpeedSet(0);
    speed, dir := lib.SpeedGet(), lib.DirectionGet();
  }

  /** Toggling function 4 of a record with no function on switches exactly
      function 4 on; toggling it again switches it off. */
  method ToggleFunctionFour() returns (on4: FunctionState, on5: FunctionState, off4: FunctionState, none: FunctionState)
    ensures on4 == FunctionOn && on5 == FunctionOff && off4 == FunctionOff && none == FunctionNone
  {
    var lib := new LocLib(1, Version, Version, 1, [NewLoc(3, DefaultAssignment)]);
    lib.Init();
    lib.FunctionToggle(4);
    on4, on5, none := lib.FunctionStatusGet(4), lib.FunctionStatusGet(5), lib.FunctionStatusGet(29);
    lib.FunctionToggle(4);
    off4 := lib.FunctionStatusGet(4);
  }

  /** With the last of three records selected, removing the first two
      records leaves the cursor two past the end of a one-record table; a
      backward step then only decrements it, so it stays outside. */
  method CursorDrifts() returns (count: nat, afterRemovals: nat, afterStep: nat)
    ensures count == 1 && afterRemovals == 2 && afterStep == 1
  {
    var lib := new LocLib(3, Version, Version, 3,
      [NewLoc(3, DefaultAssignment), NewLoc(4, DefaultAssignment), NewLoc(5, DefaultAssignment)]);
    lib.Init();
    var address := lib.GetNextLoc(-1);
    var ok := lib.RemoveLoc(3);
    ok := lib.RemoveLoc(4);
    count, afterRemovals := lib.GetNumberOfLocs(), lib.actualSelectedLoc;
    address := lib.GetNextLoc(-1);
    afterStep := lib.actualSelectedLoc;
  }

  /** The values given to the cache setters are the ones the getters read
      back, and `DataGet` returns the whole edited record. */
  method UpdatesReadBack(speed: Byte, steps: DecoderSteps, dir: Direction)
    returns (gotSpeed: Byte, gotSteps: DecoderSteps, gotDir: Direction, data: LocLibData)
    ensures gotSpeed == speed && gotSteps == steps && gotDir == dir
    ensures data == NewLoc(3, DefaultAssignment).(Speed := speed, Steps := steps, Dir := dir)
  {
    var lib := new LocLib(1, Version, Version, 1, [NewLoc(3, DefaultAssignment)]);
    lib.Init();
    lib.SpeedUpdate(speed);
    lib.DecoderStepsUpdate(steps);
    lib.DirectionSet(dir);
    gotSpeed, gotSteps, gotDir, data := lib.SpeedGet(), lib.DecoderStepsGet(), lib.DirectionGet(), lib.DataGet();
  }

  /** `StoreLoc` keeps the addresses of the table distinct. */
  method StoreKeepsDistinct(lib: LocLib, address: Word, assignment: Assignment) returns (ok: bool)
    requires lib.Valid() && DistinctAddresses(lib.Locs())
    modifies lib, lib.slots
    ensures lib.Valid() && DistinctAddresses(lib.Locs())
  {
    ghost var before := lib.Locs();
    ghost var i := lib.Found(address);
    ok := lib.StoreLoc(address, assignment);
    if i < |before| {
      assert lib.Locs() == before[i := before[i].(FunctionAssignment := assignment)];
      ReassignedDistinct(before, i, assignment);
    } else if ok {
      assert lib.Locs() == before + [NewLoc(address, assignment)];
      AppendedDistinct(before, NewLoc(address, assignment));
    }
  }

  /** `RemoveLoc` keeps the addresses of the table distinct, whether or not
      the address was in the table. */
  method RemoveKeepsDistinct(lib: LocLib, address: Word) returns (ok: bool)
    requires lib.Valid() && DistinctAddresses(lib.Locs())
    modifies lib, lib.slots
    ensures lib.Valid() && DistinctAddresses(lib.Locs())
  {
    ghost var before := lib.Locs();
    ghost var i := lib.Found(address);
    ok := lib.RemoveLoc(address);
    if ok && i < |before| {
      DeletedDistinct(before, i);
    } else if ok {
      PrefixDistinct(before, lib.numberOfLocs);
    }
  }
}
