/** The locomotive library `LocLib`: a packed table of locomotive records in
    EEPROM behind a version byte and a count byte, with the number of
    records, a cursor and one cached "current" record held in RAM. */
module LocLibrary {
  import opened LocRecord
  import opened LocTable

  class LocLib {
    /** `locLibMaxNumberOfLocs`: the number of record slots. */
    const maxLocs: nat
    /** `locLibEepromVersion`: the version tag of the current store format. */
    const eepromVersion: Byte

    // EEPROM: the version byte, the count byte and the record slots.
    var storedVersion: Byte
    var storedCount: Byte
    const slots: array<LocLibData>

    // RAM: `m_NumberOfLocs`, `m_ActualSelectedLoc`, `m_LocLibData`.
    var numberOfLocs: nat
    var actualSelectedLoc: nat
    var locLibData: LocLibData

    /** The object invariant. The slot table has room for `maxLocs` records
        and `maxLocs` stays below the sentinel 255; the count and the cursor
        stay inside the table; and a store carrying the current version tag
        holds a count between 1 and `maxLocs`, which is what `Init` trusts. */
    ghost predicate Valid()
      reads this
    {
      0 < maxLocs < 255 && slots.Length == maxLocs &&
      numberOfLocs <= maxLocs && actualSelectedLoc < maxLocs &&
      (storedVersion == eepromVersion ==> 1 <= storedCount <= maxLocs)
    }

    /** The state after `Init`: the store is formatted and the count in RAM
        mirrors the count byte, so the table is never empty. */
    ghost predicate Ready()
      reads this
    {
      Valid() && storedVersion == eepromVersion && storedCount == numberOfLocs
    }

    /** The records currently in the table. */
    ghost function Locs(): (s: seq<LocLibData>)
      reads this, slots
      requires Valid()
      ensures |s| == numberOfLocs
    {
      slots[..numberOfLocs]
    }

    /** Where `CheckLoc` finds `address`: its first slot, or the count. */
    ghost function Found(address: Word): (i: nat)
      reads this, slots
      requires Valid()
      ensures i <= numberOfLocs
    {
      FindLoc(Locs(), address)
    }

    /** The cursor points at a record of the table. */
    ghost predicate CursorInRange()
      reads this
    {
      actualSelectedLoc < numberOfLocs
    }

    /** The operation changed the cached record at most: count, cursor and
        the EEPROM bytes outside the slots are as they were. */
    twostate predicate CacheOnly()
      reads this
    {
      numberOfLocs == old(numberOfLocs) && actualSelectedLoc == old(actualSelectedLoc) &&
      storedVersion == old(storedVersion) && storedCount == old(storedCount)
    }

    /** The constructor, given the EEPROM contents found at power-on (version
        byte, count byte and slots). It zeroes the RAM state. */
    constructor (maxLocs: nat, eepromVersion: Byte,
                 version: Byte, count: Byte, records: seq<LocLibData>)
      requires 0 < maxLocs < 255 && |records| == maxLocs
      requires version == eepromVersion ==> 1 <= count <= maxLocs
      ensures Valid() && fresh(slots)
      ensures this.maxLocs == maxLocs && this.eepromVersion == eepromVersion
      ensures storedVersion == version && storedCount == count && slots[..] == records
      ensures numberOfLocs == 0 && actualSelectedLoc == 0 && locLibData == ZeroedLoc
    {
      this.maxLocs := maxLocs;
      this.eepromVersion := eepromVersion;
      storedVersion := version;
      storedCount := count;
      slots := new LocLibData[maxLocs](i requires 0 <= i < maxLocs => records[i]);
      numberOfLocs := 0;
      actualSelectedLoc := 0;
      locLibData := ZeroedLoc;
    }

    /** `Init`: a store without the current version tag is formatted with the
        single default locomotive, which also becomes the cached record; a
        store with the tag is loaded: the count from its byte and the cache
        from the first slot. */
    method Init()
      requires Valid()
      modifies this, slots
      ensures Ready()
      ensures old(storedVersion) != eepromVersion ==>
        storedVersion == eepromVersion && storedCount == 1 &&
        numberOfLocs == 1 && actualSelectedLoc == 0 &&
        locLibData == FactoryDefaults(old(locLibData)) &&
        slots[..] == old(slots[..])[0 := locLibData]
      ensures old(storedVersion) == eepromVersion ==>
        unchanged(slots) && storedVersion == old(storedVersion) &&
        storedCount == old(storedCount) && numberOfLocs == old(storedCount) &&
        actualSelectedLoc == old(actualSelectedLoc) && locLibData == slots[0]
    {
      var version := storedVersion;
      if version != eepromVersion {
        numberOfLocs := 1;
        locLibData := locLibData.(Addres := 3, Steps := DecoderStep28,
                                  Dir := DirectionForward, Speed := 0);
        actualSelectedLoc := 0;
        locLibData := locLibData.(FunctionAssignment := [0, 1, 2, 3, 4]);
        storedVersion := eepromVersion;
        storedCount := numberOfLocs;
        slots[0] := locLibData;
      } else {
        numberOfLocs := storedCount;
        locLibData := slots[0];
      }
    }

    function DataGet(): LocLibData
      reads this
    {
      locLibData
    }

    /** `SpeedSet`: one throttle step on the cached record, then the limit of
        its decoder mode; `false` when the limit cut the speed back. */
    method SpeedSet(delta: Int8) returns (result: bool)
      modifies this
      ensures (locLibData, result) == SpeedSetOf(old(locLibData), delta)
      ensures CacheOnly()
    {
      result := true;
      if delta == 0 {
        if locLibData.Speed != 0 {
          locLibData := locLibData.(Speed := 0);
        } else {
          DirectionToggle();
        }
      } else if delta > 0 {
        if locLibData.Speed == 0 && locLibData.Dir == DirectionBackward {
          locLibData := locLibData.(Dir := DirectionForward);
        } else if locLibData.Dir == DirectionForward {
          locLibData := locLibData.(Speed := (locLibData.Speed + 1) % 256);
        } else if locLibData.Speed > 0 {
          locLibData := locLibData.(Speed := locLibData.Speed - 1);
        }
      } else {
        if locLibData.Speed == 0 && locLibData.Dir == DirectionForward {
          locLibData := locLibData.(Dir := DirectionBackward);
        } else if locLibData.Dir == DirectionForward {
          if locLibData.Speed > 0 {
            locLibData := locLibData.(Speed := locLibData.Speed - 1);
          }
        } else {
          locLibData := locLibData.(Speed := (locLibData.Speed + 1) % 256);
        }
      }

      match locLibData.Steps
      case DecoderStep14 =>
        if locLibData.Speed > 14 {
          locLibData := locLibData.(Speed := 14);
          result := false;
        }
      case DecoderStep28 =>
        if locLibData.Speed > 28 {
          locLibData := locLibData.(Speed := 28);
          result := false;
        }
      case DecoderStep128 =>
        if locLibData.Speed > 127 {
          locLibData := locLibData.(Speed := 127);
          result := false;
        }
    }

    function SpeedGet(): Byte
      reads this
    {
      locLibData.Speed
    }

    /** `SpeedUpdate`: sets the cached speed as given, without any limit. */
    method SpeedUpdate(speed: Byte)
      modifies this
      ensures locLibData == old(locLibData).(Speed := speed)
      ensures CacheOnly()
    {
      locLibData := locLibData.(Speed := speed);
    }

    /** `DecoderStepsUpdate`: sets the cached decoder mode; the speed is not
        re-limited. */
    method DecoderStepsUpdate(steps: DecoderSteps)
      modifies this
      ensures locLibData == old(locLibData).(Steps := steps)
      ensures CacheOnly()
    {
      locLibData := locLibData.(Steps := steps);
    }

    function DecoderStepsGet(): DecoderSteps
      reads this
    {
      locLibData.Steps
    }

    /** `DirectionToggle`: reverses the cached direction, nothing else. */
    method DirectionToggle()
      modifies this
      ensures locLibData == old(locLibData).(Dir := Reversed(old(locLibData).Dir))
      ensures CacheOnly()
    {
      if locLibData.Dir == DirectionForward {
        locLibData := locLibData.(Dir := DirectionBackward);
      } else {
        locLibData := locLibData.(Dir := DirectionForward);
      }
    }

    function DirectionGet(): Direction
      reads this
    {
      locLibData.Dir
    }

    /** `DirectionSet`: sets the cached direction. */
    method DirectionSet(dir: Direction)
      modifies this
      ensures locLibData == old(locLibData).(Dir := dir)
      ensures CacheOnly()
    {
      locLibData := locLibData.(Dir := dir);
    }

    /** `FunctionUpdate`: replaces the cached function word by the bus word
        shifted into place. */
    method FunctionUpdate(functionData: bv32)
      modifies this
      ensures locLibData == old(locLibData).(Function := FunctionUpdated(functionData))
      ensures CacheOnly()
    {
      locLibData := locLibData.(Function := FunctionUpdated(functionData));
    }

    /** `FunctionToggle`: flips one function of the cached record. */
    method FunctionToggle(number: bv8)
      requires number <= 29
      modifies this
      ensures locLibData == old(locLibData).(Function := FunctionToggled(old(locLibData).Function, number as bv32))
      ensures CacheOnly()
    {
      locLibData := locLibData.(Function := FunctionToggled(locLibData.Function, number as bv32));
    }

    /** `FunctionAssignedGet` on the cached record. */
    function FunctionAssignedGet(number: Byte): (r: Byte)
      reads this
      ensures number < 5 ==> r == locLibData.FunctionAssignment[number]
      ensures number >= 5 ==> r == 255
    {
      FunctionAssignedOf(locLibData.FunctionAssignment, number)
    }

    /** `FunctionStatusGet` on the cached record. */
    function FunctionStatusGet(number: bv32): (r: FunctionState)
      reads this
      ensures r == FunctionNone <==> number > 28
      ensures number <= 28 ==> (r == FunctionOn <==> (locLibData.Function >> (number + 1)) & 1 == 1)
    {
      FunctionStatusOf(locLibData.Function, number)
    }

    /** `GetNextLoc`: a non-zero delta moves the cursor one record forwards
        or backwards, wrapping around at either end, and loads that record
        into the cache; the result is the cached address. */
    method GetNextLoc(delta: Int8) returns (address: Word)
      requires Valid()
      requires delta < 0 && actualSelectedLoc == 0 ==> numberOfLocs >= 1
      modifies this
      ensures Valid()
      ensures numberOfLocs == old(numberOfLocs)
      ensures storedVersion == old(storedVersion) && storedCount == old(storedCount)
      ensures delta == 0 ==> actualSelectedLoc == old(actualSelectedLoc) && locLibData == old(locLibData)
      ensures delta > 0 ==>
        actualSelectedLoc == (if old(actualSelectedLoc) + 1 >= numberOfLocs then 0 else old(actualSelectedLoc) + 1)
      ensures delta < 0 ==>
        actualSelectedLoc == (if old(actualSelectedLoc) == 0 then numberOfLocs - 1 else old(actualSelectedLoc) - 1)
      ensures delta != 0 ==> locLibData == slots[actualSelectedLoc]
      ensures address == locLibData.Addres
      ensures delta != 0 && numberOfLocs >= 1 && old(actualSelectedLoc) <= numberOfLocs ==>
        CursorInRange()
    {
      if delta != 0 {
        if delta > 0 {
          actualSelectedLoc := actualSelectedLoc + 1;
          if actualSelectedLoc >= numberOfLocs {
            actualSelectedLoc := 0;
          }
        } else {
          if actualSelectedLoc == 0 {
            actualSelectedLoc := numberOfLocs - 1;
          } else {
            actualSelectedLoc := actualSelectedLoc - 1;
          }
        }
        locLibData := slots[actualSelectedLoc];
      }
      address := locLibData.Addres;
    }

    function GetActualLocAddress(): Word
      reads this
    {
      locLibData.Addres
    }

    /** `CheckLoc`: a linear scan of the table for `address`. */
    method CheckLoc(address: Word) returns (index: Byte)
      requires Valid()
      ensures index == LocIndex(Locs(), address)
      ensures index == 255 <==> forall k :: 0 <= k < numberOfLocs ==> slots[k].Addres != address
      ensures index != 255 ==>
        index < numberOfLocs && slots[index].Addres == address &&
        forall k :: 0 <= k < index ==> slots[k].Addres != address
    {
      var found := false;
      index := 0;
      while index < numberOfLocs && !found
        invariant index <= numberOfLocs
        invariant forall k :: 0 <= k < index ==> slots[k].Addres != address
        invariant found ==> index < numberOfLocs && slots[index].Addres == address
        decreases numberOfLocs - index, if found then 0 else 1
      {
        var data := slots[index];
        if data.Addres == address {
          found := true;
        } else {
          index := index + 1;
        }
      }
      FindLocUnique(Locs(), address, index);
      if index >= numberOfLocs {
        index := 255;
      }
    }

    /** `StoreLoc`: a locomotive already in the table gets the new function
        assignment and becomes the cached record (the cursor stays); a new
        locomotive is appended as a standing 28-step record and selected,
        unless the table is full. */
    method StoreLoc(address: Word, assignment: Assignment) returns (result: bool)
      requires Valid()
      modifies this, slots
      ensures Valid() && storedVersion == old(storedVersion)
      ensures old(Ready()) ==> Ready()
      ensures result <==> old(Found(address)) < old(numberOfLocs) || old(numberOfLocs) < maxLocs
      ensures old(Found(address)) < old(numberOfLocs) ==>
        var i := old(Found(address));
        numberOfLocs == old(numberOfLocs) && storedCount == old(storedCount) &&
        actualSelectedLoc == old(actualSelectedLoc) &&
        slots[..] == old(slots[..])[i := old(slots[i]).(FunctionAssignment := assignment)] &&
        locLibData == slots[i]
      ensures old(Found(address)) == old(numberOfLocs) && old(numberOfLocs) < maxLocs ==>
        numberOfLocs == old(numberOfLocs) + 1 && storedCount == numberOfLocs &&
        actualSelectedLoc == old(numberOfLocs) &&
        slots[..] == old(slots[..])[old(numberOfLocs) := NewLoc(address, assignment)] &&
        locLibData == NewLoc(address, assignment) && CursorInRange()
      ensures !result ==> unchanged(this) && unchanged(slots)
      ensures result ==> Found(address) < numberOfLocs && slots[Found(address)] == locLibData
    {
      result := false;
      var locIndex := CheckLoc(address);
      if locIndex != 255 {
        var data := slots[locIndex];
        data := data.(FunctionAssignment := assignment);
        slots[locIndex] := data;
        locLibData := slots[locIndex];
        result := true;
        FindLocAddressesOnly(old(Locs()), Locs(), address);
      } else {
        if numberOfLocs < maxLocs {
          var data := NewLoc(address, assignment);
          var slot := numberOfLocs;
          numberOfLocs := numberOfLocs + 1;
          storedCount := numberOfLocs;
          slots[slot] := data;
          actualSelectedLoc := numberOfLocs - 1;
          locLibData := slots[actualSelectedLoc];
          result := true;
          assert Locs() == old(Locs()) + [data];
          FindLocAppended(old(Locs()), data);
        }
      }
    }

    /** `RemoveLoc`: refused while fewer than two records exist. Otherwise
        the record carrying `address` is cut out of the table by moving the
        later records down one slot, and the count drops by one; the count
        drops even when no record carries `address`, which then forgets the
        last record. The record that slid into the freed slot is cached
        without moving the cursor; when the last record goes, the new last
        one is cached and selected. */
    method RemoveLoc(address: Word) returns (result: bool)
      requires Valid()
      modifies this, slots
      ensures Valid() && storedVersion == old(storedVersion)
      ensures old(Ready()) ==> Ready()
      ensures result <==> old(numberOfLocs) > 1
      ensures !result ==> unchanged(this) && unchanged(slots)
      ensures result ==> numberOfLocs == old(numberOfLocs) - 1 && storedCount == numberOfLocs
      ensures result && old(Found(address)) < old(numberOfLocs) ==>
        var i := old(Found(address));
        Locs() == Deleted(old(Locs()), i) &&
        (forall k :: numberOfLocs <= k < slots.Length ==> slots[k] == old(slots[k])) &&
        (i < numberOfLocs ==> locLibData == slots[i] && actualSelectedLoc == old(actualSelectedLoc)) &&
        (i == numberOfLocs ==> locLibData == slots[numberOfLocs - 1] && actualSelectedLoc == numberOfLocs - 1)
      ensures result && old(Found(address)) == old(numberOfLocs) ==>
        unchanged(slots) && Locs() == old(Locs())[..numberOfLocs] && locLibData == slots[numberOfLocs - 1] &&
        actualSelectedLoc == numberOfLocs - 1
    {
      result := false;
      if numberOfLocs > 1 {
        ghost var i := Found(address);
        var locIndex := CheckLoc(address);
        assert locIndex == 255 <==> i == numberOfLocs;
        if locIndex != 255 {
          assert locIndex == i;
          CutOut(locIndex);
        } else {
          DropLast();
        }
        result := true;
      }
    }

    /** `RemoveLoc` once slot `i` holds the address: the later records move
        down one slot, the count drops, and the cache and cursor follow. */
    method CutOut(i: nat)
      requires Valid() && 1 < numberOfLocs && i < numberOfLocs
      modifies this, slots
      ensures Valid() && storedVersion == old(storedVersion)
      ensures numberOfLocs == old(numberOfLocs) - 1 && storedCount == numberOfLocs
      ensures Locs() == Deleted(old(Locs()), i)
      ensures forall k :: numberOfLocs <= k < slots.Length ==> slots[k] == old(slots[k])
      ensures i < numberOfLocs ==> locLibData == slots[i] && actualSelectedLoc == old(actualSelectedLoc)
      ensures i == numberOfLocs ==> locLibData == slots[numberOfLocs - 1] && actualSelectedLoc == numberOfLocs - 1
    {
      ghost var table := Locs();
      var n := numberOfLocs - 1;
      CompactFrom(i, numberOfLocs);
      assert slots[..n] == Deleted(table, i);
      numberOfLocs, storedCount := n, n;
      assert Locs() == Deleted(table, i);
      if i < n {
        locLibData := slots[i];
      } else {
        locLibData := slots[n - 1];
        actualSelectedLoc := n - 1;
      }
    }

    /** `RemoveLoc` when no slot holds the address: the count still drops,
        and the new last record is cached and selected. */
    method DropLast()
      requires Valid() && 1 < numberOfLocs
      modifies this
      ensures Valid() && storedVersion == old(storedVersion)
      ensures numberOfLocs == old(numberOfLocs) - 1 && storedCount == numberOfLocs
      ensures Locs() == old(Locs())[..numberOfLocs]
      ensures locLibData == slots[numberOfLocs - 1] && actualSelectedLoc == numberOfLocs - 1
    {
      var n := numberOfLocs - 1;
      numberOfLocs, storedCount := n, n;
      locLibData := slots[n - 1];
      actualSelectedLoc := n - 1;
    }

    /** The compaction of `RemoveLoc`: every record after slot `i` of an
        `n`-record table is copied one slot down, in increasing order; the
        last slot keeps its old record. */
    method CompactFrom(i: nat, n: nat)
      requires i < n <= slots.Length
      modifies slots
      ensures slots[..n - 1] == Deleted(old(slots[..n]), i)
      ensures forall k :: n - 1 <= k < slots.Length ==> slots[k] == old(slots[k])
    {
      var index := i;
      while index + 1 < n
        invariant i <= index < n
        invariant forall k :: 0 <= k < i ==> slots[k] == old(slots[k])
        invariant forall k :: i <= k < index ==> slots[k] == old(slots[k + 1])
        invariant forall k :: index <= k < slots.Length ==> slots[k] == old(slots[k])
      {
        var data := slots[index + 1];
        slots[index] := data;
        index := index + 1;
      }
    }

    /** `GetNumberOfLocs`. */
    function GetNumberOfLocs(): (r: nat)
      reads this
      requires Valid()
      ensures r <= maxLocs
    {
      numberOfLocs
    }

    /** `GetActualSelectedLocIndex`: the cursor counted from one. */
    function GetActualSelectedLocIndex(): (r: nat)
      reads this
      requires Valid()
      ensures 1 <= r <= maxLocs && r - 1 == actualSelectedLoc
    {
      actualSelectedLoc + 1
    }

    /** `LocBubbleSort`: bubble sort of the table by address, in place in the
        slots; count, cursor and cache are untouched, so the cache may no
        longer be the record under the cursor. */
    method LocBubbleSort()
      requires Valid()
      modifies slots
      ensures SortedByAddress(Locs())
      ensures multiset(Locs()) == multiset(old(Locs()))
      ensures forall a: Word :: WithAddress(Locs(), a) == WithAddress(old(Locs()), a)
      ensures forall k :: numberOfLocs <= k < slots.Length ==> slots[k] == old(slots[k])
    {
      var n := numberOfLocs;
      var i := 0;
      while i < n - 1
        invariant 0 <= i <= n
        invariant forall k, l :: n - i <= k < l < n ==> slots[k].Addres <= slots[l].Addres
        invariant forall k, l :: 0 <= k < n - i <= l < n ==> slots[k].Addres <= slots[l].Addres
        invariant multiset(slots[..n]) == multiset(old(slots[..n]))
        invariant forall a: Word :: WithAddress(slots[..n], a) == WithAddress(old(slots[..n]), a)
        invariant forall k :: n <= k < slots.Length ==> slots[k] == old(slots[k])
      {
        BubblePass(n - 1 - i, n);
        i := i + 1;
      }
    }

    /** One pass of the sort over slots `0..m` of an `n`-record table, which
        carries the largest address among them up to slot `m`. */
    method BubblePass(m: nat, n: nat)
      requires m < n <= slots.Length
      requires forall k, l :: 0 <= k <= m < l < n ==> slots[k].Addres <= slots[l].Addres
      modifies slots
      ensures forall k :: 0 <= k < m ==> slots[k].Addres <= slots[m].Addres
      ensures forall k, l :: 0 <= k <= m < l < n ==> slots[k].Addres <= slots[l].Addres
      ensures forall k :: m < k < slots.Length ==> slots[k] == old(slots[k])
      ensures multiset(slots[..n]) == multiset(old(slots[..n]))
      ensures forall a: Word :: WithAddress(slots[..n], a) == WithAddress(old(slots[..n]), a)
    {
      var j := 0;
      while j < m
        invariant 0 <= j <= m
        invariant forall k :: 0 <= k < j ==> slots[k].Addres <= slots[j].Addres
        invariant forall k, l :: 0 <= k <= m < l < n ==> slots[k].Addres <= slots[l].Addres
        invariant forall k :: m < k < slots.Length ==> slots[k] == old(slots[k])
        invariant multiset(slots[..n]) == multiset(old(slots[..n]))
        invariant forall a: Word :: WithAddress(slots[..n], a) == WithAddress(old(slots[..n]), a)
      {
        OrderAdjacent(j, n);
        j := j + 1;
      }
    }

    /** One compare-and-exchange of the sort: slots `j` and `j + 1` are
        exchanged exactly when the first has the greater address, so records
        with equal addresses are never exchanged. */
    method OrderAdjacent(j: nat, n: nat)
      requires j + 1 < n <= slots.Length
      modifies slots
      ensures slots[j].Addres <= slots[j + 1].Addres
      ensures old(slots[j]).Addres > old(slots[j + 1]).Addres ==>
        slots[j] == old(slots[j + 1]) && slots[j + 1] == old(slots[j])
      ensures old(slots[j]).Addres <= old(slots[j + 1]).Addres ==> unchanged(slots)
      ensures forall k :: 0 <= k < slots.Length && k != j && k != j + 1 ==> slots[k] == old(slots[k])
      ensures multiset(slots[..n]) == multiset(old(slots[..n]))
      ensures forall a: Word :: WithAddress(slots[..n], a) == WithAddress(old(slots[..n]), a)
    {
      var data1 := slots[j];
      var data2 := slots[j + 1];
      if data1.Addres > data2.Addres {
        slots[j] := data2;
        slots[j + 1] := data1;
        assert slots[..n] == Swapped(old(slots[..n]), j);
        forall a: Word ensures WithAddress(slots[..n], a) == WithAddress(old(slots[..n]), a) {
          SwappedWithAddress(old(slots[..n]), j, a);
        }
      }
    }
  }
}
