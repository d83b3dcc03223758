/** One locomotive record (`LocLibData`) and the value semantics of the
    operations that edit the cached record: throttle and direction, function
    bits and function-slot assignment. */
module LocRecord {

  type Byte = x: int | 0 <= x < 256
  type Word = x: int | 0 <= x < 65536
  type Int8 = x: int | -128 <= x < 128

  /** The five function-slot assignments of a record (a `uint8_t[5]`). */
  type Assignment = s: seq<Byte> | |s| == 5 witness [0, 0, 0, 0, 0]

  datatype DecoderSteps = DecoderStep14 | DecoderStep28 | DecoderStep128
  datatype Direction = DirectionForward | DirectionBackward
  datatype FunctionState = FunctionOff | FunctionOn | FunctionNone

  /** A locomotive record; the field names are the record's own.
      `Function` holds function n (0 <= n <= 28) in bit n + 1. */
  datatype LocLibData = LocLibData(
    Addres: Word,
    Steps: DecoderSteps,
    Dir: Direction,
    Speed: Byte,
    Function: bv32,
    FunctionAssignment: Assignment)

  /** The all-zero record the constructor leaves in the cache. */
  const ZeroedLoc := LocLibData(0, DecoderStep14, DirectionForward, 0, 0, [0, 0, 0, 0, 0])

  /** The assignment used for the default locomotive. */
  const DefaultAssignment: Assignment := [0, 1, 2, 3, 4]

  /** What `Init` writes into the cache when the store is re-formatted:
      locomotive 3, 28 steps, forward, standing still, assignment 0..4.
      The function word is not touched. */
  function FactoryDefaults(d: LocLibData): (r: LocLibData)
    ensures r.Addres == 3 && r.Steps == DecoderStep28 && r.Dir == DirectionForward
    ensures r.Speed == 0 && r.FunctionAssignment == [0, 1, 2, 3, 4]
    ensures r.Function == d.Function
  {
    d.(Addres := 3, Steps := DecoderStep28, Dir := DirectionForward, Speed := 0,
       FunctionAssignment := DefaultAssignment)
  }

  /** The record `StoreLoc` appends for a locomotive not yet in the table. */
  function NewLoc(address: Word, assignment: Assignment): (r: LocLibData)
    ensures r.Addres == address && r.FunctionAssignment == assignment
    ensures r.Steps == DecoderStep28 && r.Dir == DirectionForward
    ensures r.Speed == 0 && r.Function == 0
  {
    LocLibData(address, DecoderStep28, DirectionForward, 0, 0, assignment)
  }

  /** The highest speed step a decoder mode allows. */
  function MaxSpeed(steps: DecoderSteps): Byte
  {
    match steps
    case DecoderStep14 => 14
    case DecoderStep28 => 28
    case DecoderStep128 => 127
  }

  /** A record whose speed is within its decoder mode's range. */
  predicate InRange(d: LocLibData)
  {
    d.Speed <= MaxSpeed(d.Steps)
  }

  function Reversed(dir: Direction): (r: Direction)
    ensures r != dir
  {
    if dir == DirectionForward then DirectionBackward else DirectionForward
  }

  /** Increment of the 8-bit speed field, wrapping at 256. */
  function SpeedUp(speed: Byte): Byte
  {
    (speed + 1) % 256
  }

  /** Decrement of the speed field, which stays at 0 rather than wrapping. */
  function SpeedDown(speed: Byte): Byte
  {
    if speed > 0 then speed - 1 else 0
  }

  /** The throttle step of `SpeedSet` before the speed is limited: a zero
      delta stops the locomotive or, when it already stands, reverses it; a
      positive delta accelerates forwards or brakes backwards and turns a
      standing backward locomotive forwards; a negative delta mirrors that. */
  function Throttled(d: LocLibData, delta: Int8): (r: LocLibData)
    ensures r.Addres == d.Addres && r.Steps == d.Steps
    ensures r.Function == d.Function && r.FunctionAssignment == d.FunctionAssignment
  {
    if delta == 0 then
      if d.Speed != 0 then d.(Speed := 0) else d.(Dir := Reversed(d.Dir))
    else if delta > 0 then
      if d.Speed == 0 && d.Dir == DirectionBackward then d.(Dir := DirectionForward)
      else if d.Dir == DirectionForward then d.(Speed := SpeedUp(d.Speed))
      else d.(Speed := SpeedDown(d.Speed))
    else
      if d.Speed == 0 && d.Dir == DirectionForward then d.(Dir := DirectionBackward)
      else if d.Dir == DirectionForward then d.(Speed := SpeedDown(d.Speed))
      else d.(Speed := SpeedUp(d.Speed))
  }

  /** The result of `SpeedSet`: the new record and whether the requested
      step was applied without hitting the decoder's speed limit. */
  function SpeedSetOf(d: LocLibData, delta: Int8): (r: (LocLibData, bool))
    ensures InRange(r.0)
    ensures !r.1 <==> Throttled(d, delta).Speed > MaxSpeed(d.Steps)
    ensures r.1 ==> r.0 == Throttled(d, delta)
    ensures !r.1 ==> r.0 == Throttled(d, delta).(Speed := MaxSpeed(d.Steps))
  {
    var t := Throttled(d, delta);
    if t.Speed > MaxSpeed(t.Steps) then (t.(Speed := MaxSpeed(t.Steps)), false) else (t, true)
  }

  /** A zero delta on a moving locomotive stops it and keeps its direction. */
  lemma SpeedSetStops(d: LocLibData)
    requires d.Speed != 0
    ensures SpeedSetOf(d, 0) == (d.(Speed := 0), true)
  {
  }

  /** A zero delta on a standing locomotive reverses it. */
  lemma SpeedSetReversesStanding(d: LocLibData)
    requires d.Speed == 0
    ensures SpeedSetOf(d, 0) == (d.(Dir := Reversed(d.Dir)), true)
  {
  }

  /** On a record within range, a non-zero delta changes the speed by at most
      one step and never below zero, and the direction only while standing. */
  lemma SpeedSetGradual(d: LocLibData, delta: Int8)
    requires InRange(d) && delta != 0
    ensures var r := SpeedSetOf(d, delta).0;
      -1 <= r.Speed - d.Speed <= 1 &&
      (r.Dir != d.Dir ==> d.Speed == 0 && r.Speed == 0)
  {
  }

  /** On a record within range, `SpeedSet` reports `false` exactly when it was
      asked to go faster than the top speed step. */
  lemma SpeedSetLimitedIff(d: LocLibData, delta: Int8)
    requires InRange(d)
    ensures !SpeedSetOf(d, delta).1 <==>
      d.Speed == MaxSpeed(d.Steps) && d.Speed != 0 &&
      ((delta > 0 && d.Dir == DirectionForward) || (delta < 0 && d.Dir == DirectionBackward))
  {
  }

  /** The mask of function `number` in the function word. */
  function FunctionBit(number: bv32): (r: bv32)
    requires number <= 29
    ensures r != 0 && r & (r - 1) == 0
  {
    1 << (number + 1)
  }

  /** `FunctionToggle`: flip the bit of function `number`. */
  function FunctionToggled(f: bv32, number: bv32): (r: bv32)
    requires number <= 29
    ensures r ^ f == FunctionBit(number)
  {
    f ^ FunctionBit(number)
  }

  /** Toggling a function twice restores the function word. */
  lemma FunctionToggleInvolution(f: bv32, number: bv32)
    requires number <= 29
    ensures FunctionToggled(FunctionToggled(f, number), number) == f
  {
  }

  /** `FunctionUpdate`: the word received from the bus holds function n in bit
      n; the cache keeps it shifted up by one. */
  function FunctionUpdated(data: bv32): (r: bv32)
    ensures r & 1 == 0
  {
    data << (1 as bv32)
  }

  /** `FunctionStatusGet`: on or off from the function's bit, or
      `FunctionNone` for a number above 28. */
  function FunctionStatusOf(f: bv32, number: bv32): (r: FunctionState)
    ensures r == FunctionNone <==> number > 28
    ensures number <= 28 ==> (r == FunctionOn <==> (f >> (number + 1)) & 1 == 1)
  {
    if number <= 28 then
      if f & FunctionBit(number) == FunctionBit(number) then FunctionOn else FunctionOff
    else
      FunctionNone
  }

  /** Toggling function n flips its status and leaves every other function's
      status as it was. */
  lemma FunctionToggleStatus(f: bv32, n: bv32, m: bv32)
    requires n <= 28
    ensures m == n ==> FunctionStatusOf(FunctionToggled(f, n), m) != FunctionStatusOf(f, m)
    ensures m != n ==> FunctionStatusOf(FunctionToggled(f, n), m) == FunctionStatusOf(f, m)
  {
  }

  /** After `FunctionUpdate(data)`, function m is on exactly when bit m of
      `data` is set. */
  lemma FunctionUpdateStatus(data: bv32, m: bv32)
    requires m <= 28
    ensures FunctionStatusOf(FunctionUpdated(data), m) == FunctionOn <==> (data >> m) & 1 == 1
  {
  }

  /** `FunctionAssignedGet`: the assignment of slot `number`, or 255 when the
      slot does not exist. */
  function FunctionAssignedOf(assignment: Assignment, number: Byte): (r: Byte)
    ensures number < 5 ==> r == assignment[number]
    ensures number >= 5 ==> r == 255
  {
    if number < 5 then assignment[number] else 255
  }

  /** The assignment a record was stored with is the one read back slot by
      slot. */
  lemma NewLocAssignment(address: Word, assignment: Assignment, k: Byte)
    requires k < 5
    ensures FunctionAssignedOf(NewLoc(address, assignment).FunctionAssignment, k) == assignment[k]
  {
  }
}
