/**
 * The RX target (src/target/rx.h, src/target/rx.c): the Device Record
 * `struct rx` that the FINE negotiation fills in, its memory-area entries,
 * and the three target callbacks: poll, target creation and target
 * initialisation.
 */
module RxTarget {
  import opened Bytes
  import opened Transport

  /** A C `int`. */
  type i32 = x: int | -0x8000_0000 <= x < 0x8000_0000

  /** Storing a uint32_t into an `int` field: values from 2^31 on wrap to negative. */
  function AsInt(v: u32): (r: i32)
    ensures r % TWO32 == v
    ensures r >= 0 <==> v < 0x8000_0000
  {
    if v < 0x8000_0000 then v else v - TWO32
  }

  const TYPE_LEN: nat := 8
  const ID_CODE_LEN: nat := 16
  const AREA_CAPACITY: nat := 8

  /** struct mem_area: the kind of area and four 32-bit fields. */
  datatype MemArea = MemArea(koa: i32, sad: u32, ead: u32, eau: u32, wau: u32)

  const ZeroArea: MemArea := MemArea(0, 0, 0, 0, 0)

  /** The value of a Device Record (struct rx without its tap field). */
  datatype Record = Record(
    chipType: seq<byte>,
    maxInputClkFreq: i32,
    minInputClkFreq: i32,
    maxSysClkFreq: i32,
    minSysClkFreq: i32,
    sysClkFreq: i32,
    periphClkFreq: i32,
    idCode: seq<byte>,
    serialAllowed: i32,
    areaCount: i32,
    area: seq<MemArea>)

  /** The fixed array sizes of struct rx: 8 type bytes, 16 ID bytes, 8 areas. */
  predicate WellFormed(r: Record)
  {
    |r.chipType| == TYPE_LEN && |r.idCode| == ID_CODE_LEN && |r.area| == AREA_CAPACITY
  }

  /** The record calloc returns: every field zero. */
  const ZeroRecord: Record :=
    Record(Zeros(TYPE_LEN), 0, 0, 0, 0, 0, 0, Zeros(ID_CODE_LEN), 0, 0, seq(AREA_CAPACITY, _ => ZeroArea))

  lemma ZeroRecordWellFormed()
    ensures WellFormed(ZeroRecord)
  {
  }

  /** struct jtag_tap, of which only the identity matters here. */
  class Tap {
  }

  /** struct rx, the Device Record, updated field by field by the negotiation. */
  class Rx {
    var tap: Tap?
    var chipType: seq<byte>
    var maxInputClkFreq: i32
    var minInputClkFreq: i32
    var maxSysClkFreq: i32
    var minSysClkFreq: i32
    var sysClkFreq: i32
    var periphClkFreq: i32
    var idCode: seq<byte>
    var serialAllowed: i32
    var areaCount: i32
    var area: seq<MemArea>

    /** The fixed sizes of the record's arrays. */
    ghost predicate Valid()
      reads this
    {
      WellFormed(View())
    }

    /** The record's fields as a value. */
    function View(): Record
      reads this
    {
      Record(chipType, maxInputClkFreq, minInputClkFreq, maxSysClkFreq, minSysClkFreq,
             sysClkFreq, periphClkFreq, idCode, serialAllowed, areaCount, area)
    }

    /** calloc(1, sizeof(struct rx)): a zero-filled record. */
    constructor ()
      ensures Valid() && View() == ZeroRecord && tap == null
    {
      tap := null;
      chipType := Zeros(TYPE_LEN);
      maxInputClkFreq, minInputClkFreq, maxSysClkFreq, minSysClkFreq := 0, 0, 0, 0;
      sysClkFreq, periphClkFreq := 0, 0;
      idCode := Zeros(ID_CODE_LEN);
      serialAllowed := 0;
      areaCount := 0;
      area := seq(AREA_CAPACITY, _ => ZeroArea);
    }
  }

  /** The target states of OpenOCD's generic target. */
  datatype TargetState = Unknown | Running | Halted | Reset | DebugRunning

  /** The fields of struct target this driver uses. */
  class Target {
    var state: TargetState
    var tap: Tap?
    var archInfo: Rx?

    constructor (state: TargetState, tap: Tap?)
      ensures this.state == state && this.tap == tap && archInfo == null
    {
      this.state := state;
      this.tap := tap;
      archInfo := null;
    }
  }

  /** target_to_rx: the Device Record installed in the target. */
  function TargetToRx(t: Target): Rx?
    reads t
  {
    t.archInfo
  }

  /** The state rx_poll leaves: a running target is reported halted. */
  function PollState(s: TargetState): TargetState
  {
    if s == Running || s == DebugRunning then Halted else s
  }

  /** A running or debug-running target becomes halted. */
  lemma PollHalts(s: TargetState)
    ensures s == Running || s == DebugRunning ==> PollState(s) == Halted
  {
  }

  /** Every other state is left as it is. */
  lemma PollKeeps(s: TargetState)
    ensures s != Running && s != DebugRunning ==> PollState(s) == s
  {
  }

  /** Polling twice leaves the same state as polling once; only a halted result comes from a changed state. */
  lemma PollIdempotent(s: TargetState)
    ensures PollState(PollState(s)) == PollState(s)
    ensures PollState(s) != s ==> PollState(s) == Halted
  {
  }

  /** rx_poll. */
  method Poll(t: Target) returns (ret: int)
    modifies t`state
    ensures t.state == PollState(old(t.state))
    ensures ret == ERROR_OK
  {
    if t.state == Running || t.state == DebugRunning {
      t.state := Halted;
    }
    return ERROR_OK;
  }

  /** rx_target_create: installs a fresh zero-filled record that shares the target's tap. */
  method TargetCreate(t: Target) returns (ret: int)
    modifies t`archInfo
    ensures ret == ERROR_OK
    ensures TargetToRx(t) != null && fresh(TargetToRx(t))
    ensures TargetToRx(t).Valid() && TargetToRx(t).View() == ZeroRecord
    ensures TargetToRx(t).tap == t.tap
  {
    var rx := new Rx();
    rx.tap := t.tap;
    t.archInfo := rx;
    return ERROR_OK;
  }

  /** rx_init_target: nothing to set up. */
  method InitTarget(t: Target) returns (ret: int)
    ensures ret == ERROR_OK
  {
    return ERROR_OK;
  }
}
