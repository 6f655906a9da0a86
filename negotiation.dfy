/**
 * The FINE negotiation sequence of src/jtag/fine.c: the command/status
 * exchanges every step is made of, the eight negotiation steps that fill
 * the Device Record, and fine_transport_init, which runs the bring-up and
 * those steps in a fixed order and stops at the first failure.
 *
 * As in Codec, each operation has a specification function over the
 * replies still pending on the link and the record before the step; it
 * returns the return code, the exchanges sent and the record after it.
 */
module Negotiation {
  import opened Bytes
  import opened Transport
  import opened Codec
  import opened Bringup
  import opened RxTarget

  const FINE_CMD_SYNC: byte := 0x00
  const FINE_CMD_GET_AUTH_MODE: byte := 0x2C
  const FINE_CMD_CHECK_ID_CODE: byte := 0x30
  const FINE_CMD_SET_FREQUENCY: byte := 0x32
  const FINE_CMD_SET_BITRATE: byte := 0x34
  const FINE_CMD_SET_ENDIANNESS: byte := 0x36
  const FINE_CMD_GET_DEVICE_TYPE: byte := 0x38
  const FINE_CMD_GET_AREA_COUNT: byte := 0x53
  const FINE_CMD_GET_AREA_INFO: byte := 0x54

  /** The sizes of the callers' stack buffers that fine_get_data fills. */
  const DEVICE_TYPE_BUF: nat := 200
  const FREQUENCY_BUF: nat := 100
  const AUTH_MODE_BUF: nat := 8
  const AREA_BUF: nat := 24

  /**
   * Returned by the model, never by the source, when the device reports
   * more than eight areas and the source would write past the area table.
   * No other code of fine_get_device_mem_info has this value.
   */
  const AREA_OVERFLOW: int := -1000

  /** The outcome `o` carrying the value `v` instead. */
  function WithVal<T, U>(o: Out<T>, v: U): Out<U>
  {
    Out(o.ret, o.sent, v)
  }

  // ---------------------------------------------------------------------
  // The exchanges every step is made of

  /**
   * A command-phase frame with its payload, then the status frame; the
   * first non-OK result is returned.
   */
  function SetSpec(cmd: byte, data: seq<byte>, rs: seq<Reply>): Out<()>
    requires |data| < 0x1_0000
  {
    var c := SendCmdSpec(PktCmd, cmd, data, rs);
    if c.ret != ERROR_OK then c
    else After(c.sent, StatusSpec(Drop(rs, |c.sent|)))
  }

  /**
   * SetSpec, then an empty status-phase frame for the same command, then
   * the data frame; a failed data read gives ERROR_FAIL. The value is the
   * data fine_get_data stored.
   */
  function GetSpec(cmd: byte, data: seq<byte>, rs: seq<Reply>): Out<seq<byte>>
    requires |data| < 0x1_0000
  {
    var s := SetSpec(cmd, data, rs);
    if s.ret != ERROR_OK then WithVal(s, [])
    else
      var c := SendCmdSpec(PktStatus, cmd, [], Drop(rs, |s.sent|));
      if c.ret != ERROR_OK then Out(c.ret, s.sent + c.sent, [])
      else
        var d := GetDataSpec(Drop(rs, |s.sent| + |c.sent|));
        if d.ret < 0 then Out(ERROR_FAIL, s.sent + c.sent + d.sent, [])
        else Out(ERROR_OK, s.sent + c.sent + d.sent, d.val)
  }

  /** The number of exchanges before the first data request of GetSpec. */
  function DataStart(cmd: byte, data: seq<byte>, rs: seq<Reply>): nat
    requires |data| < 0x1_0000
  {
    var s := SetSpec(cmd, data, rs);
    |s.sent| + |SendCmdSpec(PktStatus, cmd, [], Drop(rs, |s.sent|)).sent|
  }

  /** Bytes 1..4 of the answer to data request `j` of a data frame starting `k` exchanges ahead. */
  function Chunk(rs: seq<Reply>, k: nat, j: nat): (c: seq<byte>)
    ensures |c| == 4
  {
    XferIn(At(rs, k + j), 5)[1..5]
  }

  /** memcpy of `val` into the start of the caller's buffer `buf`, cut at the buffer's end. */
  function Overlay(buf: seq<byte>, val: seq<byte>): (r: seq<byte>)
    ensures |r| == |buf|
  {
    if |val| >= |buf| then val[..|buf|] else val + buf[|val|..]
  }

  /** Byte `i` of the buffer after the copy: the copied byte, or the old one past the copied length. */
  lemma OverlayIndex(buf: seq<byte>, val: seq<byte>, i: nat)
    requires i < |buf|
    ensures Overlay(buf, val)[i] == if i < |val| then val[i] else buf[i]
  {
  }

  /** `v` is bytes 1..4 of answers k, k + 1, ... in 4-byte groups. */
  ghost predicate GroupsFrom(v: seq<byte>, rs: seq<Reply>, k: nat)
  {
    forall j :: 0 <= j && 4 * j + 4 <= |v| ==> v[4 * j..4 * j + 4] == Chunk(rs, k, j)
  }

  /**
   * After a successful GetSpec the data is one 4-byte group more than the
   * count the first data answer announced, group j being bytes 1..4 of data
   * answer j counted from the first data request. That count is at least
   * one, so there are always at least eight bytes.
   */
  lemma GetSpecBytes(cmd: byte, data: seq<byte>, rs: seq<Reply>)
    requires |data| < 0x1_0000
    ensures var g := GetSpec(cmd, data, rs);
            g.ret == ERROR_OK ==>
              |g.val| == 4 + 4 * DataCount(At(rs, DataStart(cmd, data, rs))) && |g.val| >= 8
              && GroupsFrom(g.val, rs, DataStart(cmd, data, rs))
  {
    if GetSpec(cmd, data, rs).ret == ERROR_OK {
      var k := DataStart(cmd, data, rs);
      GetSpecData(cmd, data, rs);
      var v := GetDataSpec(Drop(rs, k)).val;
      GetDataResult(Drop(rs, k));
      GetDataBytes(Drop(rs, k));
      forall j | 0 <= j && 4 * j + 4 <= |v|
        ensures v[4 * j..4 * j + 4] == Chunk(rs, k, j)
      {
        DropDrop(rs, k, j);
        assert At(Drop(rs, k), j) == At(rs, k + j);
        assert At(Drop(rs, k), j).Answer? && v[4 * j..4 * j + 4] == Fit(At(Drop(rs, k), j).bytes, 5)[1..5];
      }
      assert At(Drop(rs, k), 0) == At(rs, k) by { DropDrop(rs, k, 0); }
      var head := Fit(At(rs, k).bytes, 5);
      NbXferIsCeiling(head[2], head[3]);
    }
  }

  /** A successful GetSpec holds what the data frame read after DataStart exchanges. */
  lemma GetSpecData(cmd: byte, data: seq<byte>, rs: seq<Reply>)
    requires |data| < 0x1_0000
    ensures GetSpec(cmd, data, rs).ret == ERROR_OK ==>
              GetDataSpec(Drop(rs, DataStart(cmd, data, rs))).ret >= 0
              && GetSpec(cmd, data, rs).val == GetDataSpec(Drop(rs, DataStart(cmd, data, rs))).val
  {
    if GetSpec(cmd, data, rs).ret == ERROR_OK {
      GetSpecFrames(cmd, data, rs);
      var s := SetSpec(cmd, data, rs);
      assert DataStart(cmd, data, rs) == |s.sent| + |SendCmdSpec(PktStatus, cmd, [], Drop(rs, |s.sent|)).sent|;
    }
  }

  /** A GetSpec succeeds only when its command and its status-phase frame both did. */
  lemma GetSpecFrames(cmd: byte, data: seq<byte>, rs: seq<Reply>)
    requires |data| < 0x1_0000 && GetSpec(cmd, data, rs).ret == ERROR_OK
    ensures SetSpec(cmd, data, rs).ret == ERROR_OK
    ensures SendCmdSpec(PktStatus, cmd, [], Drop(rs, |SetSpec(cmd, data, rs).sent|)).ret == ERROR_OK
  {
  }

  method SetCommand(link: Link, cmd: byte, data: seq<byte>) returns (ret: int)
    requires |data| < 0x1_0000
    modifies link
    ensures var o := SetSpec(cmd, data, old(link.Pending()));
            ret == o.ret && link.log == old(link.log) + o.sent
  {
    ghost var l0 := link.log;
    ghost var p0 := link.Pending();
    ret := SendCmd(link, PktCmd, cmd, data);
    if ret != ERROR_OK {
      return ret;
    }
    ghost var c := SendCmdSpec(PktCmd, cmd, data, p0);
    PendingAfter(l0, c.sent, link.script);
    ret := GetStatusPacket(link);
    AppendAssoc(l0, c.sent, StatusSpec(Drop(p0, |c.sent|)).sent);
  }

  method GetCommand(link: Link, cmd: byte, data: seq<byte>) returns (ret: int, buf: seq<byte>)
    requires |data| < 0x1_0000
    modifies link
    ensures var o := GetSpec(cmd, data, old(link.Pending()));
            ret == o.ret && buf == o.val && link.log == old(link.log) + o.sent
  {
    ghost var l0 := link.log;
    ghost var p0 := link.Pending();
    ret := SetCommand(link, cmd, data);
    ghost var s := SetSpec(cmd, data, p0);
    if ret != ERROR_OK {
      assert GetSpec(cmd, data, p0) == WithVal(s, []);
      return ret, [];
    }
    PendingAfter(l0, s.sent, link.script);
    ghost var l1 := link.log;
    ret, buf := FetchData(link, cmd);
    ghost var c := SendCmdSpec(PktStatus, cmd, [], Drop(p0, |s.sent|));
    if ret == ERROR_OK {
      DropDrop(p0, |s.sent|, |c.sent|);
      ghost var d := GetDataSpec(Drop(p0, |s.sent| + |c.sent|));
      AppendAssoc(l1, c.sent, d.sent);
      AppendAssoc(l0, s.sent, c.sent + d.sent);
      AppendAssoc(s.sent, c.sent, d.sent);
      assert link.log == l0 + (s.sent + c.sent + d.sent);
      assert GetSpec(cmd, data, p0) == Out(ERROR_OK, s.sent + c.sent + d.sent, d.val);
    } else if c.ret != ERROR_OK {
      AppendAssoc(l0, s.sent, c.sent);
      assert link.log == l0 + (s.sent + c.sent);
      assert GetSpec(cmd, data, p0) == Out(c.ret, s.sent + c.sent, []);
    } else {
      DropDrop(p0, |s.sent|, |c.sent|);
      ghost var d := GetDataSpec(Drop(p0, |s.sent| + |c.sent|));
      AppendAssoc(l1, c.sent, d.sent);
      AppendAssoc(l0, s.sent, c.sent + d.sent);
      AppendAssoc(s.sent, c.sent, d.sent);
      assert link.log == l0 + (s.sent + c.sent + d.sent);
      assert GetSpec(cmd, data, p0) == Out(ERROR_FAIL, s.sent + c.sent + d.sent, []);
    }
  }

  /** The second half of GetCommand: the empty status-phase frame, then the data frame. */
  method FetchData(link: Link, cmd: byte) returns (ret: int, buf: seq<byte>)
    modifies link
    ensures var c := SendCmdSpec(PktStatus, cmd, [], old(link.Pending()));
            var d := GetDataSpec(Drop(old(link.Pending()), |c.sent|));
            if c.ret != ERROR_OK then ret == c.ret && buf == [] && link.log == old(link.log) + c.sent
            else if d.ret < 0 then ret == ERROR_FAIL && buf == [] && link.log == old(link.log) + c.sent + d.sent
            else ret == ERROR_OK && buf == d.val && link.log == old(link.log) + c.sent + d.sent
  {
    ghost var l0 := link.log;
    ghost var p0 := link.Pending();
    ret := SendCmd(link, PktStatus, cmd, []);
    if ret != ERROR_OK {
      return ret, [];
    }
    ghost var c := SendCmdSpec(PktStatus, cmd, [], p0);
    PendingAfter(l0, c.sent, link.script);
    var n;
    n, buf := GetData(link);
    if n < 0 {
      return ERROR_FAIL, [];
    }
    return ERROR_OK, buf;
  }

  // ---------------------------------------------------------------------
  // The negotiation steps

  /** The device-type fields at their offsets in the data buffer. */
  function DecodeDeviceType(dev: Record, b: seq<byte>): Record
    requires |b| >= 28
  {
    dev.(chipType := b[4..12],
         maxInputClkFreq := AsInt(GetU32BE(b, 12)),
         minInputClkFreq := AsInt(GetU32BE(b, 16)),
         maxSysClkFreq := AsInt(GetU32BE(b, 20)),
         minSysClkFreq := AsInt(GetU32BE(b, 24)))
  }

  /** fine_get_device_type: the chip type and the four clock bounds; nothing is written on failure. */
  function DeviceTypeSpec(dev: Record, rs: seq<Reply>): (o: Out<Record>)
    ensures o.ret != ERROR_OK ==> o.val == dev
    ensures o.val == dev.(chipType := o.val.chipType,
                          maxInputClkFreq := o.val.maxInputClkFreq, minInputClkFreq := o.val.minInputClkFreq,
                          maxSysClkFreq := o.val.maxSysClkFreq, minSysClkFreq := o.val.minSysClkFreq)
    ensures o.ret == ERROR_OK ==> |o.val.chipType| == TYPE_LEN
  {
    var g := GetSpec(FINE_CMD_GET_DEVICE_TYPE, [], rs);
    if g.ret != ERROR_OK then WithVal(g, dev)
    else WithVal(g, DecodeDeviceType(dev, Overlay(Zeros(DEVICE_TYPE_BUF), g.val)))
  }

  method GetDeviceType(link: Link, rx: Rx) returns (ret: int)
    requires rx.Valid()
    modifies link, rx`chipType, rx`maxInputClkFreq, rx`minInputClkFreq, rx`maxSysClkFreq, rx`minSysClkFreq
    ensures rx.Valid()
    ensures var o := DeviceTypeSpec(old(rx.View()), old(link.Pending()));
            ret == o.ret && link.log == old(link.log) + o.sent && rx.View() == o.val
  {
    var buff := Zeros(DEVICE_TYPE_BUF);
    var data;
    ret, data := GetCommand(link, FINE_CMD_GET_DEVICE_TYPE, []);
    if ret != ERROR_OK {
      return ret;
    }
    buff := Overlay(buff, data);
    StoreDeviceType(rx, buff);
    return ERROR_OK;
  }

  /** The field writes at the end of fine_get_device_type. */
  method StoreDeviceType(rx: Rx, buff: seq<byte>)
    requires rx.Valid() && |buff| == DEVICE_TYPE_BUF
    modifies rx`chipType, rx`maxInputClkFreq, rx`minInputClkFreq, rx`maxSysClkFreq, rx`minSysClkFreq
    ensures rx.Valid()
    ensures rx.View() == DecodeDeviceType(old(rx.View()), buff)
  {
    rx.chipType := buff[4..12];
    rx.maxInputClkFreq := AsInt(GetU32BE(buff, 12));
    rx.minInputClkFreq := AsInt(GetU32BE(buff, 16));
    rx.maxSysClkFreq := AsInt(GetU32BE(buff, 20));
    rx.minSysClkFreq := AsInt(GetU32BE(buff, 24));
  }

  /** TARGET_BIG_ENDIAN and TARGET_LITTLE_ENDIAN. */
  datatype Endianness = BigEndian | LittleEndian

  /** The one payload byte of the endianness command: 1 for little endian, else 0. */
  function EndiannessByte(e: Endianness): byte
  {
    if e == LittleEndian then 1 else 0
  }

  /** fine_set_endianness. */
  function EndiannessSpec(e: Endianness, rs: seq<Reply>): Out<()>
  {
    SetSpec(FINE_CMD_SET_ENDIANNESS, [EndiannessByte(e)], rs)
  }

  method SetEndianness(link: Link, e: Endianness) returns (ret: int)
    modifies link
    ensures var o := EndiannessSpec(e, old(link.Pending()));
            ret == o.ret && link.log == old(link.log) + o.sent
  {
    var val: byte := if e == LittleEndian then 1 else 0;
    ret := SetCommand(link, FINE_CMD_SET_ENDIANNESS, [val]);
  }

  /** `f` MHz in Hz, as the uint32_t that buf_set_u32_be receives. */
  function Hz(f: int): u32
  {
    (f * 1000000) % TWO32
  }

  /** The 8-byte payload of the frequency command: input then system clock, in Hz, big-endian. */
  function FrequencyPayload(inFreq: int, sysFreq: int): (p: seq<byte>)
    ensures |p| == 8
  {
    SetU32BE(SetU32BE(Zeros(8), 0, Hz(inFreq)), 4, Hz(sysFreq))
  }

  /** fine_set_frequency: the negotiated system and peripheral clocks at offsets 4 and 8. */
  function FrequencySpec(inFreq: int, sysFreq: int, dev: Record, rs: seq<Reply>): (o: Out<Record>)
    ensures o.ret != ERROR_OK ==> o.val == dev
    ensures o.val == dev.(sysClkFreq := o.val.sysClkFreq, periphClkFreq := o.val.periphClkFreq)
  {
    var g := GetSpec(FINE_CMD_SET_FREQUENCY, FrequencyPayload(inFreq, sysFreq), rs);
    if g.ret != ERROR_OK then WithVal(g, dev)
    else
      var b := Overlay(Zeros(FREQUENCY_BUF), g.val);
      WithVal(g, dev.(sysClkFreq := AsInt(GetU32BE(b, 4)), periphClkFreq := AsInt(GetU32BE(b, 8))))
  }

  method SetFrequency(link: Link, inFreq: int, sysFreq: int, rx: Rx) returns (ret: int)
    requires rx.Valid()
    modifies link, rx`sysClkFreq, rx`periphClkFreq
    ensures rx.Valid()
    ensures var o := FrequencySpec(inFreq, sysFreq, old(rx.View()), old(link.Pending()));
            ret == o.ret && link.log == old(link.log) + o.sent && rx.View() == o.val
  {
    var buff := Zeros(FREQUENCY_BUF);
    var out := new byte[8](_ => 0);
    assert out[..] == Zeros(8);
    SetU32BEInPlace(out, 0, Hz(inFreq));
    SetU32BEInPlace(out, 4, Hz(sysFreq));
    assert out[..] == FrequencyPayload(inFreq, sysFreq);
    var data;
    ret, data := GetCommand(link, FINE_CMD_SET_FREQUENCY, out[..]);
    if ret != ERROR_OK {
      return ret;
    }
    buff := Overlay(buff, data);
    rx.sysClkFreq := AsInt(GetU32BE(buff, 4));
    rx.periphClkFreq := AsInt(GetU32BE(buff, 8));
    return ERROR_OK;
  }

  /** The 4-byte payload of the bitrate command: the bitrate, big-endian. */
  function BitratePayload(bitrate: int): (p: seq<byte>)
    ensures |p| == 4
  {
    SetU32BE(Zeros(4), 0, bitrate % TWO32)
  }

  /** fine_set_bitrate. */
  function BitrateSpec(bitrate: int, rs: seq<Reply>): Out<()>
  {
    SetSpec(FINE_CMD_SET_BITRATE, BitratePayload(bitrate), rs)
  }

  method SetBitrate(link: Link, bitrate: int) returns (ret: int)
    modifies link
    ensures var o := BitrateSpec(bitrate, old(link.Pending()));
            ret == o.ret && link.log == old(link.log) + o.sent
  {
    var out := new byte[4](_ => 0);
    assert out[..] == Zeros(4);
    SetU32BEInPlace(out, 0, bitrate % TWO32);
    ret := SetCommand(link, FINE_CMD_SET_BITRATE, out[..]);
  }

  /** fine_send_sync: the sync command, without payload. */
  function SyncSpec(rs: seq<Reply>): Out<()>
  {
    SetSpec(FINE_CMD_SYNC, [], rs)
  }

  method SendSync(link: Link) returns (ret: int)
    modifies link
    ensures var o := SyncSpec(old(link.Pending()));
            ret == o.ret && link.log == old(link.log) + o.sent
  {
    ret := SetCommand(link, FINE_CMD_SYNC, []);
  }

  /** fine_get_serial_protect_state: serial programming is allowed when data byte 4 is zero. */
  function AuthModeSpec(dev: Record, rs: seq<Reply>): (o: Out<Record>)
    ensures o.ret != ERROR_OK ==> o.val == dev
    ensures o.val == dev.(serialAllowed := o.val.serialAllowed)
    ensures o.ret == ERROR_OK ==> o.val.serialAllowed == 0 || o.val.serialAllowed == 1
  {
    var g := GetSpec(FINE_CMD_GET_AUTH_MODE, [], rs);
    if g.ret != ERROR_OK then WithVal(g, dev)
    else
      var b := Overlay(Zeros(AUTH_MODE_BUF), g.val);
      WithVal(g, dev.(serialAllowed := if b[4] != 0 then 0 else 1))
  }

  method GetSerialProtectState(link: Link, rx: Rx) returns (ret: int)
    requires rx.Valid()
    modifies link, rx`serialAllowed
    ensures rx.Valid()
    ensures var o := AuthModeSpec(old(rx.View()), old(link.Pending()));
            ret == o.ret && link.log == old(link.log) + o.sent && rx.View() == o.val
  {
    var buff := Zeros(AUTH_MODE_BUF);
    var data;
    ret, data := GetCommand(link, FINE_CMD_GET_AUTH_MODE, []);
    if ret != ERROR_OK {
      return ret;
    }
    buff := Overlay(buff, data);
    rx.serialAllowed := if buff[4] != 0 then 0 else 1;
    return ERROR_OK;
  }

  /** fine_check_id_code: the 16-byte authentication ID as payload. */
  function CheckIdSpec(id: seq<byte>, rs: seq<Reply>): Out<()>
    requires |id| == ID_CODE_LEN
  {
    SetSpec(FINE_CMD_CHECK_ID_CODE, id, rs)
  }

  method CheckIdCode(link: Link, id: seq<byte>) returns (ret: int)
    requires |id| == ID_CODE_LEN
    modifies link
    ensures var o := CheckIdSpec(id, old(link.Pending()));
            ret == o.ret && link.log == old(link.log) + o.sent
  {
    ret := SetCommand(link, FINE_CMD_CHECK_ID_CODE, id);
  }

  /** An area-information buffer decoded: the kind at 4, then start, end, erase and write units, big-endian, at 5, 9, 13, 17. */
  function DecodeArea(b: seq<byte>): MemArea
    requires |b| >= 21
  {
    MemArea(b[4], GetU32BE(b, 5), GetU32BE(b, 9), GetU32BE(b, 13), GetU32BE(b, 17))
  }

  /**
   * The loop of fine_get_device_mem_info from area `i` on, with the data
   * buffer `buff` left by the previous read.
   */
  function AreaLoop(i: nat, count: nat, buff: seq<byte>, dev: Record, rs: seq<Reply>): (o: Out<Record>)
    requires i <= count < 256 && i <= AREA_CAPACITY && |buff| == AREA_BUF && WellFormed(dev)
    ensures WellFormed(o.val) && o.val == dev.(area := o.val.area)
    ensures o.ret == ERROR_OK ==> count <= AREA_CAPACITY
    ensures o.ret == AREA_OVERFLOW ==> count > AREA_CAPACITY
    decreases count - i, 1
  {
    if i < count then AreaRound(i, count, buff, dev, rs) else Out(ERROR_OK, [], dev)
  }

  /**
   * One round of that loop and the rounds after it: area `i` is asked for
   * with the one-byte payload [i]; an index past the table's capacity stops
   * with AREA_OVERFLOW where the source would write area[8].
   */
  function AreaRound(i: nat, count: nat, buff: seq<byte>, dev: Record, rs: seq<Reply>): (o: Out<Record>)
    requires i < count < 256 && i <= AREA_CAPACITY && |buff| == AREA_BUF && WellFormed(dev)
    ensures WellFormed(o.val) && o.val == dev.(area := o.val.area)
    ensures o.ret == ERROR_OK ==> count <= AREA_CAPACITY
    ensures o.ret == AREA_OVERFLOW ==> count > AREA_CAPACITY
    decreases count - i, 0
  {
    var g := GetSpec(FINE_CMD_GET_AREA_INFO, [i], rs);
    if g.ret != ERROR_OK then WithVal(g, dev)
    else if i >= AREA_CAPACITY then Out(AREA_OVERFLOW, g.sent, dev)
    else
      var b := Overlay(buff, g.val);
      After(g.sent, AreaLoop(i + 1, count, b, dev.(area := dev.area[i := DecodeArea(b)]), Drop(rs, |g.sent|)))
  }

  /**
   * fine_get_device_mem_info: the area count from data byte 4, recorded
   * before any area is read, then one area-information command per area.
   */
  function MemInfoSpec(dev: Record, rs: seq<Reply>): (o: Out<Record>)
    requires WellFormed(dev)
    ensures WellFormed(o.val) && o.val == dev.(areaCount := o.val.areaCount, area := o.val.area)
    ensures o.ret == ERROR_OK ==> 0 <= o.val.areaCount <= AREA_CAPACITY
  {
    var g := GetSpec(FINE_CMD_GET_AREA_COUNT, [], rs);
    if g.ret != ERROR_OK then WithVal(g, dev)
    else
      var buff := Overlay(Zeros(AREA_BUF), g.val);
      After(g.sent, AreaLoop(0, buff[4], buff, dev.(areaCount := buff[4]), Drop(rs, |g.sent|)))
  }

  method GetDeviceMemInfo(link: Link, rx: Rx) returns (ret: int)
    requires rx.Valid()
    modifies link, rx`areaCount, rx`area
    ensures rx.Valid()
    ensures var o := MemInfoSpec(old(rx.View()), old(link.Pending()));
            ret == o.ret && link.log == old(link.log) + o.sent && rx.View() == o.val
  {
    ghost var l0 := link.log;
    ghost var pend := link.Pending();
    var buff := Zeros(AREA_BUF);
    var data;
    ret, data := GetCommand(link, FINE_CMD_GET_AREA_COUNT, []);
    if ret != ERROR_OK {
      return ret;
    }
    ghost var sent := GetSpec(FINE_CMD_GET_AREA_COUNT, [], pend).sent;
    PendingAfter(l0, sent, link.script);
    buff := Overlay(buff, data);
    rx.areaCount := buff[4];
    ret := ReadAreas(link, rx, buff);
    AppendAssoc(l0, sent, link.log[|l0 + sent|..]);
  }

  /** The loop of fine_get_device_mem_info, over the area count already recorded. */
  method ReadAreas(link: Link, rx: Rx, buff0: seq<byte>) returns (ret: int)
    requires 0 <= rx.areaCount < 256 && |buff0| == AREA_BUF && rx.Valid()
    modifies link, rx`area
    ensures rx.Valid()
    ensures var o := AreaLoop(0, old(rx.areaCount), buff0, old(rx.View()), old(link.Pending()));
            ret == o.ret && link.log == old(link.log) + o.sent && rx.View() == o.val
  {
    ghost var l0 := link.log;
    ghost var count: nat := rx.areaCount;
    ghost var dev := rx.View();
    ghost var total := AreaLoop(0, count, buff0, dev, link.Pending());
    ghost var sent: seq<Exchange> := [];
    var buff := buff0;
    var i: nat := 0;
    while i < rx.areaCount
      invariant i <= count && i <= AREA_CAPACITY && |buff| == AREA_BUF
      invariant rx.View() == dev.(area := rx.area) && |rx.area| == AREA_CAPACITY
      invariant link.log == l0 + sent
      invariant total == After(sent, AreaLoop(i, count, buff, dev.(area := rx.area), link.Pending()))
      decreases count - i
    {
      var r;
      var j := i;
      i := i + 1;
      r, buff, sent := AreaStep(link, rx, j, i, count, dev, buff, l0, sent, total);
      if r != ERROR_OK {
        return r;
      }
    }
    assert sent + [] == sent;
    ret := ERROR_OK;
  }

  /**
   * One round of the loop of fine_get_device_mem_info: area `i` is asked
   * for, its data copied over the buffer and decoded into area[i]. An index
   * past the table's capacity stops with AREA_OVERFLOW.
   */
  method GetAreaInfo(link: Link, rx: Rx, i: nat, buff: seq<byte>) returns (ret: int, next: seq<byte>)
    requires i < 256 && |buff| == AREA_BUF && |rx.area| == AREA_CAPACITY
    modifies link, rx`area
    ensures |next| == AREA_BUF && |rx.area| == AREA_CAPACITY
    ensures var g := GetSpec(FINE_CMD_GET_AREA_INFO, [i], old(link.Pending()));
            && link.log == old(link.log) + g.sent
            && (g.ret != ERROR_OK ==> ret == g.ret && next == buff && rx.area == old(rx.area))
            && (g.ret == ERROR_OK && i >= AREA_CAPACITY ==> ret == AREA_OVERFLOW && next == buff && rx.area == old(rx.area))
            && (g.ret == ERROR_OK && i < AREA_CAPACITY ==>
                  ret == ERROR_OK && next == Overlay(buff, g.val) && rx.area == old(rx.area)[i := DecodeArea(next)])
  {
    var data;
    ret, data := GetCommand(link, FINE_CMD_GET_AREA_INFO, [i]);
    if ret != ERROR_OK {
      return ret, buff;
    }
    if i >= AREA_CAPACITY {
      return AREA_OVERFLOW, buff;
    }
    next := Overlay(buff, data);
    rx.area := rx.area[i := DecodeArea(next)];
  }

  /**
   * One pass of the loop of ReadAreas: `dev` holds the record's other
   * fields, `succ` is the next index, `sent` what the loop has logged since
   * `l0` and `total` the outcome of the whole loop.
   */
  method AreaStep(link: Link, rx: Rx, i: nat, ghost succ: nat, ghost count: nat, ghost dev: Record, buff: seq<byte>,
                  ghost l0: seq<Exchange>, ghost sent: seq<Exchange>, ghost total: Out<Record>)
    returns (ret: int, next: seq<byte>, ghost sent2: seq<Exchange>)
    requires i < count < 256 && i <= AREA_CAPACITY && |buff| == AREA_BUF && succ == i + 1
    requires WellFormed(dev) && |rx.area| == AREA_CAPACITY && link.log == l0 + sent
    requires total == After(sent, AreaLoop(i, count, buff, dev.(area := rx.area), link.Pending()))
    modifies link, rx`area
    ensures |rx.area| == AREA_CAPACITY && |next| == AREA_BUF && link.log == l0 + sent2
    ensures ret != ERROR_OK ==> total == Out(ret, sent2, dev.(area := rx.area))
    ensures ret == ERROR_OK ==> succ <= AREA_CAPACITY && total == After(sent2, AreaLoop(succ, count, next, dev.(area := rx.area), link.Pending()))
  {
    ghost var pend := link.Pending();
    ghost var step := GetSpec(FINE_CMD_GET_AREA_INFO, [i], pend).sent;
    AreaLoopRound(i, count, buff, dev.(area := rx.area), pend);
    ret, next := GetAreaInfo(link, rx, i, buff);
    AppendAssoc(l0, sent, step);
    sent2 := sent + step;
    if ret == ERROR_OK {
      PendingAfter(l0 + sent, step, link.script);
      AfterAfter(sent, step, AreaLoop(succ, count, next, dev.(area := rx.area), link.Pending()));
    }
  }

  /** AreaLoop at an index below the count, in terms of the area-information command it starts with. */
  lemma AreaLoopRound(i: nat, count: nat, buff: seq<byte>, dev: Record, rs: seq<Reply>)
    requires i < count < 256 && i <= AREA_CAPACITY && |buff| == AREA_BUF && WellFormed(dev)
    ensures var g := GetSpec(FINE_CMD_GET_AREA_INFO, [i], rs);
            var o := AreaLoop(i, count, buff, dev, rs);
            && (g.ret != ERROR_OK ==> o == Out(g.ret, g.sent, dev))
            && (g.ret == ERROR_OK && i >= AREA_CAPACITY ==> o == Out(AREA_OVERFLOW, g.sent, dev))
            && (g.ret == ERROR_OK && i < AREA_CAPACITY ==>
                  var b := Overlay(buff, g.val);
                  o == After(g.sent, AreaLoop(i + 1, count, b, dev.(area := dev.area[i := DecodeArea(b)]), Drop(rs, |g.sent|))))
  {
  }

  /** The replies still pending when an area loop started at round i with `rs` reaches round j. */
  function AreaReplies(i: nat, j: nat, rs: seq<Reply>): seq<Reply>
    requires j < 256
    decreases j - i
  {
    if i >= j then rs
    else AreaReplies(i + 1, j, Drop(rs, |GetSpec(FINE_CMD_GET_AREA_INFO, [i], rs).sent|))
  }

  /** The shared buffer when an area loop started at round i with `buff` and `rs` reaches round j. */
  function AreaBuffer(i: nat, j: nat, buff: seq<byte>, rs: seq<Reply>): (b: seq<byte>)
    requires j < 256 && |buff| == AREA_BUF
    ensures |b| == AREA_BUF
    decreases j - i
  {
    if i >= j then buff
    else
      var g := GetSpec(FINE_CMD_GET_AREA_INFO, [i], rs);
      AreaBuffer(i + 1, j, Overlay(buff, g.val), Drop(rs, |g.sent|))
  }

  /** The exchanges of rounds i..count-1 when every round succeeds: round j asks for area j. */
  function AreaRequests(i: nat, count: nat, rs: seq<Reply>): seq<Exchange>
    requires count < 256
    decreases count - i
  {
    if i >= count then []
    else
      var g := GetSpec(FINE_CMD_GET_AREA_INFO, [i], rs);
      g.sent + AreaRequests(i + 1, count, Drop(rs, |g.sent|))
  }

  /** Entries i..count-1 are, in order, the areas decoded after each round's area command succeeded. */
  ghost predicate AreasDecoded(area: seq<MemArea>, i: nat, count: nat, buff: seq<byte>, rs: seq<Reply>)
    requires count < 256 && count <= |area| && |buff| == AREA_BUF
  {
    forall j :: i <= j < count ==>
      && GetSpec(FINE_CMD_GET_AREA_INFO, [j], AreaReplies(i, j, rs)).ret == ERROR_OK
      && area[j] == DecodeArea(Overlay(AreaBuffer(i, j, buff, rs), GetSpec(FINE_CMD_GET_AREA_INFO, [j], AreaReplies(i, j, rs)).val))
  }

  /** The area loop writes no entry outside rounds i..count-1, whatever its result. */
  lemma AreaLoopKeeps(i: nat, count: nat, buff: seq<byte>, dev: Record, rs: seq<Reply>)
    requires i <= count < 256 && i <= AREA_CAPACITY && |buff| == AREA_BUF && WellFormed(dev)
    ensures forall j :: 0 <= j < AREA_CAPACITY && (j < i || count <= j) ==>
              AreaLoop(i, count, buff, dev, rs).val.area[j] == dev.area[j]
  {
    forall j | 0 <= j < AREA_CAPACITY && (j < i || count <= j)
      ensures AreaLoop(i, count, buff, dev, rs).val.area[j] == dev.area[j]
    {
      AreaLoopKeepsAt(i, count, buff, dev, rs, j);
    }
  }

  /**
   * One round of the area loop, named: either the loop stops here with the
   * table untouched, or it records `e` at entry i and goes on from the buffer
   * `b` and the replies `rest` after sending `sent`.
   */
  lemma AreaLoopStep(i: nat, count: nat, buff: seq<byte>, dev: Record, rs: seq<Reply>)
    returns (go: bool, e: MemArea, b: seq<byte>, rest: seq<Reply>, sent: seq<Exchange>)
    requires i < count < 256 && i <= AREA_CAPACITY && |buff| == AREA_BUF && WellFormed(dev)
    ensures |b| == AREA_BUF
    ensures !go ==> AreaLoop(i, count, buff, dev, rs).ret != ERROR_OK && AreaLoop(i, count, buff, dev, rs).val == dev
    ensures go ==> i < AREA_CAPACITY
                   && AreaLoop(i, count, buff, dev, rs) == After(sent, AreaLoop(i + 1, count, b, dev.(area := dev.area[i := e]), rest))
                   && sent == GetSpec(FINE_CMD_GET_AREA_INFO, [i], rs).sent
                   && rest == Drop(rs, |sent|)
                   && AreaRequests(i, count, rs) == sent + AreaRequests(i + 1, count, rest)
  {
    var g := GetSpec(FINE_CMD_GET_AREA_INFO, [i], rs);
    AreaLoopRound(i, count, buff, dev, rs);
    go := g.ret == ERROR_OK && i < AREA_CAPACITY;
    b := Overlay(buff, g.val);
    e := DecodeArea(b);
    sent := g.sent;
    rest := Drop(rs, |g.sent|);
  }

  /** What a continuing round records: the area decoded after its area command succeeded. */
  lemma AreaLoopStepEntry(i: nat, count: nat, buff: seq<byte>, dev: Record, rs: seq<Reply>, j: nat)
    returns (go: bool, e: MemArea, b: seq<byte>, rest: seq<Reply>)
    requires i < count < 256 && i <= AREA_CAPACITY && |buff| == AREA_BUF && WellFormed(dev) && i <= j < count
    ensures |b| == AREA_BUF
    ensures !go ==> AreaLoop(i, count, buff, dev, rs).ret != ERROR_OK
    ensures go ==> i < AREA_CAPACITY
                   && AreaLoop(i, count, buff, dev, rs) == After(GetSpec(FINE_CMD_GET_AREA_INFO, [i], rs).sent, AreaLoop(i + 1, count, b, dev.(area := dev.area[i := e]), rest))
    ensures go && j == i ==>
              GetSpec(FINE_CMD_GET_AREA_INFO, [j], AreaReplies(i, j, rs)).ret == ERROR_OK
              && e == DecodeArea(Overlay(AreaBuffer(i, j, buff, rs), GetSpec(FINE_CMD_GET_AREA_INFO, [j], AreaReplies(i, j, rs)).val))
    ensures go && j > i ==> AreaReplies(i, j, rs) == AreaReplies(i + 1, j, rest) && AreaBuffer(i, j, buff, rs) == AreaBuffer(i + 1, j, b, rest)
  {
    var g := GetSpec(FINE_CMD_GET_AREA_INFO, [i], rs);
    AreaLoopRound(i, count, buff, dev, rs);
    go := g.ret == ERROR_OK && i < AREA_CAPACITY;
    b := Overlay(buff, g.val);
    e := DecodeArea(b);
    rest := Drop(rs, |g.sent|);
  }

  /** Entry j outside rounds i..count-1 is left as it was. */
  lemma {:induction false} AreaLoopKeepsAt(i: nat, count: nat, buff: seq<byte>, dev: Record, rs: seq<Reply>, j: nat)
    requires i <= count < 256 && i <= AREA_CAPACITY && |buff| == AREA_BUF && WellFormed(dev)
    requires j < AREA_CAPACITY && (j < i || count <= j)
    ensures AreaLoop(i, count, buff, dev, rs).val.area[j] == dev.area[j]
    decreases count - i
  {
    if i < count {
      var go, e, b, rest, sent := AreaLoopStep(i, count, buff, dev, rs);
      if go {
        AreaLoopKeepsAt(i + 1, count, b, dev.(area := dev.area[i := e]), rest, j);
      }
    }
  }

  /** A successful area loop sent the area commands for rounds i..count-1 in turn. */
  lemma {:induction false} AreaLoopSent(i: nat, count: nat, buff: seq<byte>, dev: Record, rs: seq<Reply>)
    requires i <= count < 256 && i <= AREA_CAPACITY && |buff| == AREA_BUF && WellFormed(dev)
    ensures var o := AreaLoop(i, count, buff, dev, rs);
            o.ret == ERROR_OK ==> o.sent == AreaRequests(i, count, rs)
    decreases count - i
  {
    if i < count {
      var go, e, b, rest, sent := AreaLoopStep(i, count, buff, dev, rs);
      if go {
        AreaLoopSent(i + 1, count, b, dev.(area := dev.area[i := e]), rest);
      }
    }
  }

  /** In a successful area loop, entry j is decoded after the area command of round j succeeded. */
  lemma {:induction false} AreaLoopEntry(i: nat, count: nat, buff: seq<byte>, dev: Record, rs: seq<Reply>, j: nat)
    requires i <= count < 256 && i <= AREA_CAPACITY && |buff| == AREA_BUF && WellFormed(dev)
    requires i <= j < count
    ensures var o := AreaLoop(i, count, buff, dev, rs);
            var g := GetSpec(FINE_CMD_GET_AREA_INFO, [j], AreaReplies(i, j, rs));
            o.ret == ERROR_OK ==>
              j < AREA_CAPACITY && g.ret == ERROR_OK
              && o.val.area[j] == DecodeArea(Overlay(AreaBuffer(i, j, buff, rs), g.val))
    decreases count - i
  {
    if j == i {
      AreaLoopEntryHere(i, count, buff, dev, rs);
    } else {
      var go, e, b, rest := AreaLoopStepEntry(i, count, buff, dev, rs, j);
      if go {
        AreaLoopEntry(i + 1, count, b, dev.(area := dev.area[i := e]), rest, j);
      }
    }
  }

  /** The entry of the round the loop starts at. */
  lemma AreaLoopEntryHere(i: nat, count: nat, buff: seq<byte>, dev: Record, rs: seq<Reply>)
    requires i < count < 256 && i <= AREA_CAPACITY && |buff| == AREA_BUF && WellFormed(dev)
    ensures var o := AreaLoop(i, count, buff, dev, rs);
            var g := GetSpec(FINE_CMD_GET_AREA_INFO, [i], AreaReplies(i, i, rs));
            o.ret == ERROR_OK ==>
              i < AREA_CAPACITY && g.ret == ERROR_OK
              && o.val.area[i] == DecodeArea(Overlay(AreaBuffer(i, i, buff, rs), g.val))
  {
    var go, e, b, rest := AreaLoopStepEntry(i, count, buff, dev, rs, i);
    if go {
      AreaLoopKeepsAt(i + 1, count, b, dev.(area := dev.area[i := e]), rest, i);
    }
  }

  /**
   * A successful area loop sent the area commands for rounds i..count-1 in
   * turn, and wrote entry j from the answer to round j.
   */
  lemma AreaLoopDecodes(i: nat, count: nat, buff: seq<byte>, dev: Record, rs: seq<Reply>)
    requires i <= count < 256 && i <= AREA_CAPACITY && |buff| == AREA_BUF && WellFormed(dev)
    ensures var o := AreaLoop(i, count, buff, dev, rs);
            o.ret == ERROR_OK ==>
              && count <= AREA_CAPACITY
              && o.sent == AreaRequests(i, count, rs)
              && AreasDecoded(o.val.area, i, count, buff, rs)
  {
    var o := AreaLoop(i, count, buff, dev, rs);
    if o.ret == ERROR_OK {
      AreaLoopSent(i, count, buff, dev, rs);
      forall j | i <= j < count
        ensures GetSpec(FINE_CMD_GET_AREA_INFO, [j], AreaReplies(i, j, rs)).ret == ERROR_OK
        ensures o.val.area[j] == DecodeArea(Overlay(AreaBuffer(i, j, buff, rs), GetSpec(FINE_CMD_GET_AREA_INFO, [j], AreaReplies(i, j, rs)).val))
      {
        AreaLoopEntry(i, count, buff, dev, rs, j);
      }
    }
  }

  /** fine_get_device_mem_info up to its loop, named: the count read failed, or the loop runs on `buff`. */
  lemma MemInfoStep(dev: Record, rs: seq<Reply>) returns (go: bool, buff: seq<byte>, rest: seq<Reply>, sent: seq<Exchange>)
    requires WellFormed(dev)
    ensures |buff| == AREA_BUF
    ensures var g := GetSpec(FINE_CMD_GET_AREA_COUNT, [], rs);
            && (go <==> g.ret == ERROR_OK)
            && buff == Overlay(Zeros(AREA_BUF), g.val) && sent == g.sent && rest == Drop(rs, |sent|)
    ensures !go ==> MemInfoSpec(dev, rs).ret != ERROR_OK
    ensures go ==> MemInfoSpec(dev, rs) == After(sent, AreaLoop(0, buff[4], buff, dev.(areaCount := buff[4]), rest))
  {
    var g := GetSpec(FINE_CMD_GET_AREA_COUNT, [], rs);
    go := g.ret == ERROR_OK;
    buff := Overlay(Zeros(AREA_BUF), g.val);
    sent := g.sent;
    rest := Drop(rs, |sent|);
  }

  /**
   * A successful fine_get_device_mem_info records byte 4 of the count buffer
   * as the area count, then sends one area command per area, asking for
   * areas 0, 1, ... in turn, and writes entry j from the answer to request
   * j; the entries past the count keep their old values, and a count of 0
   * sends nothing after the count command.
   */
  lemma MemInfoAreas(dev: Record, rs: seq<Reply>)
    requires WellFormed(dev)
    ensures var g := GetSpec(FINE_CMD_GET_AREA_COUNT, [], rs);
            var o := MemInfoSpec(dev, rs);
            var buff := Overlay(Zeros(AREA_BUF), g.val);
            var rest := Drop(rs, |g.sent|);
            o.ret == ERROR_OK ==>
              && g.ret == ERROR_OK
              && o.val.areaCount == buff[4] <= AREA_CAPACITY
              && o.sent == g.sent + AreaRequests(0, buff[4], rest)
              && (buff[4] == 0 ==> o.sent == g.sent)
              && AreasDecoded(o.val.area, 0, buff[4], buff, rest)
              && (forall j :: buff[4] <= j < AREA_CAPACITY ==> o.val.area[j] == dev.area[j])
  {
    MemInfoRequests(dev, rs);
    MemInfoEntries(dev, rs);
  }

  /** The area count, and the area commands of a successful fine_get_device_mem_info. */
  lemma MemInfoRequests(dev: Record, rs: seq<Reply>)
    requires WellFormed(dev)
    ensures var g := GetSpec(FINE_CMD_GET_AREA_COUNT, [], rs);
            var o := MemInfoSpec(dev, rs);
            var buff := Overlay(Zeros(AREA_BUF), g.val);
            o.ret == ERROR_OK ==>
              && g.ret == ERROR_OK
              && o.val.areaCount == buff[4] <= AREA_CAPACITY
              && o.sent == g.sent + AreaRequests(0, buff[4], Drop(rs, |g.sent|))
              && (buff[4] == 0 ==> o.sent == g.sent)
  {
    var go, buff, rest, sent := MemInfoStep(dev, rs);
    if go && MemInfoSpec(dev, rs).ret == ERROR_OK {
      AreaLoopSent(0, buff[4], buff, dev.(areaCount := buff[4]), rest);
      assert sent + [] == sent;
    }
  }

  /** The area entries a successful fine_get_device_mem_info leaves. */
  lemma MemInfoEntries(dev: Record, rs: seq<Reply>)
    requires WellFormed(dev)
    ensures var g := GetSpec(FINE_CMD_GET_AREA_COUNT, [], rs);
            var o := MemInfoSpec(dev, rs);
            var buff := Overlay(Zeros(AREA_BUF), g.val);
            o.ret == ERROR_OK ==>
              && o.val.areaCount == buff[4] <= AREA_CAPACITY
              && AreasDecoded(o.val.area, 0, buff[4], buff, Drop(rs, |g.sent|))
              && (forall j :: buff[4] <= j < AREA_CAPACITY ==> o.val.area[j] == dev.area[j])
  {
    var go, buff, rest, sent := MemInfoStep(dev, rs);
    if go && MemInfoSpec(dev, rs).ret == ERROR_OK {
      var dev2 := dev.(areaCount := buff[4]);
      AreaLoopDecodes(0, buff[4], buff, dev2, rest);
      AreaLoopKeeps(0, buff[4], buff, dev2, rest);
    }
  }

  /** The area count fine_get_device_mem_info records is byte 1 of the second answer to the count command. */
  lemma AreaCountFromAnswer(dev: Record, rs: seq<Reply>)
    requires WellFormed(dev)
    ensures MemInfoSpec(dev, rs).ret == ERROR_OK ==>
              MemInfoSpec(dev, rs).val.areaCount == Chunk(rs, DataStart(FINE_CMD_GET_AREA_COUNT, [], rs), 1)[0]
  {
    if MemInfoSpec(dev, rs).ret == ERROR_OK {
      MemInfoAreas(dev, rs);
      var g := GetSpec(FINE_CMD_GET_AREA_COUNT, [], rs);
      GetSpecBytes(FINE_CMD_GET_AREA_COUNT, [], rs);
      SecondGroupByte(AREA_BUF, g.val, rs, DataStart(FINE_CMD_GET_AREA_COUNT, [], rs));
    }
  }

  /**
   * Entry j below the recorded count is the area the device sent in answer
   * to request j, whenever that answer carried the whole 24-byte buffer.
   */
  lemma AreaFromAnswer(dev: Record, rs: seq<Reply>, j: nat)
    requires WellFormed(dev)
    ensures var g := GetSpec(FINE_CMD_GET_AREA_COUNT, [], rs);
            var o := MemInfoSpec(dev, rs);
            o.ret == ERROR_OK && j < o.val.areaCount ==>
              var a := GetSpec(FINE_CMD_GET_AREA_INFO, [j], AreaReplies(0, j, Drop(rs, |g.sent|)));
              a.ret == ERROR_OK && (|a.val| >= AREA_BUF ==> o.val.area[j] == DecodeArea(a.val[..AREA_BUF]))
  {
    var g := GetSpec(FINE_CMD_GET_AREA_COUNT, [], rs);
    var o := MemInfoSpec(dev, rs);
    if o.ret == ERROR_OK && j < o.val.areaCount {
      MemInfoAreas(dev, rs);
      var buff := Overlay(Zeros(AREA_BUF), g.val);
      var rest := Drop(rs, |g.sent|);
      assert AreasDecoded(o.val.area, 0, buff[4], buff, rest);
      assert 0 <= j < buff[4];
    }
  }

  // ---------------------------------------------------------------------
  // The device's side of the two decoded buffers

  /** A C `int` field as the uint32_t a device sends for it. */
  lemma AsIntOfWord(x: i32)
    ensures AsInt(x % TWO32) == x
  {
  }

  /** The device-type data buffer a device sends for the fields of `r`: the type at 4, then the four clock bounds. */
  function EncodeDeviceType(r: Record): (b: seq<byte>)
    requires |r.chipType| == TYPE_LEN
    ensures |b| == 28
  {
    var b0 := Zeros(4) + r.chipType + Zeros(16);
    var b1 := SetU32BE(b0, 12, r.maxInputClkFreq % TWO32);
    var b2 := SetU32BE(b1, 16, r.minInputClkFreq % TWO32);
    var b3 := SetU32BE(b2, 20, r.maxSysClkFreq % TWO32);
    SetU32BE(b3, 24, r.minSysClkFreq % TWO32)
  }

  /** Decoding what a device sent for `r` gives back its type and clock bounds, and keeps the rest of the record. */
  lemma DeviceTypeRoundTrip(dev: Record, r: Record)
    requires |r.chipType| == TYPE_LEN
    ensures DecodeDeviceType(dev, EncodeDeviceType(r))
         == dev.(chipType := r.chipType,
                 maxInputClkFreq := r.maxInputClkFreq, minInputClkFreq := r.minInputClkFreq,
                 maxSysClkFreq := r.maxSysClkFreq, minSysClkFreq := r.minSysClkFreq)
  {
    var b0 := Zeros(4) + r.chipType + Zeros(16);
    var b1 := SetU32BE(b0, 12, r.maxInputClkFreq % TWO32);
    var b2 := SetU32BE(b1, 16, r.minInputClkFreq % TWO32);
    var b3 := SetU32BE(b2, 20, r.maxSysClkFreq % TWO32);
    var b4 := SetU32BE(b3, 24, r.minSysClkFreq % TWO32);
    assert b4[4..12] == r.chipType by {
      assert b0[4..12] == r.chipType;
      forall i | 4 <= i < 12 ensures b4[i] == b0[i] {
      }
    }
    ReadAfterWrite(b0, 12, r.maxInputClkFreq % TWO32);
    ReadPastWrite(b1, 16, r.minInputClkFreq % TWO32, 12);
    ReadPastWrite(b2, 20, r.maxSysClkFreq % TWO32, 12);
    ReadPastWrite(b3, 24, r.minSysClkFreq % TWO32, 12);
    ReadAfterWrite(b1, 16, r.minInputClkFreq % TWO32);
    ReadPastWrite(b2, 20, r.maxSysClkFreq % TWO32, 16);
    ReadPastWrite(b3, 24, r.minSysClkFreq % TWO32, 16);
    ReadAfterWrite(b2, 20, r.maxSysClkFreq % TWO32);
    ReadPastWrite(b3, 24, r.minSysClkFreq % TWO32, 20);
    ReadAfterWrite(b3, 24, r.minSysClkFreq % TWO32);
    AsIntOfWord(r.maxInputClkFreq);
    AsIntOfWord(r.minInputClkFreq);
    AsIntOfWord(r.maxSysClkFreq);
    AsIntOfWord(r.minSysClkFreq);
  }

  /** The area-information buffer a device sends for `a`: the kind at 4, then start, end, erase and write units. */
  function EncodeArea(a: MemArea): (b: seq<byte>)
    requires 0 <= a.koa < 256
    ensures |b| == AREA_BUF
  {
    var b0 := Zeros(AREA_BUF)[4 := a.koa];
    SetU32BE(SetU32BE(SetU32BE(SetU32BE(b0, 5, a.sad), 9, a.ead), 13, a.eau), 17, a.wau)
  }

  /** Decoding what a device sent for an area gives that area back. */
  lemma AreaRoundTrip(a: MemArea)
    requires 0 <= a.koa < 256
    ensures DecodeArea(EncodeArea(a)) == a
  {
    var b0 := Zeros(AREA_BUF)[4 := a.koa];
    var b1 := SetU32BE(b0, 5, a.sad);
    var b2 := SetU32BE(b1, 9, a.ead);
    var b3 := SetU32BE(b2, 13, a.eau);
    var b4 := SetU32BE(b3, 17, a.wau);
    assert b4[4] == a.koa;
    ReadAfterWrite(b0, 5, a.sad);
    ReadPastWrite(b1, 9, a.ead, 5);
    ReadPastWrite(b2, 13, a.eau, 5);
    ReadPastWrite(b3, 17, a.wau, 5);
    ReadAfterWrite(b1, 9, a.ead);
    ReadPastWrite(b2, 13, a.eau, 9);
    ReadPastWrite(b3, 17, a.wau, 9);
    ReadAfterWrite(b2, 13, a.eau);
    ReadPastWrite(b3, 17, a.wau, 13);
    ReadAfterWrite(b3, 17, a.wau);
  }

  /** Read back, the frequency payload holds the input clock then the system clock, in Hz. */
  lemma FrequencyPayloadFields(inFreq: int, sysFreq: int)
    ensures var p := FrequencyPayload(inFreq, sysFreq);
            GetU32BE(p, 0) == Hz(inFreq) && GetU32BE(p, 4) == Hz(sysFreq)
  {
    var a := SetU32BE(Zeros(8), 0, Hz(inFreq));
    ReadAfterWrite(Zeros(8), 0, Hz(inFreq));
    ReadPastWrite(a, 4, Hz(sysFreq), 0);
    ReadAfterWrite(a, 4, Hz(sysFreq));
  }

  /** Read back, the bitrate payload holds the bitrate modulo 2^32. */
  lemma BitratePayloadField(bitrate: int)
    ensures GetU32BE(BitratePayload(bitrate), 0) == bitrate % TWO32
  {
    ReadAfterWrite(Zeros(4), 0, bitrate % TWO32);
  }

  /**
   * fine_get_serial_protect_state allows serial programming exactly when
   * byte 1 of the second data answer is 0.
   */
  lemma AuthModeFromAnswer(dev: Record, rs: seq<Reply>)
    ensures var g := GetSpec(FINE_CMD_GET_AUTH_MODE, [], rs);
            g.ret == ERROR_OK ==>
              (AuthModeSpec(dev, rs).val.serialAllowed == 1
               <==> Chunk(rs, DataStart(FINE_CMD_GET_AUTH_MODE, [], rs), 1)[0] == 0)
  {
    var g := GetSpec(FINE_CMD_GET_AUTH_MODE, [], rs);
    if g.ret == ERROR_OK {
      AuthModeField(dev, rs);
      GetSpecBytes(FINE_CMD_GET_AUTH_MODE, [], rs);
      SecondGroupByte(AUTH_MODE_BUF, g.val, rs, DataStart(FINE_CMD_GET_AUTH_MODE, [], rs));
    }
  }

  /**
   * fine_get_device_type stores bytes 1..4 of the second and third data
   * answers as the chip type and the words of the fourth to seventh as the
   * four clock bounds, whenever the device sent the 28 bytes they occupy.
   */
  lemma DeviceTypeFromAnswer(dev: Record, rs: seq<Reply>)
    ensures var g := GetSpec(FINE_CMD_GET_DEVICE_TYPE, [], rs);
            var k := DataStart(FINE_CMD_GET_DEVICE_TYPE, [], rs);
            var o := DeviceTypeSpec(dev, rs);
            g.ret == ERROR_OK && |g.val| >= 28 ==>
              && o.val == DecodeDeviceType(dev, g.val[..28])
              && o.val.chipType == Chunk(rs, k, 1) + Chunk(rs, k, 2)
              && o.val.maxInputClkFreq == AsInt(GetU32BE(Chunk(rs, k, 3), 0))
              && o.val.minInputClkFreq == AsInt(GetU32BE(Chunk(rs, k, 4), 0))
              && o.val.maxSysClkFreq == AsInt(GetU32BE(Chunk(rs, k, 5), 0))
              && o.val.minSysClkFreq == AsInt(GetU32BE(Chunk(rs, k, 6), 0))
  {
    var g := GetSpec(FINE_CMD_GET_DEVICE_TYPE, [], rs);
    if g.ret == ERROR_OK && |g.val| >= 28 {
      var k := DataStart(FINE_CMD_GET_DEVICE_TYPE, [], rs);
      GetSpecBytes(FINE_CMD_GET_DEVICE_TYPE, [], rs);
      DeviceTypeWords(dev, DEVICE_TYPE_BUF, g.val, rs, k);
      DeviceTypeWords(dev, 28, g.val, rs, k);
      assert Overlay(Zeros(28), g.val) == g.val[..28];
    }
  }

  /** The device-type fields decoded from a buffer overlaid with answer groups are those groups. */
  lemma DeviceTypeWords(dev: Record, n: nat, v: seq<byte>, rs: seq<Reply>, k: nat)
    requires 28 <= n && |v| >= 28 && GroupsFrom(v, rs, k)
    ensures var d := DecodeDeviceType(dev, Overlay(Zeros(n), v));
            && d.chipType == Chunk(rs, k, 1) + Chunk(rs, k, 2)
            && d.maxInputClkFreq == AsInt(GetU32BE(Chunk(rs, k, 3), 0))
            && d.minInputClkFreq == AsInt(GetU32BE(Chunk(rs, k, 4), 0))
            && d.maxSysClkFreq == AsInt(GetU32BE(Chunk(rs, k, 5), 0))
            && d.minSysClkFreq == AsInt(GetU32BE(Chunk(rs, k, 6), 0))
  {
    var b := Overlay(Zeros(n), v);
    assert v[4..8] == Chunk(rs, k, 1) && v[8..12] == Chunk(rs, k, 2);
    assert b[4..12] == v[4..8] + v[8..12] by {
      forall i | 4 <= i < 12 {
        OverlayIndex(Zeros(n), v, i);
      }
    }
    assert v[12..16] == Chunk(rs, k, 3) && v[16..20] == Chunk(rs, k, 4);
    assert v[20..24] == Chunk(rs, k, 5) && v[24..28] == Chunk(rs, k, 6);
    OverlayWord(Zeros(n), v, 12);
    OverlayWord(Zeros(n), v, 16);
    OverlayWord(Zeros(n), v, 20);
    OverlayWord(Zeros(n), v, 24);
  }

  /** The flag AuthModeSpec stores, read from byte 4 of its data buffer. */
  lemma AuthModeField(dev: Record, rs: seq<Reply>)
    ensures var g := GetSpec(FINE_CMD_GET_AUTH_MODE, [], rs);
            g.ret == ERROR_OK ==>
              (AuthModeSpec(dev, rs).val.serialAllowed == 1 <==> Overlay(Zeros(AUTH_MODE_BUF), g.val)[4] == 0)
  {
  }

  /** Byte 4 of a data buffer is byte 1 of the second data answer. */
  lemma SecondGroupByte(n: nat, v: seq<byte>, rs: seq<Reply>, k: nat)
    requires 4 < n && |v| >= 8 && GroupsFrom(v, rs, k)
    ensures Overlay(Zeros(n), v)[4] == Chunk(rs, k, 1)[0]
  {
    OverlayIndex(Zeros(n), v, 4);
    assert v[4..8] == Chunk(rs, k, 1);
    assert v[4] == v[4..8][0];
  }

  /**
   * fine_set_frequency stores the words in bytes 1..4 of the second and
   * third data answers as the system and peripheral clocks, when the device
   * sent that many.
   */
  lemma FrequencyFromAnswer(inFreq: int, sysFreq: int, dev: Record, rs: seq<Reply>)
    ensures var p := FrequencyPayload(inFreq, sysFreq);
            var g := GetSpec(FINE_CMD_SET_FREQUENCY, p, rs);
            var k := DataStart(FINE_CMD_SET_FREQUENCY, p, rs);
            var o := FrequencySpec(inFreq, sysFreq, dev, rs);
            g.ret == ERROR_OK && |g.val| >= 12 ==>
              o.val.sysClkFreq == AsInt(GetU32BE(Chunk(rs, k, 1), 0))
              && o.val.periphClkFreq == AsInt(GetU32BE(Chunk(rs, k, 2), 0))
  {
    var p := FrequencyPayload(inFreq, sysFreq);
    var g := GetSpec(FINE_CMD_SET_FREQUENCY, p, rs);
    if g.ret == ERROR_OK && |g.val| >= 12 {
      FrequencyFields(inFreq, sysFreq, dev, rs);
      GetSpecBytes(FINE_CMD_SET_FREQUENCY, p, rs);
      ClockWords(g.val, rs, DataStart(FINE_CMD_SET_FREQUENCY, p, rs));
    }
  }

  /** The clock fields FrequencySpec stores, read from its data buffer. */
  lemma FrequencyFields(inFreq: int, sysFreq: int, dev: Record, rs: seq<Reply>)
    ensures var g := GetSpec(FINE_CMD_SET_FREQUENCY, FrequencyPayload(inFreq, sysFreq), rs);
            var o := FrequencySpec(inFreq, sysFreq, dev, rs);
            g.ret == ERROR_OK ==>
              o.val.sysClkFreq == AsInt(GetU32BE(Overlay(Zeros(FREQUENCY_BUF), g.val), 4))
              && o.val.periphClkFreq == AsInt(GetU32BE(Overlay(Zeros(FREQUENCY_BUF), g.val), 8))
  {
  }

  /** The words at 4 and 8 of the frequency buffer are those of the second and third groups. */
  lemma ClockWords(v: seq<byte>, rs: seq<Reply>, k: nat)
    requires |v| >= 12 && GroupsFrom(v, rs, k)
    ensures GetU32BE(Overlay(Zeros(FREQUENCY_BUF), v), 4) == GetU32BE(Chunk(rs, k, 1), 0)
    ensures GetU32BE(Overlay(Zeros(FREQUENCY_BUF), v), 8) == GetU32BE(Chunk(rs, k, 2), 0)
  {
    assert v[4..8] == Chunk(rs, k, 1) && v[8..12] == Chunk(rs, k, 2);
    OverlayWord(Zeros(FREQUENCY_BUF), v, 4);
    OverlayWord(Zeros(FREQUENCY_BUF), v, 8);
  }

  /** A word that lies inside the data reads the same from the overlaid buffer. */
  lemma OverlayWord(buf: seq<byte>, val: seq<byte>, o: nat)
    requires o + 4 <= |buf| && o + 4 <= |val|
    ensures GetU32BE(Overlay(buf, val), o) == GetU32BE(val[o..o + 4], 0)
  {
    var b := Overlay(buf, val);
    assert b[o] == val[o] && b[o + 1] == val[o + 1] && b[o + 2] == val[o + 2] && b[o + 3] == val[o + 3];
    var w := val[o..o + 4];
    assert w[0] == val[o] && w[1] == val[o + 1] && w[2] == val[o + 2] && w[3] == val[o + 3];
  }

  /** The payloads of fine_transport_init: 16 and 120 MHz, then 1 Mbit/s. */
  lemma InitPayloads()
    ensures FrequencyPayload(16, 120) == [0x00, 0xF4, 0x24, 0x00, 0x07, 0x27, 0x0E, 0x00]
    ensures BitratePayload(1000000) == [0x00, 0x0F, 0x42, 0x40]
  {
    assert Hz(16) == 0x00F4_2400 && Hz(120) == 0x0727_0E00;
    assert BE32(0x00F4_2400) == [0x00, 0xF4, 0x24, 0x00];
    assert BE32(0x0727_0E00) == [0x07, 0x27, 0x0E, 0x00];
    assert BE32(1000000) == [0x00, 0x0F, 0x42, 0x40];
  }

  // ---------------------------------------------------------------------
  // fine_transport_init

  /** A Device Record with the fixed sizes of its arrays. */
  type Device = r: Record | WellFormed(r) witness ZeroRecord

  /** One call of fine_transport_init, with the arguments it passes. */
  datatype Stage =
    | ChipIdStage
    | InitChipStage
    | DeviceTypeStage
    | EndiannessStage(e: Endianness)
    | FrequencyStage(inFreq: int, sysFreq: int)
    | BitrateStage(bitrate: int)
    | SyncStage
    | AuthModeStage
    | CheckIdStage
    | MemInfoStage

  /** The outcome `o` with a record known to be well formed. */
  function AsDevice(o: Out<Record>): Out<Device>
    requires WellFormed(o.val)
  {
    Out(o.ret, o.sent, o.val)
  }

  /**
   * The outcome of one call on the record `dev`. The ID check sends the
   * record's own ID code, which no call changes; only the area read can
   * fail after writing to the record.
   */
  function StageSpec(st: Stage, dev: Device, rs: seq<Reply>): (o: Out<Device>)
    ensures o.val.idCode == dev.idCode
    ensures o.ret != ERROR_OK && !st.MemInfoStage? ==> o.val == dev
    ensures st.MemInfoStage? && o.ret == ERROR_OK ==> 0 <= o.val.areaCount <= AREA_CAPACITY
  {
    match st
    case ChipIdStage => WithVal(ChipIdSpec(rs), dev)
    case InitChipStage => WithVal(InitChipSpec(rs), dev)
    case DeviceTypeStage => AsDevice(DeviceTypeSpec(dev, rs))
    case EndiannessStage(e) => WithVal(EndiannessSpec(e, rs), dev)
    case FrequencyStage(inFreq, sysFreq) => AsDevice(FrequencySpec(inFreq, sysFreq, dev, rs))
    case BitrateStage(bitrate) => WithVal(BitrateSpec(bitrate, rs), dev)
    case SyncStage => WithVal(SyncSpec(rs), dev)
    case AuthModeStage => AsDevice(AuthModeSpec(dev, rs))
    case CheckIdStage => WithVal(CheckIdSpec(dev.idCode, rs), dev)
    case MemInfoStage => AsDevice(MemInfoSpec(dev, rs))
  }

  /**
   * Calls run in order, each on the replies and the record the previous one
   * left, `step` giving the outcome of one call; the first result that is
   * not OK ends the run.
   */
  function RunStages(step: (Stage, Device, seq<Reply>) -> Out<Device>, stages: seq<Stage>, dev: Device, rs: seq<Reply>): Out<Device>
    decreases |stages|
  {
    if |stages| == 0 then Out(ERROR_OK, [], dev)
    else
      var s := step(stages[0], dev, rs);
      if s.ret != ERROR_OK then s
      else After(s.sent, RunStages(step, stages[1..], s.val, Drop(rs, |s.sent|)))
  }

  /** The calls of fine_transport_init, in its order. */
  const InitOrder: seq<Stage> := [
    ChipIdStage, InitChipStage, DeviceTypeStage, EndiannessStage(LittleEndian),
    FrequencyStage(16, 120), BitrateStage(1000000), SyncStage, AuthModeStage,
    CheckIdStage, MemInfoStage]

  /** fine_transport_init on the target's record `dev`. */
  function TransportInitSpec(dev: Device, rs: seq<Reply>): Out<Device>
  {
    RunStages(StageSpec, InitOrder, dev, rs)
  }

  /** Running two lists of calls one after the other is running their concatenation. */
  lemma {:induction false} RunStagesSplit(step: (Stage, Device, seq<Reply>) -> Out<Device>,
                                          a: seq<Stage>, b: seq<Stage>, dev: Device, rs: seq<Reply>)
    ensures RunStages(step, a + b, dev, rs)
         == var o := RunStages(step, a, dev, rs);
            if o.ret != ERROR_OK then o else After(o.sent, RunStages(step, b, o.val, Drop(rs, |o.sent|)))
    decreases |a|
  {
    if |a| == 0 {
      assert a + b == b;
      assert Drop(rs, 0) == rs;
      AfterNil(RunStages(step, b, dev, rs));
    } else {
      assert (a + b)[0] == a[0] && (a + b)[1..] == a[1..] + b;
      var s := step(a[0], dev, rs);
      if s.ret == ERROR_OK {
        var rs1 := Drop(rs, |s.sent|);
        RunStagesSplit(step, a[1..], b, s.val, rs1);
        var o1 := RunStages(step, a[1..], s.val, rs1);
        if o1.ret == ERROR_OK {
          AfterAfter(s.sent, o1.sent, RunStages(step, b, o1.val, Drop(rs1, |o1.sent|)));
          DropDrop(rs, |s.sent|, |o1.sent|);
        }
      }
    }
  }

  /**
   * The first failing call ends the run: when the calls before call `k` all
   * succeed and call `k` fails, its code and record are the result and
   * nothing after it is sent.
   */
  lemma RunStagesStopsAt(step: (Stage, Device, seq<Reply>) -> Out<Device>, stages: seq<Stage>, k: nat, dev: Device, rs: seq<Reply>)
    requires k < |stages|
    requires var p := RunStages(step, stages[..k], dev, rs);
             p.ret == ERROR_OK && step(stages[k], p.val, Drop(rs, |p.sent|)).ret != ERROR_OK
    ensures var p := RunStages(step, stages[..k], dev, rs);
            var s := step(stages[k], p.val, Drop(rs, |p.sent|));
            RunStages(step, stages, dev, rs) == Out(s.ret, p.sent + s.sent, s.val)
  {
    assert stages == stages[..k] + stages[k..];
    RunStagesSplit(step, stages[..k], stages[k..], dev, rs);
    assert stages[k..][0] == stages[k];
  }

  /** A run succeeds exactly when every call in it does: a successful run is a successful prefix followed by a successful call. */
  lemma RunStagesSucceeds(step: (Stage, Device, seq<Reply>) -> Out<Device>, stages: seq<Stage>, dev: Device, rs: seq<Reply>)
    requires |stages| > 0
    ensures var n := |stages| - 1;
            var p := RunStages(step, stages[..n], dev, rs);
            var s := step(stages[n], p.val, Drop(rs, |p.sent|));
            (RunStages(step, stages, dev, rs).ret == ERROR_OK <==> p.ret == ERROR_OK && s.ret == ERROR_OK)
  {
    var n := |stages| - 1;
    assert stages == stages[..n] + [stages[n]];
    RunStagesSplit(step, stages[..n], [stages[n]], dev, rs);
    assert [stages[n]][1..] == [];
  }

  /** A run of calls that keep the ID code keeps it. */
  lemma {:induction false} RunStagesKeepsId(step: (Stage, Device, seq<Reply>) -> Out<Device>, stages: seq<Stage>, dev: Device, rs: seq<Reply>)
    requires forall st, d, r :: step(st, d, r).val.idCode == d.idCode
    ensures RunStages(step, stages, dev, rs).val.idCode == dev.idCode
    decreases |stages|
  {
    if |stages| > 0 {
      var s := step(stages[0], dev, rs);
      if s.ret == ERROR_OK {
        RunStagesKeepsId(step, stages[1..], s.val, Drop(rs, |s.sent|));
      }
    }
  }

  /** A successful run whose last call is the area read leaves what that call leaves. */
  lemma {:induction false} RunStagesAreas(step: (Stage, Device, seq<Reply>) -> Out<Device>, stages: seq<Stage>, dev: Device, rs: seq<Reply>)
    requires |stages| > 0 && stages[|stages| - 1] == MemInfoStage
    requires forall d, r :: step(MemInfoStage, d, r).ret == ERROR_OK ==> 0 <= step(MemInfoStage, d, r).val.areaCount <= AREA_CAPACITY
    ensures var o := RunStages(step, stages, dev, rs);
            o.ret == ERROR_OK ==> 0 <= o.val.areaCount <= AREA_CAPACITY
    decreases |stages|
  {
    var s := step(stages[0], dev, rs);
    if s.ret == ERROR_OK {
      if |stages| == 1 {
        assert stages[0] == MemInfoStage;
        assert stages[1..] == [];
      } else {
        assert stages[1..][|stages[1..]| - 1] == MemInfoStage;
        RunStagesAreas(step, stages[1..], s.val, Drop(rs, |s.sent|));
      }
    }
  }

  /** A successful run of fine_transport_init leaves at most eight areas; every run keeps the record's ID code. */
  lemma TransportInitAreas(dev: Device, rs: seq<Reply>)
    ensures var o := TransportInitSpec(dev, rs);
            && o.val.idCode == dev.idCode
            && (o.ret == ERROR_OK ==> 0 <= o.val.areaCount <= AREA_CAPACITY)
  {
    RunStagesKeepsId(StageSpec, InitOrder, dev, rs);
    RunStagesAreas(StageSpec, InitOrder, dev, rs);
  }

  /** A failed chip-ID handshake ends fine_transport_init with its code, nothing else sent and the record untouched. */
  lemma TransportInitNoChip(dev: Device, rs: seq<Reply>)
    requires ChipIdSpec(rs).ret != ERROR_OK
    ensures TransportInitSpec(dev, rs) == Out(ChipIdSpec(rs).ret, ChipIdSpec(rs).sent, dev)
  {
  }

  /** The bookkeeping after call `k` of fine_transport_init: what was sent so far, and what remains to run. */
  lemma StageDone(k: nat, total: Out<Device>, l0: seq<Exchange>, sent: seq<Exchange>, log: seq<Exchange>,
                  script: seq<Reply>, dev: Device, ret: int, dev2: Device)
    returns (sent2: seq<Exchange>)
    requires k < |InitOrder|
    requires total == After(sent, RunStages(StageSpec, InitOrder[k..], dev, Drop(script, |l0 + sent|)))
    requires var o := StageSpec(InitOrder[k], dev, Drop(script, |l0 + sent|));
             ret == o.ret && log == (l0 + sent) + o.sent && dev2 == o.val
    ensures log == l0 + sent2
    ensures ret != ERROR_OK ==> total == Out(ret, sent2, dev2)
    ensures ret == ERROR_OK ==> total == After(sent2, RunStages(StageSpec, InitOrder[k + 1..], dev2, Drop(script, |log|)))
  {
    var rs := Drop(script, |l0 + sent|);
    var o := StageSpec(InitOrder[k], dev, rs);
    sent2 := sent + o.sent;
    AppendAssoc(l0, sent, o.sent);
    assert InitOrder[k..][0] == InitOrder[k] && InitOrder[k..][1..] == InitOrder[k + 1..];
    if ret == ERROR_OK {
      PendingAfter(l0 + sent, o.sent, script);
      AfterAfter(sent, o.sent, RunStages(StageSpec, InitOrder[k + 1..], dev2, Drop(rs, |o.sent|)));
    }
  }

  /** One call of fine_transport_init, with its arguments. */
  method RunStage(link: Link, rx: Rx, st: Stage) returns (ret: int)
    requires rx.Valid()
    modifies link, rx`chipType, rx`maxInputClkFreq, rx`minInputClkFreq, rx`maxSysClkFreq, rx`minSysClkFreq,
             rx`sysClkFreq, rx`periphClkFreq, rx`serialAllowed, rx`areaCount, rx`area
    ensures rx.Valid()
    ensures var o := StageSpec(st, old(rx.View()), old(link.Pending()));
            ret == o.ret && link.log == old(link.log) + o.sent && rx.View() == o.val
  {
    match st
    case ChipIdStage => ret := ChipId(link);
    case InitChipStage => ret := InitChip(link);
    case DeviceTypeStage => ret := GetDeviceType(link, rx);
    case EndiannessStage(e) => ret := SetEndianness(link, e);
    case FrequencyStage(inFreq, sysFreq) => ret := SetFrequency(link, inFreq, sysFreq, rx);
    case BitrateStage(bitrate) => ret := SetBitrate(link, bitrate);
    case SyncStage => ret := SendSync(link);
    case AuthModeStage => ret := GetSerialProtectState(link, rx);
    case CheckIdStage => ret := CheckIdCode(link, rx.idCode);
    case MemInfoStage => ret := GetDeviceMemInfo(link, rx);
  }

  /**
   * fine_transport_init on the current target's Device Record: the calls of
   * InitOrder in turn, returning the first result that is not OK. The
   * adapter reset that comes first is not modelled.
   */
  method TransportInit(link: Link, t: Target) returns (ret: int)
    requires TargetToRx(t) != null && TargetToRx(t).Valid()
    modifies link, t.archInfo`chipType, t.archInfo`maxInputClkFreq, t.archInfo`minInputClkFreq,
             t.archInfo`maxSysClkFreq, t.archInfo`minSysClkFreq, t.archInfo`sysClkFreq, t.archInfo`periphClkFreq,
             t.archInfo`serialAllowed, t.archInfo`areaCount, t.archInfo`area
    ensures TargetToRx(t).Valid()
    ensures var o := TransportInitSpec(old(TargetToRx(t).View()), old(link.Pending()));
            ret == o.ret && link.log == old(link.log) + o.sent && TargetToRx(t).View() == o.val
  {
    var rx := TargetToRx(t);
    ghost var l0 := link.log;
    ghost var total := TransportInitSpec(rx.View(), link.Pending());
    ghost var sent: seq<Exchange> := [];
    AfterNil(total);
    var k := 0;
    while k < |InitOrder|
      invariant k <= |InitOrder| && rx.Valid()
      invariant link.log == l0 + sent
      invariant total == After(sent, RunStages(StageSpec, InitOrder[k..], rx.View(), link.Pending()))
    {
      ghost var dev := rx.View();
      ret := RunStage(link, rx, InitOrder[k]);
      sent := StageDone(k, total, l0, sent, link.log, link.script, dev, ret, rx.View());
      if ret != ERROR_OK {
        return;
      }
      k := k + 1;
    }
    assert sent + [] == sent;
    return ERROR_OK;
  }
}
