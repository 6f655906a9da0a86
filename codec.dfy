/**
 * The FINE frame codec of src/jtag/fine.c: command frames with their
 * checksum and 4-byte chunking (fine_send_cmd), the acknowledgement
 * exchange (fine_send_cmd_ack), the status frame (fine_get_status_packet)
 * and the data frame (fine_get_data).
 *
 * Each operation has a specification function over the replies still
 * pending on the link; it returns the return code, the exchanges sent
 * (one reply is consumed per exchange) and the decoded value.
 */
module Codec {
  import opened Bytes
  import opened Transport

  const FRAME_MARK: byte := 0x84
  const FINE_ASK_TARGET_ACK: byte := 0xC6
  const FINE_ASK_TARGET_DATA: byte := 0xC4
  const FINE_CMD_SOH: byte := 0x01
  const FINE_CMD_ETX: byte := 0x03

  /** PKT_CMD (0) or PKT_STATUS (0x80): the phase flag of a command frame. */
  datatype Phase = PktCmd | PktStatus

  function PhaseByte(p: Phase): byte
  {
    if p == PktCmd then 0 else 0x80
  }

  /** The outcome of an operation on the link. */
  datatype Out<T> = Out(ret: int, sent: seq<Exchange>, val: T)

  /** `o` preceded by the exchanges `s`. */
  function After<T>(s: seq<Exchange>, o: Out<T>): Out<T>
  {
    Out(o.ret, s + o.sent, o.val)
  }

  const AckExchange: Exchange := Exchange([FINE_ASK_TARGET_ACK], 2)
  const DataExchange: Exchange := Exchange([FINE_ASK_TARGET_DATA], 5)

  // ---------------------------------------------------------------------
  // fine_send_cmd_ack

  /** One acknowledgement exchange: OK only when the 2-byte answer is {0, 0}. */
  function AckSpec(rs: seq<Reply>): (o: Out<()>)
    ensures o.sent == [AckExchange]
    ensures o.ret == ERROR_OK <==> Head(rs).Answer? && Fit(Head(rs).bytes, 2) == [0, 0]
    ensures o.ret == ERROR_OK || o.ret == ERROR_FAIL
  {
    var r := Head(rs);
    if r.Fault? then Out(ERROR_FAIL, [AckExchange], ())
    else
      var i := Fit(r.bytes, 2);
      if i[0] != 0 || i[1] != 0 then Out(ERROR_FAIL, [AckExchange], ())
      else Out(ERROR_OK, [AckExchange], ())
  }

  method SendCmdAck(link: Link) returns (ret: int)
    modifies link
    ensures var o := AckSpec(old(link.Pending()));
            ret == o.ret && link.log == old(link.log) + o.sent
  {
    var r, i := link.Xfer([FINE_ASK_TARGET_ACK], 2);
    if r != ERROR_OK {
      return ERROR_FAIL;
    }
    if i[0] != 0 || i[1] != 0 {
      return ERROR_FAIL;
    }
    return ERROR_OK;
  }

  // ---------------------------------------------------------------------
  // fine_send_cmd: the frames it sends

  /** Sum of byte values. */
  function Sum(s: seq<byte>): nat
  {
    if |s| == 0 then 0 else Sum(s[..|s| - 1]) + s[|s| - 1]
  }

  /** The header frame {0x84, SOH | phase, (len + 1) >> 8, (len + 1) & 0xFF, cmd}. */
  function Header(p: Phase, cmd: byte, len: nat): (h: seq<byte>)
    requires len < 0x1_0000
    ensures |h| == 5
  {
    [FRAME_MARK, FINE_CMD_SOH + PhaseByte(p), ((len + 1) / 256) % 256, (len + 1) % 256, cmd]
  }

  /** The 8-bit two's-complement checksum over header bytes 2..4 and the payload. */
  function Checksum(h: seq<byte>, data: seq<byte>): (crc: byte)
    requires |h| == 5
    ensures (h[2] + h[3] + h[4] + Sum(data) + crc) % 256 == 0
  {
    ModComplement(h[2] + h[3] + h[4] + Sum(data));
    (256 - (h[2] + h[3] + h[4] + Sum(data)) % 256) % 256
  }

  /** Adding the 8-bit two's complement of `x` cancels `x` modulo 256. */
  lemma ModComplement(x: nat)
    ensures (x + (256 - x % 256) % 256) % 256 == 0
  {
    var q, r := x / 256, x % 256;
    assert x == 256 * q + r;
    if r == 0 {
      assert x + (256 - r) % 256 == 256 * q;
    } else {
      assert x + (256 - r) % 256 == 256 * (q + 1);
    }
  }

  /** Reducing a running sum modulo 256 before adding does not change the result. */
  lemma AddMod(a: int, b: int)
    ensures (a % 256 + b) % 256 == (a + b) % 256
  {
    var q := a / 256;
    assert a == 256 * q + a % 256;
    assert a + b == 256 * q + (a % 256 + b);
  }

  /** One exchange of a command sequence; a fault on a `fatal` one aborts it. */
  datatype Step = Step(ex: Exchange, fatal: bool)

  const AckStep: Step := Step(AckExchange, false)

  /** A 5-byte frame {0x84, body} answered by one byte. */
  function FrameStep(body: seq<byte>, fatal: bool): (s: Step)
    requires |body| == 4
    ensures |s.ex.out| == 5 && s.ex.out[0] == FRAME_MARK && s.ex.out[1..] == body
  {
    Step(Exchange([FRAME_MARK] + body, 1), fatal)
  }

  /** The final frame(s) for 0..3 remaining payload bytes. */
  function FinalSteps(d: seq<byte>, crc: byte): (r: seq<Step>)
    requires |d| <= 3
  {
    if |d| == 0 then [FrameStep([crc, FINE_CMD_ETX, 0, 0], false)]
    else if |d| == 1 then [FrameStep([d[0], crc, FINE_CMD_ETX, 0], false)]
    else if |d| == 2 then [FrameStep([d[0], d[1], crc, FINE_CMD_ETX], false)]
    else [FrameStep([d[0], d[1], d[2], crc], false), AckStep, FrameStep([FINE_CMD_ETX, 0, 0, 0], false)]
  }

  /** Full 4-byte chunks, each followed by an acknowledgement, then the final frame(s). */
  function ChunkSteps(d: seq<byte>, crc: byte): seq<Step>
    decreases |d|
  {
    if |d| > 3 then [FrameStep(d[..4], true), AckStep] + ChunkSteps(d[4..], crc)
    else FinalSteps(d, crc)
  }

  function CmdChecksum(p: Phase, cmd: byte, data: seq<byte>): byte
    requires |data| < 0x1_0000
  {
    Checksum(Header(p, cmd, |data|), data)
  }

  /** Everything fine_send_cmd sends when no exchange fails. */
  function CmdSteps(p: Phase, cmd: byte, data: seq<byte>): seq<Step>
    requires |data| < 0x1_0000
  {
    [Step(Exchange(Header(p, cmd, |data|), 1), true), AckStep] + ChunkSteps(data, CmdChecksum(p, cmd, data))
  }

  function Outs(steps: seq<Step>): (r: seq<Exchange>)
    ensures |r| == |steps|
    ensures forall k :: 0 <= k < |steps| ==> r[k] == steps[k].ex
  {
    if |steps| == 0 then [] else [steps[0].ex] + Outs(steps[1..])
  }

  /** Runs the steps in order, stopping after the first fatal step whose exchange faulted. */
  function RunSteps(steps: seq<Step>, rs: seq<Reply>): Out<()>
    decreases |steps|
  {
    if |steps| == 0 then Out(ERROR_OK, [], ())
    else if steps[0].fatal && Head(rs).Fault? then Out(ERROR_FAIL, [steps[0].ex], ())
    else After([steps[0].ex], RunSteps(steps[1..], Drop(rs, 1)))
  }

  /**
   * The chunk loop of fine_send_cmd and its final frame(s): a fault on a
   * full chunk ends the command; acknowledgements and final frames are
   * sent without looking at their results.
   */
  function PayloadSpec(d: seq<byte>, crc: byte, rs: seq<Reply>): Out<()>
    decreases |d|
  {
    if |d| <= 3 then Out(ERROR_OK, Outs(FinalSteps(d, crc)), ())
    else if Head(rs).Fault? then Out(ERROR_FAIL, [Exchange([FRAME_MARK] + d[..4], 1)], ())
    else After([Exchange([FRAME_MARK] + d[..4], 1), AckExchange], PayloadSpec(d[4..], crc, Drop(rs, 2)))
  }

  /** fine_send_cmd: the header, its ignored acknowledgement, then the payload. */
  function SendCmdSpec(p: Phase, cmd: byte, data: seq<byte>, rs: seq<Reply>): Out<()>
    requires |data| < 0x1_0000
  {
    var h := Exchange(Header(p, cmd, |data|), 1);
    if Head(rs).Fault? then Out(ERROR_FAIL, [h], ())
    else After([h, AckExchange], PayloadSpec(data, CmdChecksum(p, cmd, data), Drop(rs, 2)))
  }

  // ---------------------------------------------------------------------
  // fine_send_cmd: the code

  method SendCmd(link: Link, p: Phase, cmd: byte, data: seq<byte>) returns (ret: int)
    requires |data| < 0x1_0000
    modifies link
    ensures var o := SendCmdSpec(p, cmd, data, old(link.Pending()));
            ret == o.ret && link.log == old(link.log) + o.sent
  {
    ghost var l0 := link.log;
    ghost var p0 := link.Pending();
    var out := new byte[5];
    FillHeader(out, p, cmd, |data|);
    var crc := ComputeChecksum(out, data);
    assert crc == CmdChecksum(p, cmd, data);

    var r, inBuf := link.Xfer(out[..], 1);
    if r != ERROR_OK {
      return ERROR_FAIL;
    }
    ghost var h := Exchange(Header(p, cmd, |data|), 1);
    ghost var sent := [h, AckExchange];
    var _ := SendCmdAck(link);
    AppendAssoc(l0, [h], [AckExchange]);
    assert [h] + [AckExchange] == sent;
    PendingAfter(l0, sent, link.script);
    DropDrop(p0, 1, 1);
    ghost var rest := PayloadSpec(data, crc, link.Pending());
    ret := SendPayload(link, out, data, crc);
    AppendAssoc(l0, sent, rest.sent);
  }

  /** The chunk loop of fine_send_cmd and its final frame(s). */
  method SendPayload(link: Link, out: array<byte>, data: seq<byte>, crc: byte) returns (ret: int)
    requires out.Length == 5 && out[0] == FRAME_MARK
    modifies link, out
    ensures var o := PayloadSpec(data, crc, old(link.Pending()));
            ret == o.ret && link.log == old(link.log) + o.sent
  {
    ghost var l0 := link.log;
    ghost var p0 := link.Pending();
    ghost var sent: seq<Exchange> := [];
    assert data[0..] == data;
    var idx := 0;
    var dataLen := |data|;
    while dataLen > 3
      invariant 0 <= idx && 0 <= dataLen && idx + dataLen == |data|
      invariant out[0] == FRAME_MARK
      invariant link.log == l0 + sent
      invariant PayloadSpec(data, crc, p0) == After(sent, PayloadSpec(data[idx..], crc, link.Pending()))
    {
      var r;
      r, sent := PayloadRound(link, out, data, idx, crc, l0, sent, PayloadSpec(data, crc, p0));
      if r != ERROR_OK {
        return ERROR_FAIL;
      }
      idx := idx + 4;
      dataLen := dataLen - 4;
    }
    ghost var fs := Outs(FinalSteps(data[idx..], crc));
    assert PayloadSpec(data[idx..], crc, link.Pending()) == Out(ERROR_OK, fs, ());
    assert PayloadSpec(data, crc, p0) == Out(ERROR_OK, sent + fs, ());
    SendFinal(link, out, data[idx..], crc);
    AppendAssoc(l0, sent, fs);
    return ERROR_OK;
  }

  /** One pass of the chunk loop, tied to PayloadSpec: `total` is what the whole loop sends and returns. */
  method PayloadRound(link: Link, out: array<byte>, data: seq<byte>, idx: nat, crc: byte,
                      ghost l0: seq<Exchange>, ghost sent: seq<Exchange>, ghost total: Out<()>)
    returns (ret: int, ghost sent2: seq<Exchange>)
    requires out.Length == 5 && out[0] == FRAME_MARK && idx + 4 <= |data|
    requires link.log == l0 + sent
    requires total == After(sent, PayloadSpec(data[idx..], crc, link.Pending()))
    modifies link, out
    ensures out[0] == FRAME_MARK && link.log == l0 + sent2
    ensures ret != ERROR_OK ==> total == Out(ERROR_FAIL, sent2, ())
    ensures ret == ERROR_OK ==> total == After(sent2, PayloadSpec(data[idx + 4..], crc, link.Pending()))
  {
    ghost var pend := link.Pending();
    PayloadUnfold(data, idx, crc, pend);
    ret := SendChunk(link, out, data, idx);
    ghost var f := Exchange([FRAME_MARK] + data[idx..][..4], 1);
    if ret != ERROR_OK {
      sent2 := sent + [f];
      AppendAssoc(l0, sent, [f]);
    } else {
      ghost var step := [f, AckExchange];
      sent2 := sent + step;
      AppendAssoc(l0, sent, step);
      PendingAfter(l0 + sent, step, link.script);
      AfterAfter(sent, step, PayloadSpec(data[idx + 4..], crc, link.Pending()));
    }
  }

  lemma AfterNil<T>(o: Out<T>)
    ensures After([], o) == o
  {
    assert [] + o.sent == o.sent;
  }

  lemma AfterAfter<T>(a: seq<Exchange>, b: seq<Exchange>, o: Out<T>)
    ensures After(a, After(b, o)) == After(a + b, o)
  {
    assert a + (b + o.sent) == (a + b) + o.sent;
  }

  /** One step of RunSteps. */
  lemma RunStepsCons(st: Step, rest: seq<Step>, rs: seq<Reply>)
    ensures RunSteps([st] + rest, rs)
         == if st.fatal && Head(rs).Fault? then Out(ERROR_FAIL, [st.ex], ())
            else After([st.ex], RunSteps(rest, Drop(rs, 1)))
  {
    assert ([st] + rest)[1..] == rest;
  }

  /** A fatal exchange followed by an acknowledgement. */
  lemma RunStepsPair(st: Step, rest: seq<Step>, rs: seq<Reply>)
    requires st.fatal
    ensures Head(rs).Fault? ==> RunSteps([st, AckStep] + rest, rs) == Out(ERROR_FAIL, [st.ex], ())
    ensures Head(rs).Answer? ==>
              RunSteps([st, AckStep] + rest, rs) == After([st.ex, AckExchange], RunSteps(rest, Drop(rs, 2)))
  {
    assert [st, AckStep] + rest == [st] + ([AckStep] + rest);
    RunStepsCons(st, [AckStep] + rest, rs);
    RunStepsCons(AckStep, rest, Drop(rs, 1));
    DropDrop(rs, 1, 1);
  }

  /** The header exchange and its acknowledgement come first; a fault on the header ends the command. */
  lemma CmdStepsUnfold(p: Phase, cmd: byte, data: seq<byte>, rs: seq<Reply>)
    requires |data| < 0x1_0000
    ensures var h := Exchange(Header(p, cmd, |data|), 1);
            && (Head(rs).Fault? ==> RunSteps(CmdSteps(p, cmd, data), rs) == Out(ERROR_FAIL, [h], ()))
            && (Head(rs).Answer? ==>
                  RunSteps(CmdSteps(p, cmd, data), rs)
                  == After([h, AckExchange], RunSteps(ChunkSteps(data, CmdChecksum(p, cmd, data)), Drop(rs, 2))))
  {
    RunStepsPair(Step(Exchange(Header(p, cmd, |data|), 1), true), ChunkSteps(data, CmdChecksum(p, cmd, data)), rs);
  }

  /** A full chunk is sent and acknowledged; a fault on the chunk ends the command. */
  lemma ChunkStepsUnfold(d: seq<byte>, crc: byte, rs: seq<Reply>)
    requires |d| > 3
    ensures var f := Exchange([FRAME_MARK] + d[..4], 1);
            && (Head(rs).Fault? ==> RunSteps(ChunkSteps(d, crc), rs) == Out(ERROR_FAIL, [f], ()))
            && (Head(rs).Answer? ==>
                  RunSteps(ChunkSteps(d, crc), rs) == After([f, AckExchange], RunSteps(ChunkSteps(d[4..], crc), Drop(rs, 2))))
  {
    RunStepsPair(FrameStep(d[..4], true), ChunkSteps(d[4..], crc), rs);
  }

  /** One round of the chunk loop, at offset `idx` of the payload. */
  lemma PayloadUnfold(d: seq<byte>, idx: nat, crc: byte, rs: seq<Reply>)
    requires idx + 4 <= |d|
    ensures var f := Exchange([FRAME_MARK] + d[idx..][..4], 1);
            && (Head(rs).Fault? ==> PayloadSpec(d[idx..], crc, rs) == Out(ERROR_FAIL, [f], ()))
            && (Head(rs).Answer? ==>
                  PayloadSpec(d[idx..], crc, rs) == After([f, AckExchange], PayloadSpec(d[idx + 4..], crc, Drop(rs, 2))))
  {
    assert d[idx..][4..] == d[idx + 4..];
  }

  /** The payload part of fine_send_cmd is the step sequence ChunkSteps, run by RunSteps. */
  lemma {:induction false} PayloadSteps(d: seq<byte>, crc: byte, rs: seq<Reply>)
    ensures PayloadSpec(d, crc, rs) == RunSteps(ChunkSteps(d, crc), rs)
    decreases |d|
  {
    if |d| <= 3 {
      FinalStepsRun(d, crc, rs);
    } else {
      ChunkStepsUnfold(d, crc, rs);
      if Head(rs).Answer? {
        PayloadSteps(d[4..], crc, Drop(rs, 2));
      }
    }
  }

  /** fine_send_cmd is the step sequence CmdSteps, run by RunSteps. */
  lemma SendCmdSteps(p: Phase, cmd: byte, data: seq<byte>, rs: seq<Reply>)
    requires |data| < 0x1_0000
    ensures SendCmdSpec(p, cmd, data, rs) == RunSteps(CmdSteps(p, cmd, data), rs)
  {
    CmdStepsUnfold(p, cmd, data, rs);
    PayloadSteps(data, CmdChecksum(p, cmd, data), Drop(rs, 2));
  }

  /** None of the final frames is fatal, so they are all sent and never fail. */
  lemma FinalStepsRun(tail: seq<byte>, crc: byte, rs: seq<Reply>)
    requires |tail| <= 3
    ensures RunSteps(FinalSteps(tail, crc), rs) == Out(ERROR_OK, Outs(FinalSteps(tail, crc)), ())
  {
    var f := FinalSteps(tail, crc);
    assert forall k :: 0 <= k < |f| ==> !f[k].fatal;
    RunStepsResult(f, rs);
    RunStepsSent(f, rs);
    var o := RunSteps(f, rs);
    assert Outs(f)[..|f|] == Outs(f);
    assert o.val == ();
    assert o == Out(ERROR_OK, Outs(f), ());
  }

  /** The five header bytes of fine_send_cmd. */
  method FillHeader(out: array<byte>, p: Phase, cmd: byte, len: nat)
    requires out.Length == 5 && len < 0x1_0000
    modifies out
    ensures out[..] == Header(p, cmd, len)
  {
    out[0] := FRAME_MARK;
    out[1] := FINE_CMD_SOH + PhaseByte(p);
    out[2] := ((len + 1) / 256) % 256;
    out[3] := (len + 1) % 256;
    out[4] := cmd;
  }

  /** The two checksum loops of fine_send_cmd, over header bytes 2..4 and the payload. */
  method ComputeChecksum(h: array<byte>, data: seq<byte>) returns (crc: byte)
    requires h.Length == 5
    ensures crc == Checksum(h[..], data)
  {
    ghost var hd := h[2..];
    crc := AddBytes(0, h[2..5]);
    HeaderSum(hd);
    assert hd[..3] == h[2..5];
    crc := AddBytes(crc, data);
    AddMod(h[2] as int + h[3] + h[4], Sum(data));
    // crc = ~crc + 1 in uint8_t arithmetic
    crc := (256 - crc) % 256;
  }

  /** One checksum loop: adds every byte of `s` to `crc0` in uint8_t arithmetic. */
  method AddBytes(crc0: byte, s: seq<byte>) returns (crc: byte)
    ensures crc == (crc0 + Sum(s)) % 256
  {
    crc := crc0;
    for i := 0 to |s|
      invariant crc == (crc0 + Sum(s[..i])) % 256
    {
      SumPrefix(s, i);
      AddMod(crc0 + Sum(s[..i]), s[i]);
      crc := (crc + s[i]) % 256;
    }
    assert s[..|s|] == s;
  }

  /** Extending a prefix by one byte adds that byte to the sum. */
  lemma SumPrefix(s: seq<byte>, i: nat)
    requires i < |s|
    ensures Sum(s[..i + 1]) == Sum(s[..i]) + s[i]
  {
    assert s[..i + 1][..i] == s[..i];
  }

  /** The sum of the three header bytes the checksum covers. */
  lemma HeaderSum(hd: seq<byte>)
    requires |hd| == 3
    ensures Sum(hd[..3]) == hd[0] as int + hd[1] + hd[2]
  {
    assert hd[..0] == [];
    SumPrefix(hd, 0);
    SumPrefix(hd, 1);
    SumPrefix(hd, 2);
  }

  /** One round of the chunk loop of fine_send_cmd: a full 4-byte chunk, then an ignored acknowledgement. */
  method SendChunk(link: Link, out: array<byte>, data: seq<byte>, idx: nat) returns (ret: int)
    requires out.Length == 5 && out[0] == FRAME_MARK && idx + 4 <= |data|
    modifies link, out
    ensures out[0] == FRAME_MARK
    ensures var f := Exchange([FRAME_MARK] + data[idx..][..4], 1);
            && (Head(old(link.Pending())).Fault? ==> ret == ERROR_FAIL && link.log == old(link.log) + [f])
            && (Head(old(link.Pending())).Answer? ==> ret == ERROR_OK && link.log == old(link.log) + [f, AckExchange])
  {
    out[1] := data[idx];
    out[2] := data[idx + 1];
    out[3] := data[idx + 2];
    out[4] := data[idx + 3];
    assert out[..] == [FRAME_MARK] + data[idx..][..4];
    var inBuf;
    ret, inBuf := link.Xfer(out[..], 1);
    if ret != ERROR_OK {
      return ERROR_FAIL;
    }
    var _ := SendCmdAck(link);
  }

  /** The switch of fine_send_cmd that lays out the last frame for 0..3 remaining bytes. */
  method FillFinal(out: array<byte>, tail: seq<byte>, crc: byte)
    requires out.Length == 5 && out[0] == FRAME_MARK && |tail| <= 3
    modifies out
    ensures out[..] == FinalSteps(tail, crc)[0].ex.out
  {
    out[1], out[2], out[3], out[4] := 0, 0, 0, 0;
    if |tail| == 0 {
      out[1] := crc;
      out[2] := FINE_CMD_ETX;
    } else if |tail| == 1 {
      out[1] := tail[0];
      out[2] := crc;
      out[3] := FINE_CMD_ETX;
    } else if |tail| == 2 {
      out[1] := tail[0];
      out[2] := tail[1];
      out[3] := crc;
      out[4] := FINE_CMD_ETX;
    } else {
      out[1] := tail[0];
      out[2] := tail[1];
      out[3] := tail[2];
      out[4] := crc;
    }
  }

  /** The exchanges of the final frame(s): one frame, or for three bytes a frame, an acknowledgement and the ETX frame. */
  lemma FinalOuts(d: seq<byte>, crc: byte)
    requires |d| <= 3
    ensures |d| < 3 ==> Outs(FinalSteps(d, crc)) == [FinalSteps(d, crc)[0].ex]
    ensures |d| == 3 ==> Outs(FinalSteps(d, crc)) == [FinalSteps(d, crc)[0].ex] + [AckExchange, EtxExchange]
  {
    var f := FinalSteps(d, crc);
    if |d| == 3 {
      assert Outs(f) == [f[0].ex, f[1].ex, f[2].ex];
      assert [FRAME_MARK] + [FINE_CMD_ETX, 0, 0, 0] == EtxExchange.out;
    } else {
      assert Outs(f) == [f[0].ex];
    }
  }

  /** The frame that carries ETX alone after a frame filled by three bytes and the checksum. */
  const EtxExchange: Exchange := Exchange([FRAME_MARK, FINE_CMD_ETX, 0, 0, 0], 1)

  /** The final frame(s) of fine_send_cmd, whose exchange results are ignored. */
  method SendFinal(link: Link, out: array<byte>, tail: seq<byte>, crc: byte)
    requires out.Length == 5 && out[0] == FRAME_MARK && |tail| <= 3
    modifies link, out
    ensures link.log == old(link.log) + Outs(FinalSteps(tail, crc))
  {
    ghost var l0 := link.log;
    FinalOuts(tail, crc);
    FillFinal(out, tail, crc);
    var r, inBuf := link.Xfer(out[..], 1);
    if |tail| == 3 {
      ghost var l1 := link.log;
      SendEtx(link, out);
      AppendAssoc(l0, [FinalSteps(tail, crc)[0].ex], [AckExchange, EtxExchange]);
    }
  }

  /** After a frame of three bytes and the checksum: an ignored acknowledgement, then the ETX frame. */
  method SendEtx(link: Link, out: array<byte>)
    requires out.Length == 5 && out[0] == FRAME_MARK
    modifies link, out
    ensures link.log == old(link.log) + [AckExchange, EtxExchange]
  {
    var _ := SendCmdAck(link);
    out[1] := FINE_CMD_ETX;
    out[2] := 0;
    out[3] := 0;
    out[4] := 0;
    assert out[..] == EtxExchange.out;
    var r, inBuf := link.Xfer(out[..], 1);
  }

  // ---------------------------------------------------------------------
  // fine_send_cmd: what the frames carry

  /** A step is either an acknowledgement request or a 5-byte frame starting with 0x84. */
  ghost predicate IsFrame(s: Step)
  {
    |s.ex.out| == 5 && s.ex.out[0] == FRAME_MARK && s.ex.inCnt == 1
  }

  /** The 4-byte bodies of the frames among `steps`, in order (acknowledgements skipped). */
  function FrameBodies(steps: seq<Step>): seq<byte>
    decreases |steps|
  {
    if |steps| == 0 then []
    else (if |steps[0].ex.out| == 5 then steps[0].ex.out[1..5] else []) + FrameBodies(steps[1..])
  }

  /** `s` zero-padded to a multiple of 4 bytes. */
  function Pad4(s: seq<byte>): (r: seq<byte>)
    ensures |r| % 4 == 0 && |s| <= |r| < |s| + 4 && r[..|s|] == s
  {
    s + Zeros((4 - |s| % 4) % 4)
  }

  /** FrameBodies distributes over concatenation. */
  lemma {:induction false} FrameBodiesAppend(a: seq<Step>, b: seq<Step>)
    ensures FrameBodies(a + b) == FrameBodies(a) + FrameBodies(b)
    decreases |a|
  {
    if |a| == 0 {
      assert a + b == b;
    } else {
      assert (a + b)[0] == a[0] && (a + b)[1..] == a[1..] + b;
      FrameBodiesAppend(a[1..], b);
    }
  }

  /** The body of a single step. */
  lemma FrameBodiesOne(st: Step)
    ensures FrameBodies([st]) == if |st.ex.out| == 5 then st.ex.out[1..5] else []
  {
    assert [st][1..] == [];
  }

  /** Four more leading bytes do not change the padding. */
  lemma Pad4Cons(a: seq<byte>, x: seq<byte>)
    requires |a| == 4
    ensures a + Pad4(x) == Pad4(a + x)
  {
    assert (4 - |a + x| % 4) % 4 == (4 - |x| % 4) % 4;
  }

  /** The final frames carry the remainder, the checksum and ETX, zero-padded. */
  lemma FinalBodies(d: seq<byte>, crc: byte)
    requires |d| <= 3
    ensures FrameBodies(FinalSteps(d, crc)) == Pad4(d + [crc, FINE_CMD_ETX])
  {
    if |d| == 3 {
      FinalBodiesSplit(d, crc);
    } else {
      FinalBodiesShort(d, crc);
    }
  }

  /** The bodies of three steps, one after the other. */
  lemma FrameBodiesThree(a: Step, b: Step, c: Step)
    ensures FrameBodies([a, b, c]) == FrameBodies([a]) + FrameBodies([b]) + FrameBodies([c])
  {
    assert [a, b, c] == [a] + [b, c] && [b, c] == [b] + [c];
    FrameBodiesAppend([a], [b, c]);
    FrameBodiesAppend([b], [c]);
  }

  /** Five bytes pad to eight with three zeros. */
  lemma Pad4Five(x: seq<byte>)
    requires |x| == 5
    ensures Pad4(x) == x + [0, 0, 0]
  {
    assert Zeros(3) == [0, 0, 0];
  }

  /** Three remaining bytes: a frame with the checksum, an acknowledgement, a frame with ETX. */
  lemma FinalBodiesSplit(d: seq<byte>, crc: byte)
    requires |d| == 3
    ensures FrameBodies(FinalSteps(d, crc)) == Pad4(d + [crc, FINE_CMD_ETX])
  {
    var s0 := FrameStep([d[0], d[1], d[2], crc], false);
    var s2 := FrameStep([FINE_CMD_ETX, 0, 0, 0], false);
    assert FinalSteps(d, crc) == [s0, AckStep, s2];
    FrameBodiesThree(s0, AckStep, s2);
    FrameBodiesOne(s0);
    FrameBodiesOne(AckStep);
    FrameBodiesOne(s2);
    Pad4Five(d + [crc, FINE_CMD_ETX]);
    SplitTail(d, crc);
  }

  /** Three bytes, the checksum, ETX and three zeros, regrouped as two 4-byte bodies. */
  lemma SplitTail(d: seq<byte>, crc: byte)
    requires |d| == 3
    ensures d + [crc, FINE_CMD_ETX] + [0, 0, 0] == [d[0], d[1], d[2], crc] + [FINE_CMD_ETX, 0, 0, 0]
  {
    assert d == [d[0], d[1], d[2]];
  }

  /** Fewer than three remaining bytes: one frame holds them, the checksum and ETX. */
  lemma FinalBodiesShort(d: seq<byte>, crc: byte)
    requires |d| < 3
    ensures FrameBodies(FinalSteps(d, crc)) == Pad4(d + [crc, FINE_CMD_ETX])
  {
    var steps := FinalSteps(d, crc);
    FrameBodiesOne(steps[0]);
    var tail := d + [crc, FINE_CMD_ETX];
    assert Pad4(tail) == tail + Zeros(2 - |d|);
    assert steps[0].ex.out[1..5] == tail + Zeros(2 - |d|);
  }

  /** One full chunk contributes its four bytes; its acknowledgement contributes none. */
  lemma ChunkBodiesStep(d: seq<byte>, crc: byte)
    requires |d| > 3
    ensures FrameBodies(ChunkSteps(d, crc)) == d[..4] + FrameBodies(ChunkSteps(d[4..], crc))
  {
    var f := FrameStep(d[..4], true);
    var rest := ChunkSteps(d[4..], crc);
    assert ChunkSteps(d, crc) == [f] + [AckStep] + rest;
    FrameBodiesAppend([f] + [AckStep], rest);
    FrameBodiesAppend([f], [AckStep]);
    FrameBodiesOne(f);
    FrameBodiesOne(AckStep);
  }

  /** The frames of the chunk loop and the final frames carry the payload, the checksum and ETX, zero-padded. */
  lemma {:induction false} ChunkBodies(d: seq<byte>, crc: byte)
    ensures FrameBodies(ChunkSteps(d, crc)) == Pad4(d + [crc, FINE_CMD_ETX])
    decreases |d|
  {
    if |d| > 3 {
      var tail := d[4..] + [crc, FINE_CMD_ETX];
      ChunkBodiesStep(d, crc);
      ChunkBodies(d[4..], crc);
      Pad4Cons(d[..4], tail);
      assert d[..4] + tail == d + [crc, FINE_CMD_ETX];
    } else {
      FinalBodies(d, crc);
    }
  }

  /**
   * The frame bodies after the header carry the payload, the checksum and
   * ETX, zero-padded to whole frames; together with the header bytes 2..4
   * the payload and checksum sum to 0 modulo 256.
   */
  lemma PayloadFrames(p: Phase, cmd: byte, d: seq<byte>)
    requires |d| < 0x1_0000
    ensures var steps := CmdSteps(p, cmd, d);
            var h := steps[0].ex.out;
            var b := FrameBodies(steps[2..]);
            && h == [0x84, FINE_CMD_SOH + PhaseByte(p), ((|d| + 1) / 256) % 256, (|d| + 1) % 256, cmd]
            && b == Pad4(d + [CmdChecksum(p, cmd, d), FINE_CMD_ETX])
            && b[..|d|] == d
            && (h[2] + h[3] + h[4] + Sum(b[..|d| + 1])) % 256 == 0
  {
    var crc := CmdChecksum(p, cmd, d);
    var steps := CmdSteps(p, cmd, d);
    assert steps[2..] == ChunkSteps(d, crc);
    ChunkBodies(d, crc);
    var b := FrameBodies(steps[2..]);
    assert b[..|d| + 2] == d + [crc, FINE_CMD_ETX];
    assert b[..|d| + 1] == d + [crc];
    assert (d + [crc])[..|d|] == d;
  }

  /** The number of steps of ChunkSteps: two per full chunk, then one or three final steps. */
  lemma {:induction false} ChunkLength(d: seq<byte>, crc: byte)
    ensures |ChunkSteps(d, crc)| == 2 * (|d| / 4) + (if |d| % 4 == 3 then 3 else 1)
    decreases |d|
  {
    if |d| > 3 {
      ChunkLength(d[4..], crc);
      assert |d[4..]| / 4 == |d| / 4 - 1 && |d[4..]| % 4 == |d| % 4;
    }
  }

  /** After the full chunks come the final steps for the remainder. */
  lemma {:induction false} ChunkFinal(d: seq<byte>, crc: byte)
    ensures 2 * (|d| / 4) <= |ChunkSteps(d, crc)|
    ensures ChunkSteps(d, crc)[2 * (|d| / 4)..] == FinalSteps(d[|d| - |d| % 4..], crc)
    decreases |d|
  {
    if |d| > 3 {
      var rest := ChunkSteps(d[4..], crc);
      ChunkFinal(d[4..], crc);
      assert |d[4..]| / 4 == |d| / 4 - 1;
      assert d[4..][|d[4..]| - |d[4..]| % 4..] == d[|d| - |d| % 4..];
      assert ChunkSteps(d, crc)[2..] == rest;
    } else {
      assert d[|d| - |d| % 4..] == d;
    }
  }

  /** In ChunkSteps, the full-chunk frames (even positions before the final steps) are exactly the fatal steps. */
  lemma {:induction false} ChunkFatal(d: seq<byte>, crc: byte)
    ensures forall k :: 0 <= k < |ChunkSteps(d, crc)| ==> (ChunkSteps(d, crc)[k].fatal <==> k % 2 == 0 && k < 2 * (|d| / 4))
    decreases |d|
  {
    var c := ChunkSteps(d, crc);
    if |d| > 3 {
      var rest := ChunkSteps(d[4..], crc);
      ChunkFatal(d[4..], crc);
      assert |d[4..]| / 4 == |d| / 4 - 1;
      forall k | 2 <= k < |c| ensures c[k] == rest[k - 2] { }
    }
  }

  /** Every step of ChunkSteps is a 5-byte frame or an acknowledgement request. */
  lemma {:induction false} ChunkKinds(d: seq<byte>, crc: byte)
    ensures forall k :: 0 <= k < |ChunkSteps(d, crc)| ==> ChunkSteps(d, crc)[k] == AckStep || IsFrame(ChunkSteps(d, crc)[k])
    decreases |d|
  {
    var c := ChunkSteps(d, crc);
    if |d| > 3 {
      var rest := ChunkSteps(d[4..], crc);
      ChunkKinds(d[4..], crc);
      forall k | 2 <= k < |c| ensures c[k] == rest[k - 2] { }
    }
  }

  /** Each full-chunk frame of ChunkSteps is followed by an acknowledgement request. */
  lemma {:induction false} ChunkAcks(d: seq<byte>, crc: byte)
    ensures 2 * (|d| / 4) <= |ChunkSteps(d, crc)|
    ensures forall k :: 0 <= k < 2 * (|d| / 4) && k % 2 == 1 ==> ChunkSteps(d, crc)[k] == AckStep
    decreases |d|
  {
    var c := ChunkSteps(d, crc);
    ChunkLength(d, crc);
    if |d| > 3 {
      var rest := ChunkSteps(d[4..], crc);
      ChunkAcks(d[4..], crc);
      assert |d[4..]| / 4 == |d| / 4 - 1;
      forall k | 2 <= k < |c| ensures c[k] == rest[k - 2] { }
    }
  }

  /** The header step is fatal, its acknowledgement is not, and step k + 2 is step k of the chunks. */
  lemma CmdStepsIndex(p: Phase, cmd: byte, d: seq<byte>)
    requires |d| < 0x1_0000
    ensures |CmdSteps(p, cmd, d)| == 2 + |ChunkSteps(d, CmdChecksum(p, cmd, d))|
    ensures CmdSteps(p, cmd, d)[0].fatal && CmdSteps(p, cmd, d)[1] == AckStep
    ensures forall k :: 2 <= k < |CmdSteps(p, cmd, d)| ==> CmdSteps(p, cmd, d)[k] == ChunkSteps(d, CmdChecksum(p, cmd, d))[k - 2]
  {
  }

  /** The fatal steps of fine_send_cmd are the header and the full-chunk frames. */
  lemma CmdFatal(p: Phase, cmd: byte, d: seq<byte>)
    requires |d| < 0x1_0000
    ensures |CmdSteps(p, cmd, d)| == 2 + 2 * (|d| / 4) + (if |d| % 4 == 3 then 3 else 1)
    ensures forall k :: 0 <= k < |CmdSteps(p, cmd, d)| ==> (CmdSteps(p, cmd, d)[k].fatal <==> k % 2 == 0 && k < 2 + 2 * (|d| / 4))
  {
    var crc := CmdChecksum(p, cmd, d);
    var c := ChunkSteps(d, crc);
    var s := CmdSteps(p, cmd, d);
    ChunkLength(d, crc);
    ChunkFatal(d, crc);
    CmdStepsIndex(p, cmd, d);
    forall k | 0 <= k < |s| ensures s[k].fatal <==> k % 2 == 0 && k < 2 + 2 * (|d| / 4) {
      if k >= 2 {
        assert s[k] == c[k - 2];
      }
    }
  }

  /** Every step of fine_send_cmd is a frame or an acknowledgement, one after the header and after each full chunk. */
  lemma CmdFrames(p: Phase, cmd: byte, d: seq<byte>)
    requires |d| < 0x1_0000
    ensures CmdSteps(p, cmd, d)[1] == AckStep
    ensures forall k :: 0 <= k < |CmdSteps(p, cmd, d)| ==> CmdSteps(p, cmd, d)[k] == AckStep || IsFrame(CmdSteps(p, cmd, d)[k])
    ensures 2 + 2 * (|d| / 4) <= |CmdSteps(p, cmd, d)|
    ensures forall k :: 0 <= k < 2 + 2 * (|d| / 4) && k % 2 == 1 ==> CmdSteps(p, cmd, d)[k] == AckStep
  {
    var crc := CmdChecksum(p, cmd, d);
    var c := ChunkSteps(d, crc);
    var s := CmdSteps(p, cmd, d);
    ChunkKinds(d, crc);
    ChunkAcks(d, crc);
    CmdStepsIndex(p, cmd, d);
    forall k | 0 <= k < |s| ensures s[k] == AckStep || IsFrame(s[k]) {
      if k >= 2 {
        assert s[k] == c[k - 2];
      }
    }
    forall k | 0 <= k < 2 + 2 * (|d| / 4) && k % 2 == 1 ensures s[k] == AckStep {
      if k >= 2 {
        assert s[k] == c[k - 2];
      }
    }
  }

  /** After the header and the full chunks of fine_send_cmd come the final frames for the remainder. */
  lemma CmdFinal(p: Phase, cmd: byte, d: seq<byte>)
    requires |d| < 0x1_0000
    ensures 2 + 2 * (|d| / 4) <= |CmdSteps(p, cmd, d)|
    ensures CmdSteps(p, cmd, d)[2 + 2 * (|d| / 4)..] == FinalSteps(d[|d| - |d| % 4..], CmdChecksum(p, cmd, d))
  {
    var crc := CmdChecksum(p, cmd, d);
    var c := ChunkSteps(d, crc);
    ChunkFinal(d, crc);
    var s := CmdSteps(p, cmd, d);
    assert s == [s[0], s[1]] + c;
    assert s[2 + 2 * (|d| / 4)..] == c[2 * (|d| / 4)..];
  }

  /**
   * The exchanges of fine_send_cmd: the header and each full chunk are the
   * fatal ones; every exchange is a 5-byte 0x84 frame or an acknowledgement
   * request; after the last chunk come the final frames for the remainder.
   */
  lemma CmdShape(p: Phase, cmd: byte, d: seq<byte>)
    requires |d| < 0x1_0000
    ensures |CmdSteps(p, cmd, d)| == 2 + 2 * (|d| / 4) + (if |d| % 4 == 3 then 3 else 1)
    ensures CmdSteps(p, cmd, d)[1] == AckStep
    ensures CmdSteps(p, cmd, d)[2 + 2 * (|d| / 4)..] == FinalSteps(d[|d| - |d| % 4..], CmdChecksum(p, cmd, d))
    ensures forall k :: 0 <= k < |CmdSteps(p, cmd, d)| ==> (CmdSteps(p, cmd, d)[k].fatal <==> k % 2 == 0 && k < 2 + 2 * (|d| / 4))
    ensures forall k :: 0 <= k < |CmdSteps(p, cmd, d)| ==> CmdSteps(p, cmd, d)[k] == AckStep || IsFrame(CmdSteps(p, cmd, d)[k])
    ensures forall k :: 0 <= k < 2 + 2 * (|d| / 4) && k % 2 == 1 ==> CmdSteps(p, cmd, d)[k] == AckStep
  {
    CmdFatal(p, cmd, d);
    CmdFrames(p, cmd, d);
    CmdFinal(p, cmd, d);
  }

  /** RunSteps fails exactly when some fatal step's exchange faults; otherwise it succeeds. */
  lemma {:induction false} RunStepsResult(steps: seq<Step>, rs: seq<Reply>)
    ensures RunSteps(steps, rs).ret == ERROR_OK || RunSteps(steps, rs).ret == ERROR_FAIL
    ensures RunSteps(steps, rs).ret == ERROR_FAIL <==> exists k :: 0 <= k < |steps| && steps[k].fatal && At(rs, k).Fault?
    decreases |steps|
  {
    if |steps| > 0 {
      assert At(rs, 0) == Head(rs);
      if !(steps[0].fatal && Head(rs).Fault?) {
        RunStepsResult(steps[1..], Drop(rs, 1));
        if RunSteps(steps[1..], Drop(rs, 1)).ret == ERROR_FAIL {
          var k :| 0 <= k < |steps[1..]| && steps[1..][k].fatal && At(Drop(rs, 1), k).Fault?;
          DropDrop(rs, 1, k);
          assert steps[k + 1].fatal && At(rs, k + 1).Fault?;
        }
        if exists k :: 0 <= k < |steps| && steps[k].fatal && At(rs, k).Fault? {
          var k :| 0 <= k < |steps| && steps[k].fatal && At(rs, k).Fault?;
          DropDrop(rs, 1, k - 1);
          assert steps[1..][k - 1].fatal && At(Drop(rs, 1), k - 1).Fault?;
        }
      }
    }
  }

  /** RunSteps sends a prefix of the steps' exchanges, all of them when it succeeds. */
  lemma {:induction false} RunStepsSent(steps: seq<Step>, rs: seq<Reply>)
    ensures |RunSteps(steps, rs).sent| <= |steps| && RunSteps(steps, rs).sent == Outs(steps)[..|RunSteps(steps, rs).sent|]
    ensures RunSteps(steps, rs).ret == ERROR_OK ==> |RunSteps(steps, rs).sent| == |steps|
    decreases |steps|
  {
    if |steps| > 0 && !(steps[0].fatal && Head(rs).Fault?) {
      RunStepsSent(steps[1..], Drop(rs, 1));
      var t := RunSteps(steps[1..], Drop(rs, 1));
      assert Outs(steps)[..1 + |t.sent|] == [steps[0].ex] + Outs(steps[1..])[..|t.sent|];
    }
  }

  /** None of the first `m` steps is a fatal one whose exchange faulted. */
  ghost predicate NoFatalFault(steps: seq<Step>, rs: seq<Reply>, m: nat)
    requires m <= |steps|
  {
    forall k :: 0 <= k < m ==> !(steps[k].fatal && At(rs, k).Fault?)
  }

  /** A first step that survives, followed by `m` surviving steps of the rest. */
  lemma NoFatalFaultShift(steps: seq<Step>, rs: seq<Reply>, m: nat)
    requires m < |steps| && !(steps[0].fatal && Head(rs).Fault?)
    requires NoFatalFault(steps[1..], Drop(rs, 1), m)
    ensures NoFatalFault(steps, rs, m + 1)
  {
    forall k | 0 <= k < m + 1 ensures !(steps[k].fatal && At(rs, k).Fault?) {
      if k == 0 {
        AtZero(rs);
      } else {
        DropDrop(rs, 1, k - 1);
        assert !(steps[1..][k - 1].fatal && At(Drop(rs, 1), k - 1).Fault?);
      }
    }
  }

  /**
   * When RunSteps fails, the last exchange it sent is a fatal step that
   * faulted, and no earlier fatal step faulted.
   */
  lemma {:induction false} RunStepsStop(steps: seq<Step>, rs: seq<Reply>)
    ensures RunSteps(steps, rs).ret != ERROR_OK ==>
              && 0 < |RunSteps(steps, rs).sent| <= |steps|
              && steps[|RunSteps(steps, rs).sent| - 1].fatal && At(rs, |RunSteps(steps, rs).sent| - 1).Fault?
              && NoFatalFault(steps, rs, |RunSteps(steps, rs).sent| - 1)
    decreases |steps|
  {
    if |steps| > 0 {
      AtZero(rs);
      if !(steps[0].fatal && Head(rs).Fault?) {
        var t := RunSteps(steps[1..], Drop(rs, 1));
        RunStepsStop(steps[1..], Drop(rs, 1));
        if t.ret != ERROR_OK {
          var m := |t.sent|;
          assert |RunSteps(steps, rs).sent| == m + 1;
          DropDrop(rs, 1, m - 1);
          assert steps[m].fatal && At(rs, m).Fault?;
          NoFatalFaultShift(steps, rs, m - 1);
        }
      }
    }
  }

  /**
   * fine_send_cmd returns ERROR_FAIL exactly when the header exchange or a
   * full-chunk exchange faults, and ERROR_OK otherwise.
   */
  lemma SendCmdFailureRule(p: Phase, cmd: byte, d: seq<byte>, rs: seq<Reply>)
    requires |d| < 0x1_0000
    ensures SendCmdSpec(p, cmd, d, rs).ret == ERROR_OK || SendCmdSpec(p, cmd, d, rs).ret == ERROR_FAIL
    ensures SendCmdSpec(p, cmd, d, rs).ret == ERROR_FAIL <==> exists k :: 0 <= k < 2 + 2 * (|d| / 4) && k % 2 == 0 && At(rs, k).Fault?
    ensures SendCmdSpec(p, cmd, d, rs).ret == ERROR_OK ==> SendCmdSpec(p, cmd, d, rs).sent == Outs(CmdSteps(p, cmd, d))
  {
    SendCmdFails(p, cmd, d, rs);
    SendCmdSendsAll(p, cmd, d, rs);
  }

  /** The result code half of SendCmdFailureRule. */
  lemma SendCmdFails(p: Phase, cmd: byte, d: seq<byte>, rs: seq<Reply>)
    requires |d| < 0x1_0000
    ensures SendCmdSpec(p, cmd, d, rs).ret == ERROR_OK || SendCmdSpec(p, cmd, d, rs).ret == ERROR_FAIL
    ensures SendCmdSpec(p, cmd, d, rs).ret == ERROR_FAIL <==> exists k :: 0 <= k < 2 + 2 * (|d| / 4) && k % 2 == 0 && At(rs, k).Fault?
  {
    var s := CmdSteps(p, cmd, d);
    SendCmdSteps(p, cmd, d, rs);
    CmdFatal(p, cmd, d);
    RunStepsResult(s, rs);
    if RunSteps(s, rs).ret == ERROR_FAIL {
      var k :| 0 <= k < |s| && s[k].fatal && At(rs, k).Fault?;
      assert 0 <= k < 2 + 2 * (|d| / 4) && k % 2 == 0;
    }
    if exists k :: 0 <= k < 2 + 2 * (|d| / 4) && k % 2 == 0 && At(rs, k).Fault? {
      var k :| 0 <= k < 2 + 2 * (|d| / 4) && k % 2 == 0 && At(rs, k).Fault?;
      assert s[k].fatal;
    }
  }

  /** The exchanges half of SendCmdFailureRule: a successful command sent all of its steps. */
  lemma SendCmdSendsAll(p: Phase, cmd: byte, d: seq<byte>, rs: seq<Reply>)
    requires |d| < 0x1_0000
    ensures SendCmdSpec(p, cmd, d, rs).ret == ERROR_OK ==> SendCmdSpec(p, cmd, d, rs).sent == Outs(CmdSteps(p, cmd, d))
  {
    var s := CmdSteps(p, cmd, d);
    SendCmdSteps(p, cmd, d, rs);
    RunStepsSent(s, rs);
    assert Outs(s)[..|s|] == Outs(s);
  }

  // ---------------------------------------------------------------------
  // fine_get_status_packet

  /** Bit 0x80 of a byte, as the C test `status[3] & 0x80`: bit 7 is the quotient by 0x80, modulo 2. */
  function Bit7(b: byte): bool
  {
    (b / 0x80) % 2 == 1
  }

  lemma Bit7Value(b: byte)
    ensures Bit7(b) <==> b >= 0x80
  {
  }

  /** The result a well-received 8-byte status block reports. */
  function StatusCode(status: seq<byte>): int
    requires |status| == 8
  {
    if !Bit7(status[3]) then ERROR_OK else status[4]
  }

  /** The status block: bytes 1..4 of the first and of the second data answer. */
  function StatusBlock(r1: Reply, r2: Reply): (s: seq<byte>)
    requires r1.Answer? && r2.Answer?
    ensures |s| == 8
  {
    Fit(r1.bytes, 5)[1..5] + Fit(r2.bytes, 5)[1..5]
  }

  function StatusSpec(rs: seq<Reply>): Out<()>
  {
    var r1 := Head(rs);
    if r1.Fault? then Out(ERROR_FAIL, [DataExchange], ())
    else
      var r2 := At(rs, 1);
      if r2.Fault? then Out(ERROR_FAIL, [DataExchange, DataExchange], ())
      else
        var ack := AckSpec(Drop(rs, 2));
        if ack.ret != ERROR_OK then After([DataExchange, DataExchange], ack)
        else Out(StatusCode(StatusBlock(r1, r2)), [DataExchange, DataExchange] + ack.sent, ())
  }

  method GetStatusPacket(link: Link) returns (ret: int)
    modifies link
    ensures var o := StatusSpec(old(link.Pending()));
            ret == o.ret && link.log == old(link.log) + o.sent
  {
    ghost var l0 := link.log;
    ghost var p0 := link.Pending();
    var r, i := link.Xfer([FINE_ASK_TARGET_DATA], 5);
    if r != ERROR_OK {
      return ERROR_FAIL;
    }
    var status := i[1..5];
    assert link.log == l0 + [DataExchange];
    PendingAfter(l0, [DataExchange], link.script);
    assert link.Pending() == Drop(p0, 1);
    r, i := link.Xfer([FINE_ASK_TARGET_DATA], 5);
    if r != ERROR_OK {
      return ERROR_FAIL;
    }
    assert At(p0, 1).Answer?;
    status := status + i[1..5];
    assert link.log == l0 + [DataExchange, DataExchange];
    PendingAfter(l0, [DataExchange, DataExchange], link.script);
    DropDrop(p0, 1, 1);
    assert link.Pending() == Drop(p0, 2);
    assert status == StatusBlock(Head(p0), At(p0, 1));
    ret := SendCmdAck(link);
    AppendAssoc(l0, [DataExchange, DataExchange], [AckExchange]);
    if ret != ERROR_OK {
      return ret;
    }
    if !Bit7(status[3]) {
      return ERROR_OK;
    }
    return status[4];
  }

  /**
   * The status decode: any transport fault or a failed acknowledgement gives
   * ERROR_FAIL; otherwise the result is OK when bit 0x80 of status byte 3
   * (byte 4 of the first answer) is clear, else status byte 4 (byte 1 of the
   * second answer). Exactly three exchanges are made unless one faults.
   */
  lemma StatusDecode(rs: seq<Reply>)
    ensures var o := StatusSpec(rs);
            && 1 <= |o.sent| <= 3
            && o.sent == [DataExchange, DataExchange, AckExchange][..|o.sent|]
            && (o.ret == ERROR_FAIL <==>
                  || At(rs, 0).Fault? || At(rs, 1).Fault?
                  || AckSpec(Drop(rs, 2)).ret != ERROR_OK)
            && (At(rs, 0).Answer? && At(rs, 1).Answer? && AckSpec(Drop(rs, 2)).ret == ERROR_OK ==>
                  && |o.sent| == 3
                  && o.ret == (if Fit(At(rs, 0).bytes, 5)[4] < 0x80 then ERROR_OK else Fit(At(rs, 1).bytes, 5)[1]))
  {
    if At(rs, 0).Answer? && At(rs, 1).Answer? {
      Bit7Value(StatusBlock(At(rs, 0), At(rs, 1))[3]);
    }
  }

  // ---------------------------------------------------------------------
  // fine_get_data

  /** nb_xfer = ((in[2] << 8) + in[3] + 1) / 4, plus one when (in[3] + 1) % 4 != 0. */
  function NbXfer(hi: byte, lo: byte): nat
  {
    (hi * 256 + lo + 1) / 4 + (if (lo + 1) % 4 != 0 then 1 else 0)
  }

  /**
   * The rounding test only looks at the low length byte, but 256 is a
   * multiple of 4, so nb_xfer is exactly the number of 4-byte chunks that
   * hold (hi << 8) + lo + 1 bytes.
   */
  lemma NbXferIsCeiling(hi: byte, lo: byte)
    ensures var len := hi * 256 + lo + 1;
            4 * NbXfer(hi, lo) >= len && 4 * NbXfer(hi, lo) < len + 4
  {
    var len := hi * 256 + lo + 1;
    assert len % 4 == (lo + 1) % 4 by {
      assert len == 64 * hi * 4 + (lo + 1);
    }
  }

  /**
   * The first `n` continuation exchanges, each contributing bytes 1..4 of
   * its answer; the read stops at the first fault.
   */
  function DataChunks(n: nat, rs: seq<Reply>): (o: Out<seq<byte>>)
    ensures o.ret == ERROR_OK || o.ret == ERROR_FAIL
    ensures |o.sent| <= n && |o.val| == 4 * (if o.ret == ERROR_OK then |o.sent| else |o.sent| - 1)
    ensures o.ret == ERROR_OK ==> |o.sent| == n
    ensures o.ret != ERROR_OK ==> |o.sent| > 0
    decreases n
  {
    if n == 0 then Out(ERROR_OK, [], [])
    else
      var t := DataChunks(n - 1, rs);
      if t.ret != ERROR_OK then t
      else
        var r := At(rs, n - 1);
        if r.Fault? then Out(ERROR_FAIL, t.sent + [DataExchange], t.val)
        else Out(ERROR_OK, t.sent + [DataExchange], t.val + Fit(r.bytes, 5)[1..5])
  }

  /** The continuation count fine_get_data derives from the first data answer `r`. */
  function DataCount(r: Reply): nat
    requires r.Answer?
  {
    var i := Fit(r.bytes, 5);
    NbXfer(i[2], i[3])
  }

  /**
   * fine_get_data: a first data answer, nb_xfer continuation answers, then
   * an acknowledgement whose result is ignored; the result is the number
   * of bytes stored, or ERROR_FAIL on a transport fault.
   */
  function GetDataSpec(rs: seq<Reply>): Out<seq<byte>>
  {
    var r0 := Head(rs);
    if r0.Fault? then Out(ERROR_FAIL, [DataExchange], [])
    else
      var first := Fit(r0.bytes, 5)[1..5];
      var nb := DataCount(r0);
      var t := DataChunks(nb, Drop(rs, 1));
      if t.ret != ERROR_OK then Out(ERROR_FAIL, [DataExchange] + t.sent, first + t.val)
      else
        var ack := AckSpec(Drop(rs, 1 + nb));
        Out(4 + 4 * nb, [DataExchange] + t.sent + ack.sent, first + t.val)
  }

  /** Once a read has failed, further continuation counts change nothing. */
  lemma {:induction false} DataChunksStuck(n: nat, m: nat, rs: seq<Reply>)
    requires m <= n && DataChunks(m, rs).ret != ERROR_OK
    ensures DataChunks(n, rs) == DataChunks(m, rs)
    decreases n
  {
    if n > m {
      DataChunksStuck(n - 1, m, rs);
    }
  }

  method GetData(link: Link) returns (ret: int, buffer: seq<byte>)
    modifies link
    ensures var o := GetDataSpec(old(link.Pending()));
            ret == o.ret && buffer == o.val && link.log == old(link.log) + o.sent
  {
    ghost var l0 := link.log;
    ghost var p0 := link.Pending();
    var r, i := link.Xfer([FINE_ASK_TARGET_DATA], 5);
    if r != ERROR_OK {
      return ERROR_FAIL, [];
    }
    buffer := i[1..5];
    var len := 4;
    var nbXfer := ((i[2] as int) * 256 + i[3] + 1) / 4;
    if ((i[3] as int) + 1) % 4 != 0 {
      nbXfer := nbXfer + 1;
    }
    assert nbXfer == DataCount(Head(p0));
    PendingAfter(l0, [DataExchange], link.script);
    ghost var l1 := link.log;
    var rest;
    r, rest, len := ReadChunks(link, nbXfer, len);
    ghost var t := DataChunks(nbXfer, Drop(p0, 1));
    if r != ERROR_OK {
      AppendAssoc(l0, [DataExchange], t.sent);
      return ERROR_FAIL, buffer + rest;
    }
    DropDrop(p0, 1, nbXfer);
    PendingAfter(l1, t.sent, link.script);
    ghost var ack := AckSpec(link.Pending());
    var _ := SendCmdAck(link);
    AppendAssoc(l0, [DataExchange], t.sent);
    AppendAssoc(l0, [DataExchange] + t.sent, ack.sent);
    return len, buffer + rest;
  }

  /** The nb_xfer continuation reads of fine_get_data, each storing four more bytes and counting them in `len`. */
  method ReadChunks(link: Link, n: nat, len0: int) returns (ret: int, data: seq<byte>, len: int)
    modifies link
    ensures var t := DataChunks(n, old(link.Pending()));
            ret == t.ret && data == t.val && link.log == old(link.log) + t.sent
    ensures ret == ERROR_OK ==> len == len0 + 4 * n
  {
    ghost var l0 := link.log;
    ghost var p0 := link.Pending();
    data, len := [], len0;
    assert l0 + [] == l0;
    var k := 0;
    while k < n
      invariant k <= n && len == len0 + 4 * k
      invariant DataChunks(k, p0).ret == ERROR_OK
      invariant link.log == l0 + DataChunks(k, p0).sent
      invariant data == DataChunks(k, p0).val
      decreases n - k
    {
      ghost var t := DataChunks(k, p0);
      PendingAfter(l0, t.sent, link.script);
      assert Head(link.Pending()) == At(p0, k);
      var r, i := link.Xfer([FINE_ASK_TARGET_DATA], 5);
      AppendAssoc(l0, t.sent, [DataExchange]);
      if r != ERROR_OK {
        DataChunksStuck(n, k + 1, p0);
        return ERROR_FAIL, data, len;
      }
      data := data + i[1..5];
      len := len + 4;
      k := k + 1;
    }
    return ERROR_OK, data, len;
  }

  /** The first `n` scripted exchanges are all answered. */
  ghost predicate Answered(rs: seq<Reply>, n: nat)
  {
    forall j :: 0 <= j < n ==> At(rs, j).Answer?
  }

  /** The continuation reads succeed exactly when all `n` answers arrive. */
  lemma DataChunksResult(n: nat, rs: seq<Reply>)
    ensures DataChunks(n, rs).ret == ERROR_OK <==> Answered(rs, n)
  {
    DataChunksAnswered(n, rs);
    DataChunksComplete(n, rs);
  }

  /** Reads that succeeded had all their answers. */
  lemma {:induction false} DataChunksAnswered(n: nat, rs: seq<Reply>)
    ensures DataChunks(n, rs).ret == ERROR_OK ==> Answered(rs, n)
    decreases n
  {
    if n > 0 && DataChunks(n, rs).ret == ERROR_OK {
      DataChunksAnswered(n - 1, rs);
      DataChunksLast(n, rs);
      AnsweredExtend(rs, n - 1);
    }
  }

  /** A successful read of `n` answers succeeded on the first `n - 1` and had answer `n - 1`. */
  lemma DataChunksLast(n: nat, rs: seq<Reply>)
    requires n > 0 && DataChunks(n, rs).ret == ERROR_OK
    ensures DataChunks(n - 1, rs).ret == ERROR_OK && At(rs, n - 1).Answer?
  {
  }

  /** With all answers there, the reads succeed. */
  lemma {:induction false} DataChunksComplete(n: nat, rs: seq<Reply>)
    ensures Answered(rs, n) ==> DataChunks(n, rs).ret == ERROR_OK
    decreases n
  {
    if n > 0 && Answered(rs, n) {
      AnsweredPrefix(rs, n);
      DataChunksComplete(n - 1, rs);
      assert At(rs, n - 1).Answer?;
    }
  }

  /** All of `n` answers include all of the first `n - 1`. */
  lemma AnsweredPrefix(rs: seq<Reply>, n: nat)
    requires n > 0 && Answered(rs, n)
    ensures Answered(rs, n - 1)
  {
  }

  /** `n` answers and one more. */
  lemma AnsweredExtend(rs: seq<Reply>, n: nat)
    requires Answered(rs, n) && At(rs, n).Answer?
    ensures Answered(rs, n + 1)
  {
  }

  /** Every exchange of the continuation reads is a data request. */
  lemma {:induction false} DataChunksRequests(n: nat, rs: seq<Reply>)
    ensures forall j :: 0 <= j < |DataChunks(n, rs).sent| ==> DataChunks(n, rs).sent[j] == DataExchange
    decreases n
  {
    if n > 0 {
      DataChunksRequests(n - 1, rs);
      var u := DataChunks(n - 1, rs);
      if u.ret == ERROR_OK {
        var t := DataChunks(n, rs);
        var s := u.sent + [DataExchange];
        assert t.sent == s;
        forall j | 0 <= j < |s| ensures s[j] == DataExchange {
          if j < |u.sent| {
            assert s[j] == u.sent[j];
          } else {
            assert s[j] == [DataExchange][j - |u.sent|];
          }
        }
      }
    }
  }

  /** When the continuation reads fail, the last exchange is the first fault. */
  lemma {:induction false} DataChunksStop(n: nat, rs: seq<Reply>)
    ensures DataChunks(n, rs).ret != ERROR_OK ==>
              At(rs, |DataChunks(n, rs).sent| - 1).Fault? && Answered(rs, |DataChunks(n, rs).sent| - 1)
    decreases n
  {
    if n > 0 {
      if DataChunks(n - 1, rs).ret != ERROR_OK {
        DataChunksStop(n - 1, rs);
        DataChunksKeep(n, rs);
      } else if DataChunks(n, rs).ret != ERROR_OK {
        DataChunksStopHere(n, rs);
      }
    }
  }

  /** A read that has already failed stays failed, with nothing more sent. */
  lemma DataChunksKeep(n: nat, rs: seq<Reply>)
    requires n > 0 && DataChunks(n - 1, rs).ret != ERROR_OK
    ensures DataChunks(n, rs) == DataChunks(n - 1, rs)
  {
  }

  /** The read that fails at the last of `n` answers sent `n` requests after `n - 1` answers. */
  lemma DataChunksStopHere(n: nat, rs: seq<Reply>)
    requires n > 0 && DataChunks(n - 1, rs).ret == ERROR_OK && DataChunks(n, rs).ret != ERROR_OK
    ensures |DataChunks(n, rs).sent| == n && At(rs, n - 1).Fault? && Answered(rs, n - 1)
  {
    DataChunksResult(n - 1, rs);
  }

  /** Bytes 1..4 of answer j sit at offset 4 * j of `v`, for every whole 4-byte group of `v`. */
  ghost predicate ChunksMatch(v: seq<byte>, rs: seq<Reply>)
  {
    forall j :: 0 <= j && 4 * j + 4 <= |v| ==> At(rs, j).Answer? && v[4 * j..4 * j + 4] == Fit(At(rs, j).bytes, 5)[1..5]
  }

  /** One more answer extends the match by one group. */
  lemma ChunksMatchExtend(v: seq<byte>, rs: seq<Reply>, k: nat)
    requires |v| == 4 * k && ChunksMatch(v, rs) && At(rs, k).Answer?
    ensures ChunksMatch(v + Fit(At(rs, k).bytes, 5)[1..5], rs)
  {
    var c := Fit(At(rs, k).bytes, 5)[1..5];
    forall j | 0 <= j && 4 * j + 4 <= |v + c|
      ensures At(rs, j).Answer? && (v + c)[4 * j..4 * j + 4] == Fit(At(rs, j).bytes, 5)[1..5]
    {
      if j < k {
        SliceAppendLeft(v, c, 4 * j, 4 * j + 4);
      } else {
        SliceAppendRight(v, c, 4 * j, 4 * j + 4);
      }
    }
  }

  /** Bytes 1..4 of answer j sit at offset 4 * j of what the continuation reads stored. */
  lemma {:induction false} DataChunksBytes(n: nat, rs: seq<Reply>)
    ensures ChunksMatch(DataChunks(n, rs).val, rs)
    decreases n
  {
    if n > 0 {
      DataChunksBytes(n - 1, rs);
      var u := DataChunks(n - 1, rs);
      if u.ret == ERROR_OK && At(rs, n - 1).Answer? {
        ChunksMatchExtend(u.val, rs, n - 1);
      }
    }
  }

  /** The answers to the continuation reads, as numbered from the first data request. */
  lemma AtAfterFirst(rs: seq<Reply>)
    ensures forall j :: 0 <= j ==> At(Drop(rs, 1), j) == At(rs, j + 1)
  {
    forall j | 0 <= j ensures At(Drop(rs, 1), j) == At(rs, j + 1) {
      DropDrop(rs, 1, j);
    }
  }

  /**
   * fine_get_data fails exactly when the first data answer or one of the
   * nb_xfer continuation answers is a fault; otherwise it returns
   * 4 + 4 * nb_xfer, the number of bytes it stored.
   */
  lemma GetDataResult(rs: seq<Reply>)
    ensures GetDataSpec(rs).ret == ERROR_FAIL || GetDataSpec(rs).ret >= 4
    ensures GetDataSpec(rs).ret == ERROR_FAIL <==>
              At(rs, 0).Fault? || exists j :: 1 <= j <= DataCount(At(rs, 0)) && At(rs, j).Fault?
    ensures GetDataSpec(rs).ret != ERROR_FAIL ==>
              GetDataSpec(rs).ret == 4 + 4 * DataCount(At(rs, 0)) && |GetDataSpec(rs).val| == GetDataSpec(rs).ret
  {
    GetDataFails(rs);
    assert At(rs, 0) == Head(rs);
  }

  /** The failure half of GetDataResult: a fault on the first or any continuation answer. */
  lemma GetDataFails(rs: seq<Reply>)
    ensures GetDataSpec(rs).ret == ERROR_FAIL <==>
              At(rs, 0).Fault? || exists j :: 1 <= j <= DataCount(At(rs, 0)) && At(rs, j).Fault?
  {
    assert At(rs, 0) == Head(rs);
    if Head(rs).Answer? {
      var nb := DataCount(At(rs, 0));
      var rest := Drop(rs, 1);
      DataChunksResult(nb, rest);
      AtAfterFirst(rs);
      if DataChunks(nb, rest).ret == ERROR_OK {
        forall j | 1 <= j <= nb ensures !At(rs, j).Fault? {
          assert At(rest, j - 1).Answer?;
        }
      } else {
        var j :| 0 <= j < nb && !At(rest, j).Answer?;
        assert At(rs, j + 1).Fault?;
      }
    }
  }

  /** A successful fine_get_data made 1 + nb_xfer data requests, then one acknowledgement request. */
  lemma GetDataSent(rs: seq<Reply>)
    ensures GetDataSpec(rs).ret != ERROR_FAIL ==>
              && |GetDataSpec(rs).sent| == DataCount(At(rs, 0)) + 2
              && (forall j :: 0 <= j <= DataCount(At(rs, 0)) ==> GetDataSpec(rs).sent[j] == DataExchange)
              && GetDataSpec(rs).sent[DataCount(At(rs, 0)) + 1] == AckExchange
  {
    assert At(rs, 0) == Head(rs);
    if Head(rs).Answer? {
      var nb := DataCount(At(rs, 0));
      var t := DataChunks(nb, Drop(rs, 1));
      if t.ret == ERROR_OK {
        DataChunksRequests(nb, Drop(rs, 1));
        var o := GetDataSpec(rs);
        assert o.sent == [DataExchange] + t.sent + [AckExchange];
        forall j | 0 <= j <= nb ensures o.sent[j] == DataExchange {
          if j > 0 {
            assert o.sent[j] == t.sent[j - 1];
          }
        }
      }
    }
  }

  /** A first answer in front of a match over the following answers. */
  lemma ChunksMatchPrepend(v: seq<byte>, rs: seq<Reply>)
    requires Head(rs).Answer? && ChunksMatch(v, Drop(rs, 1))
    ensures ChunksMatch(Fit(Head(rs).bytes, 5)[1..5] + v, rs)
  {
    var first := Fit(Head(rs).bytes, 5)[1..5];
    AtAfterFirst(rs);
    assert At(rs, 0) == Head(rs);
    forall j | 0 <= j && 4 * j + 4 <= |first + v|
      ensures At(rs, j).Answer? && (first + v)[4 * j..4 * j + 4] == Fit(At(rs, j).bytes, 5)[1..5]
    {
      if j > 0 {
        assert At(Drop(rs, 1), j - 1) == At(rs, j);
        SliceAppendRight(first, v, 4 * j, 4 * j + 4);
      } else {
        SliceAppendLeft(first, v, 0, 4);
      }
    }
  }

  /** After a successful fine_get_data, bytes 1..4 of data answer j fill the buffer at offset 4 * j. */
  lemma GetDataBytes(rs: seq<Reply>)
    ensures GetDataSpec(rs).ret != ERROR_FAIL ==> ChunksMatch(GetDataSpec(rs).val, rs)
  {
    if Head(rs).Answer? {
      var nb := DataCount(Head(rs));
      DataChunksBytes(nb, Drop(rs, 1));
      ChunksMatchPrepend(DataChunks(nb, Drop(rs, 1)).val, rs);
    }
  }
}
