/**
 * Bring-up of the FINE link (src/jtag/fine.c): the presence handshake of
 * fine_get_chip_id and the boot-mode initialisation of fine_init_chip.
 * Both are bounded retry loops over single exchanges.
 */
module Bringup {
  import opened Bytes
  import opened Transport
  import opened Codec

  // ---------------------------------------------------------------------
  // fine_get_chip_id

  const FINE_START_SEQ: u32 := 0x9D4375C0
  const FINE_RETRY_ID_COUNT: nat := 10
  const FINE_GET_CHIP_ID: byte := 0xC2

  /** The start sequence, written big-endian into the first four bytes of `out`. */
  const StartExchange: Exchange := Exchange([0x9D, 0x43, 0x75, 0xC0], 2)
  const ChipIdExchange: Exchange := Exchange([FINE_GET_CHIP_ID], 2)

  /**
   * The two received bytes equal 0x0223 stored as a 16-bit little-endian
   * field, `23 02`: what the target answers to the start sequence.
   */
  predicate IdReply(inb: seq<byte>)
  {
    |inb| >= 2 && inb[0] == 0x23 && inb[1] == 0x02
  }

  /** `n` copies of the exchange `e`. */
  function Repeat(e: Exchange, n: nat): (r: seq<Exchange>)
    ensures |r| == n
    ensures forall k :: 0 <= k < n ==> r[k] == e
  {
    seq(n, _ => e)
  }

  lemma RepeatPrepend(e: Exchange, n: nat)
    ensures [e] + Repeat(e, n) == Repeat(e, n + 1)
  {
  }

  /** An outcome that sent `k` copies of `e`, preceded by one more `e`. */
  lemma PrependOne<T>(a: Out<T>, b: Out<T>, e: Exchange, k: nat, n: nat, ret: int, v: T)
    requires a == After([e], b) && b == Out(ret, Repeat(e, k), v) && n == k + 1
    ensures a == Out(ret, Repeat(e, n), v)
  {
    RepeatPrepend(e, k);
  }

  lemma RepeatAppend(e: Exchange, n: nat)
    ensures Repeat(e, n) + [e] == Repeat(e, n + 1)
  {
  }

  /** Reply `k` is an answer whose two bytes are not the expected reply. */
  predicate MissAt(rs: seq<Reply>, k: nat)
  {
    At(rs, k).Answer? && !IdReply(Fit(At(rs, k).bytes, 2))
  }

  /** Reply `k` is an answer whose two bytes are the expected reply. */
  predicate MatchAt(rs: seq<Reply>, k: nat)
  {
    At(rs, k).Answer? && IdReply(Fit(At(rs, k).bytes, 2))
  }

  /** The first `n` handshake answers are all misses. */
  ghost predicate AllMiss(rs: seq<Reply>, n: nat)
  {
    forall j :: 0 <= j < n ==> MissAt(rs, j)
  }

  lemma AllMissExtend(rs: seq<Reply>, n: nat)
    requires AllMiss(rs, n) && MissAt(rs, n)
    ensures AllMiss(rs, n + 1)
  {
  }

  /**
   * The handshake loop entered with `retry` attempts made and `inb` the
   * last two bytes received; the value is the final retry count.
   */
  function Handshake(retry: nat, inb: seq<byte>, rs: seq<Reply>): Out<nat>
    requires retry <= FINE_RETRY_ID_COUNT
    decreases FINE_RETRY_ID_COUNT - retry
  {
    if retry < FINE_RETRY_ID_COUNT && !IdReply(inb) then
      var r := Head(rs);
      if r.Fault? then Out(r.code, [StartExchange], retry)
      else After([StartExchange], Handshake(retry + 1, Fit(r.bytes, 2), Drop(rs, 1)))
    else Out(ERROR_OK, [], retry)
  }

  /**
   * fine_get_chip_id: a transport fault is returned as it is; ten attempts
   * count as failure even when the tenth one matched; then the chip ID is
   * asked for and its reply only checked for a fault.
   */
  function ChipIdSpec(rs: seq<Reply>): Out<()>
  {
    var h := Handshake(0, [0, 0], rs);
    if h.ret != ERROR_OK then Out(h.ret, h.sent, ())
    else if h.val == FINE_RETRY_ID_COUNT then Out(ERROR_FAIL, h.sent, ())
    else Out(XferRet(At(rs, |h.sent|)), h.sent + [ChipIdExchange], ())
  }

  method ChipId(link: Link) returns (ret: int)
    modifies link
    ensures var o := ChipIdSpec(old(link.Pending()));
            ret == o.ret && link.log == old(link.log) + o.sent
  {
    ghost var l0 := link.log;
    ghost var p0 := link.Pending();
    var out := new byte[16];
    SetU32BEInPlace(out, 0, FINE_START_SEQ);
    assert out[..4] == StartExchange.out by {
      Split32(FINE_START_SEQ);
      assert out[..][0..4] == BE32(FINE_START_SEQ);
    }
    var retry;
    ret, retry := StartHandshake(link, out);
    if ret != ERROR_OK {
      return ret;
    }
    if retry == FINE_RETRY_ID_COUNT {
      return ERROR_FAIL;
    }
    ghost var sent := Handshake(0, [0, 0], p0).sent;
    PendingAfter(l0, sent, link.script);
    ghost var last := Head(link.Pending());
    assert last == At(p0, |sent|);
    out[0] := FINE_GET_CHIP_ID;
    assert out[..1] == ChipIdExchange.out;
    var r, i := link.Xfer(out[..1], 2);
    if r != ERROR_OK {
      return r;
    }
    return ERROR_OK;
  }

  /** The retry loop of fine_get_chip_id: the start sequence until `23 02` comes back, at most ten times. */
  method StartHandshake(link: Link, out: array<byte>) returns (ret: int, retry: nat)
    requires out.Length == 16 && out[..4] == StartExchange.out
    modifies link
    ensures var h := Handshake(0, [0, 0], old(link.Pending()));
            ret == h.ret && retry == h.val && link.log == old(link.log) + h.sent
  {
    ghost var l0 := link.log;
    ghost var p0 := link.Pending();
    var inb: seq<byte> := [0, 0];
    var msg := out[..4];
    retry := 0;
    while retry < FINE_RETRY_ID_COUNT && !IdReply(inb)
      invariant link.log == l0 + Repeat(StartExchange, retry) && p0 == Drop(link.script, |l0|)
      invariant HandshakeInv(p0, retry, inb)
      decreases FINE_RETRY_ID_COUNT - retry
    {
      var r, i := StartAttempt(link, msg, l0, p0, retry, inb);
      if r != ERROR_OK {
        return r, retry;
      }
      inb := i;
      retry := retry + 1;
    }
    HandshakeExit(p0, retry, inb);
    return ERROR_OK, retry;
  }

  /** One pass of the handshake loop: one start sequence, whose fault ends fine_get_chip_id. */
  method StartAttempt(link: Link, msg: seq<byte>, ghost l0: seq<Exchange>, ghost p0: seq<Reply>, retry: nat, inb: seq<byte>)
    returns (r: int, i: seq<byte>)
    requires msg == StartExchange.out
    requires link.log == l0 + Repeat(StartExchange, retry) && p0 == Drop(link.script, |l0|)
    requires HandshakeInv(p0, retry, inb) && retry < FINE_RETRY_ID_COUNT && !IdReply(inb)
    modifies link
    ensures link.log == l0 + Repeat(StartExchange, retry + 1)
    ensures r != ERROR_OK ==> Handshake(0, [0, 0], p0) == Out(r, Repeat(StartExchange, retry + 1), retry)
    ensures r == ERROR_OK ==> HandshakeInv(p0, retry + 1, i)
  {
    PendingAfter(l0, Repeat(StartExchange, retry), link.script);
    assert Head(link.Pending()) == At(p0, retry);
    r, i := link.Xfer(msg, 2);
    RepeatAppend(StartExchange, retry);
    if r != ERROR_OK {
      HandshakeInvFault(p0, retry, inb);
    } else {
      HandshakeInvStep(p0, retry, inb);
    }
  }

  /** The state of the handshake loop after `retry` start sequences were answered, the last with `inb`. */
  ghost predicate HandshakeInv(rs: seq<Reply>, retry: nat, inb: seq<byte>)
  {
    && retry <= FINE_RETRY_ID_COUNT
    && (retry == 0 ==> inb == [0, 0])
    && (retry > 0 ==> AllMiss(rs, retry - 1) && At(rs, retry - 1).Answer? && inb == Fit(At(rs, retry - 1).bytes, 2))
  }

  /** One more answered start sequence keeps the loop state. */
  lemma HandshakeInvStep(rs: seq<Reply>, retry: nat, inb: seq<byte>)
    requires HandshakeInv(rs, retry, inb) && retry < FINE_RETRY_ID_COUNT && !IdReply(inb)
    requires At(rs, retry).Answer?
    ensures HandshakeInv(rs, retry + 1, Fit(At(rs, retry).bytes, 2))
  {
    if retry > 0 {
      AllMissExtend(rs, retry - 1);
    }
  }

  /** A fault on a start sequence ends fine_get_chip_id with that fault. */
  lemma HandshakeInvFault(rs: seq<Reply>, retry: nat, inb: seq<byte>)
    requires HandshakeInv(rs, retry, inb) && retry < FINE_RETRY_ID_COUNT && !IdReply(inb)
    requires At(rs, retry).Fault?
    ensures Handshake(0, [0, 0], rs) == Out(At(rs, retry).code, Repeat(StartExchange, retry + 1), retry)
  {
    if retry > 0 {
      AllMissExtend(rs, retry - 1);
    }
    assert AllMiss(rs, retry);
    HandshakeFault(0, [0, 0], rs, retry);
  }

  /** Where the handshake loop of StartHandshake ends without a fault. */
  lemma HandshakeExit(rs: seq<Reply>, retry: nat, inb: seq<byte>)
    requires HandshakeInv(rs, retry, inb) && !(retry < FINE_RETRY_ID_COUNT && !IdReply(inb))
    ensures Handshake(0, [0, 0], rs) == Out(ERROR_OK, Repeat(StartExchange, retry), retry)
  {
    if IdReply(inb) {
      HandshakeMatch(0, [0, 0], rs, retry - 1);
    } else {
      HandshakeExhausted(0, [0, 0], rs);
    }
  }

  /** An answered attempt that is not the last: the loop sends one start sequence and goes on with its bytes. */
  lemma HandshakeUnfold(retry: nat, inb: seq<byte>, rs: seq<Reply>)
    requires retry < FINE_RETRY_ID_COUNT && !IdReply(inb) && Head(rs).Answer?
    ensures Handshake(retry, inb, rs) == After([StartExchange], Handshake(retry + 1, Fit(Head(rs).bytes, 2), Drop(rs, 1)))
  {
  }

  /** A missed attempt: one start sequence, then the loop goes on with the rest of the replies. */
  lemma HandshakeMiss(retry: nat, inb: seq<byte>, rs: seq<Reply>)
    requires retry < FINE_RETRY_ID_COUNT && !IdReply(inb) && MissAt(rs, 0)
    ensures !IdReply(Fit(At(rs, 0).bytes, 2))
    ensures Handshake(retry, inb, rs) == After([StartExchange], Handshake(retry + 1, Fit(At(rs, 0).bytes, 2), Drop(rs, 1)))
  {
    AtZero(rs);
    HandshakeUnfold(retry, inb, rs);
  }

  /** Misses after the first reply are misses of the replies that follow it. */
  lemma MissShift(rs: seq<Reply>, k: nat)
    requires 0 < k && AllMiss(rs, k)
    ensures AllMiss(Drop(rs, 1), k - 1)
    ensures At(Drop(rs, 1), k - 1) == At(rs, k)
  {
    forall j | 0 <= j < k - 1 ensures MissAt(Drop(rs, 1), j) {
      DropDrop(rs, 1, j);
      assert MissAt(rs, j + 1);
    }
    DropDrop(rs, 1, k - 1);
  }

  /** A match on the first reply ends the loop after one start sequence. */
  lemma HandshakeMatchNow(retry: nat, inb: seq<byte>, rs: seq<Reply>)
    requires retry < FINE_RETRY_ID_COUNT && !IdReply(inb) && MatchAt(rs, 0)
    ensures Handshake(retry, inb, rs) == Out(ERROR_OK, [StartExchange], retry + 1)
  {
    AtZero(rs);
    HandshakeUnfold(retry, inb, rs);
  }

  /** After `k` misses, a match ends the loop with `retry + k + 1` attempts. */
  lemma HandshakeMatch(retry: nat, inb: seq<byte>, rs: seq<Reply>, k: nat)
    requires retry + k < FINE_RETRY_ID_COUNT && !IdReply(inb)
    requires AllMiss(rs, k)
    requires MatchAt(rs, k)
    ensures Handshake(retry, inb, rs) == Out(ERROR_OK, Repeat(StartExchange, k + 1), retry + k + 1)
  {
    HandshakeMatchCount(retry, inb, rs, k, k + 1, retry + k + 1);
  }

  /** HandshakeMatch with the number of start sequences `n` and the final count `last` named. */
  lemma {:induction false} HandshakeMatchCount(retry: nat, inb: seq<byte>, rs: seq<Reply>, k: nat, n: nat, last: nat)
    requires retry + k < FINE_RETRY_ID_COUNT && !IdReply(inb)
    requires AllMiss(rs, k)
    requires MatchAt(rs, k) && n == k + 1 && last == retry + k + 1
    ensures Handshake(retry, inb, rs) == Out(ERROR_OK, Repeat(StartExchange, n), last)
    decreases k
  {
    if k > 0 {
      assert MissAt(rs, 0);
      var next, rest := Fit(At(rs, 0).bytes, 2), Drop(rs, 1);
      HandshakeMiss(retry, inb, rs);
      MissShift(rs, k);
      HandshakeMatchCount(retry + 1, next, rest, k - 1, k, last);
      PrependOne(Handshake(retry, inb, rs), Handshake(retry + 1, next, rest), StartExchange, k, n, ERROR_OK, last);
    } else {
      HandshakeMatchNow(retry, inb, rs);
    }
  }

  /** A fault on the first reply ends the loop after one start sequence. */
  lemma HandshakeFaultNow(retry: nat, inb: seq<byte>, rs: seq<Reply>)
    requires retry < FINE_RETRY_ID_COUNT && !IdReply(inb) && At(rs, 0).Fault?
    ensures Handshake(retry, inb, rs) == Out(At(rs, 0).code, [StartExchange], retry)
  {
    AtZero(rs);
  }

  /** After `k` misses, a fault ends the loop with that fault's code. */
  lemma HandshakeFault(retry: nat, inb: seq<byte>, rs: seq<Reply>, k: nat)
    requires retry + k < FINE_RETRY_ID_COUNT && !IdReply(inb)
    requires AllMiss(rs, k)
    requires At(rs, k).Fault?
    ensures Handshake(retry, inb, rs) == Out(At(rs, k).code, Repeat(StartExchange, k + 1), retry + k)
  {
    HandshakeFaultCount(retry, inb, rs, k, k + 1, retry + k, At(rs, k));
  }

  /** HandshakeFault with the number of start sequences `n`, the final count `last` and the fault `r` named. */
  lemma {:induction false} HandshakeFaultCount(retry: nat, inb: seq<byte>, rs: seq<Reply>, k: nat, n: nat, last: nat, r: Reply)
    requires retry + k < FINE_RETRY_ID_COUNT && !IdReply(inb)
    requires AllMiss(rs, k)
    requires At(rs, k) == r && r.Fault? && n == k + 1 && last == retry + k
    ensures Handshake(retry, inb, rs) == Out(r.code, Repeat(StartExchange, n), last)
    decreases k
  {
    if k > 0 {
      assert MissAt(rs, 0);
      var next, rest := Fit(At(rs, 0).bytes, 2), Drop(rs, 1);
      HandshakeMiss(retry, inb, rs);
      MissShift(rs, k);
      HandshakeFaultCount(retry + 1, next, rest, k - 1, k, last, r);
      PrependOne(Handshake(retry, inb, rs), Handshake(retry + 1, next, rest), StartExchange, k, n, r.code, last);
    } else {
      HandshakeFaultNow(retry, inb, rs);
    }
  }

  /** Misses on every remaining attempt use up the retry budget. */
  lemma HandshakeExhausted(retry: nat, inb: seq<byte>, rs: seq<Reply>)
    requires retry <= FINE_RETRY_ID_COUNT && !IdReply(inb)
    requires forall j :: 0 <= j < FINE_RETRY_ID_COUNT - retry ==> MissAt(rs, j)
    ensures Handshake(retry, inb, rs) == Out(ERROR_OK, Repeat(StartExchange, FINE_RETRY_ID_COUNT - retry), FINE_RETRY_ID_COUNT)
  {
    HandshakeExhaustedCount(retry, inb, rs, FINE_RETRY_ID_COUNT - retry);
  }

  /** HandshakeExhausted with the number of remaining attempts `n` named. */
  lemma {:induction false} HandshakeExhaustedCount(retry: nat, inb: seq<byte>, rs: seq<Reply>, n: nat)
    requires retry <= FINE_RETRY_ID_COUNT && !IdReply(inb) && n == FINE_RETRY_ID_COUNT - retry
    requires AllMiss(rs, n)
    ensures Handshake(retry, inb, rs) == Out(ERROR_OK, Repeat(StartExchange, n), FINE_RETRY_ID_COUNT)
    decreases n
  {
    if n > 0 {
      assert MissAt(rs, 0);
      var next, rest := Fit(At(rs, 0).bytes, 2), Drop(rs, 1);
      HandshakeMiss(retry, inb, rs);
      MissShift(rs, n);
      HandshakeExhaustedCount(retry + 1, next, rest, n - 1);
      PrependOne(Handshake(retry, inb, rs), Handshake(retry + 1, next, rest), StartExchange, n - 1, n, ERROR_OK, FINE_RETRY_ID_COUNT);
    }
  }

  /** The index of the first reply among the first `m` that is not a miss, or `m`. */
  function FirstNonMiss(rs: seq<Reply>, m: nat): (k: nat)
    ensures k <= m
    ensures AllMiss(rs, k)
    ensures k < m ==> !MissAt(rs, k)
  {
    if m == 0 then 0
    else
      var k := FirstNonMiss(rs, m - 1);
      if k < m - 1 then k
      else if MissAt(rs, m - 1) then AllMissExtend(rs, m - 1); m
      else m - 1
  }

  /**
   * The handshake matches on attempt `k + 1`, one of the first nine, after
   * misses only, and the chip-ID exchange that follows is answered.
   */
  ghost predicate SucceedsAt(rs: seq<Reply>, k: nat)
  {
    && k < FINE_RETRY_ID_COUNT - 1
    && (AllMiss(rs, k))
    && MatchAt(rs, k)
    && At(rs, k + 1).Answer?
  }

  /** The attempt that succeeds is the first reply that is not a miss. */
  lemma SucceedsAtFirst(rs: seq<Reply>, k: nat)
    requires SucceedsAt(rs, k)
    ensures FirstNonMiss(rs, FINE_RETRY_ID_COUNT) == k
  {
    var f := FirstNonMiss(rs, FINE_RETRY_ID_COUNT);
    assert f < FINE_RETRY_ID_COUNT ==> !MissAt(rs, f);
    assert !MissAt(rs, k);
  }

  /** An attempt that succeeds in the sense of `SucceedsAt` makes fine_get_chip_id succeed. */
  lemma ChipIdSucceeds(rs: seq<Reply>, k: nat)
    requires SucceedsAt(rs, k)
    ensures ChipIdSpec(rs).ret == ERROR_OK
  {
    HandshakeMatch(0, [0, 0], rs, k);
  }

  /** fine_get_chip_id succeeds only at the first reply that is not a miss. */
  lemma ChipIdSucceedsOnly(rs: seq<Reply>)
    requires ChipIdSpec(rs).ret == ERROR_OK
    ensures SucceedsAt(rs, FirstNonMiss(rs, FINE_RETRY_ID_COUNT))
  {
    var k := FirstNonMiss(rs, FINE_RETRY_ID_COUNT);
    if k == FINE_RETRY_ID_COUNT {
      HandshakeExhausted(0, [0, 0], rs);
      assert false;
    } else if At(rs, k).Fault? {
      HandshakeFault(0, [0, 0], rs, k);
      assert false;
    } else {
      HandshakeMatch(0, [0, 0], rs, k);
    }
  }

  /** fine_get_chip_id succeeds exactly when some attempt succeeds in the sense of `SucceedsAt`. */
  lemma ChipIdSuccess(rs: seq<Reply>)
    ensures ChipIdSpec(rs).ret == ERROR_OK <==> exists k :: SucceedsAt(rs, k)
  {
    if ChipIdSpec(rs).ret == ERROR_OK {
      ChipIdSucceedsOnly(rs);
    }
    if exists k :: SucceedsAt(rs, k) {
      var k :| SucceedsAt(rs, k);
      ChipIdSucceeds(rs, k);
    }
  }

  /**
   * Nine misses exhaust the handshake whatever the tenth reply is: a match
   * on the tenth attempt still fails, after ten start sequences and no
   * chip-ID request.
   */
  lemma TenthAttemptFails(rs: seq<Reply>)
    requires forall j :: 0 <= j < FINE_RETRY_ID_COUNT - 1 ==> MissAt(rs, j)
    ensures ChipIdSpec(rs).ret != ERROR_OK
    ensures ChipIdSpec(rs).sent == Repeat(StartExchange, FINE_RETRY_ID_COUNT)
    ensures MatchAt(rs, FINE_RETRY_ID_COUNT - 1) ==> ChipIdSpec(rs).ret == ERROR_FAIL
  {
    var k := FINE_RETRY_ID_COUNT - 1;
    if MatchAt(rs, k) {
      HandshakeMatch(0, [0, 0], rs, k);
    } else if At(rs, k).Fault? {
      HandshakeFault(0, [0, 0], rs, k);
    } else {
      HandshakeExhausted(0, [0, 0], rs);
    }
  }

  /** A transport fault during the handshake is passed on as it is. */
  lemma ChipIdFault(rs: seq<Reply>, k: nat)
    requires k < FINE_RETRY_ID_COUNT
    requires AllMiss(rs, k)
    requires At(rs, k).Fault?
    ensures ChipIdSpec(rs).ret == At(rs, k).code
    ensures ChipIdSpec(rs).sent == Repeat(StartExchange, k + 1)
  {
    HandshakeFault(0, [0, 0], rs, k);
  }

  // ---------------------------------------------------------------------
  // fine_init_chip

  /** Three 0x88 configuration frames followed by an acknowledgement request, sent as one block. */
  const SetupExchange: Exchange := Exchange([0x88, 0x01, 0x00, 0x88, 0x03, 0x00, 0x88, 0x02, 0x00, FINE_ASK_TARGET_ACK], 2)
  const SyncExchange: Exchange := Exchange([FRAME_MARK, 0x55, 0x00, 0x00, 0x00], 1)
  const PollExchange: Exchange := Exchange([FINE_ASK_TARGET_DATA], 1)

  /** The poll answer that means the target is not ready yet. */
  const BUSY: byte := 0x0E
  const POLL_LIMIT: nat := 100

  /** Poll answer `k` is the busy byte. */
  predicate BusyAt(rs: seq<Reply>, k: nat)
  {
    At(rs, k).Answer? && Fit(At(rs, k).bytes, 1)[0] == BUSY
  }

  /** Poll answer `k` is any other byte. */
  predicate ReadyAt(rs: seq<Reply>, k: nat)
  {
    At(rs, k).Answer? && Fit(At(rs, k).bytes, 1)[0] != BUSY
  }

  /**
   * The poll loop entered with `retry` polls made and `in0` the last byte
   * received; the value is the final retry count. A fault ends it with
   * ERROR_FAIL.
   */
  function Poll(retry: nat, in0: byte, rs: seq<Reply>): Out<nat>
    requires retry <= POLL_LIMIT
    decreases POLL_LIMIT - retry
  {
    if in0 == BUSY && retry < POLL_LIMIT then
      if Head(rs).Fault? then Out(ERROR_FAIL, [PollExchange], retry)
      else After([PollExchange], Poll(retry + 1, Fit(Head(rs).bytes, 1)[0], Drop(rs, 1)))
    else Out(ERROR_OK, [], retry)
  }

  /**
   * fine_init_chip: the setup block, whose answer is not checked; the sync
   * frame, whose one-byte answer must be 0; polling while the target
   * answers busy, where a hundred polls count as a timeout even when the
   * last one was ready; then an acknowledgement that must be {0, 0}.
   * Faults of the first two exchanges are returned as they are, later ones
   * as ERROR_FAIL.
   */
  function InitChipSpec(rs: seq<Reply>): Out<()>
  {
    var pr := PreludeSpec(rs);
    if pr.ret != ERROR_OK then pr
    else After(pr.sent, ReadySpec(Drop(rs, 2)))
  }

  /** The setup and sync exchanges of fine_init_chip both answered, the sync answer being 0. */
  ghost predicate PreludeOk(rs: seq<Reply>)
  {
    Head(rs).Answer? && At(rs, 1).Answer? && Fit(At(rs, 1).bytes, 1)[0] == 0
  }

  /** The first half of fine_init_chip: the setup block, then the sync frame. */
  function PreludeSpec(rs: seq<Reply>): (o: Out<()>)
    ensures o.ret == ERROR_OK <==> PreludeOk(rs)
    ensures o.ret == ERROR_OK ==> o.sent == [SetupExchange, SyncExchange]
  {
    var r0 := Head(rs);
    if r0.Fault? then Out(r0.code, [SetupExchange], ())
    else
      var r1 := At(rs, 1);
      if r1.Fault? then Out(r1.code, [SetupExchange, SyncExchange], ())
      else if Fit(r1.bytes, 1)[0] != 0 then Out(ERROR_FAIL, [SetupExchange, SyncExchange], ())
      else Out(ERROR_OK, [SetupExchange, SyncExchange], ())
  }

  /**
   * The second half of fine_init_chip: the poll loop, then the final
   * acknowledgement, which is sent only when the poll ended ready before
   * the hundredth attempt.
   */
  function ReadySpec(rs: seq<Reply>): Out<()>
  {
    var p := Poll(0, BUSY, rs);
    if p.ret != ERROR_OK || p.val == POLL_LIMIT then Out(ERROR_FAIL, p.sent, ())
    else After(p.sent, AckSpec(Drop(rs, |p.sent|)))
  }

  method InitChip(link: Link) returns (ret: int)
    modifies link
    ensures var o := InitChipSpec(old(link.Pending()));
            ret == o.ret && link.log == old(link.log) + o.sent
  {
    ghost var l0 := link.log;
    ghost var p0 := link.Pending();
    var out := new byte[16];
    ret := InitPrelude(link, out);
    if ret != ERROR_OK {
      return ret;
    }
    DropDrop(p0, 1, 1);
    ret := AwaitReady(link, out);
    AppendAssoc(l0, [SetupExchange, SyncExchange], ReadySpec(Drop(p0, 2)).sent);
  }

  /** The poll loop and the final acknowledgement of fine_init_chip, reusing its frame buffer. */
  method AwaitReady(link: Link, out: array<byte>) returns (ret: int)
    requires out.Length == 16
    modifies link, out
    ensures var o := ReadySpec(old(link.Pending()));
            ret == o.ret && link.log == old(link.log) + o.sent
  {
    ghost var l0 := link.log;
    ghost var p0 := link.Pending();
    out[0] := FINE_ASK_TARGET_DATA;
    var retry;
    ret, retry := PollTarget(link, out);
    ghost var p := Poll(0, BUSY, p0);
    if ret != ERROR_OK || retry == POLL_LIMIT {
      return ERROR_FAIL;
    }
    PendingAfter(l0, p.sent, link.script);
    ghost var ack := AckSpec(link.Pending());
    out[0] := FINE_ASK_TARGET_ACK;
    assert out[..1] == AckExchange.out;
    var r, i := link.Xfer(out[..1], 2);
    AppendAssoc(l0, p.sent, [AckExchange]);
    if r != ERROR_OK || i[0] != 0 || i[1] != 0 {
      assert ack.ret == ERROR_FAIL;
      return ERROR_FAIL;
    }
    assert i == [0, 0];
    return ERROR_OK;
  }

  /** The setup and sync exchanges that open fine_init_chip. */
  method InitPrelude(link: Link, out: array<byte>) returns (ret: int)
    requires out.Length == 16
    modifies link, out
    ensures var o := PreludeSpec(old(link.Pending()));
            ret == o.ret && link.log == old(link.log) + o.sent
  {
    ghost var l0 := link.log;
    ghost var p0 := link.Pending();
    FillSetup(out);
    var r, i := link.Xfer(out[..10], 2);
    if r != ERROR_OK {
      return r;
    }
    FillSync(out);
    PendingAfter(l0, [SetupExchange], link.script);
    assert Head(link.Pending()) == At(p0, 1);
    r, i := link.Xfer(out[..5], 1);
    assert link.log == l0 + [SetupExchange, SyncExchange];
    if r != ERROR_OK {
      return r;
    }
    if i[0] != 0 {
      return ERROR_FAIL;
    }
    return ERROR_OK;
  }

  /** The three 0x88 configuration frames and the acknowledgement request of the setup block. */
  method FillSetup(out: array<byte>)
    requires out.Length == 16
    modifies out
    ensures out[..10] == SetupExchange.out
  {
    out[0], out[1], out[2] := 0x88, 0x01, 0x00;
    out[3], out[4], out[5] := 0x88, 0x03, 0x00;
    out[6], out[7], out[8] := 0x88, 0x02, 0x00;
    out[9] := FINE_ASK_TARGET_ACK;
  }

  /** The sync frame {0x84, 0x55, 0, 0, 0}. */
  method FillSync(out: array<byte>)
    requires out.Length == 16
    modifies out
    ensures out[..5] == SyncExchange.out
  {
    out[0], out[1], out[2], out[3], out[4] := FRAME_MARK, 0x55, 0x00, 0x00, 0x00;
  }

  /** The poll loop of fine_init_chip: ask for data while the answer is busy, at most a hundred times. */
  method PollTarget(link: Link, out: array<byte>) returns (ret: int, retry: nat)
    requires out.Length == 16 && out[0] == FINE_ASK_TARGET_DATA
    modifies link
    ensures var p := Poll(0, BUSY, old(link.Pending()));
            ret == p.ret && retry == p.val && link.log == old(link.log) + p.sent
  {
    ghost var l0 := link.log;
    ghost var p0 := link.Pending();
    var in0 := BUSY;
    retry := 0;
    var msg := out[..1];
    while in0 == BUSY && retry < POLL_LIMIT
      invariant link.log == l0 + Repeat(PollExchange, retry) && p0 == Drop(link.script, |l0|)
      invariant PollInv(p0, retry, in0)
      decreases POLL_LIMIT - retry
    {
      var r, i := PollOnce(link, msg, l0, p0, retry, in0);
      if r != ERROR_OK {
        return ERROR_FAIL, retry;
      }
      in0 := i;
      retry := retry + 1;
    }
    PollExit(p0, retry, in0);
    return ERROR_OK, retry;
  }

  /** One pass of the poll loop: one data request, whose fault ends fine_init_chip with ERROR_FAIL. */
  method PollOnce(link: Link, msg: seq<byte>, ghost l0: seq<Exchange>, ghost p0: seq<Reply>, retry: nat, in0: byte)
    returns (r: int, i: byte)
    requires msg == PollExchange.out
    requires link.log == l0 + Repeat(PollExchange, retry) && p0 == Drop(link.script, |l0|)
    requires PollInv(p0, retry, in0) && in0 == BUSY && retry < POLL_LIMIT
    modifies link
    ensures link.log == l0 + Repeat(PollExchange, retry + 1)
    ensures r != ERROR_OK ==> Poll(0, BUSY, p0) == Out(ERROR_FAIL, Repeat(PollExchange, retry + 1), retry)
    ensures r == ERROR_OK ==> PollInv(p0, retry + 1, i)
  {
    PendingAfter(l0, Repeat(PollExchange, retry), link.script);
    assert Head(link.Pending()) == At(p0, retry);
    var b;
    r, b := link.Xfer(msg, 1);
    RepeatAppend(PollExchange, retry);
    i := b[0];
    if r != ERROR_OK {
      PollInvFault(p0, retry, in0);
    } else {
      PollInvStep(p0, retry, in0);
    }
  }

  /** The state of the poll loop after `retry` polls were answered, the last with `in0`. */
  ghost predicate PollInv(rs: seq<Reply>, retry: nat, in0: byte)
  {
    && retry <= POLL_LIMIT
    && (retry == 0 ==> in0 == BUSY)
    && (retry > 0 ==> AllBusy(rs, retry - 1) && At(rs, retry - 1).Answer? && in0 == Fit(At(rs, retry - 1).bytes, 1)[0])
  }

  /** One more answered poll keeps the loop state. */
  lemma PollInvStep(rs: seq<Reply>, retry: nat, in0: byte)
    requires PollInv(rs, retry, in0) && in0 == BUSY && retry < POLL_LIMIT
    requires At(rs, retry).Answer?
    ensures PollInv(rs, retry + 1, Fit(At(rs, retry).bytes, 1)[0])
  {
    if retry > 0 {
      AllBusyExtend(rs, retry - 1);
    }
  }

  /** A fault on a poll ends the loop with ERROR_FAIL. */
  lemma PollInvFault(rs: seq<Reply>, retry: nat, in0: byte)
    requires PollInv(rs, retry, in0) && in0 == BUSY && retry < POLL_LIMIT
    requires At(rs, retry).Fault?
    ensures Poll(0, BUSY, rs) == Out(ERROR_FAIL, Repeat(PollExchange, retry + 1), retry)
  {
    if retry > 0 {
      AllBusyExtend(rs, retry - 1);
    }
    assert AllBusy(rs, retry);
    PollFault(0, rs, retry);
  }

  /** Where the poll loop of PollTarget ends without a fault. */
  lemma PollExit(rs: seq<Reply>, retry: nat, in0: byte)
    requires PollInv(rs, retry, in0) && !(in0 == BUSY && retry < POLL_LIMIT)
    ensures Poll(0, BUSY, rs) == Out(ERROR_OK, Repeat(PollExchange, retry), retry)
  {
    if in0 != BUSY {
      PollReady(0, rs, retry - 1);
    } else {
      PollExhausted(0, rs);
    }
  }

  /** The first `n` poll answers are all busy. */
  ghost predicate AllBusy(rs: seq<Reply>, n: nat)
  {
    forall j :: 0 <= j < n ==> BusyAt(rs, j)
  }

  lemma AllBusyExtend(rs: seq<Reply>, n: nat)
    requires AllBusy(rs, n) && BusyAt(rs, n)
    ensures AllBusy(rs, n + 1)
  {
  }

  /** A busy answer: one poll, then the loop goes on with the rest of the replies. */
  lemma PollBusy(retry: nat, rs: seq<Reply>)
    requires retry < POLL_LIMIT && BusyAt(rs, 0)
    ensures Poll(retry, BUSY, rs) == After([PollExchange], Poll(retry + 1, BUSY, Drop(rs, 1)))
  {
    AtZero(rs);
  }

  /** Busy answers after the first reply are busy answers of the replies that follow it. */
  lemma BusyShift(rs: seq<Reply>, k: nat)
    requires 0 < k && AllBusy(rs, k)
    ensures AllBusy(Drop(rs, 1), k - 1)
    ensures At(Drop(rs, 1), k - 1) == At(rs, k)
  {
    forall j | 0 <= j < k - 1 ensures BusyAt(Drop(rs, 1), j) {
      DropDrop(rs, 1, j);
      assert BusyAt(rs, j + 1);
    }
    DropDrop(rs, 1, k - 1);
  }

  /** A ready first answer ends the loop after one poll. */
  lemma PollReadyNow(retry: nat, rs: seq<Reply>)
    requires retry < POLL_LIMIT && ReadyAt(rs, 0)
    ensures Poll(retry, BUSY, rs) == Out(ERROR_OK, [PollExchange], retry + 1)
  {
    AtZero(rs);
    assert Poll(retry + 1, Fit(Head(rs).bytes, 1)[0], Drop(rs, 1)) == Out(ERROR_OK, [], retry + 1);
  }

  /** After `k` busy answers, a ready answer ends the loop with `retry + k + 1` polls. */
  lemma PollReady(retry: nat, rs: seq<Reply>, k: nat)
    requires retry + k < POLL_LIMIT
    requires AllBusy(rs, k)
    requires ReadyAt(rs, k)
    ensures Poll(retry, BUSY, rs) == Out(ERROR_OK, Repeat(PollExchange, k + 1), retry + k + 1)
  {
    PollReadyCount(retry, rs, k, k + 1, retry + k + 1);
  }

  /** PollReady with the number of polls `n` and the final count `last` named. */
  lemma {:induction false} PollReadyCount(retry: nat, rs: seq<Reply>, k: nat, n: nat, last: nat)
    requires retry + k < POLL_LIMIT
    requires AllBusy(rs, k)
    requires ReadyAt(rs, k) && n == k + 1 && last == retry + k + 1
    ensures Poll(retry, BUSY, rs) == Out(ERROR_OK, Repeat(PollExchange, n), last)
    decreases k
  {
    if k > 0 {
      assert BusyAt(rs, 0);
      var rest := Drop(rs, 1);
      PollBusy(retry, rs);
      BusyShift(rs, k);
      PollReadyCount(retry + 1, rest, k - 1, k, last);
      PrependOne(Poll(retry, BUSY, rs), Poll(retry + 1, BUSY, rest), PollExchange, k, n, ERROR_OK, last);
    } else {
      PollReadyNow(retry, rs);
    }
  }

  /** A fault on the first poll ends the loop with ERROR_FAIL. */
  lemma PollFaultNow(retry: nat, rs: seq<Reply>)
    requires retry < POLL_LIMIT && At(rs, 0).Fault?
    ensures Poll(retry, BUSY, rs) == Out(ERROR_FAIL, [PollExchange], retry)
  {
    AtZero(rs);
  }

  /** After `k` busy answers, a fault ends the loop with ERROR_FAIL. */
  lemma PollFault(retry: nat, rs: seq<Reply>, k: nat)
    requires retry + k < POLL_LIMIT
    requires AllBusy(rs, k)
    requires At(rs, k).Fault?
    ensures Poll(retry, BUSY, rs) == Out(ERROR_FAIL, Repeat(PollExchange, k + 1), retry + k)
  {
    PollFaultCount(retry, rs, k, k + 1, retry + k);
  }

  /** PollFault with the number of polls `n` and the final count `last` named. */
  lemma {:induction false} PollFaultCount(retry: nat, rs: seq<Reply>, k: nat, n: nat, last: nat)
    requires retry + k < POLL_LIMIT
    requires AllBusy(rs, k)
    requires At(rs, k).Fault? && n == k + 1 && last == retry + k
    ensures Poll(retry, BUSY, rs) == Out(ERROR_FAIL, Repeat(PollExchange, n), last)
    decreases k
  {
    if k > 0 {
      assert BusyAt(rs, 0);
      var rest := Drop(rs, 1);
      PollBusy(retry, rs);
      BusyShift(rs, k);
      PollFaultCount(retry + 1, rest, k - 1, k, last);
      PrependOne(Poll(retry, BUSY, rs), Poll(retry + 1, BUSY, rest), PollExchange, k, n, ERROR_FAIL, last);
    } else {
      PollFaultNow(retry, rs);
    }
  }

  /** Busy answers to every remaining poll use up the poll budget. */
  lemma PollExhausted(retry: nat, rs: seq<Reply>)
    requires retry <= POLL_LIMIT
    requires forall j :: 0 <= j < POLL_LIMIT - retry ==> BusyAt(rs, j)
    ensures Poll(retry, BUSY, rs) == Out(ERROR_OK, Repeat(PollExchange, POLL_LIMIT - retry), POLL_LIMIT)
  {
    PollExhaustedCount(retry, rs, POLL_LIMIT - retry);
  }

  /** PollExhausted with the number of remaining polls `n` named. */
  lemma {:induction false} PollExhaustedCount(retry: nat, rs: seq<Reply>, n: nat)
    requires retry <= POLL_LIMIT && n == POLL_LIMIT - retry
    requires AllBusy(rs, n)
    ensures Poll(retry, BUSY, rs) == Out(ERROR_OK, Repeat(PollExchange, n), POLL_LIMIT)
    decreases n
  {
    if n > 0 {
      assert BusyAt(rs, 0);
      var rest := Drop(rs, 1);
      PollBusy(retry, rs);
      BusyShift(rs, n);
      PollExhaustedCount(retry + 1, rest, n - 1);
      PrependOne(Poll(retry, BUSY, rs), Poll(retry + 1, BUSY, rest), PollExchange, n - 1, n, ERROR_OK, POLL_LIMIT);
    }
  }

  /** The index of the first poll answer among the first `m` that is not busy, or `m`. */
  function FirstNonBusy(rs: seq<Reply>, m: nat): (k: nat)
    ensures k <= m
    ensures AllBusy(rs, k)
    ensures k < m ==> !BusyAt(rs, k)
  {
    if m == 0 then 0
    else
      var k := FirstNonBusy(rs, m - 1);
      if k < m - 1 then k
      else if BusyAt(rs, m - 1) then AllBusyExtend(rs, m - 1); m
      else m - 1
  }

  /**
   * The poll loop and acknowledgement succeed at poll `k`: the first `k`
   * polls are busy, poll `k` (before the hundredth) is ready, and the
   * acknowledgement that follows is {0, 0}.
   */
  ghost predicate ReadySucceedsAt(rs: seq<Reply>, k: nat)
  {
    && k < POLL_LIMIT - 1
    && AllBusy(rs, k)
    && ReadyAt(rs, k)
    && AckSpec(Drop(rs, k + 1)).ret == ERROR_OK
  }

  /** Only the first non-busy answer can be the one that succeeds. */
  lemma ReadySucceedsAtFirst(rs: seq<Reply>, k: nat)
    requires ReadySucceedsAt(rs, k)
    ensures FirstNonBusy(rs, POLL_LIMIT) == k
  {
    var f := FirstNonBusy(rs, POLL_LIMIT);
    assert f < POLL_LIMIT ==> !BusyAt(rs, f);
    assert !BusyAt(rs, k);
  }

  /** A poll that succeeds in the sense of `ReadySucceedsAt` makes the second half of fine_init_chip succeed. */
  lemma ReadySucceeds(rs: seq<Reply>, k: nat)
    requires ReadySucceedsAt(rs, k)
    ensures ReadySpec(rs).ret == ERROR_OK
  {
    PollReady(0, rs, k);
  }

  /** The second half of fine_init_chip succeeds only at the first answer that is not busy. */
  lemma ReadySucceedsOnly(rs: seq<Reply>)
    requires ReadySpec(rs).ret == ERROR_OK
    ensures ReadySucceedsAt(rs, FirstNonBusy(rs, POLL_LIMIT))
  {
    var k := FirstNonBusy(rs, POLL_LIMIT);
    if k == POLL_LIMIT {
      PollExhausted(0, rs);
      assert false;
    } else if At(rs, k).Fault? {
      PollFault(0, rs, k);
      assert false;
    } else {
      PollReady(0, rs, k);
    }
  }

  /** The second half of fine_init_chip succeeds exactly when it succeeds at some poll. */
  lemma ReadySuccess(rs: seq<Reply>)
    ensures ReadySpec(rs).ret == ERROR_OK <==> exists k :: ReadySucceedsAt(rs, k)
  {
    if ReadySpec(rs).ret == ERROR_OK {
      ReadySucceedsOnly(rs);
    }
    if exists k :: ReadySucceedsAt(rs, k) {
      var k :| ReadySucceedsAt(rs, k);
      ReadySucceeds(rs, k);
    }
  }

  /** fine_init_chip succeeds at poll `k`: the prelude is answered with a zero sync byte, then the rest succeeds at `k`. */
  ghost predicate InitSucceedsAt(rs: seq<Reply>, k: nat)
  {
    PreludeOk(rs) && ReadySucceedsAt(Drop(rs, 2), k)
  }

  /** fine_init_chip succeeds exactly when it succeeds at some poll in the sense of `InitSucceedsAt`. */
  lemma InitChipSuccess(rs: seq<Reply>)
    ensures InitChipSpec(rs).ret == ERROR_OK <==> exists k :: InitSucceedsAt(rs, k)
  {
    if PreludeOk(rs) {
      ReadySuccess(Drop(rs, 2));
      if exists k :: ReadySucceedsAt(Drop(rs, 2), k) {
        var k :| ReadySucceedsAt(Drop(rs, 2), k);
        assert InitSucceedsAt(rs, k);
      }
    }
  }

  /**
   * Ninety-nine busy answers time the initialisation out whatever the
   * hundredth poll brings: a ready answer on poll 100 still fails, after
   * exactly a hundred polls and no acknowledgement.
   */
  lemma HundredthPollFails(rs: seq<Reply>)
    requires Head(rs).Answer? && At(rs, 1).Answer? && Fit(At(rs, 1).bytes, 1)[0] == 0
    requires forall j :: 0 <= j < POLL_LIMIT - 1 ==> BusyAt(Drop(rs, 2), j)
    ensures InitChipSpec(rs).ret == ERROR_FAIL
    ensures InitChipSpec(rs).sent == [SetupExchange, SyncExchange] + Repeat(PollExchange, POLL_LIMIT)
  {
    var q := Drop(rs, 2);
    var k := POLL_LIMIT - 1;
    if ReadyAt(q, k) {
      PollReady(0, q, k);
    } else if At(q, k).Fault? {
      PollFault(0, q, k);
    } else {
      PollExhausted(0, q);
    }
  }

  /**
   * Faults of the setup block and of the sync frame are passed on as they
   * are; a non-zero sync answer gives ERROR_FAIL after those two exchanges.
   */
  lemma InitChipEarlyExit(rs: seq<Reply>)
    ensures Head(rs).Fault? ==> InitChipSpec(rs) == Out(Head(rs).code, [SetupExchange], ())
    ensures Head(rs).Answer? && At(rs, 1).Fault? ==> InitChipSpec(rs) == Out(At(rs, 1).code, [SetupExchange, SyncExchange], ())
    ensures Head(rs).Answer? && At(rs, 1).Answer? && Fit(At(rs, 1).bytes, 1)[0] != 0 ==>
              InitChipSpec(rs) == Out(ERROR_FAIL, [SetupExchange, SyncExchange], ())
  {
  }
}
