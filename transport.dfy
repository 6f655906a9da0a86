/**
 * The adapter's `xfer` callback (struct fine_driver in src/jtag/fine.h),
 * modelled as a scripted transport: exchange number k is answered by the
 * k-th entry of a fixed script, and every outgoing frame is logged.
 */
module Transport {
  import opened Bytes

  /** OpenOCD's ERROR_OK (also JAYLINK_OK) and ERROR_FAIL. */
  const ERROR_OK: int := 0
  const ERROR_FAIL: int := -4

  /** A transport fault is any non-zero return code of `xfer`. */
  type FaultCode = c: int | c != 0 witness ERROR_FAIL

  /** What the adapter answers to one exchange. */
  datatype Reply = Answer(bytes: seq<byte>) | Fault(code: FaultCode)

  /** One call of `xfer`: the bytes sent and the number of bytes asked for. */
  datatype Exchange = Exchange(out: seq<byte>, inCnt: nat)

  /** The reply to the next exchange; an exhausted script answers with a fault. */
  function Head(rs: seq<Reply>): Reply
  {
    if |rs| == 0 then Fault(ERROR_FAIL) else rs[0]
  }

  /** The replies left after `k` exchanges. */
  function Drop(rs: seq<Reply>, k: nat): (r: seq<Reply>)
    ensures |r| == if k <= |rs| then |rs| - k else 0
  {
    if k <= |rs| then rs[k..] else []
  }

  /** The reply to the exchange `k` places ahead. */
  function At(rs: seq<Reply>, k: nat): Reply
  {
    Head(Drop(rs, k))
  }

  /** The next reply is the one zero places ahead. */
  lemma AtZero(rs: seq<Reply>)
    ensures At(rs, 0) == Head(rs)
  {
    assert Drop(rs, 0) == rs;
  }

  lemma DropDrop(rs: seq<Reply>, a: nat, b: nat)
    ensures Drop(Drop(rs, a), b) == Drop(rs, a + b)
  {
  }

  /** `s` cut or zero-padded to `n` bytes: the `in_cnt` bytes an exchange delivers. */
  function Fit(s: seq<byte>, n: nat): (r: seq<byte>)
    ensures |r| == n
  {
    if n <= |s| then s[..n] else s + Zeros(n - |s|)
  }

  /** Byte `i` of an exchange's input is the answer's byte `i`, or 0 past its end. */
  lemma FitIndex(s: seq<byte>, n: nat, i: nat)
    requires i < n
    ensures Fit(s, n)[i] == if i < |s| then s[i] else 0
  {
  }

  /** The return code of `xfer` for reply `r`. */
  function XferRet(r: Reply): (ret: int)
    ensures ret == ERROR_OK <==> r.Answer?
  {
    if r.Fault? then r.code else ERROR_OK
  }

  /** The `in_cnt` bytes `xfer` stores for reply `r` (never read after a fault). */
  function XferIn(r: Reply, inCnt: nat): (b: seq<byte>)
    ensures |b| == inCnt
    ensures r.Answer? ==> b == Fit(r.bytes, inCnt)
  {
    if r.Answer? then Fit(r.bytes, inCnt) else Zeros(inCnt)
  }

  /** Every logged exchange moves at most 255 bytes each way (`out_cnt`, `in_cnt` are uint8_t). */
  ghost predicate ByteCounts(log: seq<Exchange>)
  {
    forall e :: e in log ==> |e.out| < 256 && e.inCnt < 256
  }

  /** The debug link: the scripted replies and the log of what was sent. */
  class Link {
    const script: seq<Reply>
    var log: seq<Exchange>

    constructor (script: seq<Reply>)
      ensures this.script == script && log == []
    {
      this.script := script;
      log := [];
    }

    /** The replies not yet consumed: one reply per logged exchange. */
    function Pending(): seq<Reply>
      reads this
    {
      Drop(script, |log|)
    }

    /** fine->xfer(out, in, out_cnt, in_cnt, timeout); the timeout is not modelled. */
    method Xfer(out: seq<byte>, inCnt: nat) returns (ret: int, inBuf: seq<byte>)
      requires |out| < 256 && inCnt < 256
      modifies this
      ensures log == old(log) + [Exchange(out, inCnt)]
      ensures ByteCounts(old(log)) ==> ByteCounts(log)
      ensures ret == XferRet(Head(old(Pending())))
      ensures inBuf == XferIn(Head(old(Pending())), inCnt)
    {
      var r := Head(Pending());
      log := log + [Exchange(out, inCnt)];
      ret := XferRet(r);
      inBuf := XferIn(r, inCnt);
    }
  }

  /** The replies pending after a link logged `sent` are those `sent` did not consume. */
  lemma PendingAfter(l0: seq<Exchange>, sent: seq<Exchange>, script: seq<Reply>)
    ensures Drop(script, |l0 + sent|) == Drop(Drop(script, |l0|), |sent|)
  {
    DropDrop(script, |l0|, |sent|);
  }
}
