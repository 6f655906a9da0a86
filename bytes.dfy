/** Big-endian byte helpers of the FINE layer (src/jtag/fine.h). */
module Bytes {

  /** An unsigned 8-bit value (C `uint8_t`). */
  type byte = x: int | 0 <= x < 256

  /** An unsigned 32-bit value (C `uint32_t`). */
  type u32 = x: int | 0 <= x < 0x1_0000_0000

  const TWO8: int := 0x100
  const TWO16: int := 0x1_0000
  const TWO24: int := 0x100_0000
  const TWO32: int := 0x1_0000_0000

  /** `n` zero bytes. */
  function Zeros(n: nat): (r: seq<byte>)
    ensures |r| == n
    ensures forall i :: 0 <= i < n ==> r[i] == 0
  {
    seq(n, _ => 0)
  }

  /** Concatenation regroups; stated once so that larger proofs need not re-derive it. */
  lemma AppendAssoc<T>(a: seq<T>, b: seq<T>, c: seq<T>)
    ensures (a + b) + c == a + (b + c)
  {
  }

  /** A slice of a concatenation that lies in its left part. */
  lemma SliceAppendLeft<T>(a: seq<T>, b: seq<T>, i: nat, j: nat)
    requires i <= j <= |a|
    ensures (a + b)[i..j] == a[i..j]
  {
  }

  /** A slice of a concatenation that lies in its right part. */
  lemma SliceAppendRight<T>(a: seq<T>, b: seq<T>, i: nat, j: nat)
    requires |a| <= i <= j <= |a| + |b|
    ensures (a + b)[i..j] == b[i - |a|..j - |a|]
  {
  }

  /** buf_get_u32_be: the four bytes at `o`, most significant first. */
  function GetU32BE(b: seq<byte>, o: nat): u32
    requires o + 4 <= |b|
  {
    b[o] * TWO24 + b[o + 1] * TWO16 + b[o + 2] * TWO8 + b[o + 3]
  }

  /** The four bytes `buf_set_u32_be` stores for `v`: (v >> 24) & 0xFF, ..., v & 0xFF. */
  function BE32(v: u32): (r: seq<byte>)
    ensures |r| == 4
  {
    [v / TWO24 % 256, v / TWO16 % 256, v / TWO8 % 256, v % 256]
  }

  /** buf_set_u32_be, on the buffer's contents: only bytes o..o+3 change. */
  function SetU32BE(b: seq<byte>, o: nat, v: u32): (r: seq<byte>)
    requires o + 4 <= |b|
    ensures |r| == |b|
    ensures r[o..o + 4] == BE32(v)
    ensures forall i :: 0 <= i < |b| && !(o <= i < o + 4) ==> r[i] == b[i]
  {
    b[..o] + BE32(v) + b[o + 4..]
  }

  /** The byte positions of a 32-bit value, split by repeated division by 256. */
  lemma Split32(v: u32)
    ensures v / TWO8 == (v / 256)
    ensures v / TWO16 == (v / 256) / 256
    ensures v / TWO24 == ((v / 256) / 256) / 256
    ensures ((v / 256) / 256) / 256 < 256
    ensures v == (((v / TWO24) * 256 + (v / TWO16) % 256) * 256 + (v / TWO8) % 256) * 256 + v % 256
  {
    var q1 := v / 256;
    var q2 := q1 / 256;
    var q3 := q2 / 256;
    assert v == q1 * 256 + v % 256;
    assert q1 == q2 * 256 + q1 % 256;
    assert q2 == q3 * 256 + q2 % 256;
    assert v == ((q3 * 256 + q2 % 256) * 256 + q1 % 256) * 256 + v % 256;
    assert v == q3 * TWO24 + (q2 % 256) * TWO16 + (q1 % 256) * TWO8 + v % 256;
    DivOfSum24(q3, (q2 % 256) * TWO16 + (q1 % 256) * TWO8 + v % 256);
    DivOfSum16(q3 * 256 + q2 % 256, (q1 % 256) * TWO8 + v % 256);
  }

  /** Dividing `q * 256 + r` by 256 when `r < 256`. */
  lemma DivOfSum8(q: nat, r: nat)
    requires r < TWO8
    ensures (q * TWO8 + r) / TWO8 == q && (q * TWO8 + r) % TWO8 == r
  {
  }

  /** Dividing `q * 2^16 + r` by 2^16 when `r < 2^16`. */
  lemma DivOfSum16(q: nat, r: nat)
    requires r < TWO16
    ensures (q * TWO16 + r) / TWO16 == q && (q * TWO16 + r) % TWO16 == r
  {
  }

  /** Dividing `q * 2^24 + r` by 2^24 when `r < 2^24`. */
  lemma DivOfSum24(q: nat, r: nat)
    requires r < TWO24
    ensures (q * TWO24 + r) / TWO24 == q && (q * TWO24 + r) % TWO24 == r
  {
  }

  /** The value of a big-endian word assembled from four byte values. */
  lemma Join32(b0: byte, b1: byte, b2: byte, b3: byte)
    ensures var v := b0 * TWO24 + b1 * TWO16 + b2 * TWO8 + b3;
            v < TWO32 && v / TWO24 % 256 == b0 && v / TWO16 % 256 == b1 && v / TWO8 % 256 == b2 && v % 256 == b3
  {
    var v := b0 * TWO24 + b1 * TWO16 + b2 * TWO8 + b3;
    assert v == b0 * TWO24 + (b1 * TWO16 + b2 * TWO8 + b3);
    DivOfSum24(b0, b1 * TWO16 + b2 * TWO8 + b3);
    assert v == (b0 * 256 + b1) * TWO16 + (b2 * TWO8 + b3);
    DivOfSum16(b0 * 256 + b1, b2 * TWO8 + b3);
    assert v == (b0 * TWO16 + b1 * 256 + b2) * TWO8 + b3;
    DivOfSum8(b0 * TWO16 + b1 * 256 + b2, b3);
    DivOfSum8(b0, b1);
    DivOfSum8(b0 * 256 + b1, b2);
  }

  /** Reading back the word just written gives the value written. */
  lemma ReadAfterWrite(b: seq<byte>, o: nat, v: u32)
    requires o + 4 <= |b|
    ensures GetU32BE(SetU32BE(b, o, v), o) == v
  {
    var r := SetU32BE(b, o, v);
    assert r[o] == BE32(v)[0] && r[o + 1] == BE32(v)[1] && r[o + 2] == BE32(v)[2] && r[o + 3] == BE32(v)[3];
    Split32(v);
  }

  /** A word written elsewhere leaves the word at `p` as it was. */
  lemma ReadPastWrite(b: seq<byte>, o: nat, v: u32, p: nat)
    requires o + 4 <= |b| && p + 4 <= |b| && (p + 4 <= o || o + 4 <= p)
    ensures GetU32BE(SetU32BE(b, o, v), p) == GetU32BE(b, p)
  {
    var r := SetU32BE(b, o, v);
    assert r[p] == b[p] && r[p + 1] == b[p + 1] && r[p + 2] == b[p + 2] && r[p + 3] == b[p + 3];
  }

  /** Writing back the word just read leaves the buffer unchanged. */
  lemma WriteBackUnchanged(b: seq<byte>, o: nat)
    requires o + 4 <= |b|
    ensures SetU32BE(b, o, GetU32BE(b, o)) == b
  {
    Join32(b[o], b[o + 1], b[o + 2], b[o + 3]);
    var r := SetU32BE(b, o, GetU32BE(b, o));
    assert r[o..o + 4] == b[o..o + 4];
    forall i | 0 <= i < |b| ensures r[i] == b[i] {
      if o <= i < o + 4 {
        assert r[i] == r[o..o + 4][i - o];
      }
    }
  }

  /** Two words read equal exactly when their four bytes are equal. */
  lemma GetU32BEInjective(b: seq<byte>, o: nat, c: seq<byte>, p: nat)
    requires o + 4 <= |b| && p + 4 <= |c|
    ensures GetU32BE(b, o) == GetU32BE(c, p) <==> b[o..o + 4] == c[p..p + 4]
  {
    Join32(b[o], b[o + 1], b[o + 2], b[o + 3]);
    Join32(c[p], c[p + 1], c[p + 2], c[p + 3]);
    if b[o..o + 4] == c[p..p + 4] {
      assert b[o] == c[p] && b[o + 1] == c[p + 1] && b[o + 2] == c[p + 2] && b[o + 3] == c[p + 3] by {
        assert b[o..o + 4][0] == c[p..p + 4][0] && b[o..o + 4][1] == c[p..p + 4][1];
        assert b[o..o + 4][2] == c[p..p + 4][2] && b[o..o + 4][3] == c[p..p + 4][3];
      }
    }
    if GetU32BE(b, o) == GetU32BE(c, p) {
      assert b[o] == c[p] && b[o + 1] == c[p + 1] && b[o + 2] == c[p + 2] && b[o + 3] == c[p + 3];
      assert b[o..o + 4] == [b[o], b[o + 1], b[o + 2], b[o + 3]];
      assert c[p..p + 4] == [c[p], c[p + 1], c[p + 2], c[p + 3]];
    }
  }

  /** buf_set_u32_be on a caller's buffer, in place. */
  method SetU32BEInPlace(a: array<byte>, o: nat, v: u32)
    requires o + 4 <= a.Length
    modifies a
    ensures a[..] == SetU32BE(old(a[..]), o, v)
  {
    a[o] := v / TWO24 % 256;
    a[o + 1] := v / TWO16 % 256;
    a[o + 2] := v / TWO8 % 256;
    a[o + 3] := v % 256;
  }
}
