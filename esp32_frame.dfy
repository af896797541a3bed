/**
 * The frame writer of esp32_send_command (esp32_socket.c): the packet
 * length computation and the byte-by-byte assembly of a request frame in a
 * zeroed buffer, proved to produce exactly the encoding of the codec.
 */
module Esp32Frame {
  import opened Esp32Defs
  import opened Esp32Codec

  /** Writing END over the first zero after `a` and cutting at any length
      `n` past it leaves `a`, END and zeros, with only zeros beyond `n`. */
  lemma EndOverZeros(a: seq<uint8>, n: nat, len: nat)
    requires |a| < n <= len
    ensures (a + Zeros(len - |a|))[|a| := END_CMD]
      == (a + [END_CMD] + Zeros(n - |a| - 1)) + Zeros(len - n)
  {
    var l := (a + Zeros(len - |a|))[|a| := END_CMD];
    var r := (a + [END_CMD] + Zeros(n - |a| - 1)) + Zeros(len - n);
    assert |l| == |r|;
    forall k | 0 <= k < |l|
      ensures l[k] == r[k]
    {
    }
  }

  lemma Assoc(a: seq<uint8>, b: seq<uint8>, c: seq<uint8>)
    ensures a + b + c == a + (b + c)
  {
  }

  /** The parameters from `i` on are parameter `i` followed by those from
      `i + 1` on. */
  lemma ParamsUnfold(ps: seq<Param>, i: nat, wide: bool)
    requires i < |ps|
    ensures PayloadSize(ps[i..], wide) == ParamSize(ps[i], wide) + PayloadSize(ps[i + 1..], wide)
    ensures EncodeParams(ps[i..], wide) == EncodeParam(ps[i], wide) + EncodeParams(ps[i + 1..], wide)
  {
    assert ps[i..][1..] == ps[i + 1..];
  }

  /** The header and the parameters of a request, END, and zeros up to the
      padded length are what the codec encodes. */
  lemma EncodeOfParts(cmd: uint8, ps: seq<Param>, wide: bool)
    ensures Encode(cmd, ps, wide)
      == [START_CMD, ClearReplyFlag(cmd), |ps| % 0x100] + EncodeParams(ps, wide) + [END_CMD]
         + Zeros(FrameLength(ps, wide) - (4 + PayloadSize(ps, wide)))
  {
    EncodeIsPaddedFrame(cmd, ps, wide);
  }

  /** The frame length of esp32_send_command: START, opcode, count and
      END, each parameter's length field and data, then up to a multiple
      of four. */
  method PacketLength(ps: seq<Param>, wide: bool) returns (n: nat)
    ensures n == FrameLength(ps, wide)
  {
    n := 4;
    var i := 0;
    while i < |ps|
      invariant 0 <= i <= |ps|
      invariant n + PayloadSize(ps[i..], wide) == 4 + PayloadSize(ps, wide)
    {
      ParamsUnfold(ps, i, wide);
      n := n + |ps[i]|;
      n := n + 1;
      if wide {
        n := n + 1;
      }
      i := i + 1;
    }
    ghost var m := 4 + PayloadSize(ps, wide);
    while n % 4 != 0
      invariant m <= n <= RoundUp4(m)
      decreases RoundUp4(m) - n
    {
      n := n + 1;
    }
  }

  /** One parameter of esp32_send_command at `ptr`: its length field
      (high byte first when `wide`), then its bytes. The buffer holds what
      was `written` so far and zeros after it; the parameter's encoding
      joins what was written. */
  method WriteParam(buf: array<uint8>, ptr: nat, p: Param, wide: bool, ghost written: seq<uint8>) returns (next: nat)
    requires ptr + ParamSize(p, wide) <= buf.Length
    requires |written| == ptr && buf[..] == written + Zeros(buf.Length - ptr)
    modifies buf
    ensures next == ptr + ParamSize(p, wide)
    ensures buf[..] == written + EncodeParam(p, wide) + Zeros(buf.Length - next)
  {
    next := ptr;
    if wide {
      buf[next] := (|p| / 0x100) % 0x100;
      next := next + 1;
    }
    buf[next] := |p| % 0x100;
    next := next + 1;
    forall k | 0 <= k < |p| {
      buf[next + k] := p[k];
    }
    next := next + |p|;
    ghost var r := written + EncodeParam(p, wide) + Zeros(buf.Length - next);
    forall k | 0 <= k < buf.Length
      ensures buf[k] == r[k]
    {
      if k < ptr {
        assert buf[k] == old(buf[..])[k];
      }
    }
    assert buf[..] == r;
  }

  /** The parameter loop of esp32_send_command: each parameter in turn
      at `ptr`, over a buffer that is zero from `start` on. */
  method WriteParams(buf: array<uint8>, start: nat, ps: seq<Param>, wide: bool) returns (ptr: nat)
    requires start + PayloadSize(ps, wide) <= buf.Length
    requires buf[start..] == Zeros(buf.Length - start)
    modifies buf
    ensures ptr == start + PayloadSize(ps, wide)
    ensures buf[..] == old(buf[..start]) + EncodeParams(ps, wide) + Zeros(buf.Length - ptr)
  {
    ghost var pre := buf[..start];
    ghost var written := pre;
    assert buf[..] == buf[..start] + buf[start..];
    ptr := start;
    var i := 0;
    while i < |ps|
      invariant 0 <= i <= |ps|
      invariant written + EncodeParams(ps[i..], wide) == pre + EncodeParams(ps, wide)
      invariant |written| == ptr
      invariant buf[..] == written + Zeros(buf.Length - ptr)
    {
      ParamsUnfold(ps, i, wide);
      ghost var next := EncodeParam(ps[i], wide);
      Assoc(written, next, EncodeParams(ps[i + 1..], wide));
      ptr := WriteParam(buf, ptr, ps[i], wide, written);
      written := written + next;
      i := i + 1;
    }
    assert ps[i..] == [];
  }

  /** The header of esp32_send_command: START, the opcode with the reply
      flag cleared, and the parameter count. */
  method WriteHeader(buf: array<uint8>, cmd: uint8, count: uint8)
    requires 3 <= buf.Length && buf[..] == Zeros(buf.Length)
    modifies buf
    ensures buf[..] == [START_CMD, ClearReplyFlag(cmd), count] + Zeros(buf.Length - 3)
  {
    buf[0] := START_CMD;
    buf[1] := ClearReplyFlag(cmd);
    buf[2] := count;
    ghost var r := [START_CMD, ClearReplyFlag(cmd), count] + Zeros(buf.Length - 3);
    forall k | 0 <= k < buf.Length
      ensures buf[k] == r[k]
    {
      if k >= 3 {
        assert buf[k] == old(buf[..])[k];
      }
    }
    assert buf[..] == r;
  }

  /** END at `ptr`, right after what was written, below the padded length
      `n`: the frame up to `n` is what was written, END and zeros. */
  method WriteEnd(buf: array<uint8>, ptr: nat, n: nat, ghost written: seq<uint8>)
    requires |written| == ptr < n <= buf.Length
    requires buf[..] == written + Zeros(buf.Length - ptr)
    modifies buf
    ensures buf[..] == (written + [END_CMD] + Zeros(n - ptr - 1)) + Zeros(buf.Length - n)
  {
    buf[ptr] := END_CMD;
    assert buf[..] == old(buf[..])[ptr := END_CMD];
    EndOverZeros(written, n, buf.Length);
  }

  /** Fill a zeroed buffer with the frame of `cmd`: the header, each
      parameter's length field then its bytes, and END right after the
      last one. The padding is whatever the buffer held: zeros. */
  method WriteFrame(buf: array<uint8>, cmd: uint8, ps: seq<Param>, wide: bool)
    requires FrameLength(ps, wide) <= buf.Length
    requires buf[..] == Zeros(buf.Length)
    modifies buf
    ensures buf[..] == Encode(cmd, ps, wide) + Zeros(buf.Length - FrameLength(ps, wide))
  {
    ghost var header: seq<uint8> := [START_CMD, ClearReplyFlag(cmd), |ps| % 0x100];
    WriteHeader(buf, cmd, |ps| % 0x100);
    assert buf[..3] == header && buf[3..] == Zeros(buf.Length - 3);
    var ptr := WriteParams(buf, 3, ps, wide);
    WriteEnd(buf, ptr, FrameLength(ps, wide), header + EncodeParams(ps, wide));
    EncodeOfParts(cmd, ps, wide);
  }
}
