/**
 * The wire format shared by requests and replies:
 *
 *   START opcode count { [len_hi] len_lo bytes... } END [zero padding]
 *
 * Requests carry `cmd & ~REPLY_FLAG` and are padded to a multiple of four
 * bytes; replies carry `cmd | REPLY_FLAG` and are read byte by byte from the
 * stream the co-processor clocks out. This module states both directions as
 * functions; the driver's methods are proved against them.
 */
module Esp32Codec {
  import opened Wrappers
  import opened Esp32Defs

  /** Size of the static scratch buffer lc_send_buf. */
  const LC_BUF_LEN: nat := 256

  /** Byte reads that fit in the 100 ms window of esp32_wait_spc_char: every
      read over SPI is preceded by a 1 ms sleep. */
  const SPC_CHAR_WINDOW: nat := 100

  /** What a read returns once the co-processor has nothing more to send. */
  const IDLE_BYTE: uint8 := 0xFF

  // ---------------------------------------------------------------------
  // Request encoding (esp32_send_command)
  // ---------------------------------------------------------------------

  /** Wire bytes one parameter takes: its length field and its data. */
  function ParamSize(p: Param, wide: bool): nat {
    |p| + (if wide then 2 else 1)
  }

  /** Wire bytes all parameters take, in order. */
  function PayloadSize(ps: seq<Param>, wide: bool): nat {
    if ps == [] then 0 else ParamSize(ps[0], wide) + PayloadSize(ps[1..], wide)
  }

  /** The least multiple of four that is at least n. */
  function RoundUp4(n: nat): (r: nat)
    ensures r % 4 == 0 && n <= r < n + 4
  {
    n + (4 - n % 4) % 4
  }

  /** packet_len: START, opcode, count and END plus the parameters, rounded
      up to a multiple of four. */
  function FrameLength(ps: seq<Param>, wide: bool): (r: nat)
    ensures r % 4 == 0 && r >= 4
    ensures 4 + PayloadSize(ps, wide) <= r < 8 + PayloadSize(ps, wide)
  {
    RoundUp4(4 + PayloadSize(ps, wide))
  }

  /** The length field of a parameter: the low 16 bits big-endian when
      `wide`, otherwise only the low 8 bits. */
  function LengthField(n: nat, wide: bool): (r: seq<uint8>)
    ensures |r| == (if wide then 2 else 1)
    ensures wide ==> (r[0] as int) * 0x100 + (r[1] as int) == n % 0x1_0000
    ensures !wide ==> r[0] == n % 0x100
  {
    var hi: uint8 := (n / 0x100) % 0x100;
    var lo: uint8 := n % 0x100;
    Low16Bytes(n);
    if wide then [hi, lo] else [lo]
  }

  /** The low 16 bits of n are its second-lowest byte times 0x100 plus
      its lowest byte. */
  lemma Low16Bytes(n: nat)
    ensures ((n / 0x100) % 0x100) * 0x100 + n % 0x100 == n % 0x1_0000
  {
    var q := n / 0x1_0000;
    var rem := n % 0x1_0000;
    assert n == q * 0x1_0000 + rem;
    assert n / 0x100 == q * 0x100 + rem / 0x100;
    assert (n / 0x100) % 0x100 == rem / 0x100;
    assert n % 0x100 == rem % 0x100;
  }

  function EncodeParam(p: Param, wide: bool): (r: seq<uint8>)
    ensures |r| == ParamSize(p, wide)
  {
    LengthField(|p|, wide) + p
  }

  function EncodeParams(ps: seq<Param>, wide: bool): (r: seq<uint8>)
    ensures |r| == PayloadSize(ps, wide)
  {
    if ps == [] then [] else EncodeParam(ps[0], wide) + EncodeParams(ps[1..], wide)
  }

  /** The unpadded frame with opcode byte `op`; the count byte is the low
      8 bits of the parameter count. */
  function Frame(op: uint8, ps: seq<Param>, wide: bool): (r: seq<uint8>)
    ensures |r| == 4 + PayloadSize(ps, wide)
    ensures r[0] == START_CMD && r[1] == op && r[2] == |ps| % 0x100
    ensures r[|r| - 1] == END_CMD
  {
    [START_CMD, op, |ps| % 0x100] + EncodeParams(ps, wide) + [END_CMD]
  }

  function Zeros(n: nat): (r: seq<uint8>)
    ensures |r| == n && forall i | 0 <= i < n :: r[i] == 0
  {
    seq(n, _ => 0)
  }

  /** The bytes esp32_send_command puts on the wire for `cmd`. */
  function Encode(cmd: uint8, ps: seq<Param>, wide: bool): (r: seq<uint8>)
    ensures |r| == FrameLength(ps, wide)
    ensures r[0] == START_CMD && r[1] == ClearReplyFlag(cmd) && r[2] == |ps| % 0x100
    ensures 3 + PayloadSize(ps, wide) < |r| && r[3 + PayloadSize(ps, wide)] == END_CMD
    ensures forall i | 4 + PayloadSize(ps, wide) <= i < |r| :: r[i] == 0
  {
    var f := Frame(ClearReplyFlag(cmd), ps, wide);
    f + Zeros(FrameLength(ps, wide) - |f|)
  }

  /** A length the width can carry exactly. */
  predicate FitsWidth(n: nat, wide: bool) {
    n < if wide then 0x1_0000 else 0x100
  }

  /** Every parameter length fits the length field. */
  predicate Fits(ps: seq<Param>, wide: bool) {
    forall i | 0 <= i < |ps| :: FitsWidth(|ps[i]|, wide)
  }

  lemma {:induction false} PayloadSizeSnoc(ps: seq<Param>, p: Param, wide: bool)
    ensures PayloadSize(ps + [p], wide) == PayloadSize(ps, wide) + ParamSize(p, wide)
    ensures EncodeParams(ps + [p], wide) == EncodeParams(ps, wide) + EncodeParam(p, wide)
  {
    PayloadSizeAppend(ps, [p], wide);
    assert [p][1..] == [];
  }

  lemma {:induction false} PayloadSizeAppend(ps: seq<Param>, qs: seq<Param>, wide: bool)
    ensures PayloadSize(ps + qs, wide) == PayloadSize(ps, wide) + PayloadSize(qs, wide)
    ensures EncodeParams(ps + qs, wide) == EncodeParams(ps, wide) + EncodeParams(qs, wide)
  {
    if ps == [] {
      assert ps + qs == qs;
    } else {
      assert (ps + qs)[0] == ps[0];
      assert (ps + qs)[1..] == ps[1..] + qs;
      PayloadSizeAppend(ps[1..], qs, wide);
    }
  }

  /** A parameter list is the parameters before `i`, parameter `i` and the
      ones after it, in size and in encoding. */
  lemma SplitParamsAt(ps: seq<Param>, wide: bool, i: nat)
    requires i < |ps|
    ensures PayloadSize(ps, wide)
      == PayloadSize(ps[..i], wide) + ParamSize(ps[i], wide) + PayloadSize(ps[i + 1..], wide)
    ensures EncodeParams(ps, wide)
      == EncodeParams(ps[..i], wide) + EncodeParam(ps[i], wide) + EncodeParams(ps[i + 1..], wide)
  {
    var pre, suf := ps[..i], ps[i..];
    assert ps == pre + suf;
    PayloadSizeAppend(pre, suf, wide);
    assert suf[0] == ps[i] && suf[1..] == ps[i + 1..];
  }

  /** Within the parameter bytes the i-th parameter starts after all earlier
      ones, with its length field first. */
  lemma EncodedParamAt(ps: seq<Param>, wide: bool, i: nat)
    requires i < |ps|
    ensures var off := PayloadSize(ps[..i], wide);
      off + ParamSize(ps[i], wide) <= PayloadSize(ps, wide) &&
      EncodeParams(ps, wide)[off .. off + ParamSize(ps[i], wide)] == LengthField(|ps[i]|, wide) + ps[i]
  {
    SplitParamsAt(ps, wide, i);
    SliceOfConcat(EncodeParams(ps[..i], wide), EncodeParam(ps[i], wide), EncodeParams(ps[i + 1..], wide));
  }

  lemma SliceOfConcat<T>(x: seq<T>, y: seq<T>, z: seq<T>)
    ensures (x + y + z)[|x| .. |x| + |y|] == y
  {
  }

  // ---------------------------------------------------------------------
  // Reply parsing (esp32_wait_spc_char, esp32_check_data,
  // esp32_wait_response_cmd) over the stream of bytes still to be read
  // ---------------------------------------------------------------------

  /** One byte read: the next byte, or IDLE_BYTE once the stream is empty. */
  function Next(s: seq<uint8>): (r: (uint8, seq<uint8>))
    ensures |s| > 0 ==> r == (s[0], s[1..])
    ensures |s| == 0 ==> r == (IDLE_BYTE, [])
  {
    if |s| > 0 then (s[0], s[1..]) else (IDLE_BYTE, [])
  }

  /** One read of n bytes (esp32_read_bytes). */
  function Take(s: seq<uint8>, n: nat): (r: (seq<uint8>, seq<uint8>))
    ensures |r.0| == n
    ensures n <= |s| ==> r == (s[..n], s[n..])
  {
    if n <= |s| then (s[..n], s[n..]) else (s + seq(n - |s|, _ => IDLE_BYTE), [])
  }

  /** esp32_wait_spc_char: skip bytes until `want`, giving up on ERR_CMD or
      once `budget` bytes have been read. */
  function WaitFor(s: seq<uint8>, want: uint8, budget: nat): (r: (bool, seq<uint8>))
    ensures |s| - budget <= |r.1| <= |s| && r.1 == s[|s| - |r.1|..]
    ensures r.0 && want != IDLE_BYTE ==> |r.1| < |s| && s[|s| - |r.1| - 1] == want
    decreases budget
  {
    if budget == 0 then (false, s)
    else
      var (b, t) := Next(s);
      if b == ERR_CMD then (false, t)
      else if b == want then (true, t)
      else WaitFor(t, want, budget - 1)
  }

  /** One byte of the search. */
  lemma WaitForStep(s: seq<uint8>, want: uint8, budget: nat)
    requires budget > 0
    ensures var (b, t) := Next(s);
      WaitFor(s, want, budget)
        == if b == ERR_CMD then (false, t) else if b == want then (true, t) else WaitFor(t, want, budget - 1)
  {
  }

  /** One reply parameter: a 1-byte or big-endian 2-byte length, then data. */
  function ReadParam(s: seq<uint8>, wide: bool): (r: (Param, seq<uint8>))
    ensures FitsWidth(|r.0|, wide)
  {
    var (hi, s1) := Next(s);
    if wide then
      var (lo, s2) := Next(s1);
      Take(s2, hi * 0x100 + lo)
    else
      Take(s1, hi)
  }

  /** n reply parameters, read in order. */
  function ReadParams(s: seq<uint8>, n: nat, wide: bool): (r: (seq<Param>, seq<uint8>))
    ensures |r.0| == n && Fits(r.0, wide)
    decreases n
  {
    if n == 0 then ([], s)
    else
      var (p, t) := ReadParam(s, wide);
      var (ps, u) := ReadParams(t, n - 1, wide);
      ([p] + ps, u)
  }

  /** The count byte: compared with the low 8 bits of the expected count
      when the caller gives one, otherwise taken as the count. */
  function ReadCount(s: seq<uint8>, expected: Option<nat>): (r: (Option<nat>, seq<uint8>))
    ensures expected.Some? && r.0.Some? ==> r.0 == expected
    ensures expected.None? ==> r.0.Some? && r.0.value < 0x100
  {
    var (b, t) := Next(s);
    match expected
    case Some(n) => if b != n % 0x100 then (None, t) else (Some(n), t)
    case None => (Some(b), t)
  }

  /** The parameters and the closing END byte. */
  function ReadBody(s: seq<uint8>, n: nat, wide: bool): (r: (Option<seq<Param>>, seq<uint8>))
    ensures r.0.Some? ==> |r.0.value| == n && Fits(r.0.value, wide)
  {
    var (ps, t) := ReadParams(s, n, wide);
    var (e, u) := Next(t);
    if e != END_CMD then (None, u) else (Some(ps), u)
  }

  /** Up to and including the START byte: on I2C first a DUMMY byte, then
      START, each within its read window. */
  function SyncToStart(s: seq<uint8>, i2c: bool): (r: (bool, seq<uint8>))
    ensures |r.1| <= |s| && r.1 == s[|s| - |r.1|..]
    ensures |s| - |r.1| <= (if i2c then 2 * SPC_CHAR_WINDOW else SPC_CHAR_WINDOW)
    ensures r.0 ==> |r.1| < |s| && s[|s| - |r.1| - 1] == START_CMD
  {
    if !i2c then WaitFor(s, START_CMD, SPC_CHAR_WINDOW)
    else
      var (primed, s1) := WaitFor(s, DUMMY_CMD, SPC_CHAR_WINDOW);
      if !primed then (false, s1)
      else
        var r := WaitFor(s1, START_CMD, SPC_CHAR_WINDOW);
        SuffixOfSuffix(s, s1, r.1);
        r
  }

  /** A suffix of a suffix is a suffix, and their last bytes agree. */
  lemma SuffixOfSuffix(s: seq<uint8>, t: seq<uint8>, u: seq<uint8>)
    requires |t| <= |s| && t == s[|s| - |t|..]
    requires |u| <= |t| && u == t[|t| - |u|..]
    ensures u == s[|s| - |u|..]
    ensures |u| < |t| ==> s[|s| - |u| - 1] == t[|t| - |u| - 1]
  {
  }

  /** After START: the reply opcode, the count, the body. */
  function ParseAfterStart(s: seq<uint8>, cmd: uint8, expected: Option<nat>, wide: bool)
    : (r: (Option<seq<Param>>, seq<uint8>))
    ensures r.0.Some? && expected.Some? ==> |r.0.value| == expected.value
    ensures r.0.Some? ==> Fits(r.0.value, wide)
  {
    var (op, s1) := Next(s);
    if op != SetReplyFlag(cmd) then (None, s1)
    else
      var (n, s2) := ReadCount(s1, expected);
      if n.None? then (None, s2)
      else ReadBody(s2, n.value, wide)
  }

  /** The part of esp32_wait_response_cmd after chip select. */
  function ParseReply(s: seq<uint8>, cmd: uint8, expected: Option<nat>, wide: bool, i2c: bool)
    : (r: (Option<seq<Param>>, seq<uint8>))
    ensures r.0.Some? && expected.Some? ==> |r.0.value| == expected.value
    ensures r.0.Some? ==> Fits(r.0.value, wide)
  {
    var (started, s1) := SyncToStart(s, i2c);
    if !started then (None, s1) else ParseAfterStart(s1, cmd, expected, wide)
  }

  /** Bytes that the search for `want` skips over. */
  predicate Skippable(noise: seq<uint8>, want: uint8) {
    |noise| < SPC_CHAR_WINDOW &&
    forall i | 0 <= i < |noise| :: noise[i] != want && noise[i] != ERR_CMD
  }

  /** The leading bytes before the frame: on I2C noise, DUMMY, more noise. */
  function Lead(i2c: bool, noise1: seq<uint8>, noise2: seq<uint8>): seq<uint8> {
    if i2c then noise1 + [DUMMY_CMD] + noise2 else noise2
  }

  predicate LeadOk(i2c: bool, noise1: seq<uint8>, noise2: seq<uint8>) {
    (i2c ==> Skippable(noise1, DUMMY_CMD)) && Skippable(noise2, START_CMD)
  }

  lemma NextCons(b: uint8, t: seq<uint8>)
    ensures Next([b] + t) == (b, t)
  {
    assert ([b] + t)[1..] == t;
  }

  lemma {:induction false} WaitForSkips(noise: seq<uint8>, want: uint8, tail: seq<uint8>, budget: nat)
    requires |noise| < budget
    requires want != ERR_CMD
    requires forall i | 0 <= i < |noise| :: noise[i] != want && noise[i] != ERR_CMD
    ensures WaitFor(noise + [want] + tail, want, budget) == (true, tail)
  {
    if noise == [] {
      NextCons(want, tail);
    } else {
      assert noise + [want] + tail == [noise[0]] + (noise[1..] + [want] + tail);
      NextCons(noise[0], noise[1..] + [want] + tail);
      WaitForSkips(noise[1..], want, tail, budget - 1);
    }
  }

  lemma {:induction false} ErrAhead(noise: seq<uint8>, want: uint8, tail: seq<uint8>, budget: nat)
    requires |noise| < budget
    requires forall i | 0 <= i < |noise| :: noise[i] != want && noise[i] != ERR_CMD
    ensures !WaitFor(noise + [ERR_CMD] + tail, want, budget).0
  {
    if noise == [] {
      NextCons(ERR_CMD, tail);
    } else {
      assert noise + [ERR_CMD] + tail == [noise[0]] + (noise[1..] + [ERR_CMD] + tail);
      NextCons(noise[0], noise[1..] + [ERR_CMD] + tail);
      ErrAhead(noise[1..], want, tail, budget - 1);
    }
  }

  /** The search never finds `want` when it is absent from the first
      `budget` bytes (it never appears in the idle bytes either). */
  lemma {:induction false} WaitForAbsent(s: seq<uint8>, want: uint8, budget: nat)
    requires want != IDLE_BYTE
    requires forall i | 0 <= i < |s| && i < budget :: s[i] != want
    ensures !WaitFor(s, want, budget).0
  {
    if budget > 0 {
      var (b, t) := Next(s);
      if b != ERR_CMD && b != want {
        assert forall i | 0 <= i < |t| && i < budget - 1 :: t[i] == s[i + 1];
        WaitForAbsent(t, want, budget - 1);
      }
    }
  }

  /** On an empty stream the search reads only idle bytes and fails,
      leaving the stream empty. */
  lemma {:induction false} WaitForEmpty(want: uint8, budget: nat)
    requires want != IDLE_BYTE
    ensures WaitFor([], want, budget) == (false, [])
  {
    if budget > 0 {
      WaitForEmpty(want, budget - 1);
    }
  }

  /** Tolerable leading bytes bring the parser to just after START. */
  lemma SyncThroughLead(i2c: bool, noise1: seq<uint8>, noise2: seq<uint8>, after: seq<uint8>)
    requires LeadOk(i2c, noise1, noise2)
    ensures SyncToStart(Lead(i2c, noise1, noise2) + [START_CMD] + after, i2c) == (true, after)
  {
    var inner := noise2 + [START_CMD] + after;
    WaitForSkips(noise2, START_CMD, after, SPC_CHAR_WINDOW);
    if i2c {
      assert Lead(i2c, noise1, noise2) + [START_CMD] + after == noise1 + [DUMMY_CMD] + inner;
      WaitForSkips(noise1, DUMMY_CMD, inner, SPC_CHAR_WINDOW);
    }
  }

  lemma ReadParamEncoded(p: Param, tail: seq<uint8>, wide: bool)
    requires FitsWidth(|p|, wide)
    ensures ReadParam(EncodeParam(p, wide) + tail, wide) == (p, tail)
  {
    var lf := LengthField(|p|, wide);
    assert (p + tail)[..|p|] == p && (p + tail)[|p|..] == tail;
    if wide {
      assert EncodeParam(p, wide) + tail == [lf[0]] + ([lf[1]] + (p + tail));
      NextCons(lf[0], [lf[1]] + (p + tail));
      NextCons(lf[1], p + tail);
    } else {
      assert EncodeParam(p, wide) + tail == [lf[0]] + (p + tail);
      NextCons(lf[0], p + tail);
    }
  }

  lemma {:induction false} ReadParamsEncoded(ps: seq<Param>, tail: seq<uint8>, wide: bool)
    requires Fits(ps, wide)
    ensures ReadParams(EncodeParams(ps, wide) + tail, |ps|, wide) == (ps, tail)
  {
    if ps == [] {
      assert EncodeParams(ps, wide) + tail == tail;
    } else {
      var s := EncodeParams(ps, wide) + tail;
      var rest := EncodeParams(ps[1..], wide) + tail;
      assert s == EncodeParam(ps[0], wide) + rest;
      ReadParamEncoded(ps[0], rest, wide);
      FitsTail(ps, wide);
      ReadParamsEncoded(ps[1..], tail, wide);
      ReadParamsStep(s, |ps|, wide, ps[0], rest);
      assert [ps[0]] + ps[1..] == ps;
    }
  }

  lemma FitsTail(ps: seq<Param>, wide: bool)
    requires ps != [] && Fits(ps, wide)
    ensures Fits(ps[1..], wide)
  {
    assert forall i | 0 <= i < |ps[1..]| :: ps[1..][i] == ps[i + 1];
  }

  lemma ReadParamsStep(s: seq<uint8>, n: nat, wide: bool, p: Param, t: seq<uint8>)
    requires n > 0 && ReadParam(s, wide) == (p, t)
    ensures ReadParams(s, n, wide) == ([p] + ReadParams(t, n - 1, wide).0, ReadParams(t, n - 1, wide).1)
  {
  }

  /** A reply frame is START followed by the rest of it. */
  lemma FrameAfterStart(op: uint8, ps: seq<Param>, wide: bool, rest: seq<uint8>)
    ensures Frame(op, ps, wide) + rest == [START_CMD] + ([op, |ps| % 0x100] + EncodeParams(ps, wide) + [END_CMD] + rest)
  {
  }

  /** What follows START in a reply frame, with byte `b` where END belongs. */
  lemma AfterStartOfFrame(cmd: uint8, ps: seq<Param>, wide: bool, expected: Option<nat>, b: uint8, rest: seq<uint8>)
    requires Fits(ps, wide)
    requires expected == Some(|ps|) || (expected == None && |ps| < 0x100)
    ensures ParseAfterStart([SetReplyFlag(cmd), |ps| % 0x100] + EncodeParams(ps, wide) + [b] + rest,
                            cmd, expected, wide)
      == if b == END_CMD then (Some(ps), rest) else (None, rest)
  {
    var body := EncodeParams(ps, wide) + ([b] + rest);
    var s1 := [|ps| % 0x100] + body;
    var s0 := [SetReplyFlag(cmd), |ps| % 0x100] + EncodeParams(ps, wide) + [b] + rest;
    assert s0 == [SetReplyFlag(cmd)] + s1;
    NextCons(SetReplyFlag(cmd), s1);
    NextCons(|ps| % 0x100, body);
    assert ReadCount(s1, expected) == (Some(|ps|), body);
    assert ParseAfterStart(s0, cmd, expected, wide) == ReadBody(body, |ps|, wide);
    ReadParamsEncoded(ps, [b] + rest, wide);
    NextCons(b, rest);
  }

  /** A well-formed reply after tolerable noise yields exactly its parameters
      and leaves the stream just past its END byte; with no expected count
      the count byte is trusted, which needs fewer than 256 parameters. */
  lemma ParseReplyRoundTrip(cmd: uint8, ps: seq<Param>, wide: bool, i2c: bool, expected: Option<nat>,
                            noise1: seq<uint8>, noise2: seq<uint8>, rest: seq<uint8>)
    requires Fits(ps, wide)
    requires expected == Some(|ps|) || (expected == None && |ps| < 0x100)
    requires LeadOk(i2c, noise1, noise2)
    ensures ParseReply(Lead(i2c, noise1, noise2) + Frame(SetReplyFlag(cmd), ps, wide) + rest,
                       cmd, expected, wide, i2c) == (Some(ps), rest)
  {
    var lead := Lead(i2c, noise1, noise2);
    var after := [SetReplyFlag(cmd), |ps| % 0x100] + EncodeParams(ps, wide) + [END_CMD] + rest;
    FrameAfterStart(SetReplyFlag(cmd), ps, wide, rest);
    assert lead + Frame(SetReplyFlag(cmd), ps, wide) + rest == lead + [START_CMD] + after;
    SyncThroughLead(i2c, noise1, noise2, after);
    AfterStartOfFrame(cmd, ps, wide, expected, END_CMD, rest);
  }

  /** The frame bytes after the opcode: the count, the parameters, END. */
  function FrameTail(ps: seq<Param>, wide: bool): seq<uint8> {
    [|ps| % 0x100] + EncodeParams(ps, wide) + [END_CMD]
  }

  lemma FrameLayout(op: uint8, ps: seq<Param>, wide: bool)
    ensures Frame(op, ps, wide) == [START_CMD, op] + FrameTail(ps, wide)
  {
  }

  lemma EncodeIsPaddedFrame(cmd: uint8, ps: seq<Param>, wide: bool)
    ensures Encode(cmd, ps, wide)
      == Frame(ClearReplyFlag(cmd), ps, wide) + Zeros(FrameLength(ps, wide) - (4 + PayloadSize(ps, wide)))
  {
  }

  /** Setting the reply flag in a request's opcode byte gives the reply
      frame with the same parameters, followed by the padding. */
  lemma EchoIsReplyFrame(cmd: uint8, ps: seq<Param>, wide: bool)
    ensures Encode(cmd, ps, wide)[1 := SetReplyFlag(cmd)]
      == Frame(SetReplyFlag(cmd), ps, wide) + Zeros(FrameLength(ps, wide) - (4 + PayloadSize(ps, wide)))
  {
    var pad := Zeros(FrameLength(ps, wide) - (4 + PayloadSize(ps, wide)));
    var t := FrameTail(ps, wide);
    EncodeIsPaddedFrame(cmd, ps, wide);
    FrameLayout(ClearReplyFlag(cmd), ps, wide);
    FrameLayout(SetReplyFlag(cmd), ps, wide);
    assert Encode(cmd, ps, wide) == [START_CMD, ClearReplyFlag(cmd)] + (t + pad);
    SetSecond(START_CMD, ClearReplyFlag(cmd), SetReplyFlag(cmd), t + pad);
  }

  /** Encoder and parser share one wire format: a co-processor that echoes a
      request with the reply flag set makes the parser return exactly the
      parameters that were sent, leaving only the padding unread. */
  lemma EchoRoundTrip(cmd: uint8, ps: seq<Param>, wide: bool)
    requires Fits(ps, wide)
    ensures ParseReply(Encode(cmd, ps, wide)[1 := SetReplyFlag(cmd)], cmd, Some(|ps|), wide, false)
        == (Some(ps), Zeros(FrameLength(ps, wide) - (4 + PayloadSize(ps, wide))))
  {
    var pad := Zeros(FrameLength(ps, wide) - (4 + PayloadSize(ps, wide)));
    var f := Frame(SetReplyFlag(cmd), ps, wide);
    EchoIsReplyFrame(cmd, ps, wide);
    assert Lead(false, [], []) + f + pad == f + pad;
    ParseReplyRoundTrip(cmd, ps, wide, false, Some(|ps|), [], [], pad);
  }

  lemma SetSecond<T>(a: T, b: T, c: T, t: seq<T>)
    ensures ([a, b] + t)[1 := c] == [a, c] + t
  {
  }

  /** On either bus, an ERR byte that comes before START makes the reply
      fail (over I2C: after the DUMMY byte). */
  lemma ErrBeforeStartFails(cmd: uint8, expected: Option<nat>, wide: bool, i2c: bool,
                            noise1: seq<uint8>, noise2: seq<uint8>, tail: seq<uint8>)
    requires LeadOk(i2c, noise1, noise2)
    ensures ParseReply(Lead(i2c, noise1, noise2) + [ERR_CMD] + tail, cmd, expected, wide, i2c).0 == None
  {
    var rest := noise2 + [ERR_CMD] + tail;
    if i2c {
      assert Lead(i2c, noise1, noise2) + [ERR_CMD] + tail == noise1 + [DUMMY_CMD] + rest;
      WaitForSkips(noise1, DUMMY_CMD, rest, SPC_CHAR_WINDOW);
    }
    ErrAhead(noise2, START_CMD, tail, SPC_CHAR_WINDOW);
  }

  /** Over I2C, an ERR byte that comes before the DUMMY byte makes the
      reply fail. */
  lemma ErrBeforeDummyFails(cmd: uint8, expected: Option<nat>, wide: bool, noise: seq<uint8>, tail: seq<uint8>)
    requires Skippable(noise, DUMMY_CMD)
    ensures ParseReply(noise + [ERR_CMD] + tail, cmd, expected, wide, true).0 == None
  {
    ErrAhead(noise, DUMMY_CMD, tail, SPC_CHAR_WINDOW);
  }

  /** A reply whose opcode byte is not `cmd | REPLY_FLAG` fails. */
  lemma WrongOpcodeFails(cmd: uint8, op: uint8, expected: Option<nat>, wide: bool, i2c: bool,
                         noise1: seq<uint8>, noise2: seq<uint8>, tail: seq<uint8>)
    requires op != SetReplyFlag(cmd)
    requires LeadOk(i2c, noise1, noise2)
    ensures ParseReply(Lead(i2c, noise1, noise2) + [START_CMD, op] + tail, cmd, expected, wide, i2c).0 == None
  {
    assert Lead(i2c, noise1, noise2) + [START_CMD, op] + tail == Lead(i2c, noise1, noise2) + [START_CMD] + ([op] + tail);
    SyncThroughLead(i2c, noise1, noise2, [op] + tail);
    NextCons(op, tail);
  }

  /** A count byte other than the low byte of the expected count fails. */
  lemma WrongCountFails(cmd: uint8, n: nat, count: uint8, wide: bool, i2c: bool,
                        noise1: seq<uint8>, noise2: seq<uint8>, tail: seq<uint8>)
    requires count != n % 0x100
    requires LeadOk(i2c, noise1, noise2)
    ensures ParseReply(Lead(i2c, noise1, noise2) + [START_CMD, SetReplyFlag(cmd), count] + tail,
                       cmd, Some(n), wide, i2c).0 == None
  {
    var after := [SetReplyFlag(cmd)] + ([count] + tail);
    assert Lead(i2c, noise1, noise2) + [START_CMD, SetReplyFlag(cmd), count] + tail
      == Lead(i2c, noise1, noise2) + [START_CMD] + after;
    SyncThroughLead(i2c, noise1, noise2, after);
    NextCons(SetReplyFlag(cmd), [count] + tail);
    NextCons(count, tail);
  }

  /** Past tolerable noise and START, the reply is parsed from the byte
      after START. */
  lemma ParseAfterLead(cmd: uint8, expected: Option<nat>, wide: bool, i2c: bool,
                       noise1: seq<uint8>, noise2: seq<uint8>, after: seq<uint8>)
    requires LeadOk(i2c, noise1, noise2)
    ensures ParseReply(Lead(i2c, noise1, noise2) + [START_CMD] + after, cmd, expected, wide, i2c)
      == ParseAfterStart(after, cmd, expected, wide)
  {
    SyncThroughLead(i2c, noise1, noise2, after);
  }

  lemma SplitAfterFirst<T>(lead: seq<T>, x: T, y: T, z: T, mid: seq<T>, b: T, tail: seq<T>)
    ensures lead + [x, y, z] + mid + [b] + tail == lead + [x] + ([y, z] + mid + [b] + tail)
  {
  }

  /** A reply frame whose byte after the parameters is not END fails, so
      no partially read parameter list is ever returned. */
  lemma CorruptEndFails(cmd: uint8, ps: seq<Param>, wide: bool, i2c: bool, b: uint8,
                        noise1: seq<uint8>, noise2: seq<uint8>, tail: seq<uint8>)
    requires Fits(ps, wide)
    requires b != END_CMD
    requires LeadOk(i2c, noise1, noise2)
    ensures ParseReply(Lead(i2c, noise1, noise2) + [START_CMD, SetReplyFlag(cmd), |ps| % 0x100]
                         + EncodeParams(ps, wide) + [b] + tail, cmd, Some(|ps|), wide, i2c).0 == None
  {
    var expected: Option<nat> := Some(|ps|);
    var after: seq<uint8> := [SetReplyFlag(cmd), |ps| % 0x100] + EncodeParams(ps, wide) + [b] + tail;
    SplitAfterFirst(Lead(i2c, noise1, noise2), START_CMD, SetReplyFlag(cmd), |ps| % 0x100,
                    EncodeParams(ps, wide), b, tail);
    ParseAfterLead(cmd, expected, wide, i2c, noise1, noise2, after);
    AfterStartOfFrame(cmd, ps, wide, expected, b, tail);
  }

  /** Over I2C a reply fails unless a DUMMY byte turns up before the read
      window closes, however well-formed the rest of it is. */
  lemma I2cNeedsDummy(s: seq<uint8>, cmd: uint8, expected: Option<nat>, wide: bool)
    requires forall i | 0 <= i < |s| && i < SPC_CHAR_WINDOW :: s[i] != DUMMY_CMD
    ensures ParseReply(s, cmd, expected, wide, true).0 == None
  {
    WaitForAbsent(s, DUMMY_CMD, SPC_CHAR_WINDOW);
  }
}
