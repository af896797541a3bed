/**
 * The operations on the ESP32 handle (esp32_socket.c from
 * esp32_firmware_version on). Each is a function of a Link, the two
 * transport services the operations use (one command exchange answered by
 * one reply parameter, and the module reset), and of the environment.
 * Wire is the link the driver has: esp32_send_command_get_response and
 * esp32_reset as Esp32Link specifies them. The contracts say what each
 * operation makes of any link's answers; the lemmas follow the two polling
 * loops poll by poll and run single operations against a scripted
 * co-processor through Wire.
 */
module Esp32Session {
  import opened Wrappers
  import opened Esp32Defs
  import opened Esp32Codec
  import opened Esp32Link

  /** The kernel's ER results the driver uses. */
  datatype Er = EOk | ESys | EPar

  /** ESP32_Init_t: credentials, connect retries, pins, and which of the two
      bus handles is present. */
  datatype Config = Config(ssid: seq<uint8>, pass: Option<seq<uint8>>, retryTimes: uint8,
                           csNum: uint8, rstNum: uint8, rdyNum: uint8, hasSpi: bool, hasI2c: bool)

  // ---------------------------------------------------------------------
  // Links
  // ---------------------------------------------------------------------

  /** ask(e, cmd, params, sendWide, recvWide): send `cmd` and read a reply of
      one parameter; reset(e): reset the module. */
  datatype Link = Link(ask: (Env, uint8, seq<Param>, bool, bool) -> (Option<Param>, Env),
                       reset: Env -> Env)

  /** esp32_send_command_get_response with the reply count left at one: the
      single reply parameter, if any. */
  function Ask(e: Env, spi: bool, cmd: uint8, ps: seq<Param>, sendWide: bool, recvWide: bool)
    : (r: (Option<Param>, Env))
    ensures r.0.Some? ==> FitsWidth(|r.0.value|, recvWide)
    ensures r.1.tx == e.tx || r.1.tx == e.tx + [Encode(cmd, ps, sendWide)]
    ensures r.1.heapFree == e.heapFree && r.1.resets == e.resets && r.1.now >= e.now
  {
    var (resp, e1) := Exchange(e, spi, cmd, ps, None, sendWide, recvWide);
    if resp.None? then (None, e1) else (Some(resp.value[0]), e1)
  }

  /** The driver's own link, over SPI or I2C, with reset pin `rstNum`. */
  function Wire(spi: bool, rstNum: uint8): Link {
    Link((e: Env, cmd: uint8, ps: seq<Param>, sendWide: bool, recvWide: bool) =>
           Ask(e, spi, cmd, ps, sendWide, recvWide),
         (e: Env) => Reset(e, spi, rstNum))
  }

  /** No exchange moves the clock backwards. */
  ghost predicate MonotoneClock(x: Link) {
    forall e: Env, cmd: uint8, ps: seq<Param>, sendWide: bool, recvWide: bool ::
      x.ask(e, cmd, ps, sendWide, recvWide).1.now >= e.now
  }

  /** `x` is the driver's link over the given bus and reset pin: every
      exchange and every reset through it is the one Esp32Link specifies.
      The triggers are the wire's own functions, so the fact is put to use
      only where an exchange or a reset of the wire is already in view. */
  ghost predicate Implements(x: Link, spi: bool, rstNum: uint8) {
    (forall e: Env, cmd: uint8, ps: seq<Param>, sendWide: bool, recvWide: bool
       {:trigger Ask(e, spi, cmd, ps, sendWide, recvWide)} ::
       x.ask(e, cmd, ps, sendWide, recvWide) == Ask(e, spi, cmd, ps, sendWide, recvWide)) &&
    (forall e: Env {:trigger Reset(e, spi, rstNum)} :: x.reset(e) == Reset(e, spi, rstNum))
  }

  lemma WireImplements(spi: bool, rstNum: uint8)
    ensures Implements(Wire(spi, rstNum), spi, rstNum)
  {
  }

  /** Any link that behaves as the wire never moves the clock back. */
  lemma ImplementsKeepsTime(x: Link, spi: bool, rstNum: uint8)
    requires Implements(x, spi, rstNum)
    ensures MonotoneClock(x)
  {
    forall e: Env, cmd: uint8, ps: seq<Param>, sendWide: bool, recvWide: bool
      ensures x.ask(e, cmd, ps, sendWide, recvWide).1.now >= e.now
    {
      assert x.ask(e, cmd, ps, sendWide, recvWide) == Ask(e, spi, cmd, ps, sendWide, recvWide);
    }
  }

  /** A prompt co-processor answers without the clock moving and stays prompt. */
  ghost predicate Instant(x: Link) {
    forall e: Env, cmd: uint8, ps: seq<Param>, sendWide: bool, recvWide: bool | Prompt(e) ::
      x.ask(e, cmd, ps, sendWide, recvWide).1.now == e.now && Prompt(x.ask(e, cmd, ps, sendWide, recvWide).1)
  }

  /** The driver's link has both properties. */
  lemma WireKeepsTime(spi: bool, rstNum: uint8)
    ensures MonotoneClock(Wire(spi, rstNum)) && Instant(Wire(spi, rstNum))
  {
    forall e: Env, cmd: uint8, ps: seq<Param>, sendWide: bool, recvWide: bool | Prompt(e)
      ensures Ask(e, spi, cmd, ps, sendWide, recvWide).1.now == e.now
      ensures Prompt(Ask(e, spi, cmd, ps, sendWide, recvWide).1)
    {
      PromptExchange(e, spi, cmd, ps, None, sendWide, recvWide);
    }
  }

  /** The request frames sent to a co-processor: none when no buffer could
      be had. */
  function Sent(e: Env, cmd: uint8, ps: seq<Param>, sendWide: bool): seq<seq<uint8>> {
    if BufferAvailable(e, ps, sendWide) then [Encode(cmd, ps, sendWide)] else []
  }

  /** Through the wire, a prompt co-processor whose next bytes are a reply
      with parameter `p` makes the exchange return exactly `p` and consume
      exactly the reply. */
  lemma AskScripted(e: Env, spi: bool, cmd: uint8, ps: seq<Param>, sendWide: bool,
                    p: Param, recvWide: bool, rest: seq<uint8>)
    requires Prompt(e) && FitsWidth(|p|, recvWide)
    requires e.rx == Reply(spi, cmd, p, recvWide) + rest
    ensures Ask(e, spi, cmd, ps, sendWide, recvWide)
      == (Some(p), e.(rx := rest, tx := e.tx + Sent(e, cmd, ps, sendWide)))
  {
    ExchangeScripted(e, spi, cmd, ps, sendWide, p, recvWide, rest);
  }

  /** Through the wire, a prompt co-processor that sends nothing makes the
      exchange fail, having written only the request. */
  lemma AskSilent(e: Env, spi: bool, cmd: uint8, ps: seq<Param>, sendWide: bool, recvWide: bool)
    requires Prompt(e) && e.rx == []
    ensures Ask(e, spi, cmd, ps, sendWide, recvWide) == (None, e.(tx := e.tx + Sent(e, cmd, ps, sendWide)))
  {
    SilentExchange(e, spi, cmd, ps, None, sendWide, recvWide);
  }

  /** The request frames with no parameter or one byte are small enough
      for the scratch buffer. */
  lemma SmallFrames(e: Env, cmd: uint8, b: uint8)
    ensures Sent(e, cmd, [], false) == [Encode(cmd, [], false)]
    ensures Sent(e, cmd, [[b]], false) == [Encode(cmd, [[b]], false)]
  {
    assert PayloadSize([], false) == 0;
    assert [[b]][1..] == [];
    assert PayloadSize([[b]], false) == 2;
  }

  // ---------------------------------------------------------------------
  // Byte-level helpers
  // ---------------------------------------------------------------------

  /** `param[i]`; a reply parameter shorter than the driver assumes reads
      as zero. */
  function Byte(p: Param, i: nat): uint8 {
    if i < |p| then p[i] else 0
  }

  /** `param[0] | param[1] << 8`, as socket_write and socket_available
      decode a count. */
  function LE16(p: Param): (r: uint16)
    ensures r % 0x100 == Byte(p, 0) && r / 0x100 == Byte(p, 1)
  {
    (Byte(p, 0) as int) + 0x100 * (Byte(p, 1) as int)
  }

  /** The bytes of the global `time` read as the little-endian uint32 the
      K210 stores there. */
  function LE32(t: seq<uint8>): (r: uint32)
    requires |t| == 4
    ensures r % 0x100 == t[0] && r / 0x100_0000 == t[3]
  {
    (t[0] as int) + 0x100 * (t[1] as int) + 0x1_0000 * (t[2] as int) + 0x100_0000 * (t[3] as int)
  }

  /** port_arr of socket_open: high byte first. */
  function PortBytes(port: uint16): (r: Param)
    ensures |r| == 2 && (r[0] as int) * 0x100 + (r[1] as int) == port
  {
    [port / 0x100, port % 0x100]
  }

  /** len[] of socket_read: low byte first. */
  function SizeBytes(size: uint16): (r: Param)
    ensures |r| == 2 && LE16(r) == size
  {
    [size % 0x100, size / 0x100]
  }

  /** What strlen sees: the bytes before the first NUL. */
  function CStr(s: seq<uint8>): (r: seq<uint8>)
    ensures |r| <= |s| && r == s[..|r|]
    ensures forall i | 0 <= i < |r| :: r[i] != 0
    ensures |r| < |s| ==> s[|r|] == 0
  {
    if s == [] || s[0] == 0 then [] else [s[0]] + CStr(s[1..])
  }

  /** A NUL-terminated string gives back exactly its characters. */
  lemma {:induction false} CStrOfTerminated(s: seq<uint8>, tail: seq<uint8>)
    requires forall i | 0 <= i < |s| :: s[i] != 0
    ensures CStr(s + [0] + tail) == s
  {
    if s != [] {
      assert (s + [0] + tail)[1..] == s[1..] + [0] + tail;
      CStrOfTerminated(s[1..], tail);
    }
  }

  /** A reply whose first byte is 1, the co-processor's "done". */
  predicate Acked(resp: Option<Param>) {
    resp.Some? && Byte(resp.value, 0) == 1
  }

  /** The usual verdict on an acknowledgement: 0 for "done", -1 for any
      other byte or no reply. */
  function Ack(resp: Option<Param>): (r: int)
    ensures r == 0 <==> Acked(resp)
    ensures r == 0 || r == -1
  {
    if resp.None? then -1 else if Byte(resp.value, 0) != 1 then -1 else 0
  }

  // ---------------------------------------------------------------------
  // Operations
  // ---------------------------------------------------------------------

  /** esp32_firmware_version: the reply parameter, cut to the low 8 bits of
      its length, as a C string. */
  function FirmwareVersion(x: Link, e: Env): (r: (Er, seq<uint8>, Env))
    ensures var (resp, e1) := x.ask(e, GET_FW_VERSION_CMD, [], false, false);
      r.2 == e1 && (r.0 == EOk <==> resp.Some?) && (resp.None? ==> r.0 == ESys && r.1 == []) &&
      (resp.Some? ==> |r.1| == |resp.value| % 0x100 + 1 && r.1 == resp.value[..|r.1| - 1] + [0]) &&
      (resp.Some? && |resp.value| < 0x100 ==> r.1 == resp.value + [0])
  {
    var (resp, e1) := x.ask(e, GET_FW_VERSION_CMD, [], false, false);
    if resp.None? then (ESys, [], e1)
    else
      var p := resp.value;
      (EOk, p[..|p| % 0x100] + [0], e1)
  }

  /** As written, set_debug, set_certificate and set_private_key free the
      reply even when there is none. */
  datatype Outcome = Returned(env: Env) | NullDereference

  function FireAndForgetAsWritten(x: Link, e: Env, cmd: uint8, ps: seq<Param>, sendWide: bool): (r: Outcome)
    ensures r.NullDereference? <==> x.ask(e, cmd, ps, sendWide, false).0.None?
    ensures r.Returned? ==> r.env == x.ask(e, cmd, ps, sendWide, false).1
  {
    var (resp, e1) := x.ask(e, cmd, ps, sendWide, false);
    if resp.None? then NullDereference else Returned(e1)
  }

  /** Corrected: the reply is freed only when there is one. */
  function FireAndForget(x: Link, e: Env, cmd: uint8, ps: seq<Param>, sendWide: bool): (r: Env)
    ensures FireAndForgetAsWritten(x, e, cmd, ps, sendWide).Returned? ==>
      r == FireAndForgetAsWritten(x, e, cmd, ps, sendWide).env
  {
    x.ask(e, cmd, ps, sendWide, false).1
  }

  /** esp32_set_debug, esp32_set_certificate and esp32_set_private_key: one
      request whose reply, if any, is read 8 bits wide and dropped. */
  function SetDebug(x: Link, e: Env, debug: uint8): (r: Env)
    ensures r == x.ask(e, SET_DEBUG_CMD, [[debug]], false, false).1
  {
    FireAndForget(x, e, SET_DEBUG_CMD, [[debug]], false)
  }

  /** The certificate and the key go up to the first NUL, with 16-bit lengths. */
  function SetCertificate(x: Link, e: Env, clientCa: seq<uint8>): (r: Env)
    ensures r == x.ask(e, SET_CLIENT_CERT_CMD, [CStr(clientCa)], true, false).1
  {
    FireAndForget(x, e, SET_CLIENT_CERT_CMD, [CStr(clientCa)], true)
  }

  function SetPrivateKey(x: Link, e: Env, privateKey: seq<uint8>): (r: Env)
    ensures r == x.ask(e, SET_CERT_KEY_CMD, [CStr(privateKey)], true, false).1
  {
    FireAndForget(x, e, SET_CERT_KEY_CMD, [CStr(privateKey)], true)
  }

  /** esp32_get_time: copies the low 8 bits' worth of the reply's length,
      at most the four bytes of the global `time`, into `time` and returns
      it; 0 when there is no reply. */
  function GetTime(x: Link, e: Env, time: seq<uint8>): (r: (uint32, seq<uint8>, Env))
    requires |time| == 4
    ensures var (resp, e1) := x.ask(e, GET_TIME_CMD, [[0xFF]], false, false);
      |r.1| == 4 && r.2 == e1 &&
      (resp.None? ==> r.0 == 0 && r.1 == time) &&
      (resp.Some? ==> r.0 == LE32(r.1)) &&
      (resp.Some? && 4 <= |resp.value| < 0x100 ==> r.1 == resp.value[..4]) &&
      (resp.Some? && |resp.value| < 4 ==> r.1 == resp.value + time[|resp.value|..])
  {
    var (resp, e1) := x.ask(e, GET_TIME_CMD, [[0xFF]], false, false);
    if resp.None? then (0, time, e1)
    else
      var p := resp.value;
      var n := if |p| % 0x100 < 4 then |p| % 0x100 else 4;
      var t := p[..n] + time[n..];
      (LE32(t), t, e1)
  }

  /** esp32_wifi_set_network and esp32_wifi_set_passphrase: 0 exactly when
      the co-processor acknowledges. */
  function SetNetwork(x: Link, e: Env, ssid: seq<uint8>): (r: (int, Env))
    ensures var (resp, e1) := x.ask(e, SET_NET_CMD, [CStr(ssid)], false, false);
      r.1 == e1 && (r.0 == 0 <==> Acked(resp)) && (r.0 == 0 || r.0 == -1)
  {
    var (resp, e1) := x.ask(e, SET_NET_CMD, [CStr(ssid)], false, false);
    (Ack(resp), e1)
  }

  function SetPassphrase(x: Link, e: Env, ssid: seq<uint8>, pass: seq<uint8>): (r: (int, Env))
    ensures var (resp, e1) := x.ask(e, SET_PASSPHRASE_CMD, [CStr(ssid), CStr(pass)], false, false);
      r.1 == e1 && (r.0 == 0 <==> Acked(resp)) && (r.0 == 0 || r.0 == -1)
  {
    var (resp, e1) := x.ask(e, SET_PASSPHRASE_CMD, [CStr(ssid), CStr(pass)], false, false);
    (Ack(resp), e1)
  }

  /** esp32_status: the reply byte as int8_t, or -2 when there is none. So
      -2 also stands for WL_NO_MODULE, and -1 only for WL_NO_SHIELD, never
      for a failed exchange. */
  function Status(x: Link, e: Env): (r: (int, Env))
    ensures var (resp, e1) := x.ask(e, GET_CONN_STATUS_CMD, [], false, false);
      r.1 == e1 && -0x80 <= r.0 < 0x80 &&
      (r.0 == -2 <==> resp.None? || Byte(resp.value, 0) == WL_NO_MODULE) &&
      (r.0 == -1 <==> resp.Some? && Byte(resp.value, 0) == WL_NO_SHIELD) &&
      (resp.Some? ==> (r.0 + 0x100) % 0x100 == Byte(resp.value, 0))
  {
    var (resp, e1) := x.ask(e, GET_CONN_STATUS_CMD, [], false, false);
    if resp.None? then (-2, e1) else (Int8(Byte(resp.value, 0)), e1)
  }

  /** esp32_is_connected: 0 connected, 1 not, and 2 after a reset when the
      status is -2, which a co-processor reporting WL_NO_MODULE also gets. */
  function IsConnected(x: Link, e: Env): (r: (uint8, Env))
    ensures var resp := x.ask(e, GET_CONN_STATUS_CMD, [], false, false).0;
      r.0 <= 2 &&
      (r.0 == 0 <==> resp.Some? && Byte(resp.value, 0) == WL_CONNECTED) &&
      (r.0 == 2 <==> resp.None? || Byte(resp.value, 0) == WL_NO_MODULE) &&
      r.1 == (if r.0 == 2 then x.reset(Status(x, e).1) else Status(x, e).1)
  {
    var (stat, e1) := Status(x, e);
    if stat == -2 then (2, x.reset(e1))
    else if stat == WL_CONNECTED then (0, e1)
    else (1, e1)
  }

  /** The verdict after every poll of esp32_connect has passed. */
  function FinalConnectCode(stat: int): (r: int)
    ensures r == -3 <==> stat == 4 || stat == 5 || stat == 6
    ensures r == -4 <==> stat == 1
    ensures r == -5 <==> !(stat == 1 || stat == 4 || stat == 5 || stat == 6)
  {
    if stat == WL_CONNECT_FAILED || stat == WL_CONNECTION_LOST || stat == WL_DISCONNECTED then -3
    else if stat == WL_NO_SSID_AVAIL then -4
    else -5
  }

  /** A status other than -1, WL_CONNECTED and WL_CONNECT_FAILED keeps
      esp32_connect polling; -2 among them. */
  predicate KeepsPolling(stat: int) {
    stat != -1 && stat != WL_CONNECTED as int && stat != WL_CONNECT_FAILED as int
  }

  function Delay(e: Env, ms: nat): Env {
    e.(now := e.now + ms)
  }

  /** The environment of poll n + 1 of esp32_connect when the polls before it
      each kept polling and were each followed by 1000 ms. */
  function ConnectPollEnv(x: Link, e: Env, n: nat): Env
    decreases n
  {
    if n == 0 then e else ConnectPollEnv(x, Delay(Status(x, e).1, 1000), n - 1)
  }

  /** The last k polls of esp32_connect: Some(code) when a poll returned,
      None when all k kept polling. */
  function ConnectPolls(x: Link, e: Env, k: nat): (r: (Option<int>, Env))
    ensures r.0.Some? ==> r.0.value == 0 || r.0.value == -1 || r.0.value == -2
    ensures r.0.None? ==> r.1 == ConnectPollEnv(x, e, k)
    decreases k
  {
    if k == 0 then (None, e)
    else
      var (stat, e1) := Status(x, e);
      if stat == -1 then (Some(-1), x.reset(e1))
      else if stat == WL_CONNECTED then (Some(0), e1)
      else if stat == WL_CONNECT_FAILED then (Some(-2), e1)
      else ConnectPolls(x, Delay(e1, 1000), k - 1)
  }

  /** Hand the credentials to the co-processor in one request, with the
      passphrase when there is one; the verdict is ignored. */
  function Join(x: Link, e: Env, cfg: Config): (r: Env)
    ensures cfg.pass.Some? ==>
      r == x.ask(e, SET_PASSPHRASE_CMD, [CStr(cfg.ssid), CStr(cfg.pass.value)], false, false).1
    ensures cfg.pass.None? ==> r == x.ask(e, SET_NET_CMD, [CStr(cfg.ssid)], false, false).1
  {
    if cfg.pass.Some? then SetPassphrase(x, e, cfg.ssid, cfg.pass.value).1
    else SetNetwork(x, e, cfg.ssid).1
  }

  /** esp32_connect. */
  function Connect(x: Link, e: Env, cfg: Config): (r: (int, Env))
    ensures -5 <= r.0 <= 0
    ensures ConnectPolls(x, Join(x, e, cfg), cfg.retryTimes).0.Some? <==> -2 <= r.0
  {
    var (polled, e1) := ConnectPolls(x, Join(x, e, cfg), cfg.retryTimes);
    if polled.Some? then (polled.value, e1)
    else
      var (stat, e2) := Status(x, e1);
      (FinalConnectCode(stat), e2)
  }

  /** esp32_disconnect: the reply byte as int8_t, -1 when there is none, so
      a reply of 0xFF cannot be told from a failure. */
  function Disconnect(x: Link, e: Env): (r: (int, Env))
    ensures var (resp, e1) := x.ask(e, DISCONNECT_CMD, [], false, false);
      r.1 == e1 && (r.0 == -1 <==> resp.None? || Byte(resp.value, 0) == 0xFF) &&
      (resp.Some? ==> (r.0 + 0x100) % 0x100 == Byte(resp.value, 0))
  {
    var (resp, e1) := x.ask(e, DISCONNECT_CMD, [], false, false);
    if resp.None? then (-1, e1) else (Int8(Byte(resp.value, 0)), e1)
  }

  /** esp32_get_host_by_name: request the lookup, then fetch the address;
      the returned bytes are what is copied into `ip`. */
  function GetHostByName(x: Link, e: Env, host: seq<uint8>): (r: (int, seq<uint8>, Env))
    ensures var (resp, e1) := x.ask(e, REQ_HOST_BY_NAME_CMD, [CStr(host)], false, false);
      (r.0 == 0 || r.0 == -1 || r.0 == -2) &&
      (resp.None? ==> r == (-2, [], e1)) &&
      (resp.Some? && !Acked(resp) ==> r == (-1, [], e1)) &&
      (Acked(resp) ==>
        var (resp2, e2) := x.ask(e1, GET_HOST_BY_NAME_CMD, [], false, false);
        r.2 == e2 && (r.0 == 0 <==> resp2.Some?) && (resp2.Some? ==> r.1 == resp2.value) &&
        (resp2.None? ==> r == (-2, [], e2)))
  {
    var (resp, e1) := x.ask(e, REQ_HOST_BY_NAME_CMD, [CStr(host)], false, false);
    if resp.None? then (-2, [], e1)
    else if Byte(resp.value, 0) != 1 then (-1, [], e1)
    else
      var (resp2, e2) := x.ask(e1, GET_HOST_BY_NAME_CMD, [], false, false);
      if resp2.None? then (-2, [], e2) else (0, resp2.value, e2)
  }

  /** esp32_get_socket: the free socket the co-processor names, 0xFF when
      there is none or no reply. */
  function GetSocket(x: Link, e: Env): (r: (uint8, Env))
    ensures var (resp, e1) := x.ask(e, GET_SOCKET_CMD, [], false, false);
      r.1 == e1 && (resp.None? ==> r.0 == 0xFF) && (resp.Some? ==> r.0 == Byte(resp.value, 0))
  {
    var (resp, e1) := x.ask(e, GET_SOCKET_CMD, [], false, false);
    if resp.None? then (0xFF, e1)
    else if Byte(resp.value, 0) == 0xFF then (0xFF, e1)
    else (Byte(resp.value, 0), e1)
  }

  /** The parameters of START_CLIENT_TCP_CMD: a host name destination sends
      five, the name, four zero bytes, the port high byte first, the socket
      and the mode; an address destination sends four, the address bytes
      and the same last three. */
  function OpenParams(dest: seq<uint8>, destType: uint8, port: uint16, socketNum: uint8, mode: uint8)
    : (r: seq<Param>)
    requires destType == 0 ==> |dest| >= 4
    ensures destType != 0 ==> |r| == 5 && r[0] == CStr(dest) && r[1] == [0, 0, 0, 0]
    ensures destType == 0 ==> |r| == 4 && r[0] == dest[..4]
    ensures |r[|r| - 3]| == 2 && (r[|r| - 3][0] as int) * 0x100 + (r[|r| - 3][1] as int) == port
    ensures r[|r| - 2] == [socketNum] && r[|r| - 1] == [mode]
  {
    if destType != 0 then [CStr(dest), [0, 0, 0, 0], PortBytes(port), [socketNum], [mode]]
    else [dest[..4], PortBytes(port), [socketNum], [mode]]
  }

  /** esp32_socket_open: 0 exactly when the co-processor acknowledges. */
  function SocketOpen(x: Link, e: Env, socketNum: uint8, dest: seq<uint8>, destType: uint8,
                      port: uint16, mode: uint8): (r: (int, Env))
    requires destType == 0 ==> |dest| >= 4
    ensures var (resp, e1) := x.ask(e, START_CLIENT_TCP_CMD, OpenParams(dest, destType, port, socketNum, mode),
                                    false, false);
      r.1 == e1 && (r.0 == 0 <==> Acked(resp)) && (r.0 == 0 || r.0 == -1)
  {
    var (resp, e1) := x.ask(e, START_CLIENT_TCP_CMD, OpenParams(dest, destType, port, socketNum, mode),
                            false, false);
    (Ack(resp), e1)
  }

  /** esp32_socket_status: the reply byte, SOCKET_STATUS_ERROR when there
      is none; a reply of 0xFF cannot be told from a failure. */
  function SocketStatus(x: Link, e: Env, socketNum: uint8): (r: (uint8, Env))
    ensures var (resp, e1) := x.ask(e, GET_CLIENT_STATE_TCP_CMD, [[socketNum]], false, false);
      r.1 == e1 && (r.0 == SOCKET_STATUS_ERROR <==> resp.None? || Byte(resp.value, 0) == 0xFF) &&
      (resp.Some? ==> r.0 == Byte(resp.value, 0))
  {
    var (resp, e1) := x.ask(e, GET_CLIENT_STATE_TCP_CMD, [[socketNum]], false, false);
    if resp.None? then (SOCKET_STATUS_ERROR, e1) else (Byte(resp.value, 0), e1)
  }

  /** esp32_socket_connected: 1 exactly when the socket is ESTABLISHED. */
  function SocketConnected(x: Link, e: Env, socketNum: uint8): (r: (uint8, Env))
    ensures var resp := x.ask(e, GET_CLIENT_STATE_TCP_CMD, [[socketNum]], false, false).0;
      (r.0 == 0 || r.0 == 1) && (r.0 == 1 <==> resp.Some? && Byte(resp.value, 0) == SOCKET_ESTABLISHED) &&
      r.1 == SocketStatus(x, e, socketNum).1
  {
    var (st, e1) := SocketStatus(x, e, socketNum);
    (if st == SOCKET_ESTABLISHED then 1 else 0, e1)
  }

  const CONNECT_WINDOW: nat := 3000
  const CONNECT_POLL_INTERVAL: nat := 100

  /** A socket state other than ESTABLISHED and the error value keeps the
      establish-poll going. */
  predicate StillOpening(st: uint8) {
    st != SOCKET_ESTABLISHED && st != SOCKET_STATUS_ERROR
  }

  /** The environment of establish-poll n + 1 when the polls before it each
      kept polling and were each followed by 100 ms. */
  function SocketPollEnv(x: Link, e: Env, socketNum: uint8, n: nat): Env
    decreases n
  {
    if n == 0 then e
    else SocketPollEnv(x, Delay(SocketStatus(x, e, socketNum).1, CONNECT_POLL_INTERVAL), socketNum, n - 1)
  }

  /** The establish-poll of esp32_socket_connect, begun at time `start`. */
  function SocketConnectPolls(x: Link, e: Env, socketNum: uint8, start: nat): (r: (int, Env))
    requires MonotoneClock(x)
    ensures r.0 == 0 || r.0 == -2 || r.0 == -3
    ensures r.1.now >= e.now
    ensures r.0 == -3 ==> r.1.now >= start + CONNECT_WINDOW
    decreases start + CONNECT_WINDOW - e.now
  {
    if e.now - start >= CONNECT_WINDOW then (-3, e)
    else
      var (st, e1) := SocketStatus(x, e, socketNum);
      if st == SOCKET_ESTABLISHED then (0, e1)
      else if st == SOCKET_STATUS_ERROR then (-2, e1)
      else SocketConnectPolls(x, Delay(e1, CONNECT_POLL_INTERVAL), socketNum, start)
  }

  /** esp32_socket_connect: open, and unless the mode is UDP poll until the
      socket is established. A failed open is the only way to -1, and UDP
      never polls. */
  function SocketConnect(x: Link, e: Env, socketNum: uint8, dest: seq<uint8>, destType: uint8,
                         port: uint16, mode: uint8): (r: (int, Env))
    requires destType == 0 ==> |dest| >= 4
    requires MonotoneClock(x)
    ensures var (ret, e1) := SocketOpen(x, e, socketNum, dest, destType, port, mode);
      -3 <= r.0 <= 0 && (r.0 == -1 <==> ret == -1) &&
      (ret == -1 || mode == UDP_MODE ==> r.1 == e1) &&
      (ret == 0 && mode == UDP_MODE ==> r.0 == 0) &&
      (ret == 0 && mode != UDP_MODE ==> r == SocketConnectPolls(x, e1, socketNum, e1.now))
  {
    var (ret, e1) := SocketOpen(x, e, socketNum, dest, destType, port, mode);
    if ret == -2 then (-2, e1)
    else if ret == -1 then (-1, e1)
    else if mode == UDP_MODE then (0, e1)
    else SocketConnectPolls(x, e1, socketNum, e1.now)
  }

  /** esp32_socket_write of `data` (buffer[..len]), sent with 16-bit
      lengths: the little-endian count of the reply, 0 on failure. */
  function SocketWrite(x: Link, e: Env, socketNum: uint8, data: seq<uint8>): (r: (uint32, Env))
    ensures var (resp, e1) := x.ask(e, SEND_DATA_TCP_CMD, [[socketNum], data], true, false);
      r.1 == e1 && r.0 < 0x1_0000 && (resp.None? ==> r.0 == 0) && (resp.Some? ==> r.0 == LE16(resp.value))
  {
    var (resp, e1) := x.ask(e, SEND_DATA_TCP_CMD, [[socketNum], data], true, false);
    if resp.None? then (0, e1)
    else
      var sent := LE16(resp.value);
      if sent == 0 then (0, e1) else (sent, e1)
  }

  /** esp32_socket_available: the little-endian count, -1 on failure. */
  function SocketAvailable(x: Link, e: Env, socketNum: uint8): (r: (int, Env))
    ensures var (resp, e1) := x.ask(e, AVAIL_DATA_TCP_CMD, [[socketNum]], false, false);
      r.1 == e1 && -1 <= r.0 < 0x1_0000 && (r.0 == -1 <==> resp.None?) &&
      (resp.Some? ==> r.0 == LE16(resp.value))
  {
    var (resp, e1) := x.ask(e, AVAIL_DATA_TCP_CMD, [[socketNum]], false, false);
    if resp.None? then (-1, e1) else (LE16(resp.value) as int, e1)
  }

  /** esp32_socket_read, asking for `size` bytes low byte first and reading
      the reply with 16-bit lengths: the number of bytes received and the
      bytes copied into the caller's buffer. */
  function SocketRead(x: Link, e: Env, socketNum: uint8, size: uint16): (r: (int, seq<uint8>, Env))
    ensures var (resp, e1) := x.ask(e, GET_DATABUF_TCP_CMD, [[socketNum], SizeBytes(size)], true, true);
      r.2 == e1 && (r.0 == -1 <==> resp.None?) && (r.0 == -1 || r.0 == |r.1|) &&
      (resp.Some? && |resp.value| < 0x1_0000 ==> r.1 == resp.value)
  {
    var (resp, e1) := x.ask(e, GET_DATABUF_TCP_CMD, [[socketNum], SizeBytes(size)], true, true);
    if resp.None? then (-1, [], e1)
    else
      var p := resp.value;
      var n: uint16 := |p| % 0x1_0000;
      (n as int, p[..n], e1)
  }

  /** esp32_socket_close: 0 exactly when the co-processor acknowledges. */
  function SocketClose(x: Link, e: Env, socketNum: uint8): (r: (int, Env))
    ensures var (resp, e1) := x.ask(e, STOP_CLIENT_TCP_CMD, [[socketNum]], false, false);
      r.1 == e1 && (r.0 == 0 <==> Acked(resp)) && (r.0 == 0 || r.0 == -1)
  {
    var (resp, e1) := x.ask(e, STOP_CLIENT_TCP_CMD, [[socketNum]], false, false);
    (Ack(resp), e1)
  }

  // ---------------------------------------------------------------------
  // The connect loop, poll by poll
  // ---------------------------------------------------------------------

  /** Polls that keep polling are passed over: after n of them the loop
      goes on from poll n + 1 with k - n polls left. */
  lemma {:induction false} ConnectSkipsPolls(x: Link, e: Env, n: nat, k: nat)
    requires n <= k
    requires forall i | 0 <= i < n :: KeepsPolling(Status(x, ConnectPollEnv(x, e, i)).0)
    ensures ConnectPolls(x, e, k) == ConnectPolls(x, ConnectPollEnv(x, e, n), k - n)
    decreases n
  {
    if n > 0 {
      var e1 := Delay(Status(x, e).1, 1000);
      assert KeepsPolling(Status(x, ConnectPollEnv(x, e, 0)).0);
      forall i | 0 <= i < n - 1
        ensures KeepsPolling(Status(x, ConnectPollEnv(x, e1, i)).0)
      {
        assert ConnectPollEnv(x, e, i + 1) == ConnectPollEnv(x, e1, i);
      }
      ConnectSkipsPolls(x, e1, n - 1, k - 1);
    }
  }

  /** With a prompt co-processor on an instant link, poll n + 1 comes after
      exactly n waits of 1000 ms. */
  lemma {:induction false} ConnectPollTime(x: Link, e: Env, n: nat)
    requires Instant(x) && Prompt(e)
    ensures ConnectPollEnv(x, e, n).now == e.now + 1000 * n
    ensures Prompt(ConnectPollEnv(x, e, n))
    decreases n
  {
    if n > 0 {
      ConnectPollTime(x, Delay(Status(x, e).1, 1000), n - 1);
    }
  }

  /** When the first WL_CONNECTED comes on poll n + 1 of k, esp32_connect's
      loop returns 0 with the environment that poll left, after exactly n
      waits of 1000 ms. */
  lemma ConnectAfterDelays(x: Link, e: Env, n: nat, k: nat)
    requires n < k
    requires forall i | 0 <= i < n :: KeepsPolling(Status(x, ConnectPollEnv(x, e, i)).0)
    requires Status(x, ConnectPollEnv(x, e, n)).0 == WL_CONNECTED as int
    ensures ConnectPolls(x, e, k) == (Some(0), Status(x, ConnectPollEnv(x, e, n)).1)
    ensures Instant(x) && Prompt(e) ==> ConnectPollEnv(x, e, n).now == e.now + 1000 * n
  {
    ConnectSkipsPolls(x, e, n, k);
    if Instant(x) && Prompt(e) {
      ConnectPollTime(x, e, n);
    }
  }

  /** When the first WL_CONNECT_FAILED comes on poll n + 1 of k, the loop
      returns -2 with the environment that poll left. */
  lemma ConnectFailsAfterDelays(x: Link, e: Env, n: nat, k: nat)
    requires n < k
    requires forall i | 0 <= i < n :: KeepsPolling(Status(x, ConnectPollEnv(x, e, i)).0)
    requires Status(x, ConnectPollEnv(x, e, n)).0 == WL_CONNECT_FAILED as int
    ensures ConnectPolls(x, e, k) == (Some(-2), Status(x, ConnectPollEnv(x, e, n)).1)
  {
    ConnectSkipsPolls(x, e, n, k);
  }

  /** When poll n + 1 of k reads -1 (WL_NO_SHIELD, or no reply at all),
      the loop resets the module and returns -1. */
  lemma ConnectResetsAfterDelays(x: Link, e: Env, n: nat, k: nat)
    requires n < k
    requires forall i | 0 <= i < n :: KeepsPolling(Status(x, ConnectPollEnv(x, e, i)).0)
    requires Status(x, ConnectPollEnv(x, e, n)).0 == -1
    ensures ConnectPolls(x, e, k) == (Some(-1), x.reset(Status(x, ConnectPollEnv(x, e, n)).1))
  {
    ConnectSkipsPolls(x, e, n, k);
  }

  /** The loop runs out exactly when every one of its polls kept polling. */
  lemma {:induction false} ConnectPollsExhausted(x: Link, e: Env, k: nat)
    ensures ConnectPolls(x, e, k).0.None? ==>
      forall i | 0 <= i < k :: KeepsPolling(Status(x, ConnectPollEnv(x, e, i)).0)
    ensures (forall i | 0 <= i < k :: KeepsPolling(Status(x, ConnectPollEnv(x, e, i)).0)) ==>
      ConnectPolls(x, e, k).0.None?
    decreases k
  {
    if k > 0 {
      var e1 := Delay(Status(x, e).1, 1000);
      ConnectPollsExhausted(x, e1, k - 1);
      if forall i | 0 <= i < k :: KeepsPolling(Status(x, ConnectPollEnv(x, e, i)).0) {
        assert KeepsPolling(Status(x, ConnectPollEnv(x, e, 0)).0);
        forall i | 0 <= i < k - 1
          ensures KeepsPolling(Status(x, ConnectPollEnv(x, e1, i)).0)
        {
          assert ConnectPollEnv(x, e, i + 1) == ConnectPollEnv(x, e1, i);
        }
      } else if KeepsPolling(Status(x, e).0) {
        var j :| 0 <= j < k && !KeepsPolling(Status(x, ConnectPollEnv(x, e, j)).0);
        assert j > 0;
        assert ConnectPollEnv(x, e, j) == ConnectPollEnv(x, e1, j - 1);
      } else {
        assert ConnectPollEnv(x, e, 0) == e;
      }
    }
  }

  /** Once every poll has kept polling, the final status alone decides:
      -3, -4 or -5, and -5 even when that status is WL_CONNECTED. */
  lemma ConnectFinalCheck(x: Link, e: Env, cfg: Config)
    requires forall i | 0 <= i < cfg.retryTimes ::
      KeepsPolling(Status(x, ConnectPollEnv(x, Join(x, e, cfg), i)).0)
    ensures var last := ConnectPollEnv(x, Join(x, e, cfg), cfg.retryTimes);
      Connect(x, e, cfg) == (FinalConnectCode(Status(x, last).0), Status(x, last).1) &&
      (Status(x, last).0 == WL_CONNECTED as int ==> Connect(x, e, cfg).0 == -5)
  {
    ConnectPollsExhausted(x, Join(x, e, cfg), cfg.retryTimes);
  }

  /** Through the wire, esp32_status returns the reply byte as a signed
      value, having written one status request. */
  lemma StatusOfReply(e: Env, spi: bool, rstNum: uint8, b: uint8, rest: seq<uint8>)
    requires Prompt(e)
    requires e.rx == Reply(spi, GET_CONN_STATUS_CMD, [b], false) + rest
    ensures Status(Wire(spi, rstNum), e)
      == (Int8(b), e.(rx := rest, tx := e.tx + [Encode(GET_CONN_STATUS_CMD, [], false)]))
  {
    SmallFrames(e, GET_CONN_STATUS_CMD, 0);
    AskScripted(e, spi, GET_CONN_STATUS_CMD, [], false, [b], false, rest);
  }

  /** Through the wire, WL_NO_SHIELD on poll n + 1 of k, after n polls that
      kept polling, makes esp32_connect reset the module and return -1; a
      wired reset pin is pulsed once more than before that poll. */
  lemma ConnectNoShieldResets(e: Env, spi: bool, rstNum: uint8, n: nat, k: nat, rest: seq<uint8>)
    requires Prompt(e) && n < k
    requires forall i | 0 <= i < n ::
      KeepsPolling(Status(Wire(spi, rstNum), ConnectPollEnv(Wire(spi, rstNum), e, i)).0)
    requires ConnectPollEnv(Wire(spi, rstNum), e, n).rx
      == Reply(spi, GET_CONN_STATUS_CMD, [WL_NO_SHIELD], false) + rest
    ensures var p := ConnectPollEnv(Wire(spi, rstNum), e, n);
      var e1 := p.(rx := rest, tx := p.tx + [Encode(GET_CONN_STATUS_CMD, [], false)]);
      p.now == e.now + 1000 * n &&
      ConnectPolls(Wire(spi, rstNum), e, k) == (Some(-1), Reset(e1, spi, rstNum)) &&
      (HasResetPin(rstNum) ==> ConnectPolls(Wire(spi, rstNum), e, k).1.resets == p.resets + 1)
  {
    var x := Wire(spi, rstNum);
    var p := ConnectPollEnv(x, e, n);
    WireKeepsTime(spi, rstNum);
    ConnectPollTime(x, e, n);
    StatusOfReply(p, spi, rstNum, WL_NO_SHIELD, rest);
    ConnectResetsAfterDelays(x, e, n, k);
  }

  /** Through the wire, a prompt co-processor that sends nothing makes
      esp32_status -2, having written one status request. */
  lemma StatusSilent(e: Env, spi: bool, rstNum: uint8)
    requires Prompt(e) && e.rx == []
    ensures Status(Wire(spi, rstNum), e) == (-2, e.(tx := e.tx + [Encode(GET_CONN_STATUS_CMD, [], false)]))
  {
    SmallFrames(e, GET_CONN_STATUS_CMD, 0);
    AskSilent(e, spi, GET_CONN_STATUS_CMD, [], false, false);
  }

  /** `n` copies of the request frame `f`. */
  function Repeat(f: seq<uint8>, n: nat): (r: seq<seq<uint8>>)
    ensures |r| == n && forall i | 0 <= i < n :: r[i] == f
  {
    if n == 0 then [] else [f] + Repeat(f, n - 1)
  }

  /** Through the wire, a silent co-processor answers every poll with -2:
      poll n + 1 comes after n status requests and n seconds. */
  lemma {:induction false} SilentConnectPolls(e: Env, spi: bool, rstNum: uint8, n: nat)
    requires Prompt(e) && e.rx == []
    ensures ConnectPollEnv(Wire(spi, rstNum), e, n)
      == e.(now := e.now + 1000 * n, tx := e.tx + Repeat(Encode(GET_CONN_STATUS_CMD, [], false), n))
    decreases n
  {
    if n > 0 {
      var f := Encode(GET_CONN_STATUS_CMD, [], false);
      var e1 := e.(now := e.now + 1000, tx := e.tx + [f]);
      SilentPoll(e, spi, rstNum);
      SilentConnectPolls(e1, spi, rstNum, n - 1);
      RepeatCons(e.tx, f, n);
    }
  }

  /** One poll and delay against a silent, prompt co-processor. */
  lemma SilentPoll(e: Env, spi: bool, rstNum: uint8)
    requires Prompt(e) && e.rx == []
    ensures Delay(Status(Wire(spi, rstNum), e).1, 1000)
      == e.(now := e.now + 1000, tx := e.tx + [Encode(GET_CONN_STATUS_CMD, [], false)])
  {
    StatusSilent(e, spi, rstNum);
  }

  lemma RepeatCons(t: seq<seq<uint8>>, f: seq<uint8>, n: nat)
    requires n > 0
    ensures t + [f] + Repeat(f, n - 1) == t + Repeat(f, n)
  {
  }

  /** Through the wire, a silent co-processor never sends esp32_connect down
      its reset path: it returns -5 after retry_times seconds and resets
      nothing. */
  lemma ConnectSilentModule(e: Env, spi: bool, rstNum: uint8, cfg: Config)
    requires Prompt(e) && e.rx == []
    ensures Connect(Wire(spi, rstNum), e, cfg).0 == -5
    ensures Connect(Wire(spi, rstNum), e, cfg).1.resets == e.resets
    ensures Connect(Wire(spi, rstNum), e, cfg).1.now == e.now + 1000 * cfg.retryTimes
  {
    var x := Wire(spi, rstNum);
    var e0 := Join(x, e, cfg);
    assert e0 == e.(tx := e0.tx) by {
      if cfg.pass.Some? {
        AskSilent(e, spi, SET_PASSPHRASE_CMD, [CStr(cfg.ssid), CStr(cfg.pass.value)], false, false);
      } else {
        AskSilent(e, spi, SET_NET_CMD, [CStr(cfg.ssid)], false, false);
      }
    }
    forall i | 0 <= i < cfg.retryTimes
      ensures KeepsPolling(Status(x, ConnectPollEnv(x, e0, i)).0)
    {
      SilentConnectPolls(e0, spi, rstNum, i);
      StatusSilent(ConnectPollEnv(x, e0, i), spi, rstNum);
    }
    ConnectFinalCheck(x, e, cfg);
    var last := ConnectPollEnv(x, e0, cfg.retryTimes);
    SilentConnectPolls(e0, spi, rstNum, cfg.retryTimes);
    StatusSilent(last, spi, rstNum);
  }

  // ---------------------------------------------------------------------
  // The establish-poll of socket_connect, poll by poll
  // ---------------------------------------------------------------------

  /** Polls inside the window that keep polling are passed over. */
  lemma {:induction false} SocketSkipsPolls(x: Link, e: Env, socketNum: uint8, start: nat, n: nat)
    requires MonotoneClock(x)
    requires forall i | 0 <= i < n ::
      SocketPollEnv(x, e, socketNum, i).now - start < CONNECT_WINDOW &&
      StillOpening(SocketStatus(x, SocketPollEnv(x, e, socketNum, i), socketNum).0)
    ensures SocketConnectPolls(x, e, socketNum, start)
      == SocketConnectPolls(x, SocketPollEnv(x, e, socketNum, n), socketNum, start)
    decreases n
  {
    if n > 0 {
      var e1 := Delay(SocketStatus(x, e, socketNum).1, CONNECT_POLL_INTERVAL);
      assert SocketPollEnv(x, e, socketNum, 0) == e;
      forall i | 0 <= i < n - 1
        ensures SocketPollEnv(x, e1, socketNum, i).now - start < CONNECT_WINDOW
        ensures StillOpening(SocketStatus(x, SocketPollEnv(x, e1, socketNum, i), socketNum).0)
      {
        assert SocketPollEnv(x, e, socketNum, i + 1) == SocketPollEnv(x, e1, socketNum, i);
      }
      SocketSkipsPolls(x, e1, socketNum, start, n - 1);
    }
  }

  /** With a prompt co-processor on an instant link, establish-poll n + 1
      comes after exactly n waits of 100 ms. */
  lemma {:induction false} SocketPollTime(x: Link, e: Env, socketNum: uint8, n: nat)
    requires Instant(x) && Prompt(e)
    ensures SocketPollEnv(x, e, socketNum, n).now == e.now + CONNECT_POLL_INTERVAL * n
    ensures Prompt(SocketPollEnv(x, e, socketNum, n))
    decreases n
  {
    if n > 0 {
      SocketPollTime(x, Delay(SocketStatus(x, e, socketNum).1, CONNECT_POLL_INTERVAL), socketNum, n - 1);
    }
  }

  /** ESTABLISHED on poll n + 1 inside the window: the poll returns 0 with
      the environment that poll left. */
  lemma SocketConnectEstablishes(x: Link, e: Env, socketNum: uint8, start: nat, n: nat)
    requires MonotoneClock(x)
    requires forall i | 0 <= i < n ::
      SocketPollEnv(x, e, socketNum, i).now - start < CONNECT_WINDOW &&
      StillOpening(SocketStatus(x, SocketPollEnv(x, e, socketNum, i), socketNum).0)
    requires SocketPollEnv(x, e, socketNum, n).now - start < CONNECT_WINDOW
    requires SocketStatus(x, SocketPollEnv(x, e, socketNum, n), socketNum).0 == SOCKET_ESTABLISHED
    ensures SocketConnectPolls(x, e, socketNum, start)
      == (0, SocketStatus(x, SocketPollEnv(x, e, socketNum, n), socketNum).1)
  {
    SocketSkipsPolls(x, e, socketNum, start, n);
  }

  /** SOCKET_STATUS_ERROR (0xFF) on poll n + 1 inside the window: the poll
      returns -2 with the environment that poll left. */
  lemma SocketConnectFails(x: Link, e: Env, socketNum: uint8, start: nat, n: nat)
    requires MonotoneClock(x)
    requires forall i | 0 <= i < n ::
      SocketPollEnv(x, e, socketNum, i).now - start < CONNECT_WINDOW &&
      StillOpening(SocketStatus(x, SocketPollEnv(x, e, socketNum, i), socketNum).0)
    requires SocketPollEnv(x, e, socketNum, n).now - start < CONNECT_WINDOW
    requires SocketStatus(x, SocketPollEnv(x, e, socketNum, n), socketNum).0 == SOCKET_STATUS_ERROR
    ensures SocketConnectPolls(x, e, socketNum, start)
      == (-2, SocketStatus(x, SocketPollEnv(x, e, socketNum, n), socketNum).1)
  {
    SocketSkipsPolls(x, e, socketNum, start, n);
  }

  /** Polls that keep opening until the window has passed end in -3, with
      nothing more sent after the last of them. */
  lemma SocketConnectWindowExpires(x: Link, e: Env, socketNum: uint8, start: nat, n: nat)
    requires MonotoneClock(x)
    requires forall i | 0 <= i < n ::
      SocketPollEnv(x, e, socketNum, i).now - start < CONNECT_WINDOW &&
      StillOpening(SocketStatus(x, SocketPollEnv(x, e, socketNum, i), socketNum).0)
    requires SocketPollEnv(x, e, socketNum, n).now - start >= CONNECT_WINDOW
    ensures SocketConnectPolls(x, e, socketNum, start) == (-3, SocketPollEnv(x, e, socketNum, n))
  {
    SocketSkipsPolls(x, e, socketNum, start, n);
  }

  /** On an instant link with a prompt co-processor that keeps opening, the
      establish-poll begun at the current time makes exactly thirty polls
      and gives up with -3 three seconds later. */
  lemma SocketConnectGivesUp(x: Link, e: Env, socketNum: uint8)
    requires MonotoneClock(x) && Instant(x) && Prompt(e)
    requires forall i | 0 <= i < 30 ::
      StillOpening(SocketStatus(x, SocketPollEnv(x, e, socketNum, i), socketNum).0)
    ensures SocketConnectPolls(x, e, socketNum, e.now) == (-3, SocketPollEnv(x, e, socketNum, 30))
    ensures SocketPollEnv(x, e, socketNum, 30).now == e.now + CONNECT_WINDOW
  {
    forall i | 0 <= i <= 30
      ensures SocketPollEnv(x, e, socketNum, i).now == e.now + CONNECT_POLL_INTERVAL * i
    {
      SocketPollTime(x, e, socketNum, i);
    }
    SocketConnectWindowExpires(x, e, socketNum, e.now, 30);
  }

  /** Through the wire, a silent co-processor aborts the establish-poll
      with -2 on its first poll. */
  lemma SocketConnectPollsSilent(e: Env, spi: bool, rstNum: uint8, socketNum: uint8, start: nat)
    requires Prompt(e) && e.rx == [] && e.now - start < CONNECT_WINDOW
    ensures MonotoneClock(Wire(spi, rstNum)) && SocketConnectPolls(Wire(spi, rstNum), e, socketNum, start).0 == -2
  {
    WireKeepsTime(spi, rstNum);
    AskSilent(e, spi, GET_CLIENT_STATE_TCP_CMD, [[socketNum]], false, false);
  }

  // ---------------------------------------------------------------------
  // Single operations through the wire
  // ---------------------------------------------------------------------

  /** A rejected lookup request returns -1 and never sends the fetch: only
      the request frame is written. */
  lemma HostLookupRejected(e: Env, spi: bool, rstNum: uint8, host: seq<uint8>, b: uint8, rest: seq<uint8>)
    requires Prompt(e) && b != 1
    requires e.rx == Reply(spi, REQ_HOST_BY_NAME_CMD, [b], false) + rest
    ensures GetHostByName(Wire(spi, rstNum), e, host)
      == (-1, [], e.(rx := rest, tx := e.tx + Sent(e, REQ_HOST_BY_NAME_CMD, [CStr(host)], false)))
  {
    AskScripted(e, spi, REQ_HOST_BY_NAME_CMD, [CStr(host)], false, [b], false, rest);
  }

  /** An address destination fits the scratch buffer: the request is
      exactly these sixteen bytes. */
  lemma SocketOpenAddressFrame(dest: seq<uint8>, port: uint16, socketNum: uint8, mode: uint8)
    requires |dest| >= 4
    ensures Encode(START_CLIENT_TCP_CMD, OpenParams(dest, 0, port, socketNum, mode), false)
      == [START_CMD, START_CLIENT_TCP_CMD, 4, 4, dest[0], dest[1], dest[2], dest[3],
          2, port / 0x100, port % 0x100, 1, socketNum, 1, mode, END_CMD]
  {
    var ps := OpenParams(dest, 0, port, socketNum, mode);
    assert ps == [dest[..4], [port / 0x100, port % 0x100], [socketNum], [mode]];
    CommandsBelowReplyFlag(START_CLIENT_TCP_CMD);
    var t1: seq<Param> := ps[1..];
    var t2: seq<Param> := t1[1..];
    var t3: seq<Param> := t2[1..];
    assert t3[1..] == [];
    assert EncodeParams(t3, false) == [1, mode];
    assert EncodeParams(t2, false) == [1, socketNum, 1, mode];
    assert EncodeParams(t1, false) == [2, port / 0x100, port % 0x100, 1, socketNum, 1, mode];
    assert dest[..4] == [dest[0], dest[1], dest[2], dest[3]];
    assert EncodeParams(ps, false) == [4, dest[0], dest[1], dest[2], dest[3], 2, port / 0x100, port % 0x100,
                                       1, socketNum, 1, mode];
    assert FrameLength(ps, false) == 16;
  }

  /** Through the wire, socket_read returns (and copies) exactly the bytes
      of a reply read with 16-bit lengths. */
  lemma SocketReadOfReply(e: Env, spi: bool, rstNum: uint8, socketNum: uint8, size: uint16,
                          data: seq<uint8>, rest: seq<uint8>)
    requires Prompt(e) && |data| < 0x1_0000
    requires e.rx == Reply(spi, GET_DATABUF_TCP_CMD, data, true) + rest
    ensures SocketRead(Wire(spi, rstNum), e, socketNum, size)
      == (|data|, data, e.(rx := rest, tx := e.tx + Sent(e, GET_DATABUF_TCP_CMD, [[socketNum], SizeBytes(size)], true)))
  {
    AskScripted(e, spi, GET_DATABUF_TCP_CMD, [[socketNum], SizeBytes(size)], true, data, true, rest);
  }

  /** Through the wire, socket_write returns the two reply bytes read low
      byte first. */
  lemma SocketWriteOfReply(e: Env, spi: bool, rstNum: uint8, socketNum: uint8, data: seq<uint8>,
                           lo: uint8, hi: uint8, rest: seq<uint8>)
    requires Prompt(e)
    requires e.rx == Reply(spi, SEND_DATA_TCP_CMD, [lo, hi], false) + rest
    ensures SocketWrite(Wire(spi, rstNum), e, socketNum, data).0 == (lo as int) + 0x100 * (hi as int)
  {
    AskScripted(e, spi, SEND_DATA_TCP_CMD, [[socketNum], data], true, [lo, hi], false, rest);
  }

  /** As written, set_debug, set_certificate and set_private_key crash on a
      co-processor that does not answer. */
  lemma FireAndForgetAsWrittenCrashes(e: Env, spi: bool, rstNum: uint8, cmd: uint8, ps: seq<Param>, sendWide: bool)
    requires Prompt(e) && e.rx == []
    ensures FireAndForgetAsWritten(Wire(spi, rstNum), e, cmd, ps, sendWide) == NullDereference
  {
    AskSilent(e, spi, cmd, ps, sendWide, false);
  }

  /** The corrected calls return on that co-processor too, having written
      the request, and agree with the code as written whenever that
      returns. */
  lemma FireAndForgetCorrected(e: Env, spi: bool, rstNum: uint8, cmd: uint8, ps: seq<Param>, sendWide: bool)
    ensures var x := Wire(spi, rstNum);
      FireAndForgetAsWritten(x, e, cmd, ps, sendWide).Returned? ==>
        FireAndForgetAsWritten(x, e, cmd, ps, sendWide).env == FireAndForget(x, e, cmd, ps, sendWide)
    ensures Prompt(e) && e.rx == [] ==>
      FireAndForget(Wire(spi, rstNum), e, cmd, ps, sendWide) == e.(tx := e.tx + Sent(e, cmd, ps, sendWide))
  {
    if Prompt(e) && e.rx == [] {
      AskSilent(e, spi, cmd, ps, sendWide, false);
    }
  }
}
