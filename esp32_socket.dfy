/**
 * The driver itself: the ESP32 handle with the driver's globals (the pin
 * numbers, the global `time`, the 256-byte scratch buffer and its flag) and
 * the environment it talks to. Every method does what the C function of the
 * same name does, step by step, except where README's "Left out" and
 * "Findings" sections say otherwise, and is proved to compute exactly what
 * the functions of Esp32Link and Esp32Session specify.
 */
module Esp32Socket {
  import opened Wrappers
  import opened Esp32Defs
  import opened Esp32Codec
  import opened Esp32Link
  import opened Esp32Frame
  import S = Esp32Session

  /** The ready line of one chip select, `elapsed` ms into a wait: low once
      the module is ready, high once it is active. */
  predicate ReadyLineLow(h: Handshake, elapsed: nat) {
    elapsed >= h.ready
  }

  predicate ActiveLineHigh(h: Handshake, elapsed: nat) {
    elapsed >= h.active
  }

  /** Reading one parameter and then the rest is reading them all, so the
      parameters read so far grow by the one just read. */
  lemma ReadParamsGrow(s: seq<uint8>, n: nat, wide: bool, done: seq<Param>, p: Param, t: seq<uint8>)
    requires n > 0 && (p, t) == ReadParam(s, wide)
    ensures (done + ReadParams(s, n, wide).0, ReadParams(s, n, wide).1)
      == ((done + [p]) + ReadParams(t, n - 1, wide).0, ReadParams(t, n - 1, wide).1)
  {
    var rest := ReadParams(t, n - 1, wide).0;
    ReadParamsStep(s, n, wide, p, t);
    assert done + ([p] + rest) == (done + [p]) + rest;
  }

  /** A length cut to its low bits, as a narrowing C cast does, is still
      a valid prefix length. */
  lemma LowBitsFit(n: nat, m: nat)
    requires 0 < m
    ensures n % m <= n
  {
  }

  class Esp32 {
    /** ESP32_Handle_t */
    var init: S.Config
    var socketNum: uint8
    var connection: uint8
    var status: uint8
    var hasSpi: bool
    var hasI2c: bool

    /** The driver's globals: the pins, `time` as its four bytes in memory
        order, the scratch buffer and which buffer the last send used. */
    var csNum: uint8
    var rstNum: uint8
    var rdyNum: uint8
    var time: seq<uint8>
    const lcSendBuf: array<uint8>
    var lcBufFlag: bool

    /** The co-processor, the bus and the clock. */
    var env: Env

    /** The link this handle talks over, as the operations of Esp32Session
        see it. */
    ghost var link: S.Link

    /** The link is the wire of this handle's bus and reset pin. */
    ghost predicate Wired()
      reads this`link, this`hasSpi, this`rstNum
    {
      S.Implements(link, hasSpi, rstNum)
    }

    /** Between calls the link is this handle's wire and the scratch buffer
        is entirely zero. */
    ghost predicate Valid()
      reads this, lcSendBuf
    {
      Wired() &&
      lcSendBuf.Length == LC_BUF_LEN &&
      lcSendBuf[..] == Zeros(LC_BUF_LEN) &&
      |time| == 4
    }

    /** The handle and the globals as the C runtime leaves them: all zero. */
    constructor(env0: Env)
      ensures Valid() && fresh(lcSendBuf)
      ensures init == S.Config([], None, 0, 0, 0, 0, false, false)
      ensures socketNum == 0 && connection == 0 && status == 0 && !hasSpi && !hasI2c
      ensures csNum == 0 && rstNum == 0 && rdyNum == 0 && time == [0, 0, 0, 0] && !lcBufFlag
      ensures env == env0
    {
      init := S.Config([], None, 0, 0, 0, 0, false, false);
      socketNum := 0;
      connection := 0;
      status := 0;
      hasSpi := false;
      hasI2c := false;
      csNum := 0;
      rstNum := 0;
      rdyNum := 0;
      time := [0, 0, 0, 0];
      lcSendBuf := new uint8[LC_BUF_LEN](_ => 0);
      lcBufFlag := false;
      env := env0;
      link := S.Wire(false, 0);
      S.WireImplements(false, 0);
    }

    // -------------------------------------------------------------------
    // Chip select
    // -------------------------------------------------------------------

    /** esp32_wait_for_ready: poll the ready line every millisecond for up
        to 10 s; 0 once it reads low. */
    method WaitForReady(h: Handshake) returns (r: int)
      modifies this`env
      ensures !hasSpi ==> r == 0 && env == old(env)
      ensures hasSpi ==> (r == 0 <==> ReadyWait(h).1) && (r == 0 || r == -1) &&
                         env == old(env).(now := old(env).now + ReadyWait(h).0)
    {
      if !hasSpi {
        return 0;
      }
      var tm := env.now;
      while env.now - tm < READY_WINDOW
        invariant tm <= env.now <= tm + READY_WINDOW && env.now - tm <= h.ready
        invariant env == old(env).(now := env.now)
        decreases tm + READY_WINDOW - env.now
      {
        if ReadyLineLow(h, env.now - tm) {
          return 0;
        }
        env := env.(now := env.now + 1);
      }
      return -1;
    }

    /** esp32_wait_for_active: poll the ready line every millisecond for up
        to 1 s; 0 once it reads high. */
    method WaitForActive(h: Handshake) returns (r: int)
      modifies this`env
      ensures !hasSpi ==> r == 0 && env == old(env)
      ensures hasSpi ==> (r == 0 <==> ActiveWait(h).1) && (r == 0 || r == -1) &&
                         env == old(env).(now := old(env).now + ActiveWait(h).0)
    {
      if !hasSpi {
        return 0;
      }
      var tm := env.now;
      while env.now - tm < ACTIVE_WINDOW
        invariant tm <= env.now <= tm + ACTIVE_WINDOW && env.now - tm <= h.active
        invariant env == old(env).(now := env.now)
        decreases tm + ACTIVE_WINDOW - env.now
      {
        if ActiveLineHigh(h, env.now - tm) {
          return 0;
        }
        env := env.(now := env.now + 1);
      }
      return -1;
    }

    /** The chip select shared by esp32_send_command and
        esp32_wait_response_cmd: wait for ready (the result is ignored),
        lower CS, wait for active and test for the timeout. */
    method SelectModule() returns (ok: bool)
      modifies this`env
      ensures (ok, env) == Select(old(env), hasSpi)
    {
      var h := Handshake(0, 0);
      if hasSpi {
        var (h1, rest) := NextHandshake(env);
        h := h1;
        env := env.(handshakes := rest);
      }
      var _ := WaitForReady(h);
      var tm := env.now;
      var _ := WaitForActive(h);
      ok := !(env.now - tm >= ACTIVE_WINDOW);
    }

    // -------------------------------------------------------------------
    // Sending
    // -------------------------------------------------------------------

    /** esp32_send_command: build the frame in the scratch buffer when it
        fits, else in a fresh buffer, select, write it, and leave the
        scratch buffer zero again on every path. */
    method SendCommand(cmd: uint8, ps: seq<Param>, wide: bool) returns (r: int)
      requires Valid()
      modifies this`env, this`lcBufFlag, lcSendBuf
      ensures Valid()
      ensures (r, env) == Send(old(env), hasSpi, cmd, ps, wide)
      ensures lcBufFlag <==> FrameLength(ps, wide) <= LC_BUF_LEN
    {
      var packetLen := PacketLength(ps, wide);
      var sendbuf: array<uint8>;
      if packetLen > LC_BUF_LEN {
        lcBufFlag := false;
        if packetLen > env.heapFree {
          return -1;
        }
        sendbuf := new uint8[packetLen](_ => 0);
      } else {
        sendbuf := lcSendBuf;
        lcBufFlag := true;
      }
      WriteFrame(sendbuf, cmd, ps, wide);
      assert sendbuf[..packetLen] == sendbuf[..][..packetLen];
      assert sendbuf[packetLen..] == sendbuf[..][packetLen..];
      var ok := SelectModule();
      if ok {
        env := env.(tx := env.tx + [sendbuf[..packetLen]]);
        r := 0;
      } else {
        r := -1;
      }
      if lcBufFlag {
        ClearFront(sendbuf, packetLen);
      }
    }

    /** memset(sendbuf, 0, packet_len) on a buffer that is zero past the
        frame leaves it entirely zero. */
    static method ClearFront(buf: array<uint8>, n: nat)
      requires n <= buf.Length
      requires buf[n..] == Zeros(buf.Length - n)
      modifies buf
      ensures buf[..] == Zeros(buf.Length)
    {
      ghost var written := buf[..];
      forall k | 0 <= k < n {
        buf[k] := 0;
      }
      forall k | 0 <= k < buf.Length
        ensures buf[k] == 0
      {
        if k >= n {
          assert buf[k] == written[n..][k - n];
        }
      }
    }

    // -------------------------------------------------------------------
    // Receiving
    // -------------------------------------------------------------------

    /** esp32_read_byte */
    method ReadByte() returns (b: uint8)
      modifies this`env
      ensures (b, env.rx) == Next(old(env).rx)
      ensures env == old(env).(rx := env.rx)
    {
      var (x, rest) := Next(env.rx);
      env := env.(rx := rest);
      b := x;
    }

    /** esp32_read_bytes */
    method ReadBytes(len: nat) returns (bs: seq<uint8>)
      modifies this`env
      ensures (bs, env.rx) == Take(old(env).rx, len)
      ensures env == old(env).(rx := env.rx)
    {
      var (x, rest) := Take(env.rx, len);
      env := env.(rx := rest);
      bs := x;
    }

    /** esp32_wait_spc_char: read until `want`, failing on ERR_CMD or when
        the window closes. */
    method WaitSpcChar(want: uint8) returns (r: int)
      modifies this`env
      ensures (r == 0, env.rx) == WaitFor(old(env).rx, want, SPC_CHAR_WINDOW)
      ensures r == 0 || r == -1
      ensures env == old(env).(rx := env.rx)
    {
      var count := 0;
      while count < SPC_CHAR_WINDOW
        invariant 0 <= count <= SPC_CHAR_WINDOW
        invariant WaitFor(old(env).rx, want, SPC_CHAR_WINDOW) == WaitFor(env.rx, want, SPC_CHAR_WINDOW - count)
        invariant env == old(env).(rx := env.rx)
      {
        WaitForStep(env.rx, want, SPC_CHAR_WINDOW - count);
        var b := ReadByte();
        count := count + 1;
        if b == ERR_CMD {
          return -1;
        } else if b == want {
          return 0;
        }
      }
      return -1;
    }

    /** esp32_check_data: 0 when the next byte is `want`, else -1 as a
        uint8_t. */
    method CheckData(want: uint8) returns (r: uint8)
      modifies this`env
      ensures r == 0 <==> Next(old(env).rx).0 == want
      ensures r == 0 || r == 0xFF
      ensures env == old(env).(rx := Next(old(env).rx).1)
    {
      var b := ReadByte();
      if b != want {
        return 0xFF;
      }
      return 0;
    }

    /** One parameter of esp32_wait_response_cmd: a length of one byte, or
        two high byte first, then that many bytes. */
    method ReadOneParam(wide: bool) returns (p: Param)
      modifies this`env
      ensures (p, env.rx) == ReadParam(old(env).rx, wide)
      ensures env == old(env).(rx := env.rx)
    {
      var len := ReadByte();
      var paramLen: nat := len;
      if wide {
        var lo := ReadByte();
        paramLen := paramLen * 0x100 + lo;
      }
      p := ReadBytes(paramLen);
    }

    /** The parameter loop of esp32_wait_response_cmd: `n` parameters in
        order. */
    method ReadParamList(n: nat, wide: bool) returns (ps: seq<Param>)
      modifies this`env
      ensures (ps, env.rx) == ReadParams(old(env).rx, n, wide)
      ensures env == old(env).(rx := env.rx)
    {
      ps := [];
      ghost var all := ReadParams(env.rx, n, wide);
      assert [] + all.0 == all.0;
      var i := 0;
      while i < n
        invariant i <= n
        invariant env == old(env).(rx := env.rx)
        invariant all == (ps + ReadParams(env.rx, n - i, wide).0, ReadParams(env.rx, n - i, wide).1)
      {
        ghost var before := env.rx;
        var p := ReadOneParam(wide);
        ReadParamsGrow(before, n - i, wide, ps, p, env.rx);
        ps := ps + [p];
        i := i + 1;
      }
      assert ps + [] == ps;
    }

    /** esp32_wait_response_cmd: select, synchronise on START (after DUMMY
        over I2C), check the opcode and the count, read the parameters and
        check END. */
    method WaitResponseCmd(cmd: uint8, numResponses: Option<nat>, wide: bool) returns (r: Option<seq<Param>>)
      modifies this`env
      ensures (r, env) == Receive(old(env), hasSpi, cmd, numResponses, wide)
    {
      var ok := SelectModule();
      if !ok {
        return None;
      }
      ok := SyncStart();
      if !ok {
        return None;
      }
      r := ReadAfterStart(cmd, numResponses, wide);
    }

    /** The first half of esp32_wait_response_cmd after chip select: up to
        and including START. */
    method SyncStart() returns (ok: bool)
      modifies this`env
      ensures (ok, env.rx) == SyncToStart(old(env).rx, !hasSpi)
      ensures env == old(env).(rx := env.rx)
    {
      if !hasSpi {
        var c := WaitSpcChar(DUMMY_CMD);
        if c != 0 {
          return false;
        }
      }
      var c := WaitSpcChar(START_CMD);
      ok := c == 0;
    }

    /** The second half: the opcode, the count, the parameters and END. */
    method ReadAfterStart(cmd: uint8, numResponses: Option<nat>, wide: bool) returns (r: Option<seq<Param>>)
      modifies this`env
      ensures (r, env.rx) == ParseAfterStart(old(env).rx, cmd, numResponses, wide)
      ensures env == old(env).(rx := env.rx)
    {
      var d := CheckData(SetReplyFlag(cmd));
      if d != 0 {
        return None;
      }
      ghost var s1 := env.rx;
      var n: nat;
      if numResponses.Some? {
        d := CheckData(numResponses.value % 0x100);
        if d != 0 {
          return None;
        }
        n := numResponses.value;
      } else {
        n := ReadByte();
      }
      assert ReadCount(s1, numResponses) == (Some(n), env.rx);
      var ps := ReadParamList(n, wide);
      d := CheckData(END_CMD);
      if d != 0 {
        return None;
      }
      r := Some(ps);
    }

    /** esp32_send_command_get_response: send, ignore the result, and await
        `numResp` parameters, one when none is given. */
    method SendCommandGetResponse(cmd: uint8, ps: seq<Param>, numResp: Option<nat>, sendWide: bool, recvWide: bool)
      returns (r: Option<seq<Param>>)
      requires Valid()
      modifies this`env, this`lcBufFlag, lcSendBuf
      ensures Valid()
      ensures (r, env) == Exchange(old(env), hasSpi, cmd, ps, numResp, sendWide, recvWide)
    {
      var respNum: nat := if numResp.None? then 1 else numResp.value;
      var _ := SendCommand(cmd, ps, sendWide);
      r := WaitResponseCmd(cmd, Some(respNum), recvWide);
    }

    /** esp32_reset: pulse a wired reset pin, else send SOFT_RESET_CMD. */
    method Reset()
      requires Valid()
      modifies this`env, this`lcBufFlag, lcSendBuf
      ensures Valid()
      ensures env == Esp32Link.Reset(old(env), hasSpi, rstNum)
    {
      if Int8(rstNum) > 0 {
        env := env.(now := env.now + HARD_RESET_LOW);
        env := env.(now := env.now + HARD_RESET_SETTLE, resets := env.resets + 1);
      } else {
        var _ := SendCommand(SOFT_RESET_CMD, [], false);
        env := env.(now := env.now + SOFT_RESET_WAIT);
      }
    }

    // -------------------------------------------------------------------
    // Commands
    // -------------------------------------------------------------------

    /** esp32_send_command_get_response with no reply count, and the first
        reply parameter, as every command below uses it. */
    method AskOne(cmd: uint8, ps: seq<Param>, sendWide: bool, recvWide: bool) returns (resp: Option<Param>)
      requires Valid()
      modifies this`env, this`lcBufFlag, lcSendBuf
      ensures Valid()
      ensures (resp, env) == link.ask(old(env), cmd, ps, sendWide, recvWide)
    {
      ghost var wire := S.Ask(env, hasSpi, cmd, ps, sendWide, recvWide);
      var r := SendCommandGetResponse(cmd, ps, None, sendWide, recvWide);
      if r.None? {
        return None;
      }
      resp := Some(r.value[0]);
    }

    /** esp32_firmware_version: the version string, NUL-terminated. */
    method FirmwareVersion() returns (r: S.Er, version: seq<uint8>)
      requires Valid()
      modifies this`env, this`lcBufFlag, lcSendBuf
      ensures Valid()
      ensures (r, version, env) == S.FirmwareVersion(link, old(env))
    {
      var resp := AskOne(GET_FW_VERSION_CMD, [], false, false);
      if resp.None? {
        return S.ESys, [];
      }
      var retLen := |resp.value| % 0x100;
      LowBitsFit(|resp.value|, 0x100);
      version := resp.value[..retLen] + [0];
      r := S.EOk;
    }

    /** esp32_set_debug, with the reply freed only when there is one. */
    method SetDebug(debug: uint8)
      requires Valid()
      modifies this`env, this`lcBufFlag, lcSendBuf
      ensures Valid()
      ensures env == S.SetDebug(link, old(env), debug)
    {
      var _ := AskOne(SET_DEBUG_CMD, [[debug]], false, false);
    }

    /** esp32_get_time: the reply's bytes, at most four, over the global
        `time`, which is returned. */
    method GetTime() returns (t: uint32)
      requires Valid()
      modifies this`env, this`lcBufFlag, lcSendBuf, this`time
      ensures Valid()
      ensures (t, time, env) == S.GetTime(link, old(env), old(time))
    {
      var resp := AskOne(GET_TIME_CMD, [[0xFF]], false, false);
      if resp.None? {
        return 0;
      }
      var retLen := |resp.value| % 0x100;
      LowBitsFit(|resp.value|, 0x100);
      var n := if retLen < 4 then retLen else 4;
      time := resp.value[..n] + time[n..];
      t := S.LE32(time);
    }

    /** esp32_set_certificate, with the reply freed only when there is one. */
    method SetCertificate(clientCa: seq<uint8>)
      requires Valid()
      modifies this`env, this`lcBufFlag, lcSendBuf
      ensures Valid()
      ensures env == S.SetCertificate(link, old(env), clientCa)
    {
      var _ := AskOne(SET_CLIENT_CERT_CMD, [S.CStr(clientCa)], true, false);
    }

    /** esp32_set_private_key, with the reply freed only when there is one. */
    method SetPrivateKey(privateKey: seq<uint8>)
      requires Valid()
      modifies this`env, this`lcBufFlag, lcSendBuf
      ensures Valid()
      ensures env == S.SetPrivateKey(link, old(env), privateKey)
    {
      var _ := AskOne(SET_CERT_KEY_CMD, [S.CStr(privateKey)], true, false);
    }

    /** esp32_wifi_set_network */
    method SetNetwork(ssid: seq<uint8>) returns (r: int)
      requires Valid()
      modifies this`env, this`lcBufFlag, lcSendBuf
      ensures Valid()
      ensures (r, env) == S.SetNetwork(link, old(env), ssid)
    {
      var resp := AskOne(SET_NET_CMD, [S.CStr(ssid)], false, false);
      if resp.None? {
        return -1;
      }
      if S.Byte(resp.value, 0) != 1 {
        return -1;
      }
      return 0;
    }

    /** esp32_wifi_set_passphrase */
    method SetPassphrase(ssid: seq<uint8>, pass: seq<uint8>) returns (r: int)
      requires Valid()
      modifies this`env, this`lcBufFlag, lcSendBuf
      ensures Valid()
      ensures (r, env) == S.SetPassphrase(link, old(env), ssid, pass)
    {
      var resp := AskOne(SET_PASSPHRASE_CMD, [S.CStr(ssid), S.CStr(pass)], false, false);
      if resp.None? {
        return -1;
      }
      if S.Byte(resp.value, 0) != 1 {
        return -1;
      }
      return 0;
    }

    /** esp32_status */
    method Status() returns (r: int)
      requires Valid()
      modifies this`env, this`lcBufFlag, lcSendBuf
      ensures Valid()
      ensures (r, env) == S.Status(link, old(env))
    {
      var resp := AskOne(GET_CONN_STATUS_CMD, [], false, false);
      if resp.None? {
        return -2;
      }
      r := Int8(S.Byte(resp.value, 0));
    }

    /** esp32_is_connected */
    method IsConnected() returns (r: uint8)
      requires Valid()
      modifies this`env, this`lcBufFlag, lcSendBuf
      ensures Valid()
      ensures (r, env) == S.IsConnected(link, old(env))
    {
      var stat := Status();
      if stat == -2 {
        Reset();
        return 2;
      } else if stat == WL_CONNECTED as int {
        return 0;
      }
      return 1;
    }

    /** The first half of esp32_connect: the passphrase when `init` has
        one, the bare network name otherwise; the verdict is dropped. */
    method Join()
      requires Valid()
      modifies this`env, this`lcBufFlag, lcSendBuf
      ensures Valid()
      ensures env == S.Join(link, old(env), init)
    {
      if init.pass.Some? {
        var _ := SetPassphrase(init.ssid, init.pass.value);
      } else {
        var _ := SetNetwork(init.ssid);
      }
    }

    /** One round of the retry loop of esp32_connect, one of `k` left: a
        verdict, or None after the 1000 ms pause when the loop goes on. */
    method ConnectPoll(ghost k: nat) returns (verdict: Option<int>)
      requires Valid() && 0 < k
      modifies this`env, this`lcBufFlag, lcSendBuf
      ensures Valid()
      ensures verdict.Some? ==> (verdict, env) == S.ConnectPolls(link, old(env), k)
      ensures verdict.None? ==> S.ConnectPolls(link, old(env), k) == S.ConnectPolls(link, env, k - 1)
    {
      var stat := Status();
      if stat == -1 {
        Reset();
        return Some(-1);
      } else if stat == WL_CONNECTED as int {
        return Some(0);
      } else if stat == WL_CONNECT_FAILED as int {
        return Some(-2);
      }
      env := S.Delay(env, 1000);
      return None;
    }

    /** The retry loop of esp32_connect: at most `init.retryTimes` polls a
        second apart, None when every one of them kept polling. */
    method ConnectRetries() returns (verdict: Option<int>)
      requires Valid()
      modifies this`env, this`lcBufFlag, lcSendBuf
      ensures Valid()
      ensures (verdict, env) == S.ConnectPolls(link, old(env), init.retryTimes)
    {
      ghost var goal := S.ConnectPolls(link, env, init.retryTimes);
      ghost var left: nat := init.retryTimes;
      var i: uint8 := 0;
      while i < init.retryTimes
        invariant Valid() && i + left == init.retryTimes
        invariant S.ConnectPolls(link, env, left) == goal
      {
        verdict := ConnectPoll(left);
        if verdict.Some? {
          return;
        }
        i := i + 1;
        left := left - 1;
      }
      verdict := None;
    }

    /** esp32_connect: hand over the credentials of `init`, poll the status
        `init.retryTimes` times a second apart, then judge a last poll. */
    method Connect() returns (r: int)
      requires Valid()
      modifies this`env, this`lcBufFlag, lcSendBuf
      ensures Valid()
      ensures (r, env) == S.Connect(link, old(env), init)
    {
      Join();
      var verdict := ConnectRetries();
      if verdict.Some? {
        return verdict.value;
      }
      var stat := Status();
      r := S.FinalConnectCode(stat);
    }

    /** esp32_disconnect */
    method Disconnect() returns (r: int)
      requires Valid()
      modifies this`env, this`lcBufFlag, lcSendBuf
      ensures Valid()
      ensures (r, env) == S.Disconnect(link, old(env))
    {
      var resp := AskOne(DISCONNECT_CMD, [], false, false);
      if resp.None? {
        return -1;
      }
      r := Int8(S.Byte(resp.value, 0));
    }

    /** esp32_get_host_by_name: the bytes copied into `ip`. */
    method GetHostByName(hostname: seq<uint8>) returns (r: int, ip: seq<uint8>)
      requires Valid()
      modifies this`env, this`lcBufFlag, lcSendBuf
      ensures Valid()
      ensures (r, ip, env) == S.GetHostByName(link, old(env), hostname)
    {
      var resp := AskOne(REQ_HOST_BY_NAME_CMD, [S.CStr(hostname)], false, false);
      if resp.None? {
        return -2, [];
      }
      if S.Byte(resp.value, 0) != 1 {
        return -1, [];
      }
      resp := AskOne(GET_HOST_BY_NAME_CMD, [], false, false);
      if resp.None? {
        return -2, [];
      }
      return 0, resp.value;
    }

    /** esp32_get_socket; the handle's socket number is left alone. */
    method GetSocket() returns (r: uint8)
      requires Valid()
      modifies this`env, this`lcBufFlag, lcSendBuf
      ensures Valid()
      ensures (r, env) == S.GetSocket(link, old(env))
    {
      var resp := AskOne(GET_SOCKET_CMD, [], false, false);
      if resp.None? {
        return 0xFF;
      }
      var socket := S.Byte(resp.value, 0);
      if socket == 0xFF {
        return 0xFF;
      }
      return socket;
    }

    /** esp32_socket_open on the handle's socket number; `dest` holds the
        four address bytes when `destType` is 0. */
    method SocketOpen(dest: seq<uint8>, destType: uint8, port: uint16, connMode: uint8) returns (r: int)
      requires destType == 0 ==> |dest| >= 4
      requires Valid()
      modifies this`env, this`lcBufFlag, lcSendBuf
      ensures Valid()
      ensures (r, env) == S.SocketOpen(link, old(env), socketNum, dest, destType, port, connMode)
    {
      var portArr: Param := [port / 0x100, port % 0x100];
      var send: seq<Param>;
      if destType != 0 {
        send := [S.CStr(dest), [0, 0, 0, 0], portArr, [socketNum], [connMode]];
      } else {
        send := [dest[..4], portArr, [socketNum], [connMode]];
      }
      var resp := AskOne(START_CLIENT_TCP_CMD, send, false, false);
      if resp.None? {
        return -1;
      }
      if S.Byte(resp.value, 0) != 1 {
        return -1;
      }
      return 0;
    }

    /** esp32_socket_status */
    method SocketStatus() returns (r: uint8)
      requires Valid()
      modifies this`env, this`lcBufFlag, lcSendBuf
      ensures Valid()
      ensures (r, env) == S.SocketStatus(link, old(env), socketNum)
    {
      var resp := AskOne(GET_CLIENT_STATE_TCP_CMD, [[socketNum]], false, false);
      if resp.None? {
        return 0xFF;
      }
      r := S.Byte(resp.value, 0);
    }

    /** esp32_socket_connected */
    method SocketConnected() returns (r: uint8)
      requires Valid()
      modifies this`env, this`lcBufFlag, lcSendBuf
      ensures Valid()
      ensures (r, env) == S.SocketConnected(link, old(env), socketNum)
    {
      var st := SocketStatus();
      r := if st == SOCKET_ESTABLISHED then 1 else 0;
    }

    /** esp32_socket_write of buffer[..len]. */
    method SocketWrite(buffer: seq<uint8>, len: uint16) returns (r: uint32)
      requires len <= |buffer|
      requires Valid()
      modifies this`env, this`lcBufFlag, lcSendBuf
      ensures Valid()
      ensures (r, env) == S.SocketWrite(link, old(env), socketNum, buffer[..len])
    {
      var resp := AskOne(SEND_DATA_TCP_CMD, [[socketNum], buffer[..len]], true, false);
      if resp.None? {
        return 0;
      }
      var sent := S.LE16(resp.value);
      if sent == 0 {
        return 0;
      }
      return sent;
    }

    /** esp32_socket_available */
    method SocketAvailable() returns (r: int)
      requires Valid()
      modifies this`env, this`lcBufFlag, lcSendBuf
      ensures Valid()
      ensures (r, env) == S.SocketAvailable(link, old(env), socketNum)
    {
      var resp := AskOne(AVAIL_DATA_TCP_CMD, [[socketNum]], false, false);
      if resp.None? {
        return -1;
      }
      r := S.LE16(resp.value);
    }

    /** esp32_socket_read: `size` low byte first; the bytes copied into
        `buff`. */
    method SocketRead(size: uint16) returns (r: int, buff: seq<uint8>)
      requires Valid()
      modifies this`env, this`lcBufFlag, lcSendBuf
      ensures Valid()
      ensures (r, buff, env) == S.SocketRead(link, old(env), socketNum, size)
    {
      var len: Param := [size % 0x100, size / 0x100];
      var resp := AskOne(GET_DATABUF_TCP_CMD, [[socketNum], len], true, true);
      if resp.None? {
        return -1, [];
      }
      var realReadSize: uint16 := |resp.value| % 0x1_0000;
      LowBitsFit(|resp.value|, 0x1_0000);
      buff := resp.value[..realReadSize];
      r := realReadSize;
    }

    /** esp32_socket_connect: open, and unless in UDP mode poll the socket
        status every 100 ms until it is established, fails, or 3 s pass. */
    method SocketConnect(dest: seq<uint8>, destType: uint8, port: uint16, connMode: uint8) returns (r: int)
      requires destType == 0 ==> |dest| >= 4
      requires Valid()
      modifies this`env, this`lcBufFlag, lcSendBuf
      ensures Valid()
      ensures S.MonotoneClock(link) && (r, env) == S.SocketConnect(link, old(env), socketNum, dest, destType, port, connMode)
    {
      S.ImplementsKeepsTime(link, hasSpi, rstNum);
      var ret := SocketOpen(dest, destType, port, connMode);
      if ret == -1 {
        return -1;
      }
      if connMode == UDP_MODE {
        return 0;
      }
      ghost var afterOpen := env;
      var tm := env.now;
      while env.now - tm < S.CONNECT_WINDOW
        invariant Valid()
        invariant env.now >= tm
        invariant S.SocketConnectPolls(link, afterOpen, socketNum, tm) == S.SocketConnectPolls(link, env, socketNum, tm)
        decreases tm + S.CONNECT_WINDOW - env.now
      {
        var st := SocketStatus();
        if st == SOCKET_ESTABLISHED {
          return 0;
        } else if st == 0xFF {
          return -2;
        }
        env := S.Delay(env, S.CONNECT_POLL_INTERVAL);
      }
      return -3;
    }

    /** esp32_socket_close */
    method SocketClose() returns (r: int)
      requires Valid()
      modifies this`env, this`lcBufFlag, lcSendBuf
      ensures Valid()
      ensures (r, env) == S.SocketClose(link, old(env), socketNum)
    {
      var resp := AskOne(STOP_CLIENT_TCP_CMD, [[socketNum]], false, false);
      if resp.None? {
        return -1;
      }
      if S.Byte(resp.value, 0) != 1 {
        return -1;
      }
      return 0;
    }

    // -------------------------------------------------------------------
    // Set-up and tear-down
    // -------------------------------------------------------------------

    /** The part of esp32_init before the reset: take the configuration,
        mark the handle idle, closed and without a socket, and take the
        pins from the configuration over SPI, zero otherwise. */
    method Adopt(c: S.Config)
      requires Valid()
      modifies this`init, this`hasSpi, this`hasI2c, this`connection, this`status, this`socketNum,
               this`csNum, this`rstNum, this`rdyNum, this`link
      ensures Valid()
      ensures init == c && hasSpi == c.hasSpi && hasI2c == c.hasI2c
      ensures connection == WL_IDLE_STATUS && status == SOCKET_CLOSED && socketNum == 0xFF
      ensures c.hasSpi ==> csNum == c.csNum && rstNum == c.rstNum && rdyNum == c.rdyNum
      ensures !c.hasSpi ==> csNum == 0 && rstNum == 0 && rdyNum == 0
    {
      init := c;
      hasSpi := c.hasSpi;
      hasI2c := c.hasI2c;
      connection := WL_IDLE_STATUS;
      status := SOCKET_CLOSED;
      socketNum := 0xFF;
      csNum := 0;
      rstNum := 0;
      rdyNum := 0;
      if c.hasSpi {
        csNum := c.csNum;
        rstNum := c.rstNum;
        rdyNum := c.rdyNum;
      }
      link := S.Wire(hasSpi, rstNum);
      S.WireImplements(hasSpi, rstNum);
    }

    /** esp32_init on the driver's one static handle; `ok` is false where
        the C returns NULL. Without a configuration nothing changes; with
        one the handle adopts it and, unless there is no bus at all, the
        module is reset. */
    method Init(cfg: Option<S.Config>) returns (ok: bool)
      requires Valid()
      modifies this, lcSendBuf
      ensures Valid()
      ensures cfg.None? ==> !ok && unchanged(this) && unchanged(lcSendBuf)
      ensures cfg.Some? ==>
        var c := cfg.value;
        (ok <==> c.hasSpi || c.hasI2c) &&
        init == c && hasSpi == c.hasSpi && hasI2c == c.hasI2c &&
        connection == WL_IDLE_STATUS && status == SOCKET_CLOSED && socketNum == 0xFF &&
        (c.hasSpi ==> csNum == c.csNum && rstNum == c.rstNum && rdyNum == c.rdyNum) &&
        (!c.hasSpi ==> csNum == 0 && rstNum == 0 && rdyNum == 0) &&
        (ok ==> env == Esp32Link.Reset(old(env), hasSpi, rstNum)) &&
        (!ok ==> env == old(env) && lcBufFlag == old(lcBufFlag)) &&
        time == old(time)
    {
      if cfg.None? {
        return false;
      }
      Adopt(cfg.value);
      if !hasSpi && !hasI2c {
        return false;
      }
      Reset();
      ok := true;
    }

    /** esp32_deinit: E_PAR for no handle; otherwise the handle is marked
        idle, closed and without a socket, and nothing else changes. */
    static method Deinit(h: Esp32?) returns (r: S.Er)
      requires h != null ==> h.Valid()
      modifies h
      ensures h == null ==> r == S.EPar
      ensures h != null ==> r == S.EOk && h.Valid()
      ensures h != null ==> h.connection == WL_IDLE_STATUS && h.status == SOCKET_CLOSED && h.socketNum == 0xFF
      ensures h != null ==> h.init == old(h.init) && h.hasSpi == old(h.hasSpi) && h.hasI2c == old(h.hasI2c)
      ensures h != null ==> h.rstNum == old(h.rstNum) && h.env == old(h.env) && h.time == old(h.time)
      ensures h != null ==> h.csNum == old(h.csNum) && h.rdyNum == old(h.rdyNum)
      ensures h != null ==> h.lcBufFlag == old(h.lcBufFlag) && h.link == old(h.link)
    {
      if h == null {
        return S.EPar;
      }
      h.connection := WL_IDLE_STATUS;
      h.status := SOCKET_CLOSED;
      h.socketNum := 0xFF;
      r := S.EOk;
    }
  }
}
