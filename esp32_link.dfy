/**
 * Everything outside the driver that the driver's control flow depends on:
 * the bytes the co-processor will clock out, how long its ready line takes
 * to answer each chip select, how much heap a malloc may take, the frames
 * written so far and the millisecond clock. The transport steps of
 * esp32_socket.c (chip select, send, receive, the combined exchange and the
 * reset) are specified here as functions of that environment.
 */
module Esp32Link {
  import opened Wrappers
  import opened Esp32Defs
  import opened Esp32Codec

  /** How the ready line answers one chip select over SPI: milliseconds until
      it reads 0 (esp32_wait_for_ready) and then until it reads 1
      (esp32_wait_for_active). */
  datatype Handshake = Handshake(ready: nat, active: nat)

  /**
   * rx: bytes the co-processor clocks out, in order (past the end every read
   *     gives IDLE_BYTE); handshakes: one entry per SPI chip select (an
   *     exhausted script answers at once); heapFree: the largest malloc that
   *     succeeds; tx: every frame written, in order; now: get_millis();
   *     resets: pulses on the reset pin.
   */
  datatype Env = Env(rx: seq<uint8>, handshakes: seq<Handshake>, heapFree: nat,
                     tx: seq<seq<uint8>>, now: nat, resets: nat)

  const READY_WINDOW: nat := 10000
  const ACTIVE_WINDOW: nat := 1000

  /** The hard-reset pulse and settle time, and the soft-reset wait. */
  const HARD_RESET_LOW: nat := 500
  const HARD_RESET_SETTLE: nat := 1000
  const SOFT_RESET_WAIT: nat := 1500

  /** The handshake of the next chip select. */
  function NextHandshake(e: Env): (r: (Handshake, seq<Handshake>))
    ensures |e.handshakes| > 0 ==> r == (e.handshakes[0], e.handshakes[1..])
    ensures |e.handshakes| == 0 ==> r == (Handshake(0, 0), [])
  {
    if |e.handshakes| > 0 then (e.handshakes[0], e.handshakes[1..]) else (Handshake(0, 0), [])
  }

  /** Milliseconds esp32_wait_for_ready polls and whether it saw the line low. */
  function ReadyWait(h: Handshake): (r: (nat, bool))
    ensures r.0 <= READY_WINDOW && (r.1 <==> r.0 < READY_WINDOW)
    ensures r.1 ==> r.0 == h.ready
  {
    if h.ready < READY_WINDOW then (h.ready, true) else (READY_WINDOW, false)
  }

  /** Milliseconds esp32_wait_for_active polls and whether it saw the line high. */
  function ActiveWait(h: Handshake): (r: (nat, bool))
    ensures r.0 <= ACTIVE_WINDOW && (r.1 <==> r.0 < ACTIVE_WINDOW)
    ensures r.1 ==> r.0 == h.active
  {
    if h.active < ACTIVE_WINDOW then (h.active, true) else (ACTIVE_WINDOW, false)
  }

  /** The select timeout test as written: more than 1000 ms between taking
      the time and the return of esp32_wait_for_active. */
  predicate SelectTimedOutAsWritten(h: Handshake): (r: bool)
    ensures r ==> h.active > ACTIVE_WINDOW
  {
    ActiveWait(h).0 > ACTIVE_WINDOW
  }

  /** The corrected test: the wait used its whole window, which happens
      exactly when the line stays low for the whole window. */
  predicate SelectTimedOut(h: Handshake): (r: bool)
    ensures r <==> h.active >= ACTIVE_WINDOW
  {
    ActiveWait(h).0 >= ACTIVE_WINDOW
  }

  /** esp32_wait_for_active stops polling after at most 1000 ms, so the
      test as written never fires, even when the line never goes high. */
  lemma SelectTimeoutAsWrittenNeverFires(h: Handshake)
    ensures !SelectTimedOutAsWritten(h)
    ensures h == Handshake(0, ACTIVE_WINDOW) ==> !ActiveWait(h).1 && !SelectTimedOutAsWritten(h)
  {
  }

  /** The corrected test fires exactly when esp32_wait_for_active gives up. */
  lemma SelectTimedOutIffActiveWaitFails(h: Handshake)
    ensures SelectTimedOut(h) <==> !ActiveWait(h).1
    ensures SelectTimedOut(h) <==> h.active >= ACTIVE_WINDOW
  {
  }

  /** Chip select: over SPI one handshake is consumed and both waits are
      charged to the clock (their own results are ignored); over I2C both
      waits return at once. */
  function Select(e: Env, spi: bool): (r: (bool, Env))
    ensures r.1 == e.(handshakes := r.1.handshakes, now := r.1.now)
    ensures r.1.now >= e.now
    ensures !spi ==> r == (true, e)
    ensures spi ==> r.1.now == e.now + ReadyWait(NextHandshake(e).0).0 + ActiveWait(NextHandshake(e).0).0
  {
    if !spi then (true, e)
    else
      var (h, rest) := NextHandshake(e);
      (!SelectTimedOut(h), e.(handshakes := rest, now := e.now + ReadyWait(h).0 + ActiveWait(h).0))
  }

  /** Whether the frame buffer of esp32_send_command can be had: the static
      scratch buffer, or a malloc. */
  predicate BufferAvailable(e: Env, ps: seq<Param>, wide: bool) {
    FrameLength(ps, wide) <= LC_BUF_LEN || FrameLength(ps, wide) <= e.heapFree
  }

  /** esp32_send_command: 0 when the padded frame was written, -1 when no
      buffer could be had or the select timed out. */
  function Send(e: Env, spi: bool, cmd: uint8, ps: seq<Param>, wide: bool): (r: (int, Env))
    ensures r.0 == 0 || r.0 == -1
    ensures r.0 == 0 <==> r.1.tx == e.tx + [Encode(cmd, ps, wide)]
    ensures r.0 == -1 ==> r.1.tx == e.tx
    ensures !BufferAvailable(e, ps, wide) ==> r == (-1, e)
    ensures r.1.rx == e.rx && r.1.heapFree == e.heapFree && r.1.resets == e.resets && r.1.now >= e.now
  {
    if !BufferAvailable(e, ps, wide) then (-1, e)
    else
      var (ok, e1) := Select(e, spi);
      if !ok then (-1, e1) else (0, e1.(tx := e1.tx + [Encode(cmd, ps, wide)]))
  }

  /** Chip select and send with the select timeout test as written. */
  function SelectAsWritten(e: Env, spi: bool): (r: (bool, Env))
    ensures r.1 == Select(e, spi).1
    ensures r.0
  {
    if !spi then (true, e)
    else
      var (h, rest) := NextHandshake(e);
      (!SelectTimedOutAsWritten(h), e.(handshakes := rest, now := e.now + ReadyWait(h).0 + ActiveWait(h).0))
  }

  function SendAsWritten(e: Env, spi: bool, cmd: uint8, ps: seq<Param>, wide: bool): (r: (int, Env))
    ensures r.0 == 0 <==> BufferAvailable(e, ps, wide)
    ensures r.0 == 0 ==> r.1 == Select(e, spi).1.(tx := e.tx + [Encode(cmd, ps, wide)])
    ensures r.0 != 0 ==> r == (-1, e)
  {
    if !BufferAvailable(e, ps, wide) then (-1, e)
    else
      var (ok, e1) := SelectAsWritten(e, spi);
      if !ok then (-1, e1) else (0, e1.(tx := e1.tx + [Encode(cmd, ps, wide)]))
  }

  /** As written, a send to a co-processor whose ready line never rises
      still writes the frame and returns 0, where the corrected send
      returns -1 and writes nothing. */
  lemma SendAsWrittenIgnoresStuckLine(e: Env, cmd: uint8, ps: seq<Param>, wide: bool)
    requires BufferAvailable(e, ps, wide)
    requires |e.handshakes| > 0 && e.handshakes[0].active >= ACTIVE_WINDOW
    ensures var after := e.(handshakes := e.handshakes[1..], now := e.now + ReadyWait(e.handshakes[0]).0 + ACTIVE_WINDOW);
      SendAsWritten(e, true, cmd, ps, wide) == (0, after.(tx := e.tx + [Encode(cmd, ps, wide)])) &&
      Send(e, true, cmd, ps, wide) == (-1, after)
  {
    SendSelectTimeout(e, cmd, ps, wide);
  }

  /** esp32_wait_response_cmd: select, then parse the reply from the stream. */
  function Receive(e: Env, spi: bool, cmd: uint8, expected: Option<nat>, wide: bool)
    : (r: (Option<seq<Param>>, Env))
    ensures r.0.Some? && expected.Some? ==> |r.0.value| == expected.value
    ensures r.0.Some? ==> Fits(r.0.value, wide)
    ensures r.1.tx == e.tx && r.1.heapFree == e.heapFree && r.1.resets == e.resets && r.1.now >= e.now
  {
    var (ok, e1) := Select(e, spi);
    if !ok then (None, e1)
    else
      var (ps, rest) := ParseReply(e1.rx, cmd, expected, wide, !spi);
      (ps, e1.(rx := rest))
  }

  /** esp32_send_command_get_response: the send's result is ignored, and a
      missing reply count means one parameter. */
  function Exchange(e: Env, spi: bool, cmd: uint8, ps: seq<Param>, numResp: Option<nat>,
                    sendWide: bool, recvWide: bool): (r: (Option<seq<Param>>, Env))
    ensures r.0.Some? ==> |r.0.value| == numResp.GetOr(1) && Fits(r.0.value, recvWide)
    ensures r.1.tx == e.tx || r.1.tx == e.tx + [Encode(cmd, ps, sendWide)]
    ensures r.1.heapFree == e.heapFree && r.1.resets == e.resets && r.1.now >= e.now
  {
    var (_, e1) := Send(e, spi, cmd, ps, sendWide);
    Receive(e1, spi, cmd, Some(numResp.GetOr(1)), recvWide)
  }

  /** `(int8_t)rst_num > 0`: a reset pin is wired. */
  predicate HasResetPin(rstNum: uint8) {
    Int8(rstNum) > 0
  }

  /** esp32_reset: pulse the reset pin when there is one, else send
      SOFT_RESET_CMD (ignoring the outcome); either way wait 1500 ms. */
  function Reset(e: Env, spi: bool, rstNum: uint8): (r: Env)
    ensures r.now >= e.now + SOFT_RESET_WAIT && r.rx == e.rx && r.heapFree == e.heapFree
    ensures HasResetPin(rstNum) ==> r == e.(now := e.now + HARD_RESET_LOW + HARD_RESET_SETTLE, resets := e.resets + 1)
    ensures !HasResetPin(rstNum) ==>
      r.resets == e.resets && (r.tx == e.tx || r.tx == e.tx + [Encode(SOFT_RESET_CMD, [], false)])
  {
    if HasResetPin(rstNum) then e.(now := e.now + HARD_RESET_LOW + HARD_RESET_SETTLE, resets := e.resets + 1)
    else
      var (_, e1) := Send(e, spi, SOFT_RESET_CMD, [], false);
      e1.(now := e1.now + SOFT_RESET_WAIT)
  }

  /** A pin number is wired for a hard reset exactly when it is 1..127. */
  lemma HasResetPinRange(rstNum: uint8)
    ensures HasResetPin(rstNum) <==> 1 <= rstNum <= 127
  {
  }

  /** What precedes a reply frame on the bus: nothing over SPI, the DUMMY
      byte over I2C. */
  function Greeting(spi: bool): seq<uint8> {
    if spi then [] else [DUMMY_CMD]
  }

  /** A co-processor that answers at once: its handshake script is empty. */
  predicate Prompt(e: Env) {
    e.handshakes == []
  }

  /** The reply frame a co-processor sends to `cmd` with one parameter. */
  function Reply(spi: bool, cmd: uint8, p: Param, wide: bool): seq<uint8> {
    Greeting(spi) + Frame(SetReplyFlag(cmd), [p], wide)
  }

  lemma GreetingIsLead(spi: bool, f: seq<uint8>, rest: seq<uint8>)
    ensures Greeting(spi) + f + rest == Lead(!spi, [], []) + f + rest
    ensures LeadOk(!spi, [], [])
  {
  }

  /** With a prompt co-processor whose next bytes are a one-parameter reply,
      the exchange writes the request (when a buffer is available), returns
      exactly that parameter and consumes exactly the reply. */
  lemma ExchangeScripted(e: Env, spi: bool, cmd: uint8, ps: seq<Param>, sendWide: bool,
                         p: Param, recvWide: bool, rest: seq<uint8>)
    requires Prompt(e)
    requires FitsWidth(|p|, recvWide)
    requires e.rx == Reply(spi, cmd, p, recvWide) + rest
    ensures var sent := if BufferAvailable(e, ps, sendWide) then [Encode(cmd, ps, sendWide)] else [];
      Exchange(e, spi, cmd, ps, None, sendWide, recvWide) == (Some([p]), e.(rx := rest, tx := e.tx + sent))
  {
    var sent := if BufferAvailable(e, ps, sendWide) then [Encode(cmd, ps, sendWide)] else [];
    var e1 := Send(e, spi, cmd, ps, sendWide).1;
    assert e1 == e.(tx := e.tx + sent);
    var e2 := Select(e1, spi).1;
    assert Select(e1, spi).0 && e2 == e1;
    GreetingIsLead(spi, Frame(SetReplyFlag(cmd), [p], recvWide), rest);
    assert Fits([p], recvWide);
    ParseReplyRoundTrip(cmd, [p], recvWide, !spi, Some(1), [], [], rest);
    assert ParseReply(e2.rx, cmd, Some(1), recvWide, !spi) == (Some([p]), rest);
  }

  /** A co-processor that sends nothing makes every exchange fail. */
  lemma SilentModuleFails(e: Env, spi: bool, cmd: uint8, ps: seq<Param>, numResp: Option<nat>,
                          sendWide: bool, recvWide: bool)
    requires e.rx == []
    ensures Exchange(e, spi, cmd, ps, numResp, sendWide, recvWide).0 == None
  {
    var (_, e1) := Send(e, spi, cmd, ps, sendWide);
    var (ok, e2) := Select(e1, spi);
    if ok {
      if spi {
        WaitForAbsent(e2.rx, START_CMD, SPC_CHAR_WINDOW);
      } else {
        WaitForAbsent(e2.rx, DUMMY_CMD, SPC_CHAR_WINDOW);
      }
    }
  }

  /** With a prompt co-processor that sends nothing the exchange writes the
      request (when a buffer is available), fails, and takes no time. */
  lemma SilentExchange(e: Env, spi: bool, cmd: uint8, ps: seq<Param>, numResp: Option<nat>,
                       sendWide: bool, recvWide: bool)
    requires Prompt(e) && e.rx == []
    ensures var sent := if BufferAvailable(e, ps, sendWide) then [Encode(cmd, ps, sendWide)] else [];
      Exchange(e, spi, cmd, ps, numResp, sendWide, recvWide) == (None, e.(tx := e.tx + sent))
  {
    var sent := if BufferAvailable(e, ps, sendWide) then [Encode(cmd, ps, sendWide)] else [];
    var e1 := Send(e, spi, cmd, ps, sendWide).1;
    assert e1 == e.(tx := e.tx + sent);
    assert Select(e1, spi) == (true, e1);
    WaitForEmpty(DUMMY_CMD, SPC_CHAR_WINDOW);
    WaitForEmpty(START_CMD, SPC_CHAR_WINDOW);
    assert SyncToStart([], !spi) == (false, []);
  }

  /** With a prompt co-processor an exchange takes no time and leaves the
      co-processor prompt. */
  lemma PromptExchange(e: Env, spi: bool, cmd: uint8, ps: seq<Param>, numResp: Option<nat>,
                       sendWide: bool, recvWide: bool)
    requires Prompt(e)
    ensures Exchange(e, spi, cmd, ps, numResp, sendWide, recvWide).1.now == e.now
    ensures Prompt(Exchange(e, spi, cmd, ps, numResp, sendWide, recvWide).1)
  {
    assert Select(e, spi).1 == e;
    var e1 := Send(e, spi, cmd, ps, sendWide).1;
    assert Prompt(e1) && e1.now == e.now;
    assert Select(e1, spi).1 == e1;
  }

  /** The send's result is ignored: when no buffer can be had nothing is
      written, yet the reply is still awaited on an unchanged environment. */
  lemma ExchangeIgnoresSendFailure(e: Env, spi: bool, cmd: uint8, ps: seq<Param>, numResp: Option<nat>,
                                   sendWide: bool, recvWide: bool)
    requires !BufferAvailable(e, ps, sendWide)
    ensures Exchange(e, spi, cmd, ps, numResp, sendWide, recvWide)
      == Receive(e, spi, cmd, Some(numResp.GetOr(1)), recvWide)
    ensures Exchange(e, spi, cmd, ps, numResp, sendWide, recvWide).1.tx == e.tx
  {
  }

  /** A select whose active wait runs out makes the send write nothing and
      costs the whole ready wait plus the 1000 ms active window. */
  lemma SendSelectTimeout(e: Env, cmd: uint8, ps: seq<Param>, wide: bool)
    requires BufferAvailable(e, ps, wide)
    requires |e.handshakes| > 0 && e.handshakes[0].active >= ACTIVE_WINDOW
    ensures Send(e, true, cmd, ps, wide).0 == -1
    ensures Send(e, true, cmd, ps, wide).1
      == e.(handshakes := e.handshakes[1..], now := e.now + ReadyWait(e.handshakes[0]).0 + ACTIVE_WINDOW)
  {
  }
}
