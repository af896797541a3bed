/**
 * Constants and value types of the ESP32 control protocol: the command
 * opcodes and frame sentinels, the reply flag, the socket, WLAN and
 * connection-mode enumerations, and the C integer widths the driver uses.
 */
module Esp32Defs {

  /** C's uint8_t, uint16_t and uint32_t as bounded integers. */
  type uint8 = x: int | 0 <= x < 0x100
  type uint16 = x: int | 0 <= x < 0x1_0000
  type uint32 = x: int | 0 <= x < 0x1_0000_0000

  /** One protocol parameter: a byte string (esp32_param_t without its pointer). */
  type Param = seq<uint8>

  // Request opcodes that the driver uses (esp32_cmd_enum_t).
  const SET_NET_CMD: uint8 := 0x10
  const SET_PASSPHRASE_CMD: uint8 := 0x11
  const SET_DEBUG_CMD: uint8 := 0x1A
  const GET_CONN_STATUS_CMD: uint8 := 0x20
  const GET_STATE_TCP_CMD: uint8 := 0x29
  const DATA_SENT_TCP_CMD: uint8 := 0x2A
  const AVAIL_DATA_TCP_CMD: uint8 := 0x2B
  const GET_DATA_TCP_CMD: uint8 := 0x2C
  const START_CLIENT_TCP_CMD: uint8 := 0x2D
  const STOP_CLIENT_TCP_CMD: uint8 := 0x2E
  const GET_CLIENT_STATE_TCP_CMD: uint8 := 0x2F
  const DISCONNECT_CMD: uint8 := 0x30
  const REQ_HOST_BY_NAME_CMD: uint8 := 0x34
  const GET_HOST_BY_NAME_CMD: uint8 := 0x35
  const GET_FW_VERSION_CMD: uint8 := 0x37
  const GET_TIME_CMD: uint8 := 0x3B
  const GET_SOCKET_CMD: uint8 := 0x3F
  const SET_CLIENT_CERT_CMD: uint8 := 0x40
  const SET_CERT_KEY_CMD: uint8 := 0x41
  const SEND_DATA_TCP_CMD: uint8 := 0x44
  const GET_DATABUF_TCP_CMD: uint8 := 0x45
  const SOFT_RESET_CMD: uint8 := 0x54

  // Frame sentinels, members of the same enumeration.
  const DUMMY_CMD: uint8 := 0x55
  const START_CMD: uint8 := 0xE0
  const END_CMD: uint8 := 0xEE
  const ERR_CMD: uint8 := 0xEF

  /** Every request opcode of the enumeration that is not commented out. */
  const COMMANDS: set<uint8> := {
    SET_NET_CMD, SET_PASSPHRASE_CMD, SET_DEBUG_CMD, GET_CONN_STATUS_CMD,
    GET_STATE_TCP_CMD, DATA_SENT_TCP_CMD, AVAIL_DATA_TCP_CMD, GET_DATA_TCP_CMD,
    START_CLIENT_TCP_CMD, STOP_CLIENT_TCP_CMD, GET_CLIENT_STATE_TCP_CMD,
    DISCONNECT_CMD, REQ_HOST_BY_NAME_CMD, GET_HOST_BY_NAME_CMD,
    GET_FW_VERSION_CMD, GET_TIME_CMD, GET_SOCKET_CMD, SET_CLIENT_CERT_CMD,
    SET_CERT_KEY_CMD, SEND_DATA_TCP_CMD, GET_DATABUF_TCP_CMD, SOFT_RESET_CMD
  }

  const SENTINELS: set<uint8> := {DUMMY_CMD, START_CMD, END_CMD, ERR_CMD}

  // esp32_flag_t
  const CMD_FLAG: uint8 := 0
  const REPLY_FLAG: uint8 := 0x80

  /** `cmd & ~REPLY_FLAG`, the opcode byte of a request frame: on a byte,
      masking with 0x7F clears bit 7, which is taking 0x80 away when it is
      set. */
  function ClearReplyFlag(cmd: uint8): uint8 {
    if cmd >= REPLY_FLAG then cmd - REPLY_FLAG else cmd
  }

  /** `cmd | REPLY_FLAG`, the opcode byte a reply to `cmd` must carry: bit 7
      set, which is adding 0x80 when it is clear. */
  function SetReplyFlag(cmd: uint8): uint8 {
    if cmd >= REPLY_FLAG then cmd else cmd + REPLY_FLAG
  }

  /** Below 0x80 the flag operations add nothing and add 0x80. */
  lemma ReplyFlagOnLowByte(cmd: uint8)
    requires cmd < REPLY_FLAG
    ensures ClearReplyFlag(cmd) == cmd
    ensures SetReplyFlag(cmd) == cmd + REPLY_FLAG
  {
  }

  /** From 0x80 up the flag is already set: clearing takes 0x80 away. */
  lemma ReplyFlagOnHighByte(cmd: uint8)
    requires cmd >= REPLY_FLAG
    ensures ClearReplyFlag(cmd) == cmd - REPLY_FLAG
    ensures SetReplyFlag(cmd) == cmd
  {
  }

  /** The C cast `(int8_t)b`: the byte read as a two's-complement number. */
  function Int8(b: uint8): (r: int)
    ensures -0x80 <= r < 0x80
  {
    if b < 0x80 then b else b - 0x100
  }

  /** The cast keeps the bit pattern: adding 0x100 and reducing modulo 0x100
      gives the byte back, so distinct bytes read as distinct values. */
  lemma Int8KeepsBits(b: uint8, c: uint8)
    ensures (Int8(b) + 0x100) % 0x100 == b
    ensures Int8(b) == Int8(c) ==> b == c
  {
  }

  // esp32_socket_enum_t: the TCP connection states of section 3.2 of RFC 793.
  const SOCKET_CLOSED: uint8 := 0
  const SOCKET_LISTEN: uint8 := 1
  const SOCKET_SYN_SENT: uint8 := 2
  const SOCKET_SYN_RCVD: uint8 := 3
  const SOCKET_ESTABLISHED: uint8 := 4
  const SOCKET_FIN_WAIT_1: uint8 := 5
  const SOCKET_FIN_WAIT_2: uint8 := 6
  const SOCKET_CLOSE_WAIT: uint8 := 7
  const SOCKET_CLOSING: uint8 := 8
  const SOCKET_LAST_ACK: uint8 := 9
  const SOCKET_TIME_WAIT: uint8 := 10

  const SOCKET_STATES: set<uint8> := {
    SOCKET_CLOSED, SOCKET_LISTEN, SOCKET_SYN_SENT, SOCKET_SYN_RCVD,
    SOCKET_ESTABLISHED, SOCKET_FIN_WAIT_1, SOCKET_FIN_WAIT_2,
    SOCKET_CLOSE_WAIT, SOCKET_CLOSING, SOCKET_LAST_ACK, SOCKET_TIME_WAIT
  }

  /** What esp32_socket_status returns when the exchange fails. */
  const SOCKET_STATUS_ERROR: uint8 := 0xFF

  // esp32_wlan_enum_t
  const WL_IDLE_STATUS: uint8 := 0
  const WL_NO_SSID_AVAIL: uint8 := 1
  const WL_SCAN_COMPLETED: uint8 := 2
  const WL_CONNECTED: uint8 := 3
  const WL_CONNECT_FAILED: uint8 := 4
  const WL_CONNECTION_LOST: uint8 := 5
  const WL_DISCONNECTED: uint8 := 6
  const WL_AP_LISTENING: uint8 := 7
  const WL_AP_CONNECTED: uint8 := 8
  const WL_AP_FAILED: uint8 := 9
  const WL_NO_MODULE: uint8 := 0xFE
  const WL_NO_SHIELD: uint8 := 0xFF

  const WLAN_STATES: set<uint8> := {
    WL_IDLE_STATUS, WL_NO_SSID_AVAIL, WL_SCAN_COMPLETED, WL_CONNECTED,
    WL_CONNECT_FAILED, WL_CONNECTION_LOST, WL_DISCONNECTED, WL_AP_LISTENING,
    WL_AP_CONNECTED, WL_AP_FAILED, WL_NO_MODULE, WL_NO_SHIELD
  }

  // esp32_socket_mode_enum_t
  const TCP_MODE: uint8 := 0
  const UDP_MODE: uint8 := 1
  const TLS_MODE: uint8 := 2
  const UDP_MODE_2: uint8 := 3

  const MODES: set<uint8> := {TCP_MODE, UDP_MODE, TLS_MODE, UDP_MODE_2}

  /** Every request opcode lies in 0x10..0x54, below the reply flag; clearing
      the flag leaves it unchanged and setting it yields 0x90..0xD4, which is
      never itself a request opcode. */
  lemma CommandsBelowReplyFlag(cmd: uint8)
    requires cmd in COMMANDS
    ensures 0x10 <= cmd <= 0x54 && cmd < REPLY_FLAG
    ensures ClearReplyFlag(cmd) == cmd
    ensures 0x90 <= SetReplyFlag(cmd) <= 0xD4
    ensures SetReplyFlag(cmd) !in COMMANDS
    ensures ClearReplyFlag(SetReplyFlag(cmd)) == cmd
  {
    ReplyFlagOnLowByte(cmd);
    ReplyFlagOnHighByte(cmd + REPLY_FLAG);
  }

  /** DUMMY, START, END and ERR are four distinct bytes; none is a request
      opcode and none is the reply opcode of any request. */
  lemma SentinelsAreReserved(cmd: uint8)
    requires cmd in COMMANDS
    ensures |SENTINELS| == 4
    ensures cmd !in SENTINELS
    ensures SetReplyFlag(cmd) !in SENTINELS
  {
    CommandsBelowReplyFlag(cmd);
  }

  /** The socket states are exactly 0..10 with ESTABLISHED = 4, so the error
      value 0xFF is never a state. */
  lemma SocketStatesAreSmall(s: int)
    ensures s in SOCKET_STATES <==> 0 <= s <= 10
    ensures SOCKET_ESTABLISHED == 4 && SOCKET_STATUS_ERROR !in SOCKET_STATES
  {
  }

  /** The WLAN states are 0..9 plus NO_MODULE 0xFE and NO_SHIELD 0xFF. */
  lemma WlanStatesShape(s: int)
    ensures s in WLAN_STATES <==> (0 <= s <= 9 || s == 0xFE || s == 0xFF)
    ensures WL_CONNECTED == 3 && WL_CONNECT_FAILED == 4 && WL_NO_SSID_AVAIL == 1
    ensures Int8(WL_NO_SHIELD) == -1 && Int8(WL_NO_MODULE) == -2
  {
  }

  /** The connection modes are 0..3 and UDP is the only one equal to 1. */
  lemma ModesShape(m: int)
    ensures m in MODES <==> 0 <= m <= 3
    ensures m in MODES && m == UDP_MODE <==> m == 1
  {
  }
}
