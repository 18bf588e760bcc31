/**
 The connection manager of `MqttClient`: `connect()` with its bounded retry
 loop and `disconnect()`. The broker transport is an oracle: `handshakes[i]`
 is the return code of the i-th `Adafruit_MQTT_Client::connect()` call
 (0 means connected), and `online` is what the transport's `connected()`
 reports on entry.
 */
module MqttConnection {
  import opened Common

  /** Return code of a successful broker handshake. */
  const HandshakeOk: int := 0

  /** `MQTT_RECONNECT_RETRIES` is held in a `uint8_t` counter. */
  newtype uint8 = x: int | 0 <= x < 256

  /** `--retries` on a `uint8_t`: 0 wraps to 255. */
  function Decrement(r: uint8): (d: uint8)
    ensures (d as int + 1) % 256 == r as int
    ensures r != 0 ==> d as int == r as int - 1
    ensures r == 0 ==> d == 255
  {
    ((r as int - 1) % 256) as uint8
  }

  /** How many handshakes `connect()` makes before giving up: the retry
      constant itself, or 256 when it is 0 (the first decrement wraps). */
  function Budget(retries: uint8): nat
  {
    if retries == 0 then 256 else retries as nat
  }

  /** Index of the first successful handshake among the first `n`, if any. */
  function FirstSuccess(handshakes: seq<int>, n: nat): (r: Option<nat>)
    requires n <= |handshakes|
    ensures r.Some? ==> r.value < n && handshakes[r.value] == HandshakeOk
    ensures r.Some? ==> forall j | 0 <= j < r.value :: handshakes[j] != HandshakeOk
    ensures r.None? ==> forall j | 0 <= j < n :: handshakes[j] != HandshakeOk
  {
    if n == 0 then None
    else match FirstSuccess(handshakes, n - 1)
      case Some(k) => Some(k)
      case None => if handshakes[n - 1] == HandshakeOk then Some(n - 1) else None
  }

  /** What one `connect()` call did: its result (the final `connected()`),
      how many handshakes it attempted, how many times it tore the transport
      down, and how many inter-attempt delays it waited. */
  datatype ConnectReport = ConnectReport(online: bool, attempts: nat, disconnects: nat, delays: nat)

  /** Reference definition of `connect()`, stated from the first success. */
  function Connect(online: bool, retries: uint8, handshakes: seq<int>): (r: ConnectReport)
    requires Budget(retries) <= |handshakes|
    ensures online ==> r == ConnectReport(true, 0, 0, 0)
    ensures !online ==> (r.online <==> exists j | 0 <= j < Budget(retries) :: handshakes[j] == HandshakeOk)
    ensures !online ==> 1 <= r.attempts <= Budget(retries) && r.delays == r.attempts - 1
    ensures !online ==> forall j | 0 <= j < r.attempts - 1 :: handshakes[j] != HandshakeOk
    ensures !online && r.online ==> handshakes[r.attempts - 1] == HandshakeOk && r.disconnects == r.attempts - 1
    ensures !online && !r.online ==> r.attempts == Budget(retries) && r.disconnects == r.attempts
  {
    if online then ConnectReport(true, 0, 0, 0)
    else match FirstSuccess(handshakes, Budget(retries))
      case Some(k) => ConnectReport(true, k + 1, k, k)
      case None => ConnectReport(false, Budget(retries), Budget(retries), Budget(retries) - 1)
  }

  /**
   The loop as written: try the handshake; on failure disconnect, decrement the
   `uint8_t` counter, stop when it reaches 0, otherwise wait and try again.
   */
  method ConnectLoop(online: bool, retries: uint8, handshakes: seq<int>)
    returns (result: bool, attempts: nat, disconnects: nat, delays: nat)
    requires Budget(retries) <= |handshakes|
    ensures ConnectReport(result, attempts, disconnects, delays) == Connect(online, retries, handshakes)
    ensures online ==> result && attempts == 0
    ensures !online ==> 1 <= attempts <= Budget(retries) && delays == attempts - 1
    ensures !online ==> forall j | 0 <= j < attempts - 1 :: handshakes[j] != HandshakeOk
    ensures !online ==> (result <==> handshakes[attempts - 1] == HandshakeOk)
    ensures !online && !result ==> attempts == Budget(retries)
    ensures disconnects == attempts - (if result && !online then 1 else 0)
  {
    if online {
      return true, 0, 0, 0;
    }
    var counter := retries;
    attempts, disconnects, delays := 1, 0, 0;
    var ret := handshakes[0];
    while ret != HandshakeOk
      invariant 1 <= attempts <= Budget(retries)
      invariant ret == handshakes[attempts - 1]
      invariant forall j | 0 <= j < attempts - 1 :: handshakes[j] != HandshakeOk
      invariant counter as int == (retries as int - (attempts - 1)) % 256
      invariant disconnects == attempts - 1 && delays == attempts - 1
      decreases Budget(retries) - attempts
    {
      disconnects := disconnects + 1;
      counter := Decrement(counter);
      if counter == 0 {
        break;
      }
      delays := delays + 1;
      ret := handshakes[attempts];
      attempts := attempts + 1;
    }
    result := ret == HandshakeOk;
    assert FirstSuccess(handshakes, Budget(retries)) == if result then Some(attempts - 1) else None;
  }

  /** `disconnect()`: succeeds at once when not connected, otherwise reports
      the transport's own result (`transportOk`); the link is down afterwards. */
  function Disconnect(online: bool, transportOk: bool): (r: DisconnectResult)
    ensures !r.online
    ensures !online ==> r.ok
    ensures online ==> r.ok == transportOk
  {
    if !online then DisconnectResult(true, false) else DisconnectResult(transportOk, false)
  }

  datatype DisconnectResult = DisconnectResult(ok: bool, online: bool)
}
