# Room-sensor MQTT client: a Dafny model

This project models the firmware side of a room-sensor node that talks to an MQTT broker. It covers three classes:

- **`MqttClient`**, the part with real state:
  - two topic registries (`std::map` from a short topic name to a topic record);
  - `createPublishTopic`, which builds the broker path from a type prefix and a caller's path fragment and collapses every `//` with `stringReplaceAll`;
  - removal of publish topics, and the per-topic notify callback (add, remove, get);
  - `connect()`, a bounded retry loop whose counter is a `uint8_t`, and `disconnect()`;
  - `publish()`;
  - `incomingMessageCallback`, which echoes the switch state on the topic's own handle and calls the topic's callback.
- **`TemperatureSensor`**: the last temperature and humidity readings with their "initialized" flags, and the unit state machine.
- **`RelayPorts`**: a list of output pins, a current port index, and active-low pin writes.

Modules, one file each:

| file | module | contents |
|---|---|---|
| `common.dfy` | `Common` | `Option`; `Ret`, the result of a non-void C++ function (a value, or `FellOffEnd` when control reaches the closing brace without a `return`) |
| `lex_order.dfy` | `LexOrder` | `std::string`'s `operator<`, which orders a `std::map`'s keys |
| `ordered_map.dfy` | `OrderedMap` | a `std::map` as a strictly sorted association list (`Sorted`), with its mathematical view `ToMap`, `find`, `operator[]=` and `erase` |
| `string_replace.dfy` | `StringReplace` | `stringReplaceAll(text, "//", "/")`: the loop as written, and a recursive reference definition `Collapse` |
| `mqtt_connection.dfy` | `MqttConnection` | `connect()` and `disconnect()` |
| `mqtt_client.dfy` | `MqttClient` | registries, topic paths, callbacks, `publish`, the inbound handler, call sequences, findings |
| `temperature_sensor.dfy` | `TemperatureSensor` | sensor state and its setters |
| `relays.dfy` | `Relays` | relay ports |

The outside world enters the model as parameters:

- The broker is an oracle. `handshakes[i]` is the return code of the i-th transport `connect()` (0 means connected). `online` is what the transport's `connected()` reports on entry. `sendOk` is the result of a publish handle's `publish()`.
- Callbacks are opaque identities (`CallbackId`). A protocol handle (`PublishHandle`) is a value bound to the broker path it was built from. That path is `pathName.c_str()`, so it ends at the first NUL.
- Every `c_str()` or `const char*` hand-over is read as a C string (`CString`): the characters before the first NUL. This covers the outbound message, the handle's path, the inbound `char* topic` and payload, and the echo.
- The inbound handler returns the effects it causes, in order: sends on handles, and callback invocations.
- Relay pins are a map from pin number to level.

A `float` reading is either NaN or an ordinary value, and the model does no arithmetic on it.

The getters `temperatureUnit()`, `temperature()`, `humidity()` and `currentPort()` only read one field. In the model they are field reads of the immutable state (`Sensor.unit`, and so on). `connected()` is different: it asks the transport (MqttClient.cpp:34), and the link can drop between two calls. The model keeps the last answer in `Client.online`. `connect`, `disconnect` and `publish` change that field, and so does `LinkLost`, a call-sequence step that stands for the link dropping on its own.

`Consistent` is the client invariant:

- both maps are sorted;
- every publish record has its key as short name, a non-empty name, a path that starts with its type's prefix and holds no `//`, a publish handle bound to that path, and no subscribe handle;
- the subscribe registry is empty, because nothing in the code ever inserts into it.

`RunConsistent` proves that every sequence of public calls keeps this invariant. The calls are: create and remove a publish topic, create and remove a subscribe topic, add and remove a callback, `publish`, `connect` and `disconnect`, and the link dropping (`LinkLost`).

## Model

| member | source | states |
|---|---|---|
| OrderedMap.Get | MqttClient.cpp:86 | `find` locates a key exactly when the map holds it, and yields the value stored for it |
| OrderedMap.Assign | MqttClient.cpp:111 | `operator[]=` keeps the keys unique and ordered, and the map becomes the old one with `k` bound to `v` |
| OrderedMap.Erase | MqttClient.cpp:125 | `erase` keeps the keys unique and ordered, and removes exactly key `k` |
| OrderedMap.FirstIsLeast | MqttClient.cpp:208 | a range-for over a `std::map` starts at its least key |
| StringReplace.Find | MqttClient.cpp:12 | `find(pat, from)` gives the first occurrence at or after `from`, and `npos` exactly when there is none |
| StringReplace.Collapse | MqttClient.cpp:9-19 | the reference collapse keeps no `//`, never lengthens, and keeps the first character |
| StringReplace.StringReplaceAll | MqttClient.cpp:9-19 | the find/replace loop, restarting its search at the replacement point, computes exactly `Collapse(text)`, which holds no `//` |
| StringReplace.CollapseReplaceAt | MqttClient.cpp:15 | replacing one `//` by `/` does not change the fully collapsed result |
| StringReplace.ReplaceKeepsPrefixClear | MqttClient.cpp:16 | a replacement at the first `//` creates no new `//` before it, so restarting the search there misses nothing |
| StringReplace.CollapseKeepsText | MqttClient.cpp:9-19 | the collapse removes only `/` characters; all others survive in order |
| StringReplace.CollapseIdempotent | MqttClient.cpp:9-19 | collapsing a collapsed path changes nothing |
| StringReplace.CollapseFixedPoints | MqttClient.cpp:9-19 | the collapse leaves a string unchanged if and only if it holds no `//` |
| MqttConnection.ConnectLoop | MqttClient.cpp:41-63 | connected on entry gives true with no handshake. Otherwise handshakes continue until the first success or until the `uint8_t` budget is spent (256 when the constant is 0). The result is true exactly when the last handshake succeeded; every failed attempt is followed by a disconnect; one delay separates consecutive attempts. |
| MqttConnection.Disconnect | MqttClient.cpp:68-74 | not connected gives true; otherwise the transport's own result; offline afterwards |
| LexOrder.Less | MqttClient.h:91-92 | the key order of a `std::map<std::string, …>`: never true for equal strings, a proper prefix sorts first, and different first characters decide |
| LexOrder.LessDecidedAtFirstDifference | MqttClient.h:91-92 | for strings that agree before index `i` and differ at `i`, the characters at `i` decide the order |
| LexOrder.PrefixNotLess | MqttClient.h:91-92 | no string sorts before one of its own prefixes, itself included |
| MqttConnection.Decrement | MqttClient.cpp:55 | `--retries` on a `uint8_t`: undone by adding 1 modulo 256; 0 wraps to 255 |
| MqttConnection.Connect | MqttClient.cpp:41-63 | reference `connect()`: from offline it succeeds exactly when one of the budgeted handshakes succeeds. It attempts up to the first success, with one delay fewer than attempts, and disconnects after each failure. |
| MqttClient.Prefix | MqttClient.cpp:93-103 | exactly the non-zero topic types get a prefix, an 8-character `/word/` |
| MqttClient.TopicPath | MqttClient.cpp:107 | the built path starts with `/`, holds no `//`, is already normalised, and is at most two characters longer than prefix plus fragment |
| MqttClient.TopicTypeValues | MqttClient.h:43-52 | the enumerator values are 0, 10 and 20 and are distinct; exactly the non-zero types have a prefix; the default type is SENSOR (10) |
| MqttClient.TopicPathShape | MqttClient.cpp:93-107 | a created path starts with `/sensor/` or `/switch/`, holds no `//`, and carries the fragment's non-slash characters unchanged |
| MqttClient.PathForm | MqttClient.cpp:107 | a path built from prefix `/w/` is `/w/` followed by the collapsed fragment without its leading slash |
| MqttClient.SwitchPathExample | MqttClient.h:28-29 | a SWITCH fragment `building//room/name` is published under `/switch/building/room/name` |
| MqttClient.NewClientConsistent | MqttClient.cpp:24-27 | a new client has empty registries and satisfies the invariant |
| MqttClient.CreatePublishTopic | MqttClient.cpp:84-114 | false with no change exactly when the name is registered, empty, or of type UNKNOWN. Otherwise the record is added (short name, collapsed prefixed path, type, handle bound to the path, no callback), the other entries are untouched, and no value is returned. |
| MqttClient.CreatePreservesConsistent | MqttClient.cpp:105-111 | creating a topic keeps the client invariant |
| MqttClient.RemovePublishTopic | MqttClient.cpp:119-127 | true exactly when the name was registered; exactly that entry is erased; the invariant is kept |
| MqttClient.CreateSubscribeTopic | MqttClient.h:54 | an empty body: no state change and no return value |
| MqttClient.RemoveSubscribeTopic | MqttClient.h:55 | an empty body: no state change and no return value |
| MqttClient.AddNotifyCallback | MqttClient.cpp:134-142 | true exactly for a registered publish topic; that record becomes the same record with the given callback; every other record, the key set, the subscribe registry and the connectivity are unchanged |
| MqttClient.RemoveNotifyCallback | MqttClient.cpp:147-155 | true exactly for a registered publish topic; that record becomes the same record with an empty callback; every other record, the key set, the subscribe registry and the connectivity are unchanged |
| MqttClient.NotifyCallback | MqttClient.cpp:160-171 | null for an unknown name or an empty callback; otherwise the stored callback |
| MqttClient.CallbackRoundTrip | MqttClient.cpp:134-171 | adding a callback and then reading it back gives the same callback |
| MqttClient.CallbackReplaced | MqttClient.cpp:132-140 | a second add replaces the first: the registry is as if only the second had been made |
| MqttClient.CallbackRemoved | MqttClient.cpp:147-171 | after removal the getter returns null |
| MqttClient.CreatedTopicHasNoCallback | MqttClient.cpp:105-111 | a freshly created topic has no callback |
| MqttClient.Publish | MqttClient.cpp:176-195 | each failure stage (connect, unknown name, missing handle, send error) holds exactly under its condition. A message is handed to a handle only past the first three checks. It then goes to the topic's own handle as `message.c_str()`, the text before the first NUL. The result is true exactly when that send succeeds. Only the connectivity changes. |
| MqttClient.PublishOnConsistent | MqttClient.cpp:186-190 | on a consistent client the handle check never fails, a send goes to the handle bound to the C string of the topic's path, and the invariant is kept |
| MqttClient.CString | MqttClient.cpp:202-204 | a `const char*` read as a string is the longest NUL-free prefix of the bytes |
| MqttClient.CStringOfNulFree | MqttClient.cpp:216-217 | a string without NUL passes through `c_str()` unchanged |
| MqttClient.EnabledState | MqttClient.cpp:203 | on if and only if the payload is exactly the four characters `t`, `r`, `u`, `e`, case-sensitive and untrimmed; an "on" payload holds no NUL |
| MqttClient.Echo | MqttClient.cpp:216 | the echo is the topic, a `/`, and a state word that decodes back to the state echoed |
| MqttClient.EchoSurvivesCString | MqttClient.cpp:216-217 | the echo of a C-string topic, handed on as `newMsg.c_str()`, is `topic + "/true"` or `topic + "/false"` in full |
| MqttClient.LeadingRun | MqttClient.cpp:208-211 | the loop handles exactly the leading entries whose key equals the topic, and stops at the first other key |
| MqttClient.LeadingRunSorted | MqttClient.cpp:208-211 | in a map with unique keys that run is at most one entry long |
| MqttClient.IncomingMessageCallback | MqttClient.cpp:200-230 | the topic and payload are read as C strings. The loop's effects are those of the leading run. On a well-formed map they equal `Dispatch`: the entry for the topic string is handled if and only if it is the least key. |
| MqttClient.DispatchIsFirstEntry | MqttClient.cpp:208-222 | "handled if and only if least key" is the same as "handled if and only if it is the first entry" |
| MqttClient.DispatchEffects | MqttClient.cpp:203-222 | when handled, the topic's own handle (bound to the C string of its path) gets `topic + "/true"` exactly for the payload "true" and `topic + "/false"` otherwise; then the callback, if set, gets the topic and the raw payload; there are no other effects |
| MqttClient.SingleTopicDispatch | MqttClient.cpp:200-222 | a topic registered with a callback on a fresh client: an inbound message is echoed on its handle and passed raw to the callback |
| MqttClient.WrongCaseScenario | MqttClient.cpp:203-221 | payload "TRUE" decodes as off, so the echo is `topic/false`, and the callback still receives "TRUE" |
| MqttClient.ConnectClient | MqttClient.cpp:41-63 | `connect()` on the client changes only the connectivity and returns it; from offline it succeeds exactly when a budgeted handshake succeeds |
| MqttClient.DisconnectClient | MqttClient.cpp:68-74 | `disconnect()` on the client leaves it offline with its registries untouched, and returns true exactly when it was offline or the transport succeeded |
| MqttClient.DisconnectThenReconnect | MqttClient.cpp:41-74 | a second `disconnect()` succeeds and changes nothing; the next `connect()` makes at least one handshake and leaves the registries alone |
| MqttClient.LinkLostThenPublish | MqttClient.cpp:176-195 | after the link drops, `publish()` reconnects first: it makes at least one handshake, sends only if a budgeted handshake succeeded, and leaves the registries alone |
| MqttClient.Apply | MqttClient.h:39-60 | each single public call, and a dropped link, keeps the registries well-formed and keeps the client invariant |
| MqttClient.RunConsistent | MqttClient.h:39-60 | any sequence of the public calls (registry, callback, `publish`, `connect`, `disconnect`), with the link dropping in between, keeps the client invariant |
| MqttClient.BreakDropsLaterTopic | MqttClient.cpp:208-211 | with topics "a" and "b", an inbound message for "b" has no effect, although "b" has a publish handle |
| MqttClient.DispatchByKey | MqttClient.cpp:208-222 | the corrected handler handles the entry whose key is `topic`, wherever it sits in the map, and nothing else |
| MqttClient.DispatchByKeyAnswers | MqttClient.cpp:213-218 | on a consistent client the corrected handler answers every registered name |
| MqttClient.DispatchAgreesOnLeastKey | MqttClient.cpp:208-222 | the handler as written and the corrected one agree when `topic` is the least key |
| MqttClient.CreateSuccessReturnsNothing | MqttClient.cpp:105-114 | a successful registration reaches the end of the function without a `return` |
| MqttClient.CreatePublishTopicFixed | MqttClient.cpp:84-114 | the corrected registration returns true exactly when the topic was newly registered, and changes the state in the same way |
| TemperatureSensor.TemperatureUnitValues | TemperatureSensor.h:16-20 | the unit values are 1 and 2, and they are distinct |
| TemperatureSensor.IsTemperatureValid | TemperatureSensor.h:22 | valid exactly when initialised and the value compares equal to itself, which a NaN never does |
| TemperatureSensor.IsHumidityValid | TemperatureSensor.h:23 | valid exactly when initialised and the value compares equal to itself, which a NaN never does |
| TemperatureSensor.NewSensor | TemperatureSensor.h:40-44 | a new sensor is in Celsius with both readings NaN and invalid |
| TemperatureSensor.ClearTemperature | TemperatureSensor.cpp:5-9 | the temperature becomes NaN and invalid; the humidity and the unit are untouched |
| TemperatureSensor.ClearHumidity | TemperatureSensor.cpp:11-15 | the humidity becomes NaN and invalid; the temperature and the unit are untouched |
| TemperatureSensor.SetTemperatureUnit | TemperatureSensor.cpp:17-23 | the same unit changes nothing; a different unit invalidates the temperature; the stored unit never changes; the humidity is untouched |
| TemperatureSensor.SetTemperature | TemperatureSensor.cpp:25-29 | stores the reading as initialised; valid exactly when it is not NaN; the humidity is untouched |
| TemperatureSensor.SetHumidity | TemperatureSensor.cpp:31-35 | stores the reading as initialised; valid exactly when it is not NaN; the temperature is untouched |
| TemperatureSensor.UnitNeverChanges | TemperatureSensor.cpp:17-23 | no sequence of calls changes the stored unit |
| TemperatureSensor.RunReadings | TemperatureSensor.h:22-23 | after any calls on a fresh sensor, each reading is initialised exactly when the last call affecting it stored a value; it holds that value; it is valid exactly when that value is not NaN |
| TemperatureSensor.RunTestsAssertions | TemperatureSensor.cpp:40-61 | every assertion of the class's own test sequence holds, including the unit still reading Celsius after a switch to Fahrenheit |
| Relays.Construct | Relays.cpp:3-11 | the constructor loop drives every listed pin HIGH (off), leaves every other pin alone, stores the list, and sets the current port to -1 |
| Relays.IsValidPort | Relays.cpp:13-19 | a port is valid exactly when it indexes the list |
| Relays.SetCurrentPort | Relays.cpp:21-29 | the current port becomes the given index when valid and 0 otherwise, and is returned; pins and list are unchanged |
| Relays.TogglePort | Relays.cpp:36-42 | an invalid index returns -1 and writes nothing. A valid one drives that port's pin LOW for on and HIGH for off, touches no other pin, and returns no value. |
| Relays.ToggleCurrentPort | Relays.cpp:31-34 | toggling the current port fails with -1 and no change exactly when the current port is not a valid index. Otherwise it drives that port's pin active-low, touches no other pin, keeps the list and the current port, and returns no value. |
| Relays.DefaultRelayPorts | Relays.h:13 | the default constructor has an empty port list, current port -1, and writes no pin |
| Relays.Drive | Relays.cpp:41 | active-low: on is LOW, off is HIGH |
| Relays.ToggleAfterConstruction | Relays.cpp:3-11 | right after construction `togglePort(state)` fails with -1 and writes nothing |
| Relays.DefaultHasNoPorts | Relays.h:13 | a default-constructed object has no valid port, and every toggle fails |
| Relays.SetCurrentPortWithoutPorts | Relays.cpp:21-29 | with no ports, `setCurrentPort` still answers 0, which is not a valid index |
| Relays.ToggleAfterSetCurrent | Relays.cpp:21-42 | after `setCurrentPort` on a non-empty list, `togglePort(state)` drives the chosen port (the given one if valid, else port 0) |
| Relays.OnThenOff | Relays.cpp:36-42 | switching a port on and then off leaves its pin HIGH and every other pin as it was |

## Left out

- Serial logging, WiFi, and the Adafruit MQTT transport are not modelled. The transport's results are oracle parameters (`handshakes`, `online`, `sendOk`, `transportOk`).
- `delay(MQTT_TIMEOUT)` is counted, not timed. `MQTT_RECONNECT_RETRIES` lives in `secrets.h`, which is not part of this model, so it is a parameter.
- MqttConnection.ConnectLoop: after the loop, the source asks the transport's `connected()` again. The model takes that answer to be "the last handshake returned 0".
- MqttConnection.Disconnect: the model assumes the link is down after `disconnect()` even when the transport reports failure.
- `pinMode(…, OUTPUT)` in the constructor of `RelayPorts` is not modelled; only the `digitalWrite` levels are.
- `RelayPorts::availableRelays()` is left out. Its body evaluates `outputPorts.size()` without returning it, so the caller gets no defined value, and it changes no state.
- The constructor of `RelayPorts` initialises `ports` while the header declares the member as `outputPorts`. The model reads both names as one port list.
- `fahrenheitToCelsius` and `celsiusToFahrenheit` are left out: they are float arithmetic and nothing in the modelled code calls them. Readings are abstract: NaN or a value.
- `SensorDHT` and `SensorDS18B20` are left out. They are hardware drivers that only call the `TemperatureSensor` setters modelled here.
- `stringReplaceAll` is modelled only for the one call the client makes (`"//"` by `"/"`). With a replacement longer than the search text, or an empty replacement, the restart position `pos + replaceStr.size() - 1` behaves differently: it can underflow or search the replacement again.
- MqttClient.IncomingMessageCallback: the `length` argument is not consulted, matching the source. The payload is read up to its first NUL. The callback's boolean return value is ignored, as in the source.
- MqttClient.IncomingMessageCallback: the model assumes a notify callback never calls back into the client, so the handler leaves the client as it was and returns only effects. In the source a `std::function` may do so during the range-for (MqttClient.cpp:208-221). If it calls `removePublishTopic` on the topic being handled, the entry is erased under the loop's iterator, which is undefined behaviour. If it calls `publish()`, that runs `connect()` and can change connectivity. The "at most one entry handled" result holds only under this assumption.
- The broker link can drop at any time. The model lets it drop only between calls, as a `LinkLost` step in a call sequence. A drop in the middle of a call is not modelled. Within `connect()` a drop is covered by the handshake oracle.
- `std::function` and `shared_ptr` identity are opaque values. Copying a `MqttTopicData` copies the same six field values, which refer to the same handle objects.
- Some behaviours of the code, stated because they are easy to assume otherwise:
  - callbacks are looked up in `publishTopics` (MqttClient.cpp:136, 149, 162);
  - `createSubscribeTopic` and `removeSubscribeTopic` have empty bodies (MqttClient.h:54-55), so nothing registers a subscription;
  - inbound messages arrive only through `incomingMessageCallback` (MqttClient.cpp:200); there is no polling call;
  - inbound matching compares map keys with the topic string (MqttClient.cpp:209);
  - the echo is `topic + "/" + state` (MqttClient.cpp:216).
- MqttClient.CreatePublishTopic: the handle is built from `data.pathName.c_str()` (MqttClient.cpp:109), a pointer into a local that dies at MqttClient.cpp:114. The model assumes `Adafruit_MQTT_Publish` keeps its own copy of that C string; that library is not part of this model. If the library keeps the pointer instead, the handle's topic dangles, and `PublishHandle.path` does not describe what the broker receives.
- MqttClient.TopicTypeValues: a `MqttTopicTypes` value other than 0, 10 or 20 is legal C++ and takes the `default:` branch (MqttClient.cpp:100-102), exactly like UNKNOWN. `TopicType` has only the three enumerators, so such values are represented by `Unknown`.
- LexOrder.Less: `std::string` holds bytes. A string here holds each byte as the character U+0000 to U+00FF of the same number. Under that reading, comparing characters is comparing bytes as `unsigned char`, as `char_traits<char>::lt` does. Characters above U+00FF do not occur.

## Findings

| source | as written | input that shows it | evidently intended | confidence | as-written member | corrected member |
|---|---|---|---|---|---|---|
| MqttClient.cpp:208-211 | the inbound loop `break`s at the first map key that differs from the topic, so only the least key can ever be handled | topics "a" and "b" registered; message on topic "b": no echo and no callback | skip non-matching entries and handle the one whose key is the topic | high (not executed) | MqttClient.BreakDropsLaterTopic | MqttClient.DispatchByKey |
| MqttClient.cpp:105-114 | a successful `createPublishTopic` reaches the end of a `bool` function without `return` (undefined behaviour; callers read an unspecified value) | any new non-empty name with type SENSOR or SWITCH | `return true;` after storing the record | high (not executed) | MqttClient.CreateSuccessReturnsNothing | MqttClient.CreatePublishTopicFixed |
