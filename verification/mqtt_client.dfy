/**
 `MqttClient`: the two topic registries keyed by short name, topic creation
 and removal, the per-topic notify callback, `publish()` and the inbound
 message handler. Callbacks and protocol handles are opaque values; the
 broker is an oracle (handshake codes, send results).
 */
module MqttClient {
  import opened Common
  import opened LexOrder
  import opened OrderedMap
  import opened StringReplace
  import MqttConnection

  /** `MqttTopicTypes`, with the enumerator values of the header. */
  datatype TopicType = Unknown | Sensor | Switch
  {
    function Value(): int
    {
      match this
      case Unknown => 0
      case Sensor => 10
      case Switch => 20
    }
  }

  /** The default argument of `createPublishTopic` and `createSubscribeTopic`. */
  const DefaultTopicType: TopicType := Sensor

  /** The three topic types carry distinct enumerator values, and only the two
      with a path prefix can be registered. */
  lemma TopicTypeValues(t: TopicType, u: TopicType)
    ensures t.Value() in {0, 10, 20} && (t.Value() == u.Value() ==> t == u)
    ensures Prefix(t).Some? <==> t.Value() != 0
    ensures DefaultTopicType.Value() == 10
  {
  }

  /** Identity of a `NotifyCallbackFunction`, a `(topic, message) -> bool` value. */
  datatype CallbackId = CallbackId(id: nat)

  /** An `Adafruit_MQTT_Publish` object, bound to the broker path it was built
      with. It is built from `pathName.c_str()`, so `path` is the C string:
      the characters before the first NUL. */
  datatype PublishHandle = PublishHandle(path: string)

  /** An `Adafruit_MQTT_Subscribe` object, bound to its broker path. */
  datatype SubscribeHandle = SubscribeHandle(path: string)

  /** `MqttTopicData`. An absent handle or callback is a null `shared_ptr` or an
      empty `std::function`. Being a value, a copy holds the same six fields and
      so refers to the same handle objects, as the copy constructor does. */
  datatype TopicData = TopicData(
    shortName: string,
    pathName: string,
    topicType: TopicType,
    publishHandler: Option<PublishHandle>,
    subscribeHandler: Option<SubscribeHandle>,
    notifyCallback: Option<CallbackId>)

  /** The client: what the transport's `connected()` reports, and the two
      independent `std::map` registries keyed by short name. */
  datatype Client = Client(online: bool, publishTopics: Entries<TopicData>, subscribeTopics: Entries<TopicData>)

  /** The state an operation leaves behind, and what it returned. */
  datatype Step<T> = Step(client: Client, ret: T)

  /** A freshly constructed client: both registries empty. */
  function NewClient(online: bool): Client
  {
    Client(online, [], [])
  }

  /** Both registries are genuine `std::map`s: keys unique and in order. */
  predicate WellFormed(c: Client)
  {
    Sorted(c.publishTopics) && Sorted(c.subscribeTopics)
  }

  function Publications(c: Client): map<string, TopicData>
  {
    ToMap(c.publishTopics)
  }

  // ---------------------------------------------------------------------------
  // Topic paths

  /** The prefix `createPublishTopic` picks by topic type; `UNKNOWN` has none. */
  function Prefix(t: TopicType): (r: Option<string>)
    ensures r.Some? <==> t.Value() != 0
    ensures r.Some? ==> |r.value| == 8 && r.value[0] == '/' && r.value[7] == '/' && SlashFree(r.value[1..7])
  {
    match t
    case Sensor => Some("/sensor/")
    case Switch => Some("/switch/")
    case Unknown => None
  }

  /** The broker path built for a topic: `"/" + prefix + "/" + mqttPath` with
      every "//" collapsed (`StringReplace.StringReplaceAll` computes the same). */
  function TopicPath(prefix: string, mqttPath: string): (r: string)
    ensures NoDoubleSlash(r) && r == Collapse(r)
    ensures |r| > 0 && r[0] == '/'
    ensures |r| <= |prefix| + |mqttPath| + 2
  {
    var raw := "/" + prefix + "/" + mqttPath;
    CollapseIdempotent(raw);
    Collapse(raw)
  }

  predicate SlashFree(w: string)
  {
    forall i | 0 <= i < |w| :: w[i] != '/'
  }

  lemma {:induction false} CollapseWord(w: string, x: string)
    requires SlashFree(w)
    ensures Collapse(w + x) == w + Collapse(x)
    decreases |w|
  {
    if |w| > 0 {
      var s := w + x;
      assert s[0] == w[0] && s[1..] == w[1..] + x;
      CollapseWord(w[1..], x);
      if |s| < 2 {
        assert s == w && x == [] && w + Collapse(x) == w;
      } else {
        assert s[0] != '/';
        assert Collapse(s) == [w[0]] + (w[1..] + Collapse(x));
      }
      assert w == [w[0]] + w[1..];
    } else {
      assert w + x == x;
    }
  }

  /** Proof step only: regroups a concatenation. */
  lemma Assoc(a: string, b: string, c: string)
    ensures a + (b + c) == a + b + c
  {
  }

  lemma CollapseDoubled(x: string)
    ensures Collapse("//" + x) == Collapse("/" + x)
  {
    assert ("//" + x)[1..] == "/" + x;
  }

  lemma CollapseSlashWord(w: string, x: string)
    requires |w| > 0 && SlashFree(w)
    ensures Collapse("/" + w + x) == "/" + w + Collapse(x)
  {
    var s := "/" + w + x;
    assert s[0] == '/' && s[1] == w[0] && s[1..] == w + x;
    assert w[0] != '/';
    assert Collapse(s) == [s[0]] + Collapse(s[1..]);
    CollapseWord(w, x);
    assert "/" + w + Collapse(x) == [s[0]] + (w + Collapse(x));
  }

  /** Proof step only: the raw path of prefix "/w/", regrouped. */
  lemma RawPathGrouping(w: string, mqttPath: string)
    ensures "/" + ("/" + w + "/") + "/" + mqttPath == "/" + ("/" + (w + ("/" + ("/" + mqttPath))))
  {
  }

  /** Proof step only: splits off a leading '/'. */
  lemma LeadingSlash(a: string, c: string)
    requires |c| > 0 && c[0] == '/'
    ensures a + c == a + "/" + c[1..]
  {
    assert c == "/" + c[1..];
    Assoc(a, "/", c[1..]);
  }

  /** The doubled slashes around the prefix word collapse. */
  lemma PrefixCollapse(w: string, mqttPath: string)
    requires |w| > 0 && SlashFree(w)
    ensures TopicPath("/" + w + "/", mqttPath) == "/" + w + Collapse("/" + ("/" + mqttPath))
  {
    var tail := "/" + mqttPath;
    RawPathGrouping(w, mqttPath);
    CollapseDoubled(w + ("/" + tail));
    Assoc("/", w, "/" + tail);
    CollapseSlashWord(w, "/" + tail);
  }

  /** A path built from the prefix "/w/" is "/w/" followed by the collapsed
      fragment with its leading slashes gone. */
  lemma PathForm(w: string, mqttPath: string)
    requires |w| > 0 && SlashFree(w)
    ensures TopicPath("/" + w + "/", mqttPath) == "/" + w + "/" + Collapse("/" + mqttPath)[1..]
  {
    PrefixCollapse(w, mqttPath);
    CollapseDoubled(mqttPath);
    LeadingSlash("/" + w, Collapse("/" + mqttPath));
  }

  /** Building the path only ever adds or removes '/' characters. */
  lemma PathText(w: string, mqttPath: string)
    requires SlashFree(w)
    ensures Unslashed(TopicPath("/" + w + "/", mqttPath)) == w + Unslashed(mqttPath)
  {
    var raw := "/" + ("/" + w + "/") + "/" + mqttPath;
    CollapseKeepsText(raw);
    RawPathGrouping(w, mqttPath);
    UnslashedSlash("/" + (w + ("/" + ("/" + mqttPath))));
    UnslashedSlash(w + ("/" + ("/" + mqttPath)));
    UnslashedAppend(w, "/" + ("/" + mqttPath));
    SlashFreeUnslashed(w);
    UnslashedSlash("/" + mqttPath);
    UnslashedSlash(mqttPath);
  }

  lemma PrefixText(w: string)
    requires SlashFree(w)
    ensures Unslashed("/" + w + "/") == w
  {
    Assoc("/", w, "/");
    UnslashedSlash(w + "/");
    UnslashedAppend(w, "/");
    SlashFreeUnslashed(w);
  }

  /** A path built from the prefix "/w/" keeps the prefix, holds no "//", and
      carries the fragment's characters other than '/' unchanged. */
  lemma PathShape(w: string, mqttPath: string)
    requires |w| > 0 && SlashFree(w)
    ensures var prefix := "/" + w + "/";
      && var path := TopicPath(prefix, mqttPath);
      && |path| >= |prefix| && path[..|prefix|] == prefix
      && NoDoubleSlash(path)
      && Unslashed(path) == Unslashed(prefix) + Unslashed(mqttPath)
  {
    PathForm(w, mqttPath);
    PathText(w, mqttPath);
    PrefixText(w);
  }

  /** Proof step only: a leading '/' contributes no text. */
  lemma UnslashedSlash(s: string)
    ensures Unslashed("/" + s) == Unslashed(s)
  {
    assert ("/" + s)[1..] == s;
  }

  lemma {:induction false} SlashFreeUnslashed(w: string)
    requires SlashFree(w)
    ensures Unslashed(w) == w
    decreases |w|
  {
    if |w| > 0 {
      SlashFreeUnslashed(w[1..]);
      assert w == [w[0]] + w[1..];
    }
  }

  /** The path of a created topic starts with its type's prefix, as the header's
      `/sensor/[building]/[room]/[name]` and `/switch/...` forms require. */
  lemma TopicPathShape(t: TopicType, mqttPath: string)
    requires Prefix(t).Some?
    ensures var prefix := Prefix(t).value;
      && var path := TopicPath(prefix, mqttPath);
      && |path| >= |prefix| && path[..|prefix|] == prefix
      && NoDoubleSlash(path)
      && Unslashed(path) == Unslashed(prefix) + Unslashed(mqttPath)
  {
    var w := if t == Sensor then "sensor" else "switch";
    assert Prefix(t).value == "/" + w + "/";
    PathShape(w, mqttPath);
  }

  // ---------------------------------------------------------------------------
  // The registry invariant

  /** A publish record as `createPublishTopic` builds it. */
  predicate RecordConsistent(name: string, d: TopicData)
  {
    && d.shortName == name
    && name != ""
    && Prefix(d.topicType).Some?
    && |d.pathName| >= |Prefix(d.topicType).value|
    && d.pathName[..|Prefix(d.topicType).value|] == Prefix(d.topicType).value
    && NoDoubleSlash(d.pathName)
    && d.publishHandler == Some(PublishHandle(CString(d.pathName)))
    && d.subscribeHandler.None?
  }

  /** What every reachable client satisfies: well-formed registries, publish
      records as built by `createPublishTopic`, and no subscribe record at all
      (nothing ever inserts one). */
  predicate Consistent(c: Client)
  {
    RegistriesConsistent(c.publishTopics, c.subscribeTopics)
  }

  /** `Consistent` speaks of the registries only, whatever the connectivity. */
  predicate RegistriesConsistent(publishTopics: Entries<TopicData>, subscribeTopics: Entries<TopicData>)
  {
    && Sorted(publishTopics) && Sorted(subscribeTopics)
    && (forall k | k in ToMap(publishTopics) :: RecordConsistent(k, ToMap(publishTopics)[k]))
    && subscribeTopics == []
  }

  lemma NewClientConsistent(online: bool)
    ensures Consistent(NewClient(online))
    ensures Publications(NewClient(online)) == map[]
  {
  }

  // ---------------------------------------------------------------------------
  // Registry operations

  /** `createPublishTopic`. It refuses (returns false, changes nothing) an
      already registered or empty name, and a type with no prefix; otherwise
      it stores a new record and falls off the end without a return value. */
  function CreatePublishTopic(c: Client, topicName: string, mqttPath: string, topicType: TopicType): (r: Step<Ret<bool>>)
    requires WellFormed(c)
    ensures WellFormed(r.client)
    ensures r.ret == Returned(false) <==> topicName in Publications(c) || |topicName| == 0 || topicType == Unknown
    ensures r.ret != Returned(false) ==> r.ret == FellOffEnd
    ensures r.ret == Returned(false) ==> r.client == c
    ensures r.ret == FellOffEnd ==>
      && r.client.online == c.online
      && r.client.subscribeTopics == c.subscribeTopics
      && Publications(r.client).Keys == Publications(c).Keys + {topicName}
      && (forall k | k in Publications(c) :: Publications(r.client)[k] == Publications(c)[k])
      && var d := Publications(r.client)[topicName];
      && d.shortName == topicName
      && d.pathName == TopicPath(Prefix(topicType).value, mqttPath)
      && d.topicType == topicType
      && d.publishHandler == Some(PublishHandle(CString(d.pathName)))
      && d.subscribeHandler.None? && d.notifyCallback.None?
  {
    if Get(c.publishTopics, topicName).Some? || |topicName| < 1 then
      Step(c, Returned(false))
    else
      match Prefix(topicType)
      case None => Step(c, Returned(false))
      case Some(prefix) =>
        var path := TopicPath(prefix, mqttPath);
        var data := TopicData(topicName, path, topicType, Some(PublishHandle(CString(path))), None, None);
        Step(c.(publishTopics := Assign(c.publishTopics, topicName, data)), FellOffEnd)
  }

  /** Creating a topic keeps the client consistent: the new record carries its
      type's prefix, a path free of "//" and a handle bound to that path. */
  lemma CreatePreservesConsistent(c: Client, topicName: string, mqttPath: string, topicType: TopicType)
    requires Consistent(c)
    ensures Consistent(CreatePublishTopic(c, topicName, mqttPath, topicType).client)
  {
    var r := CreatePublishTopic(c, topicName, mqttPath, topicType);
    if r.ret.FellOffEnd? {
      TopicPathShape(topicType, mqttPath);
      assert RecordConsistent(topicName, Publications(r.client)[topicName]);
    }
  }

  /** `createPublishTopic` with the `return true` its success path lacks:
      true exactly when the topic was registered. */
  function CreatePublishTopicFixed(c: Client, topicName: string, mqttPath: string, topicType: TopicType): (r: Step<bool>)
    requires WellFormed(c)
    ensures r.ret <==> topicName !in Publications(c) && |topicName| > 0 && topicType != Unknown
    ensures r.ret <==> topicName in Publications(r.client) && topicName !in Publications(c)
    ensures r.client == CreatePublishTopic(c, topicName, mqttPath, topicType).client
  {
    var w := CreatePublishTopic(c, topicName, mqttPath, topicType);
    Step(w.client, w.ret == FellOffEnd)
  }

  /** As written, a successful `createPublishTopic` hands its caller no value. */
  lemma CreateSuccessReturnsNothing(c: Client, topicName: string, mqttPath: string)
    requires WellFormed(c) && topicName !in Publications(c) && |topicName| > 0
    ensures CreatePublishTopic(c, topicName, mqttPath, DefaultTopicType).ret == FellOffEnd
    ensures CreatePublishTopicFixed(c, topicName, mqttPath, DefaultTopicType).ret
  {
  }

  /** `removePublishTopic`: false and no change for an unknown name, otherwise
      exactly that entry is erased. */
  function RemovePublishTopic(c: Client, topicName: string): (r: Step<bool>)
    requires WellFormed(c)
    ensures WellFormed(r.client)
    ensures r.ret <==> topicName in Publications(c)
    ensures !r.ret ==> r.client == c
    ensures Publications(r.client) == Publications(c) - {topicName}
    ensures r.client.online == c.online && r.client.subscribeTopics == c.subscribeTopics
    ensures Consistent(c) ==> Consistent(r.client)
  {
    if Get(c.publishTopics, topicName).None? then
      Step(c, false)
    else
      Step(c.(publishTopics := Erase(c.publishTopics, topicName)), true)
  }

  /** `createSubscribeTopic`: an empty body in the header. It changes nothing and
      returns no value. */
  function CreateSubscribeTopic(c: Client, topicName: string, mqttPath: string, topicType: TopicType): (r: Step<Ret<bool>>)
    ensures r.client == c && r.ret.FellOffEnd?
  {
    Step(c, FellOffEnd)
  }

  /** `removeSubscribeTopic`: an empty body in the header, likewise. */
  function RemoveSubscribeTopic(c: Client, topicName: string): (r: Step<Ret<bool>>)
    ensures r.client == c && r.ret.FellOffEnd?
  {
    Step(c, FellOffEnd)
  }

  /** Replaces the callback of a publish record (the three callback operations
      look names up in `publishTopics`). */
  function SetCallback(c: Client, topicName: string, callback: Option<CallbackId>): (r: Step<bool>)
    requires WellFormed(c)
    ensures WellFormed(r.client)
    ensures r.ret <==> topicName in Publications(c)
    ensures !r.ret ==> r.client == c
    ensures r.ret ==>
      Publications(r.client) == Publications(c)[topicName := Publications(c)[topicName].(notifyCallback := callback)]
    ensures r.client.online == c.online && r.client.subscribeTopics == c.subscribeTopics
    ensures Consistent(c) ==> Consistent(r.client)
  {
    match Get(c.publishTopics, topicName)
    case None => Step(c, false)
    case Some(d) => Step(c.(publishTopics := Assign(c.publishTopics, topicName, d.(notifyCallback := callback))), true)
  }

  /** `addNotifyCallback`: installs `callback` (which may itself be empty) on a
      known publish topic, replacing any earlier one. */
  function AddNotifyCallback(c: Client, topicName: string, callback: Option<CallbackId>): (r: Step<bool>)
    requires WellFormed(c)
    ensures WellFormed(r.client)
    ensures r.ret <==> topicName in Publications(c)
    ensures !r.ret ==> r.client == c
    ensures r.ret ==> Publications(r.client).Keys == Publications(c).Keys
    ensures r.ret ==> Publications(r.client)[topicName].notifyCallback == callback
    ensures r.ret ==> forall k | k in Publications(c) && k != topicName :: Publications(r.client)[k] == Publications(c)[k]
    ensures r.ret ==> Publications(r.client)[topicName] == Publications(c)[topicName].(notifyCallback := callback)
    ensures r.client.online == c.online && r.client.subscribeTopics == c.subscribeTopics
    ensures Consistent(c) ==> Consistent(r.client)
  {
    SetCallback(c, topicName, callback)
  }

  /** `removeNotifyCallback`: clears the callback of a known publish topic. */
  function RemoveNotifyCallback(c: Client, topicName: string): (r: Step<bool>)
    requires WellFormed(c)
    ensures WellFormed(r.client)
    ensures r.ret <==> topicName in Publications(c)
    ensures !r.ret ==> r.client == c
    ensures r.ret ==> Publications(r.client).Keys == Publications(c).Keys
    ensures r.ret ==> Publications(r.client)[topicName].notifyCallback.None?
    ensures r.ret ==> forall k | k in Publications(c) && k != topicName :: Publications(r.client)[k] == Publications(c)[k]
    ensures r.ret ==> Publications(r.client)[topicName] == Publications(c)[topicName].(notifyCallback := None)
    ensures r.client.online == c.online && r.client.subscribeTopics == c.subscribeTopics
    ensures Consistent(c) ==> Consistent(r.client)
  {
    SetCallback(c, topicName, None)
  }

  /** `notifyCallback`: the callback of a known publish topic; null for an
      unknown name or when none is set. */
  function NotifyCallback(c: Client, topicName: string): (r: Option<CallbackId>)
    ensures topicName !in Publications(c) ==> r.None?
    ensures r.Some? ==> topicName in Publications(c) && Publications(c)[topicName].notifyCallback == r
    ensures topicName in Publications(c) && Publications(c)[topicName].notifyCallback.Some? ==> r.Some?
  {
    match Get(c.publishTopics, topicName)
    case None => None
    case Some(d) => if d.notifyCallback.None? then None else d.notifyCallback
  }

  /** Installing a callback and reading it back gives the same callback. */
  lemma CallbackRoundTrip(c: Client, topicName: string, cb: CallbackId)
    requires WellFormed(c) && topicName in Publications(c)
    ensures NotifyCallback(AddNotifyCallback(c, topicName, Some(cb)).client, topicName) == Some(cb)
  {
  }

  /** A second `addNotifyCallback` replaces the first: the registry ends up as
      if only the second had been made. */
  lemma CallbackReplaced(c: Client, topicName: string, first: Option<CallbackId>, second: Option<CallbackId>)
    requires WellFormed(c)
    ensures var c1 := AddNotifyCallback(c, topicName, first).client;
      Publications(AddNotifyCallback(c1, topicName, second).client) == Publications(AddNotifyCallback(c, topicName, second).client)
  {
  }

  /** After `removeNotifyCallback` the getter returns null. */
  lemma CallbackRemoved(c: Client, topicName: string)
    requires WellFormed(c)
    ensures NotifyCallback(RemoveNotifyCallback(c, topicName).client, topicName).None?
  {
  }

  /** A freshly created topic has no callback. */
  lemma CreatedTopicHasNoCallback(c: Client, topicName: string, mqttPath: string, topicType: TopicType)
    requires WellFormed(c)
    ensures var r := CreatePublishTopic(c, topicName, mqttPath, topicType);
      r.ret.FellOffEnd? ==> NotifyCallback(r.client, topicName).None?
  {
  }

  // ---------------------------------------------------------------------------
  // publish()

  /** Where `publish` stopped: the step that failed, or `Sent`. */
  datatype PublishStage = ConnectFailed | UnknownTopic | NoHandler | SendFailed | Sent

  /** The outcome of one `publish` call: the client afterwards, its result, the
      stage reached, what `connect()` did, and the messages handed to a handle. */
  datatype PublishReport = PublishReport(
    client: Client,
    ok: bool,
    stage: PublishStage,
    connect: MqttConnection.ConnectReport,
    sends: seq<(PublishHandle, string)>)

  /** `publish(topicName, message)`: connect, look the name up, check the
      handle, send `message.c_str()`. `sendOk` is the handle's `publish()` result. */
  function Publish(c: Client, topicName: string, message: string,
                   retries: MqttConnection.uint8, handshakes: seq<int>, sendOk: bool): (r: PublishReport)
    requires MqttConnection.Budget(retries) <= |handshakes|
    ensures r.connect == MqttConnection.Connect(c.online, retries, handshakes)
    ensures r.client == c.(online := r.connect.online)
    ensures r.ok <==> r.stage == Sent
    ensures r.stage == ConnectFailed <==> !r.connect.online
    ensures r.stage == UnknownTopic <==> r.connect.online && topicName !in Publications(c)
    ensures r.stage == NoHandler <==>
      r.connect.online && topicName in Publications(c) && Publications(c)[topicName].publishHandler.None?
    ensures r.stage in {SendFailed, Sent} <==> |r.sends| > 0
    ensures |r.sends| > 0 ==>
      && topicName in Publications(c)
      && r.sends == [(Publications(c)[topicName].publishHandler.value, CString(message))]
    ensures r.ok <==> |r.sends| > 0 && sendOk
  {
    var conn := MqttConnection.Connect(c.online, retries, handshakes);
    var c' := c.(online := conn.online);
    if !conn.online then
      PublishReport(c', false, ConnectFailed, conn, [])
    else
      match Get(c.publishTopics, topicName)
      case None => PublishReport(c', false, UnknownTopic, conn, [])
      case Some(d) =>
        if d.publishHandler.None? then
          PublishReport(c', false, NoHandler, conn, [])
        else if !sendOk then
          PublishReport(c', false, SendFailed, conn, [(d.publishHandler.value, CString(message))])
        else
          PublishReport(c', true, Sent, conn, [(d.publishHandler.value, CString(message))])
  }

  /** On a consistent client the handle check never fails, a send goes to the
      handle bound to the topic's path, and the registries are untouched. */
  lemma PublishOnConsistent(c: Client, topicName: string, message: string,
                            retries: MqttConnection.uint8, handshakes: seq<int>, sendOk: bool)
    requires Consistent(c)
    requires MqttConnection.Budget(retries) <= |handshakes|
    ensures var r := Publish(c, topicName, message, retries, handshakes, sendOk);
      && r.stage != NoHandler
      && Consistent(r.client)
      && (|r.sends| > 0 ==> r.sends[0].0.path == CString(Publications(c)[topicName].pathName))
  {
  }

  // ---------------------------------------------------------------------------
  // Inbound messages

  /** What the inbound handler makes happen outside the client. */
  datatype Effect =
    | Send(handle: PublishHandle, message: string)
    | Invoke(callback: CallbackId, topic: string, message: string)

  /** No NUL character: what a C string can hold. */
  predicate NulFree(s: string)
  {
    forall i | 0 <= i < |s| :: s[i] != '\0'
  }

  /** Reading bytes as a C string (`(const char*)payload`, a `char*` turned
      into a `std::string`, or what `c_str()` hands on): the characters before
      the first NUL. No length is consulted. */
  function CString(bytes: seq<char>): (r: string)
    ensures |r| <= |bytes| && r == bytes[..|r|]
    ensures NulFree(r)
    ensures |r| < |bytes| ==> bytes[|r|] == '\0'
  {
    if |bytes| == 0 || bytes[0] == '\0' then [] else [bytes[0]] + CString(bytes[1..])
  }

  /** A string without NUL reads back unchanged through `c_str()`. */
  lemma {:induction false} CStringOfNulFree(s: string)
    requires NulFree(s)
    ensures CString(s) == s
    decreases |s|
  {
    if |s| > 0 {
      assert NulFree(s[1..]) by {
        forall i | 0 <= i < |s| - 1 ensures s[1..][i] != '\0' {
          assert s[1..][i] == s[i + 1];
        }
      }
      CStringOfNulFree(s[1..]);
      assert s == [s[0]] + s[1..];
    }
  }

  /** The decoded switch state: on for the four lower-case characters
      t, r, u, e and nothing else (case-sensitive, no trimming). */
  function EnabledState(payload: string): (b: bool)
    ensures b ==> NulFree(payload) && |payload| == 4
    ensures b <==> |payload| == 4 && payload[0] == 't' && payload[1] == 'r' && payload[2] == 'u' && payload[3] == 'e'
  {
    payload == "true"
  }

  /** The answer published back on the topic's own handle: the topic, a '/',
      and the decoded state, which reads back as the same state. */
  function Echo(topic: string, enabled: bool): (r: string)
    ensures |r| > |topic| && r[..|topic|] == topic && r[|topic|] == '/'
    ensures EnabledState(r[|topic| + 1..]) == enabled
    ensures NulFree(topic) ==> NulFree(r)
  {
    var state := if enabled then "true" else "false";
    var r := topic + "/" + state;
    assert r[|topic| + 1..] == state;
    assert r[..|topic|] == topic;
    r
  }

  /** What handling one registry entry does: echo on its handle (the echo
      passes through `c_str()`), then call its callback. */
  function EntryEffects(topic: string, payload: string, d: TopicData): seq<Effect>
  {
    (if d.publishHandler.Some? then [Send(d.publishHandler.value, CString(Echo(topic, EnabledState(payload))))] else [])
    + (if d.notifyCallback.Some? then [Invoke(d.notifyCallback.value, topic, payload)] else [])
  }

  /** Effects of handling each of `es` in turn. */
  function HandleAll(topic: string, payload: string, es: Entries<TopicData>): seq<Effect>
  {
    if |es| == 0 then [] else HandleAll(topic, payload, es[..|es| - 1]) + EntryEffects(topic, payload, es[|es| - 1].1)
  }

  /** How many leading entries have `topic` as their key: the loop handles
      these and breaks at the next. */
  function LeadingRun(es: Entries<TopicData>, topic: string): (n: nat)
    ensures n <= |es|
    ensures forall j | 0 <= j < n :: es[j].0 == topic
    ensures n < |es| ==> es[n].0 != topic
  {
    if |es| == 0 || es[0].0 != topic then 0 else 1 + LeadingRun(es[1..], topic)
  }

  /** Reference semantics of the handler over a `std::map`: with `t` the
      topic read as a C string, the entry for `t` is handled iff `t` is the
      least key; nothing else is. */
  function Dispatch(c: Client, topic: seq<char>, payload: seq<char>): seq<Effect>
  {
    var m := Publications(c);
    var t := CString(topic);
    if t in m && forall k | k in m && k != t :: Less(t, k) then
      EntryEffects(t, CString(payload), m[t])
    else
      []
  }

  /** On a sorted registry the loop handles at most one entry, the first. */
  lemma LeadingRunSorted(es: Entries<TopicData>, topic: string)
    requires Sorted(es)
    ensures LeadingRun(es, topic) == if |es| > 0 && es[0].0 == topic then 1 else 0
  {
    if |es| > 1 && es[0].0 == topic {
      SecondDiffers(es);
    }
  }

  lemma DispatchIsFirstEntry(c: Client, topic: seq<char>, payload: seq<char>)
    requires WellFormed(c)
    ensures Dispatch(c, topic, payload) ==
      if |c.publishTopics| > 0 && c.publishTopics[0].0 == CString(topic)
      then EntryEffects(CString(topic), CString(payload), c.publishTopics[0].1) else []
  {
    var es := c.publishTopics;
    var t := CString(topic);
    if |es| > 0 {
      FirstIsLeast(es);
      if es[0].0 != t && t in ToMap(es) {
        Asymmetric(es[0].0, t);
      }
    }
  }

  /**
   `incomingMessageCallback(topic, payload, length)`: a range-for over
   `publishTopics` in key order that breaks at the first key other than
   the topic string and handles each entry before that.
   */
  method IncomingMessageCallback(c: Client, topic: seq<char>, payload: seq<char>) returns (effects: seq<Effect>)
    ensures effects == HandleAll(CString(topic), CString(payload), c.publishTopics[..LeadingRun(c.publishTopics, CString(topic))])
    ensures WellFormed(c) ==> effects == Dispatch(c, topic, payload)
  {
    var es := c.publishTopics;
    var tmp := CString(payload);
    var topicStr := CString(topic);
    effects := [];
    var i := 0;
    while i < |es|
      invariant 0 <= i <= LeadingRun(es, topicStr)
      invariant effects == HandleAll(topicStr, tmp, es[..i])
    {
      if es[i].0 != topicStr {
        break;
      }
      assert es[..i + 1][..i] == es[..i];
      effects := effects + EntryEffects(topicStr, tmp, es[i].1);
      i := i + 1;
    }
    assert i == LeadingRun(es, topicStr);
    if WellFormed(c) {
      LeadingRunSorted(es, topicStr);
      DispatchIsFirstEntry(c, topic, payload);
      assert |es| > 0 ==> es[..1] == [es[0]];
    }
  }

  /** The echo of a C-string topic is not cut short by `c_str()`. */
  lemma EchoSurvivesCString(t: string, enabled: bool)
    requires NulFree(t)
    ensures CString(Echo(t, enabled)) == t + "/" + (if enabled then "true" else "false")
  {
    CStringOfNulFree(Echo(t, enabled));
  }

  /** The inbound effects, spelled out: when the topic string `t` is the least
      key, its handle gets `t + "/true"` exactly when the payload is "true"
      (and `t + "/false"` otherwise), then its callback gets `t` and the raw
      payload. */
  lemma DispatchEffects(c: Client, topic: seq<char>, payload: seq<char>)
    requires Consistent(c)
    ensures var effects := Dispatch(c, topic, payload);
      && var t := CString(topic);
      && |effects| <= 2
      && (|effects| > 0 <==> |c.publishTopics| > 0 && c.publishTopics[0].0 == t)
      && (|effects| > 0 ==>
            && effects[0] == Send(PublishHandle(CString(Publications(c)[t].pathName)),
                                  t + "/" + (if CString(payload) == "true" then "true" else "false"))
            && (|effects| == 2 <==> Publications(c)[t].notifyCallback.Some?)
            && (|effects| == 2 ==>
                  effects[1] == Invoke(Publications(c)[t].notifyCallback.value, t, CString(payload))))
  {
    var t := CString(topic);
    DispatchIsFirstEntry(c, topic, payload);
    EchoSurvivesCString(t, EnabledState(CString(payload)));
    if |c.publishTopics| > 0 && c.publishTopics[0].0 == t {
      FirstIsLeast(c.publishTopics);
    }
  }

  // ---------------------------------------------------------------------------
  // connect() and disconnect() on the client

  /** `connect()`: only the connectivity changes, and the result is the new
      connectivity. From offline it is true exactly when one of the budgeted
      handshakes succeeds. */
  function ConnectClient(c: Client, retries: MqttConnection.uint8, handshakes: seq<int>): (r: Step<bool>)
    requires MqttConnection.Budget(retries) <= |handshakes|
    ensures r.client == c.(online := r.ret)
    ensures c.online ==> r.ret
    ensures !c.online ==>
      (r.ret <==> exists j | 0 <= j < MqttConnection.Budget(retries) :: handshakes[j] == MqttConnection.HandshakeOk)
  {
    var online := MqttConnection.Connect(c.online, retries, handshakes).online;
    Step(c.(online := online), online)
  }

  /** `disconnect()`: true when already offline, otherwise the transport's
      result; the registries are untouched and the client is offline after. */
  function DisconnectClient(c: Client, transportOk: bool): (r: Step<bool>)
    ensures r.client == c.(online := false)
    ensures r.ret <==> !c.online || transportOk
  {
    var d := MqttConnection.Disconnect(c.online, transportOk);
    Step(c.(online := d.online), d.ok)
  }

  /** A second `disconnect()` succeeds and changes nothing, and the next
      `connect()` goes back to the broker for at least one handshake. */
  lemma DisconnectThenReconnect(c: Client, transportOk: bool, retries: MqttConnection.uint8, handshakes: seq<int>)
    requires MqttConnection.Budget(retries) <= |handshakes|
    ensures var c1 := DisconnectClient(c, transportOk).client;
      && DisconnectClient(c1, transportOk) == Step(c1, true)
      && MqttConnection.Connect(c1.online, retries, handshakes).attempts >= 1
      && ConnectClient(c1, retries, handshakes).client.publishTopics == c.publishTopics
  {
  }

  /** After the link drops on its own, the next `publish()` reconnects before
      it sends: it makes at least one handshake, and it sends only when one of
      its budgeted handshakes succeeded. The registries are untouched. */
  lemma LinkLostThenPublish(c: Client, topicName: string, message: string,
                            retries: MqttConnection.uint8, handshakes: seq<int>, sendOk: bool)
    requires WellFormed(c)
    requires MqttConnection.Budget(retries) <= |handshakes|
    ensures var r := Publish(Apply(c, LinkLost), topicName, message, retries, handshakes, sendOk);
      && r.connect.attempts >= 1
      && (|r.sends| > 0 ==> exists j | 0 <= j < MqttConnection.Budget(retries) :: handshakes[j] == MqttConnection.HandshakeOk)
      && r.client.publishTopics == c.publishTopics
  {
  }

  // ---------------------------------------------------------------------------
  // Sequences of calls

  /** The public calls that change a client, and `LinkLost`: the broker link
      dropping between calls, after which the transport's `connected()`
      answers false. */
  datatype ClientOp =
    | CreatePublish(topicName: string, mqttPath: string, topicType: TopicType)
    | RemovePublish(topicName: string)
    | CreateSubscribe(topicName: string, mqttPath: string, topicType: TopicType)
    | RemoveSubscribe(topicName: string)
    | AddCallback(topicName: string, callback: Option<CallbackId>)
    | RemoveCallback(topicName: string)
    | PublishMessage(topicName: string, message: string, retries: MqttConnection.uint8, handshakes: seq<int>, sendOk: bool)
    | ConnectCall(retries: MqttConnection.uint8, handshakes: seq<int>)
    | DisconnectCall(transportOk: bool)
    | LinkLost

  /** A `publish` or `connect` call comes with a handshake outcome for every
      attempt it may make. */
  predicate Admissible(op: ClientOp)
  {
    (op.PublishMessage? || op.ConnectCall?) ==> MqttConnection.Budget(op.retries) <= |op.handshakes|
  }

  /** One call. Every public call, and a dropped link, keeps the client
      invariant. */
  function Apply(c: Client, op: ClientOp): (r: Client)
    requires WellFormed(c) && Admissible(op)
    ensures WellFormed(r)
    ensures Consistent(c) ==> Consistent(r)
  {
    var r := match op
      case CreatePublish(n, p, t) => CreatePublishTopicFixed(c, n, p, t).client
      case RemovePublish(n) => RemovePublishTopic(c, n).client
      case CreateSubscribe(n, p, t) => CreateSubscribeTopic(c, n, p, t).client
      case RemoveSubscribe(n) => RemoveSubscribeTopic(c, n).client
      case AddCallback(n, cb) => AddNotifyCallback(c, n, cb).client
      case RemoveCallback(n) => RemoveNotifyCallback(c, n).client
      case PublishMessage(n, m, k, hs, ok) => Publish(c, n, m, k, hs, ok).client
      case ConnectCall(k, hs) => ConnectClient(c, k, hs).client
      case DisconnectCall(ok) => DisconnectClient(c, ok).client
      case LinkLost => c.(online := false);
    assert Consistent(c) ==> Consistent(r) by {
      if Consistent(c) {
        if op.CreatePublish? {
          CreatePreservesConsistent(c, op.topicName, op.mqttPath, op.topicType);
        } else if op.PublishMessage? {
          PublishOnConsistent(c, op.topicName, op.message, op.retries, op.handshakes, op.sendOk);
        }
      }
    }
    r
  }

  /** The client after the calls `ops`, made in order. */
  function Run(c: Client, ops: seq<ClientOp>): (r: Client)
    requires WellFormed(c) && forall i | 0 <= i < |ops| :: Admissible(ops[i])
    ensures WellFormed(r)
    decreases |ops|
  {
    if |ops| == 0 then c else Apply(Run(c, ops[..|ops| - 1]), ops[|ops| - 1])
  }

  /** Whatever calls are made on a fresh client, every publish record keeps
      the shape `createPublishTopic` gave it and the subscribe registry stays
      empty. */
  lemma {:induction false} RunConsistent(c: Client, ops: seq<ClientOp>)
    requires Consistent(c) && forall i | 0 <= i < |ops| :: Admissible(ops[i])
    ensures Consistent(Run(c, ops))
    decreases |ops|
  {
    if |ops| > 0 {
      RunConsistent(c, ops[..|ops| - 1]);
    }
  }

  // ---------------------------------------------------------------------------
  // Worked scenarios

  /** "/name" is already collapsed. */
  lemma OneSegment(name: string)
    requires |name| > 0 && SlashFree(name)
    ensures Collapse("/" + name) == "/" + name
  {
    CollapseSlashWord(name, "");
    assert "/" + name + "" == "/" + name;
  }

  /** "//room/name" collapses to "/room/name". */
  lemma TwoSegments(room: string, name: string)
    requires |room| > 0 && SlashFree(room)
    requires |name| > 0 && SlashFree(name)
    ensures Collapse("//" + (room + ("/" + name))) == "/" + room + ("/" + name)
  {
    OneSegment(name);
    CollapseSlashWord(room, "/" + name);
    CollapseDoubled(room + ("/" + name));
    Assoc("/", room, "/" + name);
  }

  /** "/building//room/name" collapses to "/building/room/name". */
  lemma ThreeSegments(building: string, room: string, name: string)
    requires |building| > 0 && SlashFree(building)
    requires |room| > 0 && SlashFree(room)
    requires |name| > 0 && SlashFree(name)
    ensures Collapse("/" + building + ("//" + (room + ("/" + name)))) == "/" + building + ("/" + room + ("/" + name))
  {
    TwoSegments(room, name);
    CollapseSlashWord(building, "//" + (room + ("/" + name)));
  }

  /** Proof step only: the example's raw path, regrouped. */
  lemma ExampleStrings(building: string, room: string, name: string)
    ensures "/" + "/switch/" + "/" + (building + "//" + room + "/" + name)
         == "//" + ("switch" + ("//" + (building + ("//" + (room + ("/" + name))))))
    ensures "/" + "switch" + ("/" + building + ("/" + room + ("/" + name)))
         == "/switch/" + building + "/" + room + "/" + name
  {
  }

  /** A doubled separator in the fragment is collapsed: a fragment shaped like
      "bldg//room/light" of type SWITCH is published under
      "/switch/bldg/room/light". */
  lemma SwitchPathExample(building: string, room: string, name: string)
    requires |building| > 0 && SlashFree(building)
    requires |room| > 0 && SlashFree(room)
    requires |name| > 0 && SlashFree(name)
    ensures TopicPath("/switch/", building + "//" + room + "/" + name)
         == "/switch/" + building + "/" + room + "/" + name
  {
    var f := building + ("//" + (room + ("/" + name)));
    ExampleStrings(building, room, name);
    CollapseDoubled("switch" + ("//" + f));
    Assoc("/", "switch", "//" + f);
    CollapseSlashWord("switch", "//" + f);
    CollapseDoubled(f);
    Assoc("/", building, "//" + (room + ("/" + name)));
    ThreeSegments(building, room, name);
  }

  /** One topic registered on a fresh client, with a callback: an inbound
      message on that name is echoed on the topic's own handle and passed,
      raw, to the callback. */
  lemma SingleTopicDispatch(online: bool, cb: CallbackId, topicName: string, mqttPath: string,
                            topicType: TopicType, payload: seq<char>)
    requires topicName != "" && NulFree(topicName) && topicType != Unknown
    ensures var c1 := CreatePublishTopic(NewClient(online), topicName, mqttPath, topicType).client;
      && var c2 := AddNotifyCallback(c1, topicName, Some(cb)).client;
      Dispatch(c2, topicName, payload) ==
        [ Send(PublishHandle(CString(TopicPath(Prefix(topicType).value, mqttPath))), Echo(topicName, CString(payload) == "true")),
          Invoke(cb, topicName, CString(payload)) ]
  {
    CStringOfNulFree(topicName);
    CStringOfNulFree(Echo(topicName, CString(payload) == "true"));
    var path := TopicPath(Prefix(topicType).value, mqttPath);
    var d := TopicData(topicName, path, topicType, Some(PublishHandle(CString(path))), None, None);
    var c1 := CreatePublishTopic(NewClient(online), topicName, mqttPath, topicType).client;
    assert c1.publishTopics == [(topicName, d)];
    Irreflexive(topicName);
    var c2 := AddNotifyCallback(c1, topicName, Some(cb)).client;
    assert c2.publishTopics == [(topicName, d.(notifyCallback := Some(cb)))];
    DispatchIsFirstEntry(c2, topicName, payload);
  }

  /** The wrong-case payload "TRUE" on a switch topic: the exact-match rule
      decodes it as off, so the echo is `topicName + "/false"`, while the
      callback still receives the raw "TRUE". */
  lemma WrongCaseScenario(online: bool, cb: CallbackId, topicName: string, mqttPath: string)
    requires topicName != "" && NulFree(topicName)
    ensures var c1 := CreatePublishTopic(NewClient(online), topicName, mqttPath, Switch).client;
      && var c2 := AddNotifyCallback(c1, topicName, Some(cb)).client;
      Dispatch(c2, topicName, "TRUE") ==
        [ Send(PublishHandle(CString(TopicPath("/switch/", mqttPath))), topicName + "/false"),
          Invoke(cb, topicName, "TRUE") ]
  {
    SingleTopicDispatch(online, cb, topicName, mqttPath, Switch, "TRUE");
    WrongCaseDecodes();
    WrongCaseEcho(topicName);
  }

  /** Proof step only: "TRUE" reads back as itself and decodes as off. */
  lemma WrongCaseDecodes()
    ensures CString("TRUE") == "TRUE" && !EnabledState("TRUE")
  {
    CStringOfNulFree("TRUE");
  }

  /** Proof step only: the echo of the off state. */
  lemma WrongCaseEcho(topicName: string)
    ensures Echo(topicName, false) == topicName + "/false"
  {
    Assoc(topicName, "/", "false");
    assert "/" + "false" == "/false";
  }

  // ---------------------------------------------------------------------------
  // The inbound loop's early break

  /** The inbound handler as evidently intended: handle the entry whose key is
      the topic string, wherever it sits in the map. */
  function DispatchByKey(c: Client, topic: seq<char>, payload: seq<char>): (r: seq<Effect>)
    ensures CString(topic) !in Publications(c) ==> r == []
    ensures CString(topic) in Publications(c) ==>
      r == EntryEffects(CString(topic), CString(payload), Publications(c)[CString(topic)])
    ensures |r| > 0 <==>
      && CString(topic) in Publications(c)
      && (Publications(c)[CString(topic)].publishHandler.Some? || Publications(c)[CString(topic)].notifyCallback.Some?)
  {
    var t := CString(topic);
    match Get(c.publishTopics, t)
    case None => []
    case Some(d) => EntryEffects(t, CString(payload), d)
  }

  /** On a consistent client every registered name is answered. */
  lemma DispatchByKeyAnswers(c: Client, topic: string, payload: seq<char>)
    requires Consistent(c) && CString(topic) in Publications(c)
    ensures |DispatchByKey(c, topic, payload)| > 0
  {
  }

  /** The two agree whenever `topic` is the least key, the only case the
      loop as written handles. */
  lemma DispatchAgreesOnLeastKey(c: Client, topic: seq<char>, payload: seq<char>)
    requires WellFormed(c)
    requires |c.publishTopics| > 0 && c.publishTopics[0].0 == CString(topic)
    ensures Dispatch(c, topic, payload) == DispatchByKey(c, topic, payload)
  {
    DispatchIsFirstEntry(c, topic, payload);
    FirstIsLeast(c.publishTopics);
  }

  /** Counterexample: with topics "a" and "b" registered, a message for "b"
      is dropped by the loop as written (it breaks at "a"), though "b" has a
      publish handle to echo on. */
  lemma BreakDropsLaterTopic(payload: seq<char>)
    ensures var db := TopicData("b", "/sensor/b", Sensor, Some(PublishHandle("/sensor/b")), None, None);
      && var da := TopicData("a", "/sensor/a", Sensor, Some(PublishHandle("/sensor/a")), None, None);
      && var c := Client(true, [("a", da), ("b", db)], []);
      && WellFormed(c)
      && "b" in Publications(c)
      && Dispatch(c, "b", payload) == []
      && |DispatchByKey(c, "b", payload)| > 0
  {
    var db := TopicData("b", "/sensor/b", Sensor, Some(PublishHandle("/sensor/b")), None, None);
    var da := TopicData("a", "/sensor/a", Sensor, Some(PublishHandle("/sensor/a")), None, None);
    var c := Client(true, [("a", da), ("b", db)], []);
    assert c.publishTopics[1..] == [("b", db)];
    assert Less("a", "b");
    assert WellFormed(c);
    assert CString("b") == "b" by {
      CStringOfNulFree("b");
    }
    DispatchIsFirstEntry(c, "b", payload);
  }
}
