/** The protocol translation module of `modules/ptm/main.py`: an MQTT message that
    arrives from a leaf device is wrapped in a JSON envelope, tagged with the leaf
    device id taken from its topic and with the module's own id, and sent to the
    module output `ptm_output`. */
module Ptm {
  import opened Wrappers
  import opened Utf8
  import opened Topics
  import opened Json
  import opened JsonEncoder
  import opened JsonDecoder
  import opened JsonRoundTrip

  const PtmOutputName: string := "ptm_output"
  const LeafDeviceIdKey: string := "leafdeviceid"
  const ModuleIdKey: string := "moduleid"
  const TopicKey: string := "topic"
  const PayloadKey: string := "payload"

  /** The one topic filter the module subscribes to (it has no wildcard). */
  const SubscriptionTopic: string := "device/client0/message"

  /** A received MQTT message: its topic as text and its payload as raw bytes. */
  datatype MqttMessage = MqttMessage(topic: string, payload: seq<byte>)

  /** The exceptions `ptm_logic` can raise, in the order the code meets them: the
      `IndexError` of the topic split, the `UnicodeDecodeError` of the payload, the
      `JSONDecodeError` of its text. */
  datatype PtmError = TopicWithoutDeviceId | PayloadNotUtf8 | PayloadNotJson

  /** One call of `send_message_to_output`: the message body, its custom properties at
      the time of the call, and the output name. */
  datatype Delivery = Delivery(data: string, customProperties: map<string, string>, outputName: string)

  /** The dict `ptm_logic` builds: the topic as received and the decoded payload. Its
      two keys differ, so it is well formed whenever the payload is. */
  function Envelope(topic: string, payload: Json): (r: Json)
    ensures WellFormed(payload) ==> WellFormed(r)
  {
    var r := JObject([Member(TopicKey, JString(topic)), Member(PayloadKey, payload)]);
    assert TopicKey != PayloadKey;
    assert WellFormed(r.members[0].value);
    assert r.members[1].value == payload;
    r
  }

  /** `json.loads(msg.payload.decode('utf-8'))`: a well-formed value, or the error of
      the decoding step that failed (never a topic error). */
  function DecodePayload(payload: seq<byte>): (r: Result<Json, PtmError>)
    ensures r.Success? ==> WellFormed(r.value)
    ensures r.Failure? ==> r.error != TopicWithoutDeviceId
  {
    match Utf8.Decode(payload)
    case None => Failure(PayloadNotUtf8)
    case Some(text) =>
      match Loads(text)
      case None => Failure(PayloadNotJson)
      case Some(v) => Success(v)
  }

  /** What `ptm_forward` hands to the module client for a device id and an object: a
      delivery to `ptm_output` tagged with the module id and the given device id, whose
      body is ASCII text when the object is well formed. */
  function Forwarded(moduleId: string, deviceId: string, obj: Json): (r: Delivery)
    ensures Tagged(moduleId, r) && r.customProperties[LeafDeviceIdKey] == deviceId
    ensures WellFormed(obj) ==> IsAscii(r.data)
  {
    assert LeafDeviceIdKey != ModuleIdKey;
    Delivery(Dumps(obj), map[LeafDeviceIdKey := deviceId, ModuleIdKey := moduleId], PtmOutputName)
  }

  /** `ptm_logic` on one message, as a value: the delivery it sends, or the error that
      stops it before anything is sent. A delivery is tagged for this module and carries
      the device id read from the topic. */
  function Translate(moduleId: string, msg: MqttMessage): (r: Result<Delivery, PtmError>)
    ensures r.Success? ==>
      Tagged(moduleId, r.value) && DeviceIdOf(msg.topic).Some? &&
      r.value.customProperties[LeafDeviceIdKey] == DeviceIdOf(msg.topic).value
  {
    match DeviceIdOf(msg.topic)
    case None => Failure(TopicWithoutDeviceId)
    case Some(deviceId) =>
      match DecodePayload(msg.payload)
      case Failure(e) => Failure(e)
      case Success(v) => Success(Forwarded(moduleId, deviceId, Envelope(msg.topic, v)))
  }

  /** A delivery as this module sends it: to `ptm_output`, with exactly the two custom
      properties, the second one holding the module id. */
  predicate Tagged(moduleId: string, d: Delivery) {
    d.outputName == PtmOutputName &&
    d.customProperties.Keys == {LeafDeviceIdKey, ModuleIdKey} &&
    d.customProperties[ModuleIdKey] == moduleId
  }

  predicate AllTagged(moduleId: string, sent: seq<Delivery>) {
    forall k :: 0 <= k < |sent| ==> Tagged(moduleId, sent[k])
  }

  /** `azure.iot.device.Message`: a body fixed at construction and a dict of custom
      properties the caller fills in. */
  class Message {
    const data: string
    var customProperties: map<string, string>

    constructor(data: string)
      ensures this.data == data && customProperties == map[]
    {
      this.data := data;
      customProperties := map[];
    }
  }

  /** The module client, reduced to the record of what it was asked to send where. */
  class ModuleClient {
    var sent: seq<Delivery>

    constructor()
      ensures sent == []
    {
      sent := [];
    }

    method SendMessageToOutput(msg: Message, outputName: string)
      modifies this
      ensures sent == old(sent) + [Delivery(msg.data, msg.customProperties, outputName)]
    {
      sent := sent + [Delivery(msg.data, msg.customProperties, outputName)];
    }
  }

  /** The state `main.py` keeps in globals: the module id read at start-up and the
      module client. */
  class PtmModule {
    const moduleId: string
    const moduleClient: ModuleClient

    constructor(moduleId: string, moduleClient: ModuleClient)
      ensures this.moduleId == moduleId && this.moduleClient == moduleClient
    {
      this.moduleId := moduleId;
      this.moduleClient := moduleClient;
    }

    /** `ptm_forward`: one message whose body is the serialised object, tagged with the
        device id and the module id, sent to `ptm_output`. */
    method PtmForward(deviceId: string, obj: Json)
      modifies moduleClient
      ensures moduleClient.sent == old(moduleClient.sent) + [Forwarded(moduleId, deviceId, obj)]
    {
      var msg := new Message(Dumps(obj));
      msg.customProperties := msg.customProperties[LeafDeviceIdKey := deviceId];
      msg.customProperties := msg.customProperties[ModuleIdKey := moduleId];
      moduleClient.SendMessageToOutput(msg, PtmOutputName);
    }

    /** `ptm_logic`: the device id from the topic, the envelope around the decoded
        payload, and the forward. On an error nothing is sent. */
    method PtmLogic(msg: MqttMessage) returns (err: Option<PtmError>)
      modifies moduleClient
      ensures Translate(moduleId, msg).Success? ==>
        err == None && moduleClient.sent == old(moduleClient.sent) + [Translate(moduleId, msg).value]
      ensures Translate(moduleId, msg).Failure? ==>
        err == Some(Translate(moduleId, msg).error) && moduleClient.sent == old(moduleClient.sent)
    {
      var deviceId := DeviceIdOf(msg.topic);
      if deviceId.None? {
        return Some(TopicWithoutDeviceId);
      }
      var payload := DecodePayload(msg.payload);
      if payload.Failure? {
        return Some(payload.error);
      }
      var obj := Envelope(msg.topic, payload.value);
      PtmForward(deviceId.value, obj);
      return None;
    }

    /** `on_message`: every received message goes through `ptm_logic`; whatever it
        sends is tagged for this module, so a record of tagged deliveries stays so. */
    method OnMessage(msg: MqttMessage) returns (err: Option<PtmError>)
      modifies moduleClient
      ensures err.None? <==> Translate(moduleId, msg).Success?
      ensures err.None? ==> moduleClient.sent == old(moduleClient.sent) + [Translate(moduleId, msg).value]
      ensures err.Some? ==> moduleClient.sent == old(moduleClient.sent)
      ensures AllTagged(moduleId, old(moduleClient.sent)) ==> AllTagged(moduleId, moduleClient.sent)
    {
      err := PtmLogic(msg);
    }
  }

  /** The MQTT client of the module, reduced to the topic filters it subscribed to. */
  class MqttClient {
    var subscriptions: seq<string>

    constructor()
      ensures subscriptions == []
    {
      subscriptions := [];
    }

    method Subscribe(topic: string)
      modifies this
      ensures subscriptions == old(subscriptions) + [topic]
    {
      subscriptions := subscriptions + [topic];
    }
  }

  /** `on_connect`: whatever the result code, (re)subscribe to the one topic. */
  method OnConnect(client: MqttClient, rc: int)
    modifies client
    ensures client.subscriptions == old(client.subscriptions) + [SubscriptionTopic]
  {
    client.Subscribe(SubscriptionTopic);
  }

  /** Which error stops a message, in order: a topic without `/` fails whatever the
      payload; then a payload that is not UTF-8; then text that is not JSON. A message
      that passes all three is forwarded. */
  lemma TranslateOutcome(moduleId: string, msg: MqttMessage)
    ensures Separator !in msg.topic ==> Translate(moduleId, msg) == Failure(TopicWithoutDeviceId)
    ensures Separator in msg.topic && Utf8.Decode(msg.payload).None? ==>
      Translate(moduleId, msg) == Failure(PayloadNotUtf8)
    ensures (Separator in msg.topic && Utf8.Decode(msg.payload).Some? && Loads(Utf8.Decode(msg.payload).value).None?) ==>
      Translate(moduleId, msg) == Failure(PayloadNotJson)
    ensures Translate(moduleId, msg).Success? <==>
      Separator in msg.topic && Utf8.Decode(msg.payload).Some? && Loads(Utf8.Decode(msg.payload).value).Some?
  {
    DeviceIdExistsIffSeparator(msg.topic);
  }

  /** Every delivery goes to `ptm_output` and carries exactly the two custom
      properties: `moduleid` is the module's id and `leafdeviceid` is the second
      `/`-separated segment of the topic, i.e. the topic is `first/leafdeviceid` or
      `first/leafdeviceid/...`. */
  lemma DeliveryProperties(moduleId: string, msg: MqttMessage) returns (first: string, tail: string)
    requires Translate(moduleId, msg).Success?
    ensures var d := Translate(moduleId, msg).value;
      Tagged(moduleId, d) &&
      var id := d.customProperties[LeafDeviceIdKey];
      Separator !in first && Separator !in id && msg.topic == first + [Separator] + id + tail &&
      (tail == [] || tail[0] == Separator)
  {
    first, tail := DeviceIdBetweenSeparators(msg.topic);
  }

  /** The envelope has the two fields `topic` (the topic unchanged) and `payload` (the
      decoded payload), and no other. */
  lemma EnvelopeFields(topic: string, payload: Json)
    ensures var e := Envelope(topic, payload);
      e.JObject? && KeysOf(e.members) == {TopicKey, PayloadKey} &&
      Lookup(e.members, TopicKey) == Some(JString(topic)) && Lookup(e.members, PayloadKey) == Some(payload)
  {
    var ms := Envelope(topic, payload).members;
    assert TopicKey != PayloadKey;
    KeysOfCons(ms[0], ms[1..]);
    KeysOfCons(ms[1], []);
    assert ms[1..] == [ms[1]] + [];
  }

  /** The body of a delivery is the serialised envelope: reading it back gives the
      envelope of the received topic and of the decoded payload. */
  lemma DeliveryBodyDecodes(moduleId: string, msg: MqttMessage)
    requires Translate(moduleId, msg).Success?
    ensures DecodePayload(msg.payload).Success?
    ensures Loads(Translate(moduleId, msg).value.data) ==
      Some(Envelope(msg.topic, DecodePayload(msg.payload).value))
  {
    var v := DecodePayload(msg.payload).value;
    LoadsDumps(Envelope(msg.topic, v));
  }

  /** A payload that is the UTF-8 text of a serialised well-formed value decodes to
      that value. */
  lemma DecodePayloadOfDumps(v: Json)
    requires WellFormed(v)
    ensures DecodePayload(Utf8.Encode(Dumps(v))) == Success(v)
  {
    DecodeEncode(Dumps(v));
    LoadsDumps(v);
  }

  /** A topic without `/` is refused whatever the payload. */
  lemma BadTopicScenario(moduleId: string, payload: seq<byte>)
    ensures Translate(moduleId, MqttMessage("bad-topic", payload)) == Failure(TopicWithoutDeviceId)
  {
    TranslateOutcome(moduleId, MqttMessage("bad-topic", payload));
  }

  lemma SubscriptionTopicHasSeparator()
    ensures Separator in SubscriptionTopic
  {
    assert SubscriptionTopic[6] == Separator;
  }

  lemma NotUtf8Bytes()
    ensures Utf8.Decode([0xFF]) == None
  {
    assert SequenceLength([0xFF]) == 0;
  }

  lemma NotJsonText()
    ensures Loads("not-json") == None
  {
    var s := "not-json";
    assert SkipWhitespace(s) == s;
    assert s[2] == 't';
    assert !StartsWith(s, "null");
  }

  /** A payload byte that cannot start a UTF-8 sequence is refused. */
  lemma NotUtf8Scenario(moduleId: string)
    ensures Translate(moduleId, MqttMessage(SubscriptionTopic, [0xFF])) == Failure(PayloadNotUtf8)
  {
    SubscriptionTopicHasSeparator();
    NotUtf8Bytes();
    TranslateOutcome(moduleId, MqttMessage(SubscriptionTopic, [0xFF]));
  }

  /** Text that is not JSON is refused after the topic and UTF-8 checks pass. */
  lemma NotJsonScenario(moduleId: string)
    ensures Translate(moduleId, MqttMessage(SubscriptionTopic, Utf8.Encode("not-json"))) == Failure(PayloadNotJson)
  {
    SubscriptionTopicHasSeparator();
    DecodeEncode("not-json");
    NotJsonText();
    TranslateOutcome(moduleId, MqttMessage(SubscriptionTopic, Utf8.Encode("not-json")));
  }
}
