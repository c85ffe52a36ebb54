/** The two programs together: what the translation module makes of a message the
    simulator publishes, when the broker passes it on. */
module Bridge {
  import opened Wrappers
  import opened Decimal
  import opened Utf8
  import opened Topics
  import opened Json
  import opened JsonDecoder
  import opened Ptm
  import opened SimClients

  lemma PublishTopicSegments(clientName: string)
    ensures PublishTopic(clientName) == "device" + [Separator] + clientName + [Separator] + "message"
  {
  }

  /** A client name made from a root without `/` contains no `/`. */
  lemma ClientNameHasNoSeparator(rootName: string, i: nat)
    requires Separator !in rootName
    ensures Separator !in ClientName(rootName, i)
  {
    var d := NatRepr(i);
    assert forall k :: 0 <= k < |d| ==> IsDigit(d[k]);
    assert Separator !in d;
  }

  /** The device id the translation module takes from a simulator topic is the name of
      the client that published it, provided the root name has no `/`. */
  lemma BridgeExtractsClientName(rootName: string, i: nat)
    requires Separator !in rootName
    ensures DeviceIdOf(PublishTopic(ClientName(rootName, i))) == Some(ClientName(rootName, i))
  {
    var name := ClientName(rootName, i);
    ClientNameHasNoSeparator(rootName, i);
    PublishTopicSegments(name);
    assert Separator !in "device";
    DeviceIdOfThreeSegments("device", name, "message");
  }

  /** A message the simulator publishes is forwarded by the translation module: the
      delivery is tagged with the publishing client's name and carries the envelope
      of the simulator's topic and of the dict it built. */
  lemma SimulatedPublishTranslates(moduleId: string, rootName: string, i: nat, input: RoundInput)
    requires Separator !in rootName
    requires input.isConnected && IsFloatLiteral(input.param2)
    ensures var v := VisitOf(SimClient(ClientName(rootName, i)), input);
      var payload := Payload(RandRange(Param1Start, Param1Stop, input.draw), input.param2);
      Translate(moduleId, MqttMessage(v.topic, v.payload)) ==
        Success(Forwarded(moduleId, ClientName(rootName, i), Envelope(v.topic, payload)))
  {
    var client := SimClient(ClientName(rootName, i));
    var payload := Payload(RandRange(Param1Start, Param1Stop, input.draw), input.param2);
    BridgeExtractsClientName(rootName, i);
    PayloadWellFormed(RandRange(Param1Start, Param1Stop, input.draw), input.param2);
    DecodePayloadOfDumps(payload);
  }

  /** The module subscribes to one topic only: of all simulator topics, it matches
      exactly the one of the client named `client0`. */
  lemma OnlyClient0Subscribed(clientName: string)
    ensures PublishTopic(clientName) == SubscriptionTopic <==> clientName == "client0"
  {
    var t := PublishTopic(clientName);
    if t == SubscriptionTopic {
      assert |clientName| == 7;
      assert clientName == t[7..14];
    }
  }

  /** For the root name `client`, only the first client's messages reach the translation
      module. (The simulator's argument parser declares `client` as the default of `-n`,
      but also makes `-n` required, so that default never applies.) */
  lemma DefaultRootReachesOnlyFirstClient(i: nat)
    ensures PublishTopic(ClientName("client", i)) == SubscriptionTopic <==> i == 0
  {
    OnlyClient0Subscribed(ClientName("client", i));
    assert ClientName("client", 0) == "client0";
    ClientNamesDistinct("client", i, 0);
  }
}
