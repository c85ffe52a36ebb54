/** The MQTT client simulator of `modules/test/sim_clients.py`: it creates a number of
    clients named after a root name and, in every round of its main loop, has each
    client that is connected publish a small JSON document on its own topic. */
module SimClients {
  import opened Wrappers
  import opened Decimal
  import opened Utf8
  import opened Json
  import opened JsonEncoder
  import opened JsonDecoder
  import opened JsonRoundTrip

  const Param1Key: string := "param1"
  const Param2Key: string := "param2"

  /** The bounds of `random.randrange(0, 100)`. */
  const Param1Start: int := 0
  const Param1Stop: int := 100

  /** A simulated client: the MQTT client object the script creates, reduced to the
      `client_name` attribute it sets on it. */
  datatype SimClient = SimClient(clientName: string)

  /** `root_name + str(i)`: the root name followed by the decimal digits of the index,
      with a leading `0` only for index 0. */
  function ClientName(rootName: string, i: nat): (r: string)
    ensures |r| > |rootName| && r[..|rootName|] == rootName
    ensures AllDigits(r[|rootName|..]) && DigitsValue(r[|rootName|..]) == i
    ensures r[|rootName|] == '0' <==> i == 0
    ensures i < 10 <==> |r| == |rootName| + 1
  {
    DigitsValueOfNatRepr(i);
    assert (rootName + NatRepr(i))[|rootName|..] == NatRepr(i);
    rootName + NatRepr(i)
  }

  /** Different indices give different client names. */
  lemma ClientNamesDistinct(rootName: string, i: nat, j: nat)
    ensures ClientName(rootName, i) == ClientName(rootName, j) ==> i == j
  {
    if ClientName(rootName, i) == ClientName(rootName, j) {
      assert NatRepr(i) == ClientName(rootName, i)[|rootName|..];
      assert NatRepr(j) == ClientName(rootName, j)[|rootName|..];
      NatReprInjective(i, j);
    }
  }

  /** The creation loop: one client per index of `range(clients_num)` (empty for a
      count below one), in index order, each named after its index. */
  method CreateClients(rootName: string, clientsNum: int) returns (clients: seq<SimClient>)
    ensures |clients| == if clientsNum < 0 then 0 else clientsNum
    ensures forall i :: 0 <= i < |clients| ==> clients[i].clientName == ClientName(rootName, i)
    ensures forall i, j :: 0 <= i < j < |clients| ==> clients[i].clientName != clients[j].clientName
  {
    var n := if clientsNum < 0 then 0 else clientsNum;
    clients := [];
    for i := 0 to n
      invariant |clients| == i
      invariant forall k :: 0 <= k < i ==> clients[k].clientName == ClientName(rootName, k)
    {
      var clientName := ClientName(rootName, i);
      clients := clients + [SimClient(clientName)];
    }
    forall i, j | 0 <= i < j < |clients|
      ensures clients[i].clientName != clients[j].clientName
    {
      ClientNamesDistinct(rootName, i, j);
    }
  }

  /** `"device/{}/message".format(client.client_name)`. */
  function PublishTopic(clientName: string): (r: string)
    ensures |r| == |clientName| + 15
    ensures r[..7] == "device/" && r[7..|r| - 8] == clientName && r[|r| - 8..] == "/message"
  {
    "device/" + clientName + "/message"
  }

  /** `random.randrange(start, stop)` for a draw of the generator: `start` plus the
      draw reduced into the width of the range. */
  function RandRange(start: int, stop: int, draw: nat): (r: int)
    requires start < stop
    ensures start <= r < stop
  {
    start + draw % (stop - start)
  }

  /** Every value of the range is the result of some draw. */
  lemma RandRangeCovers(start: int, stop: int, k: int)
    requires start <= k < stop
    ensures RandRange(start, stop, k - start) == k
  {
  }

  /** The dict the script builds: `param1` an int, `param2` the float drawn by
      `random.random()`, kept as its literal text. */
  function Payload(param1: int, param2: string): (r: Json)
    ensures r.JObject? && KeysOf(r.members) == {Param1Key, Param2Key}
    ensures Lookup(r.members, Param1Key) == Some(JInt(param1))
    ensures Lookup(r.members, Param2Key) == Some(JFloat(param2))
  {
    var ms := [Member(Param1Key, JInt(param1)), Member(Param2Key, JFloat(param2))];
    assert Param1Key != Param2Key by {
      assert Param1Key[5] != Param2Key[5];
    }
    KeysOfCons(ms[0], ms[1..]);
    KeysOfCons(ms[1], []);
    assert ms[1..] == [ms[1]] + [];
    JObject(ms)
  }

  /** What the script consumes at one client in one round: whether the client reports
      itself connected, and the two random draws. */
  datatype RoundInput = RoundInput(isConnected: bool, draw: nat, param2: string)

  /** What happened at one client in one round: a publish of the serialised dict (as
      UTF-8 bytes) on its topic, or only the "not connected" log line. */
  datatype Visit =
    | Published(clientName: string, topic: string, payload: seq<byte>)
    | NotConnected(clientName: string)

  /** One pass of the body of the client loop: a connected client publishes on its own
      topic bytes that decode as UTF-8 to the serialised dict; any other logs only. */
  function VisitOf(client: SimClient, input: RoundInput): (r: Visit)
    ensures r.clientName == client.clientName
    ensures r.Published? <==> input.isConnected
    ensures r.Published? ==> r.topic == PublishTopic(client.clientName)
    ensures r.Published? ==>
      Utf8.Decode(r.payload) == Some(Dumps(Payload(RandRange(Param1Start, Param1Stop, input.draw), input.param2)))
  {
    var topic := PublishTopic(client.clientName);
    var payload := Payload(RandRange(Param1Start, Param1Stop, input.draw), input.param2);
    DecodeEncode(Dumps(payload));
    if input.isConnected then Published(client.clientName, topic, Encode(Dumps(payload)))
    else NotConnected(client.clientName)
  }

  /** One round of the main loop: every client is visited once, in list order, and
      publishes exactly when it is connected. */
  method PublishRound(clients: seq<SimClient>, inputs: seq<RoundInput>) returns (visits: seq<Visit>)
    requires |inputs| == |clients|
    ensures |visits| == |clients|
    ensures forall k :: 0 <= k < |visits| ==> visits[k] == VisitOf(clients[k], inputs[k])
    ensures forall k :: 0 <= k < |visits| ==>
      visits[k].clientName == clients[k].clientName && (visits[k].Published? <==> inputs[k].isConnected)
  {
    visits := [];
    for k := 0 to |clients|
      invariant |visits| == k
      invariant forall m :: 0 <= m < k ==> visits[m] == VisitOf(clients[m], inputs[m])
    {
      var client := clients[k];
      var topic := PublishTopic(client.clientName);
      var param1 := RandRange(Param1Start, Param1Stop, inputs[k].draw);
      var payload := Payload(param1, inputs[k].param2);
      if inputs[k].isConnected {
        visits := visits + [Published(client.clientName, topic, Encode(Dumps(payload)))];
      } else {
        visits := visits + [NotConnected(client.clientName)];
      }
    }
  }

  lemma PayloadWellFormed(param1: int, param2: string)
    requires IsFloatLiteral(param2)
    ensures WellFormed(Payload(param1, param2))
  {
    var ms := Payload(param1, param2).members;
    assert Param1Key != Param2Key by {
      assert Param1Key[5] != Param2Key[5];
    }
    assert ms[1].value == JFloat(param2);
  }

  /** A published payload reads back, through UTF-8 and JSON, as the dict that was
      built, and its `param1` lies in `[0, 100)`. */
  lemma PublishedPayloadDecodes(client: SimClient, input: RoundInput)
    requires input.isConnected && IsFloatLiteral(input.param2)
    ensures var v := VisitOf(client, input);
      var param1 := RandRange(Param1Start, Param1Stop, input.draw);
      v.Published? && Utf8.Decode(v.payload) == Some(Dumps(Payload(param1, input.param2))) &&
      Loads(Dumps(Payload(param1, input.param2))) == Some(Payload(param1, input.param2)) &&
      Lookup(Payload(param1, input.param2).members, Param1Key) == Some(JInt(param1)) &&
      0 <= param1 < 100
  {
    var param1 := RandRange(Param1Start, Param1Stop, input.draw);
    var payload := Payload(param1, input.param2);
    DecodeEncode(Dumps(payload));
    PayloadWellFormed(param1, input.param2);
    LoadsDumps(payload);
  }
}
