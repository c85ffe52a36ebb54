# azure-iot-x509 protocol translation bridge, in Dafny

This project models two small Python programs of the repository.

The first is the protocol translation module (`modules/ptm/main.py`). It is an IoT
Edge module that listens to MQTT publishes from leaf devices. For every message it
does four things:

- it takes the device id from the topic, as segment 1 of the topic split on `/`;
- it decodes the payload, first as UTF-8 and then as JSON;
- it wraps the result in a `{"topic": ..., "payload": ...}` envelope and serialises it;
- it sends the result to the module output `ptm_output`, tagged with the custom
  properties `leafdeviceid` (the device id) and `moduleid` (the module's own id).

The second is the traffic simulator (`modules/test/sim_clients.py`). It creates clients
named `root_name + str(i)`. In every round, each connected client publishes
`{"param1": randrange(0, 100), "param2": random()}` on the topic
`device/<client_name>/message`.

The model follows the form of the source:

- `ptm_logic` is a function from a message to a delivery or an error (`Ptm.Translate`).
- The module's globals and its send path are classes whose methods change state.
  `PtmModule` holds the module id and the module client. `ModuleClient` keeps the
  record of sends. `Message` has custom properties that are filled in place.
  `MqttClient` keeps its subscriptions.
- The simulator's two loops are methods with loop invariants: client creation, and
  one publishing round.

The model does not take the standard library's `json` and UTF-8 codec on trust. They
are written out as Python uses them. `json.dumps` uses its default arguments:
`ensure_ascii`, `", "` and `": "` separators, and keys in insertion order. `json.loads`
follows CPython's scanner with `strict=True`: duplicate keys keep the last value, and
NaN and Infinity are accepted. UTF-8 follows the strict codec of Table 3-7 of the
Unicode Standard. The round trips these functions complete are proved, and the
bridge's properties rest on those proofs.

Modules, one per file:

| file | module | contents |
|---|---|---|
| `wrappers.dfy` | `Wrappers` | `Option`, `Result` |
| `decimal.dfy` | `Decimal` | `str()` of an int and reading it back |
| `utf8.dfy` | `Utf8` | `str.encode('utf-8')` and `bytes.decode('utf-8')` |
| `topics.dfy` | `Topics` | `str.split("/")` and the device-id rule |
| `json.dfy` | `Json` | JSON values and the number-literal grammar |
| `json_encoder.dfy` | `JsonEncoder` | `json.dumps` |
| `json_decoder.dfy` | `JsonDecoder` | `json.loads` |
| `json_roundtrip.dfy` | `JsonRoundTrip` | `loads(dumps(v)) == v` |
| `ptm.dfy` | `Ptm` | the translation module |
| `sim_clients.dfy` | `SimClients` | the simulator |
| `bridge.dfy` | `Bridge` | what the module makes of the simulator's traffic |

The module subscribes to the literal topic `device/client0/message`
(`modules/ptm/main.py:43`), not to a filter for every device; the model follows the code.
`Bridge.OnlyClient0Subscribed` and `Bridge.DefaultRootReachesOnlyFirstClient` state the
consequence: of all simulator topics, only that of the client named `client0` is
subscribed.

## Model

| member | source | states |
|---|---|---|
| Topics.Split | modules/ptm/main.py:29 | `topic.split("/")` yields at least one piece, and no piece contains `/` |
| Topics.SplitJoin | modules/ptm/main.py:29 | joining the pieces with `/` gives back the topic; there is one more piece than there are `/` |
| Topics.DeviceIdOf | modules/ptm/main.py:29 | segment 1 of the split, if there is one, contains no `/`; `DeviceIdExistsIffSeparator` and `DeviceIdBetweenSeparators` characterise it fully |
| Topics.DeviceIdExistsIffSeparator | modules/ptm/main.py:29 | segment 1 of the split exists exactly when the topic contains `/` (otherwise the source raises `IndexError`) |
| Topics.DeviceIdBetweenSeparators | modules/ptm/main.py:29 | the device id is the text between the first `/` and the next `/` or the end: topic = first + "/" + id + tail, with no `/` in first or id, and tail empty or starting with `/` |
| Topics.DeviceIdOfThreeSegments | modules/ptm/main.py:29 | for a topic `first/id/rest` whose first two segments contain no `/`, the extracted device id is `id` |
| Utf8.Encode | modules/test/sim_clients.py:134 | the UTF-8 encoding of a text has at least one byte per character |
| Utf8.Decode | modules/ptm/main.py:33 | `bytes.decode('utf-8')`: a successful decode yields at most one character per byte; `DecodeEncode` and `DecodeIsCanonical` make it the exact inverse of `Encode` |
| Utf8.EncodeCharWellFormed | modules/ptm/main.py:33 | the encoding of a character is a well-formed sequence whatever follows it, and decodes to that character |
| Utf8.WellFormedIsEncoding | modules/ptm/main.py:33 | every well-formed sequence the decoder accepts is the encoding of the character it decodes to |
| Utf8.DecodeEncode | modules/ptm/main.py:33 | decoding the UTF-8 encoding of a text gives the text back |
| Utf8.DecodeIsCanonical | modules/ptm/main.py:33 | decoding succeeds only on the exact encoding of its result; with `DecodeEncode`, `Decode(b) == Some(s)` exactly when `b == Encode(s)` |
| Decimal.NatRepr | modules/test/sim_clients.py:103 | `str(n)` is a non-empty run of digits, with a leading zero exactly for 0, one digit exactly below 10 |
| Decimal.DigitsValueOfNatRepr | modules/test/sim_clients.py:103 | reading back the decimal text of `n` gives `n` |
| Decimal.NatReprInjective | modules/test/sim_clients.py:103 | distinct numbers have distinct decimal texts |
| Json.LexNumberAgree | modules/ptm/main.py:33 | a number literal ends where its lexical match ends: any text that agrees with it up to there, followed by nothing that could continue a number, is lexed the same way |
| Json.FloatLiteralAscii | modules/ptm/main.py:23 | every character of a float literal is ASCII |
| Json.IntReprAscii | modules/ptm/main.py:23 | the text of an int is ASCII |
| JsonEncoder.EscapeChar | modules/ptm/main.py:23 | with `ensure_ascii`, the escape of any character is non-empty ASCII text |
| JsonEncoder.Quote | modules/ptm/main.py:23 | a string literal starts and ends with `"`, has at least two characters, and is ASCII whatever the string holds |
| JsonEncoder.Dumps | modules/ptm/main.py:23 | `json.dumps` with `ensure_ascii`: the text of a well-formed value is pure ASCII; `LoadsDumps` is its inverse |
| JsonEncoder.DumpsItems | modules/ptm/main.py:23 | the `", "`-separated text of well-formed list elements is ASCII |
| JsonEncoder.DumpsMembers | modules/test/sim_clients.py:134 | the `", "`-separated `"key": value` text of a dict with well-formed values is ASCII |
| JsonDecoder.ScanNumber | modules/ptm/main.py:33 | a scanned number consumes input and is well formed (a float is spelled by a complete float literal) |
| JsonDecoder.FromPairs | modules/ptm/main.py:33 | building a dict from the parsed pairs gives distinct keys, keeps the set of keys, and keeps values well formed |
| JsonDecoder.InsertDistinct | modules/ptm/main.py:33 | storing a pair in a dict with distinct keys keeps the keys distinct |
| JsonDecoder.Loads | modules/ptm/main.py:33 | whatever `json.loads` returns is well formed: every object has distinct keys and every float is a float literal |
| JsonRoundTrip.Hex4RoundTrip | modules/ptm/main.py:23 | the four hex digits of a `\uXXXX` escape read back as the code unit written |
| JsonRoundTrip.ParseEscapedText | modules/ptm/main.py:23 | the escaped text of any string, closed by `"`, reads back as that string and stops after the quote |
| JsonRoundTrip.ParseIntDumps | modules/ptm/main.py:23 | the text of an int, followed by anything that cannot continue a number, reads back as that int |
| JsonRoundTrip.ParseFloatDumps | modules/ptm/main.py:23 | a float literal (including NaN, Infinity and -Infinity), followed by anything that cannot continue it, reads back as that float |
| JsonRoundTrip.ParseValueDumps | modules/ptm/main.py:23 | the text of a well-formed value, followed by a separator, a closing bracket or nothing, reads back as the value and stops right after it |
| JsonRoundTrip.FromPairsOfDistinct | modules/ptm/main.py:33 | pairs with distinct keys build the dict that lists exactly those pairs in order |
| JsonRoundTrip.LoadsDumps | modules/ptm/main.py:23 | `json.loads(json.dumps(v)) == v` for every well-formed value |
| Ptm.Message.constructor | modules/ptm/main.py:23 | a new message carries the given body and no custom properties |
| Ptm.ModuleClient.SendMessageToOutput | modules/ptm/main.py:26 | a send appends one record of the body, the custom properties and the output name, and changes nothing else |
| Ptm.PtmModule.constructor | modules/ptm/main.py:18 | the module id read at start-up and the module client of line 49 are fixed for the module's lifetime (both `const`), so every message is tagged with the same `moduleid` |
| Ptm.PtmModule.PtmForward | modules/ptm/main.py:20-26 | exactly one send is appended: the serialised object, tagged `leafdeviceid` = device id and `moduleid` = module id, to `ptm_output` |
| Ptm.PtmModule.PtmLogic | modules/ptm/main.py:28-35 | on success exactly one delivery, the translation of the message, is appended; on the error the translation names, nothing is sent |
| Ptm.PtmModule.OnMessage | modules/ptm/main.py:46-48 | the message goes through `ptm_logic`: no error exactly when the translation succeeds, one send then and none otherwise; a record of sends all tagged for this module stays so |
| Ptm.OnConnect | modules/ptm/main.py:38-43 | whatever the result code, the subscription to `device/client0/message` is appended, so each reconnect renews it |
| Ptm.MqttClient.Subscribe | modules/ptm/main.py:43 | a subscription appends exactly that topic filter to the client's list and changes nothing else |
| Ptm.Envelope | modules/ptm/main.py:31-34 | the dict around a well-formed payload is well formed (its keys `topic` and `payload` differ) |
| Ptm.DecodePayload | modules/ptm/main.py:33 | `json.loads(payload.decode('utf-8'))` yields a well-formed value, or fails with the UTF-8 or the JSON error, never a topic error; `DecodePayloadOfDumps` is its inverse on serialised values |
| Ptm.Forwarded | modules/ptm/main.py:20-26 | what `ptm_forward` sends goes to `ptm_output` with exactly the properties `leafdeviceid` (the given device id) and `moduleid` (the module id); its body is ASCII for a well-formed object |
| Ptm.Translate | modules/ptm/main.py:28-35 | a translated message goes to `ptm_output`, tagged with the module id, and its `leafdeviceid` is the device id read from the topic (which must exist) |
| Ptm.TranslateOutcome | modules/ptm/main.py:29-35 | which error stops a message, in source order: no `/` in the topic whatever the payload, then a payload that is not UTF-8, then text that is not JSON; the message is forwarded exactly when all three checks pass |
| Ptm.DeliveryProperties | modules/ptm/main.py:24-26 | a delivery goes to `ptm_output` with exactly the properties `leafdeviceid` and `moduleid`; `moduleid` is the module id and `leafdeviceid` is the topic segment between the first and the next `/` |
| Ptm.EnvelopeFields | modules/ptm/main.py:31-34 | the envelope has exactly the keys `topic` and `payload`; `topic` is the received topic unchanged and `payload` is the decoded payload |
| Ptm.DeliveryBodyDecodes | modules/ptm/main.py:23-35 | the body of a successful delivery reads back as the envelope of the received topic and of the decoded payload |
| Ptm.DecodePayloadOfDumps | modules/ptm/main.py:33 | a payload that is the UTF-8 text of a serialised well-formed value decodes to that value |
| Ptm.BadTopicScenario | modules/ptm/main.py:29 | a topic without `/` is refused whatever the payload |
| Ptm.NotUtf8Scenario | modules/ptm/main.py:33 | a payload byte `0xFF` is refused as not UTF-8 |
| Ptm.NotJsonScenario | modules/ptm/main.py:33 | the text `not-json` is refused as not JSON once the topic and UTF-8 checks pass |
| SimClients.ClientNamesDistinct | modules/test/sim_clients.py:103 | different indices give different client names |
| SimClients.CreateClients | modules/test/sim_clients.py:102-108 | the list has `clients_num` entries (none for a count below one), in index order, entry `i` named `root_name + str(i)`, all names distinct |
| SimClients.RandRange | modules/test/sim_clients.py:128 | `randrange(start, stop)` lies in `[start, stop)` |
| SimClients.RandRangeCovers | modules/test/sim_clients.py:128 | every value of `[start, stop)` is the result of some draw |
| SimClients.ClientName | modules/test/sim_clients.py:103 | `root_name + str(i)` starts with the root name and ends in a run of digits whose value is `i`, with a leading `0` only for 0 and a single digit exactly below 10 |
| SimClients.PublishTopic | modules/test/sim_clients.py:126 | the topic is `device/`, then the client name, then `/message`, and 15 characters longer than the name |
| SimClients.Payload | modules/test/sim_clients.py:127-130 | the dict has exactly the keys `param1` and `param2`, holding the int drawn by `randrange` and the float drawn by `random()` |
| SimClients.VisitOf | modules/test/sim_clients.py:125-137 | one visit concerns the visited client; it publishes exactly when the client is connected, on the client's topic, bytes that decode as UTF-8 to the serialised dict |
| SimClients.PublishRound | modules/test/sim_clients.py:123-137 | every client is visited once, in list order; the visit is a publish of the serialised payload on the client's topic exactly when the client is connected, and otherwise only the error log |
| SimClients.PayloadWellFormed | modules/test/sim_clients.py:127-130 | the payload dict is well formed (its two keys differ) |
| SimClients.PublishedPayloadDecodes | modules/test/sim_clients.py:127-134 | a published payload reads back through UTF-8 and JSON as the dict built, and its `param1` lies in `[0, 100)` |
| Bridge.PublishTopicSegments | modules/test/sim_clients.py:126 | a publish topic is `device`, `/`, the client name, `/`, `message` |
| Bridge.ClientNameHasNoSeparator | modules/test/sim_clients.py:103 | a client name built from a root without `/` contains no `/` |
| Bridge.BridgeExtractsClientName | modules/test/sim_clients.py:126 | for a root name without `/`, the module's device-id rule applied to a client's publish topic gives the client's name |
| Bridge.SimulatedPublishTranslates | modules/ptm/main.py:28-35 | a message the simulator publishes is forwarded, tagged with the publishing client's name, and carries the envelope of its topic and of the dict built |
| Bridge.OnlyClient0Subscribed | modules/ptm/main.py:43 | a simulator topic equals the module's subscription exactly when the client is named `client0` |
| Bridge.DefaultRootReachesOnlyFirstClient | modules/test/sim_clients.py:44 | for the root name `client` (line 44 declares it as the default, but `-n` is required, so the default never applies), only client 0's topic is subscribed by the module |

## Left out

- The MQTT transport: TLS set-up, connect, the network loop, reconnection, and subscription matching inside the broker (`modules/ptm/main.py:53-64`, `modules/test/sim_clients.py:106-116`). A received message is a parameter. `MqttClient` only records its subscriptions. `is_connected()` is an input of each visit.
- The Azure IoT SDK: `iotedge.init` and the transport behind `send_message_to_output`. The module client is a class that records each send. Send failures are not modelled.
- The start-up "Hello" send (`modules/ptm/main.py:51`). It is a one-off diagnostic message, not part of the translation.
- Reading `IOTEDGE_MODULEID` from the environment (`modules/ptm/main.py:18`). The module id is a constructor parameter of `PtmModule`, fixed for its lifetime.
- `print` and `logger` output, argparse, and `int()`/`float()` of the command-line values. `clients_num` is an `int` parameter. The `ValueError` of a non-numeric argument is not modelled.
- The process-level effect of an exception in a paho callback. The model returns the error to the caller and sends nothing.
- `time.sleep`, the endless `while True` loop, and `KeyboardInterrupt` (`modules/test/sim_clients.py:119-142`). One round of the loop is modelled.
- `random.random()` (`modules/test/sim_clients.py:129`). Its float is an input of each visit, given as the literal text `json.dumps` would write for it.
- SimClients.RandRange: the draw of Python's generator is an input, reduced into the range. The distribution is not modelled. The `ValueError` of an empty range is excluded by the precondition; the source only calls `randrange(0, 100)`.
- Floats: a JSON float is kept as its literal text. Python would convert it to a binary double, and `dumps` would write `repr` of that double (`1E5` comes back as `100000.0`). The round trip is proved for floats written as `dumps` writes them.
- `\u` escapes that decode to a lone surrogate make the decoder fail here, because a Dafny `char` is a Unicode scalar value. Python would build a `str` holding the surrogate.
- CPython's limit on the digits of an int literal and its recursion-depth limit in the scanner. Both are unbounded here.
- Utf8.Decode models the strict UTF-8 codec only; Python's error handlers (`replace`, `ignore`, `surrogateescape`) are not used by the source and are not modelled.
