# Verification of the ventilation controller firmware

The firmware runs a ventilation unit on a Pico W: it talks MQTT to a broker over its own TCP receive
buffer, Modbus RTU to the fan and the sensors, keeps two logs in an EEPROM and draws on a small
monochrome display. This project models the parts of it that carry state and arithmetic, in Dafny, and
proves what they are for:

- **The MQTT client** (`MqttClient`, `MqttHistory`, `Qos2Protocol`, `TopicMatch`): the class with its
  buffers, packet-id table, handler slots and in-flight publish, down to single bytes read and written.
  Network and timers are a `Host` whose answers are arbitrary. Every method extends a history of what was
  sent, broken off, delivered and discarded; the class invariant says that this history accounts for the
  packet-id table and for every byte on the wire, and that no QoS 2 message was delivered out of turn.
  `Qos2Protocol` puts that table against a broker as in section 4.3.3 of MQTT Version 3.1.1 and a link
  that breaks and comes back at any time. `MqttHistory` joins the two down to the bytes: whatever the
  application calls, its turns on a stream that brings the broker's packets are a run of the protocol, so
  no message is handed to the application twice (`MqttHistory.DeliveriesAreDifferent`,
  `MqttClient.NothingTwice`).
- **The packet codec** (`MqttPacket`, `MqttPublish`, `MqttConnect`, `MqttSubscribe`) and the two
  **packet readers** (`PacketReader`), as in sections 1.5.3, 2.2, 3.1, 3.3 to 3.8.
- **The CRCs** (`ModbusCrc`, `LogCrc`), the **Modbus register frames** (`ModbusRegister`) and the
  **EEPROM log** (`LogStore`) with reboots and power cuts inside a push.
- **The frame buffer** (`MonoVlsb`): bit-packed pixels, lines, in-place scroll, clipped blit.
- **The TCP receive ring** (`RingBuffer`) against a bounded queue with counted drops.

Code that changes things in place is a class or a method over arrays here too, proved against functions
on values; the lemmas are about those functions, over all inputs and whole runs. What such a function
computes is also said without naming it: packets, frames, pages and pixels byte by byte, in numbers
(the members whose names end in `InBytes` or `InBits`, `MqttClient.TakesMessage` and those beside it).

## Where code and documents part

The model follows the code. These are proved, with the exact condition or a concrete input:

- `MQTTPacket_len` is one too large for the remaining lengths 127, 16383, 2097150 and 2097151
  (`MqttPacket.PacketLenIsTight`): a packet that fits the buffer exactly is refused there.
- On a malformed body `MQTTDeserialize_publish` and `MQTTDeserialize_ack` return the number of length
  bytes, so a malformed packet with a one-byte length is reported as success with fields left unset
  (`MqttPublish.SuccessMeansParsed`, `MqttPublish.SuccessMeansId`). The client model lets such fields be
  arbitrary.
- A PUBLISH above QoS 0 that ends before its packet id is accepted; the id is read from behind its end and
  the payload length is negative, which is exactly how a caller can tell (`MqttPublish.IdBehindTheEnd`).
- A CONNECT written by the library is read back unless its credentials are empty in a certain way
  (`MqttConnect.ConnectRoundTrip`).
- The size computation and the writer of strings disagree when both forms of a string are set with
  different lengths, and only then (`MqttPacket.WellSizedForms`).
- A QoS in a SUBSCRIBE comes back as given exactly when it is in the range of plain `char`
  (`MqttSubscribe.NarrowedIsSame`).
- `isTopicMatched` is stricter than section 4.7 for empty levels and for the parent level, and laxer for
  names that begin with `$` (`TopicMatch.AgreesWithStandard` and the four lemmas after it).
- "Exactly once" for incoming QoS 2 needs more than a table that never overflows: a PUBCOMP that went out
  although the client saw a failure makes a later message with the same id disappear
  (`Qos2Protocol.UnnoticedPubcompLoses`; `IPStack::write` reports such a failure at
  src/IPStack.cpp:251-254). The exact condition, over every run: a message is delivered if and only if
  some copy of it arrives while its id is not held and a slot is free
  (`Qos2Protocol.DeliveredExactlyWhenTaken`, `Qos2Protocol.CompletedOrLost`).
- `pubrel` is never set, so an outgoing QoS 2 publish is only ever repeated as PUBLISH; the branch of
  `connect` that would send PUBREL is modelled, and every method is shown not to make `pubrel` true.
- A CONNACK without a return code is taken for success: `MQTTDeserialize_connack` returns 1 for `[32, 0]`
  and the code keeps its initial zero (`MqttClient.SuccessMeansCode`,
  `MqttClient.CodelessConnackConnects`). With nothing in flight `connect` succeeds exactly for code zero
  or no code (`MqttClient.Client.Establish`, `MqttClient.Client.Connect`).
- An acknowledgement of any id makes `publish` succeed: success says that a PUBACK or PUBCOMP came, not
  that this message was acknowledged (`MqttClient.AnyAckSucceeds`, `MqttClient.HandshakeSucceeds`). With
  the session kept, the publish has left the flight exactly when that packet carried its id, or, too
  short, none at all (`MqttClient.Client.PublishMessage`).
- `connect` lets the result of the repeated publish replace a refused CONNACK
  (`MqttClient.RefusalIsReplaced`). With a publish in flight it succeeds exactly when that went out again
  and, above QoS 0, the last packet taken was an acknowledgement of its type, of whatever id.
- A mono_vlsb buffer is sized by the width, its rows are a stride apart: every pixel has a bit of its own
  exactly when the stride is the width, the width is 0, or there is at most one byte row
  (`MonoVlsb.AllocationFits`); `mono_vlsb(10, 8, 5)` is usable, `mono_vlsb(10, 16, 5)` is not.

## Model

| member | source | states |
|---|---|---|
| Qos2Protocol.UseAdds | paho.mqtt.embedded-c/MQTTClient/src/MQTTClient.h:350-361 | entering an id in a table with a free slot adds that id and changes no other membership; ids stay distinct |
| Qos2Protocol.FreeRemoves | paho.mqtt.embedded-c/MQTTClient/src/MQTTClient.h:365-375 | giving an id back removes that id and no other |
| Qos2Protocol.TenIds | paho.mqtt.embedded-c/MQTTClient/src/MQTTClient.h:284-287 | the table has ten slots, empty at the start |
| Qos2Protocol.NextKeeps | paho.mqtt.embedded-c/MQTTClient/src/MQTTClient.h:600-656 | every step of broker, link and client keeps the invariant that relates, for each id, the broker's phase, the packets under way in both directions, the client's table and the number of deliveries |
| Qos2Protocol.RunKeepsInv | paho.mqtt.embedded-c/MQTTClient/src/MQTTClient.h:600-656 | the invariant holds in every state of every run |
| Qos2Protocol.AtMostOnce | paho.mqtt.embedded-c/MQTTClient/src/MQTTClient.h:600-622 | in every run with losses, repeats, breaks and reconnects (session kept, any number of received packets still waiting) no message is delivered twice |
| Qos2Protocol.DeliveredExactlyWhenTaken | paho.mqtt.embedded-c/MQTTClient/src/MQTTClient.h:611-622 | in every run a message has been delivered exactly once if and only if some step handled a copy of it while its id was not held and a slot was free |
| Qos2Protocol.CompletedOrLost | paho.mqtt.embedded-c/MQTTClient/src/MQTTClient.h:611-622 | a message whose PUBCOMP the broker received was delivered once or never, and never exactly when every copy of it met its id in the table or a full table |
| Qos2Protocol.ExactlyOnce | paho.mqtt.embedded-c/MQTTClient/src/MQTTClient.h:600-656 | a message whose PUBCOMP the broker received was delivered exactly once, if the table never overflowed and no PUBCOMP went out unnoticed: two flags a client could keep, sufficient only |
| Qos2Protocol.HeldUntilPubcomp | paho.mqtt.embedded-c/MQTTClient/src/MQTTClient.h:641-656 | an id leaves the table only in the step that answers its PUBREL and has sent the PUBCOMP for it |
| Qos2Protocol.UndisturbedExchange | paho.mqtt.embedded-c/MQTTClient/src/MQTTClient.h:611-656 | an undisturbed exchange completes and frees the id, and delivers the message if and only if the id was not held and a slot was free |
| Qos2Protocol.LostPublishIsRepeated | paho.mqtt.embedded-c/MQTTClient/src/MQTTClient.h:600-656 | after a loss of PUBLISH or PUBREC the repeat completes the message and frees its id, and it is delivered by it exactly when the id is not held and a slot is free |
| Qos2Protocol.LostReleaseIsRepeated | paho.mqtt.embedded-c/MQTTClient/src/MQTTClient.h:641-656 | after a loss of PUBREL or PUBCOMP the repeat completes the message and frees its id without another delivery |
| Qos2Protocol.UnnoticedPubcompLoses | paho.mqtt.embedded-c/MQTTClient/src/MQTTClient.h:650-655 | a concrete run in which a message is completed, never delivered, and the table never full |
| MqttHistory.TableIsDistinct | paho.mqtt.embedded-c/MQTTClient/src/MQTTClient.h:338-375 | whatever the history, no id is held twice |
| MqttHistory.StaysHeld | paho.mqtt.embedded-c/MQTTClient/src/MQTTClient.h:615-655 | a delivered QoS 2 id stays in the table until its PUBCOMP is sent or the session discarded |
| MqttHistory.NoSecondDelivery | paho.mqtt.embedded-c/MQTTClient/src/MQTTClient.h:611-622 | between two QoS 2 deliveries with one id, its PUBCOMP was sent or the session discarded |
| MqttHistory.FollowsProtocol | paho.mqtt.embedded-c/MQTTClient/src/MQTTClient.h:600-656 | handling a packet is one client step of the protocol: same table, the same message delivered or none, and its acknowledgement on the wire |
| MqttHistory.AnswersInBytes | paho.mqtt.embedded-c/MQTTClient/src/MQTTClient.h:624-655 | the answers in bytes: PUBACK 64, PUBREC 80, PUBREL 98, PUBCOMP 112, each with length 2 and the id high byte first |
| MqttHistory.PubcompInBytes | paho.mqtt.embedded-c/MQTTPacket/src/MQTTSerializePublish.c:104-127 | what counts as a PUBCOMP in the history: four bytes, the first from 112 to 127 |
| MqttHistory.HeadIsRead | paho.mqtt.embedded-c/MQTTClient/src/MQTTClient.h:448-490 | when the stream begins with the bytes of the next packet on the link and no read is short, the turn's job is that packet: a QoS 2 message with topic, payload, retain flag and id as the broker sent it, its release, or nothing of the protocol |
| MqttHistory.TurnMirrors | paho.mqtt.embedded-c/MQTTClient/src/MQTTClient.h:579-676 | a turn of the client, whatever it read, keeps table and deliveries those of the protocol |
| MqttHistory.JointRunMirrors | paho.mqtt.embedded-c/MQTTClient/src/MQTTClient.h:579-676 | in every interleaving of broker, link and client turns, with other packets between those of the protocol, the client is the one of the protocol |
| MqttHistory.DeliveriesAreDifferent | paho.mqtt.embedded-c/MQTTClient/src/MQTTClient.h:527-554 | in every such run what `deliverMessage` was called with at QoS 2 are the broker's messages with all their content, and no two calls are for the same one |
| MqttHistory.OneMessageRun | paho.mqtt.embedded-c/MQTTClient/src/MQTTClient.h:600-639 | there are such runs: a broker connects and offers a message, and the client reads and delivers it |
| MqttHistory.RunsJoin | paho.mqtt.embedded-c/MQTTClient/src/MQTTClient.h:559-575 | turns after turns are turns: their histories and the bytes they took off the stream add up |
| MqttHistory.TurnsTakePackets | paho.mqtt.embedded-c/MQTTClient/src/MQTTClient.h:559-575 | turns that read no packet in part take a stream of packets one by one, and the last one that read took the last packet gone |
| MqttHistory.TableOfMessage | paho.mqtt.embedded-c/MQTTClient/src/MQTTClient.h:611-622 | what one message does to the table |
| MqttHistory.TableOfRelease | paho.mqtt.embedded-c/MQTTClient/src/MQTTClient.h:641-656 | what a PUBREL does to the table once its PUBCOMP is sent, and that a PUBREC does nothing |
| MqttClient.Client.constructor | paho.mqtt.embedded-c/MQTTClient/src/MQTTClient.h:328-333 | a new client has no filters, nothing in flight and an empty table, and satisfies the invariant |
| MqttClient.Client.IsQoS2msgidFree | paho.mqtt.embedded-c/MQTTClient/src/MQTTClient.h:338-346 | true exactly when no slot holds the id |
| MqttClient.Client.UseQoS2msgid | paho.mqtt.embedded-c/MQTTClient/src/MQTTClient.h:350-361 | the first free slot takes the id; fails exactly when there is none |
| MqttClient.Client.FreeQoS2msgid | paho.mqtt.embedded-c/MQTTClient/src/MQTTClient.h:365-375 | the first slot with the id becomes free, all others stay |
| MqttClient.Client.CleanSession | paho.mqtt.embedded-c/MQTTClient/src/MQTTClient.h:299-314 | no filter, nothing in flight and no id are left; callbacks stay attached to their slots |
| MqttClient.Client.CloseSession | paho.mqtt.embedded-c/MQTTClient/src/MQTTClient.h:318-324 | disconnected; the session state is discarded exactly when the session is clean, otherwise untouched |
| MqttClient.Client.SendPacket | paho.mqtt.embedded-c/MQTTClient/src/MQTTClient.h:380-409 | success exactly when all bytes were taken over any number of partial writes; otherwise a failed write or an expired timer, and a prefix of the packet on the wire |
| MqttClient.Client.ReadPacket | paho.mqtt.embedded-c/MQTTClient/src/MQTTClient.h:448-490 | what was taken off the stream, field by field, and the result that goes with it, for every stream and every short read; a whole packet is in the buffer byte for byte |
| MqttClient.Client.DeliverMessage | paho.mqtt.embedded-c/MQTTClient/src/MQTTClient.h:527-554 | exactly the slots with a handler whose filter is the topic, or well formed matches it level by level with wildcards facing non-empty levels, are called, once each and in slot order; the default handler exactly when there is no such slot; the result tells whether any was called |
| MqttClient.Client.CallMatching | paho.mqtt.embedded-c/MQTTClient/src/MQTTClient.h:527-544 | the loop over the slots calls the handlers of `HandlersAreChosen`, and fails when there is none |
| MqttClient.HandlersAreChosen | paho.mqtt.embedded-c/MQTTClient/src/MQTTClient.h:533-544 | the handlers called are those of the chosen slots: all that receive the topic, each once, in order, and no other |
| MqttClient.RecipientsAreDispatched | paho.mqtt.embedded-c/MQTTClient/src/MQTTClient.h:533-552 | with the default handler: called exactly when no slot is chosen |
| MqttClient.AcceptsAndHandles | paho.mqtt.embedded-c/MQTTClient/src/MQTTClient.h:536-541 | a slot is called exactly when it has a handler and its filter is the topic or, well formed, matches it as `TopicMatch.ClientMatch` says |
| MqttClient.TextOfBytes | paho.mqtt.embedded-c/MQTTClient/src/MQTTClient.h:536-541 | the topic that filters are compared with has the characters of the bytes received |
| MqttClient.Client.SetMessageHandler | paho.mqtt.embedded-c/MQTTClient/src/MQTTClient.h:811-850 | the slots become those described by `RegisteredSlots`, failure leaves them alone, and filters stay distinct |
| MqttClient.RegisteredSlots | paho.mqtt.embedded-c/MQTTClient/src/MQTTClient.h:811-850 | possible exactly when the filter has a slot or, for a new handler, one is free; the filter then has its handler (or no slot), and slots of other filters are untouched |
| MqttClient.Client.AcceptMessage | paho.mqtt.embedded-c/MQTTClient/src/MQTTClient.h:611-622 | below QoS 2 always delivered; at QoS 2 delivered exactly when the id is not held and a slot is free, and then held |
| MqttClient.Client.TakePublish | paho.mqtt.embedded-c/MQTTClient/src/MQTTClient.h:600-639 | delivery and then PUBACK or PUBREC with the message's id; fails on QoS 3 or when the answer does not go out; an unparsed packet changes nothing |
| MqttClient.Client.TakeRelease | paho.mqtt.embedded-c/MQTTClient/src/MQTTClient.h:641-656 | PUBREC is answered by PUBREL, PUBREL by PUBCOMP, and the id is freed only if the PUBCOMP was sent |
| MqttClient.Client.KeepAlive | paho.mqtt.embedded-c/MQTTClient/src/MQTTClient.h:680-710 | a ping goes out exactly when the interval is set, none is outstanding and a timer has run out; failure exactly when it is broken off or an outstanding one was not answered in time |
| MqttClient.PingsWhenDue | paho.mqtt.embedded-c/MQTTClient/src/MQTTClient.h:680-710 | in bytes, with writes that succeed: `[192, 0]` goes out exactly when no ping is outstanding and one of the two timers has run out; failure exactly when an outstanding ping has run out of time |
| MqttClient.Client.React | paho.mqtt.embedded-c/MQTTClient/src/MQTTClient.h:587-664 | for every packet type: what is delivered and answered, the result, and whether the keep-alive check is skipped |
| MqttClient.Client.Finish | paho.mqtt.embedded-c/MQTTClient/src/MQTTClient.h:666-675 | an open session is closed exactly on failure, and only then a clean session loses what was in flight |
| MqttClient.Client.Cycle | paho.mqtt.embedded-c/MQTTClient/src/MQTTClient.h:579-676 | one packet off the stream is one turn: its delivery, its answer, a due ping and the end of a clean session, in this order, make up the history; the connection survives exactly when nothing failed |
| MqttClient.TurnIsAllowed | paho.mqtt.embedded-c/MQTTClient/src/MQTTClient.h:579-676 | what reading, reacting and finishing do makes a turn: the job is brought by the packet read, the answer is the one for it, and nothing else touches the table |
| MqttClient.TakesPacket | paho.mqtt.embedded-c/MQTTClient/src/MQTTClient.h:579-676 | one cycle with any whole packet at the front of the stream and a quiet network: exactly that packet is taken, and it alone decides result, answer, calls and connection |
| MqttClient.TakesMessage | paho.mqtt.embedded-c/MQTTClient/src/MQTTClient.h:600-639 | in bytes: a PUBLISH is answered by nothing, `[64, 2, id]` or `[80, 2, id]` for QoS 0, 1, 2; its content goes to the receiving slots, at QoS 2 only if the id is not held and a slot is free, and then the id is held; every other id stays |
| MqttClient.TakesRelease | paho.mqtt.embedded-c/MQTTClient/src/MQTTClient.h:641-656 | in bytes: a PUBREL is answered by `[112, 2, id]` and its id, and no other, leaves the table; a PUBREC is answered by `[98, 2, id]` and leaves the table alone; nobody is called |
| MqttClient.TakesOther | paho.mqtt.embedded-c/MQTTClient/src/MQTTClient.h:587-664 | packets of type 0, 2, 4, 7, 9, 11, 13 change nothing but an outstanding ping, which type 13 ends; types 1, 8, 10, 12, 14, 15 end the connection; the result is the type |
| MqttClient.RefusesThirdQos | paho.mqtt.embedded-c/MQTTClient/src/MQTTClient.h:624-638 | a PUBLISH with both QoS bits set and a one-byte length ends the connection with -1, whatever is in it |
| MqttClient.RefusesTooLong | paho.mqtt.embedded-c/MQTTClient/src/MQTTClient.h:465-469 | a packet that does not fit the read buffer ends the connection with -2, and its body stays on the stream |
| MqttClient.RefusesCutShort | paho.mqtt.embedded-c/MQTTClient/src/MQTTClient.h:472-473 | a packet that is cut short ends the connection, with the positive result 1 |
| MqttClient.Client.CycleInTime | paho.mqtt.embedded-c/MQTTClient/src/MQTTClient.h:715-728 | nothing happens once the timer ran out, otherwise one turn; its result is the wanted type exactly when the turn took a packet of that type and did not fail |
| MqttClient.Client.WaitFor | paho.mqtt.embedded-c/MQTTClient/src/MQTTClient.h:715-728 | the history grows by turns; the wanted type is returned exactly when the last turn took a packet of it and did not fail, which is so when one is at the front of the stream unless a read was short or a write or timer failed, and also when one is behind a PUBREC there and the network is calm |
| MqttClient.Client.Yield | paho.mqtt.embedded-c/MQTTClient/src/MQTTClient.h:559-575 | the history grows by turns, which keep the publish in flight unless a clean session was closed; failure means disconnected |
| MqttClient.Client.AwaitAck | paho.mqtt.embedded-c/MQTTClient/src/MQTTClient.h:946-957 | success exactly when the last turn took an acknowledgement of the type, whatever its id; the publish in flight ends when that is its id, and in no other way but a too short acknowledgement or a closed clean session |
| MqttClient.Client.PublishPacket | paho.mqtt.embedded-c/MQTTClient/src/MQTTClient.h:936-980 | the packet is attempted in the first turn; success exactly when it went out and, at QoS 1 and 2, the last turn took an acknowledgement of the type, whatever its id; then as in `AwaitAck`; failure closes the session |
| MqttClient.Client.GetNextId | paho.mqtt.embedded-c/MQTTClient/src/MQTTClient.h:91-94 | the next packet id, never zero |
| MqttClient.IdAfterIs | paho.mqtt.embedded-c/MQTTClient/src/MQTTClient.h:83-99 | the id after n calls in closed form |
| MqttClient.IdsDiffer | paho.mqtt.embedded-c/MQTTClient/src/MQTTClient.h:83-99 | any 65535 consecutive ids are different and within 1 to 65535 |
| MqttClient.Client.KeepFlight | paho.mqtt.embedded-c/MQTTClient/src/MQTTClient.h:1010-1016 | the kept bytes are the serialized publish with that id and QoS |
| MqttClient.Client.PublishMessage | paho.mqtt.embedded-c/MQTTClient/src/MQTTClient.h:985-1023 | the serialized publish is attempted, and success is as in `PublishPacket`; with the session kept it stays in flight, bytes included, unless that acknowledgement carries its id (or none); with a calm network and an acknowledgement at the front of the stream, or behind a PUBREC there, nothing gets in the way; refused when disconnected or too long |
| MqttClient.AnyAckSucceeds | paho.mqtt.embedded-c/MQTTClient/src/MQTTClient.h:945-971 | in bytes: a publish succeeds on `[64, 2, id]` at QoS 1 and on `[112, 2, id]` at QoS 2, of any id, and is still in flight exactly when the id is another one |
| MqttClient.HandshakeSucceeds | paho.mqtt.embedded-c/MQTTClient/src/MQTTClient.h:960-971 | in bytes: at QoS 2 a PUBREC `[80, 2, id]` is answered by `[98, 2, id]`, and the PUBCOMP behind it makes the publish succeed; it has left the flight exactly when the PUBCOMP carries its id |
| MqttClient.OtherAcksDoNotDo | paho.mqtt.embedded-c/MQTTClient/src/MQTTClient.h:945-971 | on any stream of packets without one of type 4 at QoS 1, or of type 7 at QoS 2, a publish fails and the session is closed: at QoS 2 neither PUBACK nor PUBREC is enough |
| MqttClient.Client.AwaitConnack | paho.mqtt.embedded-c/MQTTClient/src/MQTTClient.h:751-763 | the result is the code of the CONNACK that the last turn took, success when it has none, else failure; nothing in flight is lost |
| MqttClient.Client.ResendFlight | paho.mqtt.embedded-c/MQTTClient/src/MQTTClient.h:766-781 | exactly the kept bytes of the publish in flight are attempted again; success and end of the flight as in `PublishPacket`, for an acknowledgement of any id |
| MqttClient.Client.Handshake | paho.mqtt.embedded-c/MQTTClient/src/MQTTClient.h:743-763 | the CONNECT of the options is attempted first, unless it does not fit; the result is that of the CONNACK, which is the one at the front of the stream unless a read was short or a write or timer failed |
| MqttClient.Client.Establish | paho.mqtt.embedded-c/MQTTClient/src/MQTTClient.h:743-782 | what decides: with nothing in flight the CONNACK; with a publish in flight, whatever the CONNACK said, that it went out again and above QoS 0 the last turn took an acknowledgement of its type, of any id; the flight ends only by its own id |
| MqttClient.Client.Connect | paho.mqtt.embedded-c/MQTTClient/src/MQTTClient.h:732-791 | success exactly as in `Establish`, and connected exactly on success; a connected client refuses; the flight ends as in `AwaitAck` |
| MqttClient.Client.Disconnect | paho.mqtt.embedded-c/MQTTClient/src/MQTTClient.h:1042-1051 | DISCONNECT is attempted and the session closed, whatever came of it, in one turn |
| MqttClient.SerializeZero | paho.mqtt.embedded-c/MQTTPacket/src/MQTTConnectClient.c:169-190 | the two bytes of PINGREQ or DISCONNECT, or an untouched buffer when they do not fit |
| MqttClient.ZeroInBytes | paho.mqtt.embedded-c/MQTTPacket/src/MQTTConnectClient.c:169-214 | PINGREQ is `[192, 0]` and DISCONNECT `[224, 0]` |
| MqttClient.ClientNumbers | paho.mqtt.embedded-c/MQTTClient/src/MQTTClient.h:46 | the numbers of the results, of the packet types the client deals with, and of the acknowledgement awaited at QoS 1 and 2 |
| MqttClient.DeserializeConnack | paho.mqtt.embedded-c/MQTTPacket/src/MQTTConnectClient.c:132-159 | return code and CONNACK code for every readable buffer, none for another type or a packet too short |
| MqttClient.SuccessMeansCode | paho.mqtt.embedded-c/MQTTPacket/src/MQTTConnectClient.c:146-156 | return code 1 comes with a CONNACK code, except exactly for a packet too short with a one-byte length, of which `[32, 0]` is one |
| MqttClient.CodelessConnackConnects | paho.mqtt.embedded-c/MQTTClient/src/MQTTClient.h:751-757 | with nothing in flight and a calm network, a stream that begins with `[32, 0]` connects the client |
| MqttClient.CodelessFromScratch | paho.mqtt.embedded-c/MQTTClient/src/MQTTClient.h:732-791 | the same from a new client on, with concrete options |
| MqttClient.RefusalIsReplaced | paho.mqtt.embedded-c/MQTTClient/src/MQTTClient.h:751-782 | with a publish of QoS 1 or 2 in flight, a CONNACK of any code followed by a PUBACK or PUBCOMP of any id connects the client, and the publish is acknowledged exactly when the id is its own |
| MqttClient.NoAckNoConnection | paho.mqtt.embedded-c/MQTTClient/src/MQTTClient.h:751-782 | on any stream of packets without one of type 2 (with a publish in flight: 4 at QoS 1, 7 at QoS 2) a connection attempt fails |
| MqttClient.Perform | paho.mqtt.embedded-c/MQTTClient/src/MQTTClient.h:559-1051 | every call of the application is a run of turns on its stream |
| MqttClient.Run | paho.mqtt.embedded-c/MQTTClient/src/MQTTClient.h:559-1051 | so is every sequence of calls, and it keeps the session when every `connect` asks for that |
| MqttClient.NothingTwice | paho.mqtt.embedded-c/MQTTClient/src/MQTTClient.h:559-1051 | a new client, connected with its session kept, then any calls: against every broker and link its turns may have met, it delivered the broker's messages and none of them twice |
| TopicMatch.IsTopicMatched | paho.mqtt.embedded-c/MQTTClient/src/MQTTClient.h:497-522 | the pointer loop decides what the recursive scan decides |
| TopicMatch.ScanIsMatchLevels | paho.mqtt.embedded-c/MQTTClient/src/MQTTClient.h:493-522 | for every well-formed filter and every name: the scan accepts exactly when a level-by-level matcher does |
| TopicMatch.MatchLevelsIsLooseAndFacing | paho.mqtt.embedded-c/MQTTClient/src/MQTTClient.h:493-522 | the level matcher is section 4.7.1 plus the demand that every wildcard faces a non-empty level |
| TopicMatch.MatchLevelByLevel | paho.mqtt.embedded-c/MQTTClient/src/MQTTClient.h:493-522 | section 4.7.1 in one sentence: before a last `#` each level of the filter is `+` or the level of the name, and without a `#` both have as many |
| TopicMatch.ClientMatch | paho.mqtt.embedded-c/MQTTClient/src/MQTTClient.h:493-522 | the two combined, in the terms of the standard |
| TopicMatch.AgreesWithStandard | paho.mqtt.embedded-c/MQTTClient/src/MQTTClient.h:493-522 | for every well-formed filter: where the client agrees with section 4.7 and exactly how it departs |
| TopicMatch.SplitJoined | paho.mqtt.embedded-c/MQTTClient/src/MQTTClient.h:493-495 | splitting into levels undoes joining with separators |
| TopicMatch.ParentLevelDiffers | paho.mqtt.embedded-c/MQTTClient/src/MQTTClient.h:515-521 | `a/#` against `a`: standard yes, client no |
| TopicMatch.EmptyLevelDiffers | paho.mqtt.embedded-c/MQTTClient/src/MQTTClient.h:505-514 | `+/b` against `/b`: standard yes, client no |
| TopicMatch.EmptyRestDiffers | paho.mqtt.embedded-c/MQTTClient/src/MQTTClient.h:505-516 | `#` against `/b`: standard yes, client no |
| TopicMatch.DollarDiffers | paho.mqtt.embedded-c/MQTTClient/src/MQTTClient.h:493-522 | `#` against `$`: standard no, client yes |
| TopicMatch.HashInTheMiddle | paho.mqtt.embedded-c/MQTTClient/src/MQTTClient.h:515-521 | outside well-formed filters: `#` with anything behind it takes no name |
| TopicMatch.PlusInTheMiddle | paho.mqtt.embedded-c/MQTTClient/src/MQTTClient.h:505-514 | outside well-formed filters: `+` behind a character takes the rest of the level if there is any |
| MqttPacket.HeaderFields | paho.mqtt.embedded-c/MQTTPacket/src/MQTTSerializePublish.c:70-74 | type, dup, QoS and retain are read back from the header byte |
| MqttPacket.HeaderInBits | paho.mqtt.embedded-c/MQTTPacket/src/MQTTPacket.h:65-71 | type times 16, dup 8, QoS times 2, retain 1 |
| MqttPacket.Numbers | paho.mqtt.embedded-c/MQTTPacket/src/MQTTPacket.h:35-48 | the numbers of the packet types and error returns |
| MqttPacket.LengthRoundTrip | paho.mqtt.embedded-c/MQTTPacket/src/MQTTPacket.c:29-81 | encode then decode is the identity with the same byte count, whatever follows, from any byte position of the field |
| MqttPacket.RemainingLengthRoundTrip | paho.mqtt.embedded-c/MQTTPacket/src/MQTTPacket.c:29-81 | in particular for 0 to 268435455 |
| MqttPacket.EncodedSize | paho.mqtt.embedded-c/MQTTPacket/src/MQTTPacket.c:29-45 | one to four bytes, at the limits of section 2.2.3, more than four exactly beyond the range |
| MqttPacket.LengthInBytes | paho.mqtt.embedded-c/MQTTPacket/src/MQTTPacket.c:29-45 | the one to four bytes of every length up to 268435455, as section 2.2.3 lists them |
| MqttPacket.IntInBytes | paho.mqtt.embedded-c/MQTTPacket/src/MQTTPacket.c:164-170 | integers and string lengths, the most significant byte first |
| MqttPacket.PacketLenIsTight | paho.mqtt.embedded-c/MQTTPacket/src/MQTTPacket.c:84-98 | the tested size is the true size, one too many for exactly four values, too small exactly beyond the range |
| MqttPacket.Encode | paho.mqtt.embedded-c/MQTTPacket/src/MQTTPacket.c:29-45 | the loop writes the encoded length behind what was there and nothing else |
| MqttPacket.DecodeBuf | paho.mqtt.embedded-c/MQTTPacket/src/MQTTPacket.c:54-117 | value and count of the length field, a fifth byte counted but not read |
| MqttPacket.WriteCString | paho.mqtt.embedded-c/MQTTPacket/src/MQTTPacket.c:178-184 | a length-prefixed string is appended, the bytes behind stay |
| MqttPacket.WriteMqttString | paho.mqtt.embedded-c/MQTTPacket/src/MQTTPacket.c:194-206 | the preferred form of the string record is appended |
| MqttPacket.TextOfForms | paho.mqtt.embedded-c/MQTTPacket/src/MQTTPacket.c:194-206 | a counted string that is not empty goes before a C string |
| MqttPacket.WellSizedForms | paho.mqtt.embedded-c/MQTTPacket/src/MQTTPacket.c:194-251 | size computation and writer of a string agree exactly when it is used in one form, or in two of the same length |
| MqttPacket.ReadMqttLenString | paho.mqtt.embedded-c/MQTTPacket/src/MQTTPacket.c:215-234 | a string is read exactly when it ends within the packet |
| MqttPacket.ReadsField | paho.mqtt.embedded-c/MQTTPacket/src/MQTTPacket.c:178-234 | a written string is read back from wherever it stands |
| MqttPublish.PublishRoundTrip | paho.mqtt.embedded-c/MQTTPacket/src/MQTTDeserializePublish.c:36-69 | every valid PUBLISH is read back from its bytes: all fields, the id above QoS 0 |
| MqttPublish.BytesInOrder | paho.mqtt.embedded-c/MQTTPacket/src/MQTTSerializePublish.c:31-91 | the order of the fields, and that the tested size covers the bytes with at most one to spare |
| MqttPublish.PublishInBytes | paho.mqtt.embedded-c/MQTTPacket/src/MQTTSerializePublish.c:55-91 | every PUBLISH byte by byte, as in section 3.3 |
| MqttPublish.SerializePublish | paho.mqtt.embedded-c/MQTTPacket/src/MQTTSerializePublish.c:55-91 | the packet's bytes and no write beyond them, or an untouched buffer when it is too short |
| MqttPublish.DeserializePublish | paho.mqtt.embedded-c/MQTTPacket/src/MQTTDeserializePublish.c:36-69 | fields and return code of the specification, for every buffer |
| MqttPublish.SuccessMeansParsed | paho.mqtt.embedded-c/MQTTPacket/src/MQTTDeserializePublish.c:53-65 | return code 1 means a parsed packet, except exactly for an overrunning topic in a packet with a one-byte length |
| MqttPublish.IdBehindTheEnd | paho.mqtt.embedded-c/MQTTPacket/src/MQTTDeserializePublish.c:53-65 | a packet is accepted although it has no room for its id, which is then read from behind its end, exactly when the payload length reported is below zero; `[50, 3, 0, 1, 97]` is one |
| MqttPublish.AckRoundTrip | paho.mqtt.embedded-c/MQTTPacket/src/MQTTSerializePublish.c:104-127 | type, dup and id of every acknowledgement are read back |
| MqttPublish.AckInBytes | paho.mqtt.embedded-c/MQTTPacket/src/MQTTSerializePublish.c:104-127 | every acknowledgement byte by byte, as in sections 3.4 to 3.7, the flag bits of PUBREL being 2 |
| MqttPublish.SuccessMeansId | paho.mqtt.embedded-c/MQTTPacket/src/MQTTDeserializePublish.c:95-102 | return code 1 comes with an id, except exactly for a packet too short with a one-byte length |
| MqttPublish.SerializeAck | paho.mqtt.embedded-c/MQTTPacket/src/MQTTSerializePublish.c:104-127 | four bytes and no more, or an untouched buffer |
| MqttPublish.DeserializeAck | paho.mqtt.embedded-c/MQTTPacket/src/MQTTDeserializePublish.c:82-106 | fields and return code of the specification, for every buffer |
| MqttConnect.FlagsRoundTrip | paho.mqtt.embedded-c/MQTTPacket/src/MQTTConnectServer.c:79-102 | each connect flag is read back from the flag byte |
| MqttConnect.FlagsInBits | paho.mqtt.embedded-c/MQTTPacket/src/MQTTConnectClient.c:90-103 | where each connect flag stands in its byte, as in section 3.1.2.3 |
| MqttConnect.ConnectRoundTrip | paho.mqtt.embedded-c/MQTTPacket/src/MQTTConnectServer.c:51-108 | for every option record: accepted exactly when a password comes with a user name and has a byte, and a lone user name has a byte; then every transmitted field is recovered |
| MqttConnect.ConnectLengthIsExact | paho.mqtt.embedded-c/MQTTPacket/src/MQTTConnectClient.c:27-48 | the size computation is the number of bytes written after the header |
| MqttConnect.BytesInThree | paho.mqtt.embedded-c/MQTTPacket/src/MQTTConnectClient.c:58-121 | header, variable header and payload make up the packet, within the tested size |
| MqttConnect.ConnectInBytes | paho.mqtt.embedded-c/MQTTPacket/src/MQTTConnectClient.c:58-121 | every CONNECT byte by byte, as in section 3.1 |
| MqttConnect.RecordInBytes | paho.mqtt.embedded-c/MQTTPacket/src/MQTTConnectClient.c:58-121 | the same for an option record: which field of it stands where, flags included |
| MqttConnect.SerializeConnect | paho.mqtt.embedded-c/MQTTPacket/src/MQTTConnectClient.c:58-121 | the packet's bytes and no write beyond them, or an untouched buffer when it is too short |
| MqttConnect.DeserializeConnect | paho.mqtt.embedded-c/MQTTPacket/src/MQTTConnectServer.c:51-108 | the parsed record of the specification, for every buffer |
| MqttConnect.DeserializeBody | paho.mqtt.embedded-c/MQTTPacket/src/MQTTConnectServer.c:79-103 | the part after the protocol level, field by field up to the first that overruns |
| MqttConnect.VersionsThatPass | paho.mqtt.embedded-c/MQTTPacket/src/MQTTConnectServer.c:30-41 | name and version that pass the test: only versions 3 and 4, each with its own name, of which only the shorter one is compared |
| MqttConnect.OtherVersionsRefused | paho.mqtt.embedded-c/MQTTPacket/src/MQTTConnectServer.c:70-107 | a CONNECT with any other version is refused, whatever else is in it |
| MqttSubscribe.SubscribeRoundTrip | paho.mqtt.embedded-c/MQTTPacket/src/MQTTSubscribeServer.c:35-76 | for every list and any QoS values: accepted exactly when it is not longer than `maxcount`, and then id and filters come back in order, each QoS narrowed to a character; the same packet exactly when every QoS is in the range of one |
| MqttSubscribe.NarrowedIsSame | paho.mqtt.embedded-c/MQTTPacket/src/MQTTPacket.c:139-156 | QoS values survive `writeChar` and `readChar` exactly when they are in the range of `char`, signed or not |
| MqttSubscribe.FiltersTakeThreeBytes | paho.mqtt.embedded-c/MQTTPacket/src/MQTTSubscribeServer.c:60-70 | on any input each accepted filter used at least three bytes, so the loop ends |
| MqttSubscribe.SubscribeLength | paho.mqtt.embedded-c/MQTTPacket/src/MQTTSubscribeClient.c:28-36 | the loop adds up the true length of what will be written |
| MqttSubscribe.SubscribeInBytes | paho.mqtt.embedded-c/MQTTPacket/src/MQTTSubscribeClient.c:50-86 | every SUBSCRIBE byte by byte, as in section 3.8, the flag bits being 2 |
| MqttSubscribe.ArraysInBytes | paho.mqtt.embedded-c/MQTTPacket/src/MQTTSubscribeClient.c:76-80 | the caller's arrays in bytes: one filter with its QoS after the other |
| MqttSubscribe.SerializeSubscribe | paho.mqtt.embedded-c/MQTTPacket/src/MQTTSubscribeClient.c:50-86 | the packet's bytes and no write beyond them, or an untouched buffer when it is too short |
| MqttSubscribe.DeserializeSubscribe | paho.mqtt.embedded-c/MQTTPacket/src/MQTTSubscribeServer.c:35-76 | the loop over the filters returns what the specification reads, for every buffer |
| PacketReader.FeedPacket | paho.mqtt.embedded-c/MQTTPacket/src/MQTTPacket.c:362-411 | a well-formed packet fed byte by byte is reported whole, once, and the reader is idle after it |
| PacketReader.TooLongIsRefused | paho.mqtt.embedded-c/MQTTPacket/src/MQTTPacket.c:385-388 | a packet too long for the buffer is refused before any byte of its body |
| PacketReader.FifthLengthByteIsRefused | paho.mqtt.embedded-c/MQTTPacket/src/MQTTPacket.c:324-352 | a length field that goes on after its fourth byte is refused there |
| PacketReader.FeedStream | paho.mqtt.embedded-c/MQTTPacket/src/MQTTPacket.c:362-411 | a stream of packets is reported packet by packet, in order |
| PacketReader.FaultStartsOver | paho.mqtt.embedded-c/MQTTPacket/src/MQTTPacket.c:362-411 | a failed read anywhere is reported and forgets the packet; the packets that follow are reported in full |
| PacketReader.Transport.DecodeNb | paho.mqtt.embedded-c/MQTTPacket/src/MQTTPacket.c:324-352 | the resumed length decoding follows the byte automaton over whatever arrived |
| PacketReader.Transport.ReadNb | paho.mqtt.embedded-c/MQTTPacket/src/MQTTPacket.c:362-411 | one call moves the automaton over exactly the bytes it consumed; a packet type is returned exactly when a packet was completed, with its bytes in the buffer, -1 on a failure and 0 while there is nothing to report |
| PacketReader.CallsCompose | paho.mqtt.embedded-c/MQTTPacket/src/MQTTPacket.c:362-411 | any sequence of calls does what one pass over all consumed bytes does |
| PacketReader.ChunkingIndependence | paho.mqtt.embedded-c/MQTTPacket/src/MQTTPacket.c:362-411 | two schedules of partial and empty reads over the same bytes report the same packets and end in the same state |
| PacketReader.PacketIsQuiet | paho.mqtt.embedded-c/MQTTPacket/src/MQTTPacket.c:362-411 | nothing is reported before the last byte of a packet |
| PacketReader.PartOfStream | paho.mqtt.embedded-c/MQTTPacket/src/MQTTPacket.c:362-411 | after any number of bytes of a stream exactly the packets that are complete have been reported |
| PacketReader.ReaderReturnsPackets | paho.mqtt.embedded-c/MQTTPacket/src/MQTTPacket.c:362-411 | so the calls return the packets of the stream in order, each with exactly its bytes |
| PacketReader.Decode | paho.mqtt.embedded-c/MQTTPacket/src/MQTTPacket.c:54-81 | for every stream and every short read: which bytes were consumed, the value they stand for, and the count; the field ends at the first byte below 128, the fourth, or where no more came |
| PacketReader.EncodedFieldRead | paho.mqtt.embedded-c/MQTTPacket/src/MQTTPacket.c:29-81 | a stream that begins with an encoded length is consumed to just behind it, and the value is that length |
| PacketReader.Read | paho.mqtt.embedded-c/MQTTPacket/src/MQTTPacket.c:290-316 | for every stream and every short read: what was taken, and the packet type with the packet in the buffer exactly when it came whole and fits, else the error return |
| PacketReader.PacketIsRead | paho.mqtt.embedded-c/MQTTPacket/src/MQTTPacket.c:290-316 | a stream that begins with a packet that fits, read without a short read, yields that packet and leaves the stream right behind it |
| PacketReader.FrontIs | paho.mqtt.embedded-c/MQTTPacket/src/MQTTPacket.c:290-316 | the packet at the front of a stream is determined by the stream |
| PacketReader.BlockingReaderReturnsPackets | paho.mqtt.embedded-c/MQTTPacket/src/MQTTPacket.c:290-316 | called again and again on a stream of packets, the blocking reader returns them in order and stops right behind the last |
| PacketReader.ReadersAgree | paho.mqtt.embedded-c/MQTTPacket/src/MQTTPacket.c:290-411 | on every stream of packets both readers return the same, however the bytes come in to the resumable one |
| RingBuffer.IPStack.constructor | src/IPStack.cpp:18 | an empty queue with an arbitrary drop counter |
| RingBuffer.IPStack.TcpClientRecv | src/IPStack.cpp:153-200 | the queue takes the longest prefix that fits and counts the rest as dropped |
| RingBuffer.IPStack.Receive | src/IPStack.cpp:173-193 | one or two copies around the wrap append the bytes to the queue |
| RingBuffer.IPStack.Read | src/IPStack.cpp:203-234 | polls until enough is there or the time is up: what it returns and what stays are what was there and then all that was accepted of every buffer that came in meanwhile, in order; it returns as much as there is, up to what was asked; and the counter grew by all that was offered and not accepted |
| RingBuffer.IPStack.Poll | src/IPStack.cpp:203-209 | every buffer that comes in during a poll is taken in turn |
| RingBuffer.AllArrivedIsRun | src/IPStack.cpp:203-209 | what comes in during one poll arrives one after the other, like in any run of the queue |
| RingBuffer.PolledConserves | src/IPStack.cpp:203-212 | any number of polls lose nothing: content and drop counter account for every byte offered |
| RingBuffer.TwoArrivalsAreRead | src/IPStack.cpp:203-234 | two buffers that come in during one poll are both read |
| RingBuffer.IPStack.CopyFront | src/IPStack.cpp:213-230 | one or two copies around the wrap take the front off the ring |
| RingBuffer.TwoPutsAppend | src/IPStack.cpp:181-193 | writing in two stretches around the end of the buffer is appending |
| RingBuffer.TwoStretches | src/IPStack.cpp:214-225 | the front of a wrapped ring is the two stretches in order |
| RingBuffer.NothingLostOrReordered | src/IPStack.cpp:153-234 | for every interleaving of arrivals and reads: what was read plus what is left is what was accepted, in order and once each, and the counter grew by what was not accepted |
| RingBuffer.AcceptedWhileItFits | src/IPStack.cpp:171-179 | bytes are refused exactly when they do not fit, and then the ring is full |
| ModbusCrc.TableIsByteStep | src/modbus_handler/modbus_crc.h:3-35 | each of the 256 table entries is eight steps of the bit-serial register with polynomial 0xA001 |
| ModbusCrc.TableStep | src/modbus_handler/modbus_crc.h:40 | one loop body of the source is eight steps with the byte folded in |
| ModbusCrc.ComputeCrc | src/modbus_handler/modbus_crc.h:37-43 | the table-driven loop computes the bit-serial CRC of section 6.2.2 of the MODBUS over Serial Line Specification, for every byte sequence |
| ModbusCrc.CheckValue | src/modbus_handler/modbus_crc.h:37-43 | the digits 1 to 9 have the check value 0x4B37, and no bytes the initial value 0xFFFF |
| ModbusCrc.CrcIsBits | src/modbus_handler/modbus_crc.h:37-43 | the CRC depends on the bytes only as one stream of bits |
| ModbusCrc.WindowSeparates | src/modbus_handler/modbus_crc.h:37-43 | two different windows of up to 16 bits lead one register state to different states |
| ModbusCrc.BurstErrorDetected | src/modbus_handler/modbus_crc.h:37-43 | frames that differ only within 16 consecutive bits have different CRCs |
| ModbusCrc.AdjacentBytesDetected | src/modbus_handler/modbus_crc.h:37-43 | frames that differ only within two adjacent bytes have different CRCs |
| ModbusCrc.FramedIsZero | src/modbus_handler/modbus_register.cpp:86-88 | a frame followed by its CRC, low byte first, has CRC zero |
| ModbusCrc.ZeroExactlyWhenFramed | src/modbus_handler/modbus_register.cpp:97 | the zero test passes exactly when the last two bytes are the CRC of the rest |
| ModbusRegister.Register.FillHeader | src/modbus_handler/modbus_register.cpp:37-46 | the six header bytes that `HeaderFields` describes |
| ModbusRegister.HeaderFields | src/modbus_handler/modbus_register.cpp:37-46 | read back as a slave does: device, function, and address and count high byte first |
| ModbusRegister.Register.AppendCrc | src/modbus_handler/modbus_register.cpp:119-122 | the payload becomes the framed payload |
| ModbusRegister.Register.ReadRequest | src/modbus_handler/modbus_register.cpp:83-90 | a complete read request, read back from its bytes: device, function 3 or 4, register address and count high byte first, and the checksum low byte first |
| ModbusRegister.Register.StartRead | src/modbus_handler/modbus_register.cpp:92-94 | five bytes and two for each register are awaited |
| ModbusRegister.Register.WriteRequest | src/modbus_handler/modbus_register.cpp:102-106 | the header of a write, read back from its bytes: device, function 16, register address and count |
| ModbusRegister.Register.StartWrite16 | src/modbus_handler/modbus_register.cpp:114-125 | the header stays, then byte count 2, the word high byte first and the checksum low byte first; eight bytes are awaited |
| ModbusRegister.Register.StartWrite32 | src/modbus_handler/modbus_register.cpp:127-143 | the header stays, then byte count 4, the low word and the high word, each high byte first, and the checksum; with a single register byte count 2 and the low word alone |
| ModbusRegister.TwoRegistersAreRead | src/modbus_handler/modbus_register.cpp:83-90 | two registers at 14 of device 241 are asked for by `[241, 3, 0, 14, 0, 2, 177, 56]` |
| ModbusRegister.Register.ReadIsOk | src/modbus_handler/modbus_register.cpp:96-100 | the CRC test and the error length decide |
| ModbusRegister.Register.WriteIsOk | src/modbus_handler/modbus_register.cpp:108-112 | the CRC test and the least length decide |
| ModbusRegister.CorruptedResponseRefused | src/modbus_handler/modbus_register.cpp:96-112 | a response of any length hit by an error burst of at most 16 bits is refused |
| ModbusRegister.IntactResponseAccepted | src/modbus_handler/modbus_register.cpp:96-112 | an undamaged response is accepted exactly by its length |
| ModbusRegister.ReadBackWritten | src/modbus_handler/modbus_register.cpp:58-70 | `get32` and `get16` take off a response the value that a write of the same registers puts on the line |
| ModbusRegister.ShortReadBack | src/modbus_handler/modbus_register.cpp:58-64 | a response with a single register is taken as its 16 bits |
| LogCrc.TrickIsByteFed | src/logHandler.cpp:227-231 | the shift trick is eight bit-serial steps with polynomial 0x1021 |
| LogCrc.Crc16 | src/logHandler.cpp:223-234 | the loop computes the bit-serial CRC with initial value 0xFFFF, for every byte sequence |
| LogCrc.CheckValue | src/logHandler.cpp:223-234 | the digits 1 to 9 have the check value 0x29B1, and no bytes the initial value 0xFFFF |
| LogCrc.ByteStepInjective | src/logHandler.cpp:223-234 | different register states stay different |
| LogCrc.VerifiesExactlyWhenSealed | src/logHandler.cpp:236-261 | the integrity check passes exactly when the last two bytes are the CRC of the rest, high byte first |
| LogStore.PageReadsBack | src/logHandler.cpp:203-221 | a written page passes the printer's test and gives code and time stamp back |
| LogStore.PageInBytes | src/logHandler.cpp:203-221 | every page byte by byte: in use, code, time stamp high byte first, checksum high byte first |
| LogStore.ReadableMeansIntact | src/logHandler.cpp:236-261 | the printer shows a slot exactly when its first byte is 1 and the last two are the checksum of the six before |
| LogStore.SlotsInBytes | src/logHandler.cpp:19-25 | 256 slots of eight bytes each, from address 0 and from address 2056 on; a slot is in use when its first byte is not zero |
| LogStore.ScanFindsCursor | src/logHandler.cpp:138-150 | the first free slot is the number of records |
| LogStore.WriteAppends | src/logHandler.cpp:203-208 | a page in the first free slot appends its record and leaves the other region alone |
| LogStore.ClearEmpties | src/logHandler.cpp:116-136 | clearing empties one region and leaves the other alone |
| LogStore.ClearedInBytes | src/logHandler.cpp:116-136 | clearing zeroes the first byte of each of the 256 slots and leaves every other byte of the memory |
| LogStore.PushAppends | src/logHandler.cpp:84-90 | a push appends, or empties the region when it was the last slot; cursor and contents stay in step |
| LogStore.ScanRecovers | src/logHandler.cpp:138-169 | the boot scan sets the cursor behind the records, and empties a full region |
| LogStore.BootRecovers | src/logHandler.h:60-66 | after boot both cursors stand behind the records of their regions |
| LogStore.StepTracks | src/logHandler.cpp:56-68 | push, power cut between page write and cursor increment, and reboot keep cursor and contents in step |
| LogStore.RunTracks | src/logHandler.cpp:56-106 | after every run from empty regions the used slots are those below the cursor and hold exactly the records pushed since the last wrap, in order |
| LogStore.RebootIsInvisible | src/logHandler.cpp:138-169 | a reboot at any point of any run changes neither cursors nor contents |
| LogStore.PrintsTheRecords | src/logHandler.cpp:269-301 | the printer lists the records of a region, in order, and no free slot |
| LogStore.ListingInOrder | src/logHandler.cpp:269-301 | the lines of a listing: each record at its address, eight bytes from one to the next |
| LogStore.RunPrints | src/logHandler.cpp:269-301 | after every run the printer shows exactly what was pushed since the last wrap |
| LogStore.SinceWrapExtends | src/logHandler.cpp:56-68 | what is left since the wrap grows by the pushed record, or is empty after the last slot |
| LogStore.WrapsAt256 | src/logHandler.cpp:56-68 | what is left since the wrap are the last n mod 256 of n pushed records |
| LogStore.LogHandler.constructor | src/logHandler.h:60-66 | boot leaves the state of the specification |
| LogStore.LogHandler.FindFirstAvailableLog | src/logHandler.cpp:138-169 | cursor at the first free slot, or the region emptied |
| LogStore.LogHandler.ClearAllLogs | src/logHandler.cpp:116-136 | the use byte of every slot of one region is zero, every other byte as before |
| LogStore.LogHandler.IncrementUnusedLogIndex | src/logHandler.cpp:56-68 | the cursor moves on, or the region is emptied at its end |
| LogStore.LogHandler.EnterLogToEeprom | src/logHandler.cpp:203-208 | the record's page with its CRC stands at the address, every other byte as before |
| LogStore.LogHandler.CreateLogArray | src/logHandler.cpp:210-221 | the six bytes of a record |
| LogStore.LogHandler.Push | src/logHandler.cpp:84-90 | one step of the log's state machine |
| LogStore.LogHandler.PrintValidLogs | src/logHandler.cpp:269-301 | the lines printed are those of the specification |
| MonoVlsb.PutChangesOnePixel | src/display/mono_vlsb.cpp:55-59 | writing a pixel changes that pixel and no other, those in the same byte included |
| MonoVlsb.LowestBitOnTop | src/display/mono_vlsb.cpp:55-63 | the bit of a pixel row in its byte: the topmost of eight rows is the lowest bit; setting and clearing touch that bit alone |
| MonoVlsb.AllocationFits | src/display/mono_vlsb.cpp:35-43 | in a buffer of the allocated size every display pixel has a bit of its own exactly when the stride is the width, the width is 0, or there is at most one byte row |
| MonoVlsb.FitsMeansUsable | src/display/mono_vlsb.cpp:55-63 | for any size: all display pixels have bits of their own within the buffer exactly when the last row fits and rows, if more than one, do not overlap |
| MonoVlsb.FrameBuffer.constructor | src/display/mono_vlsb.cpp:35-43 | a buffer of width times the byte rows, plus the offset, all zero; for every size and stride valid exactly when every display pixel has a bit of its own, which is exactly when stride and width agree, the width is 0 or there is at most one byte row |
| MonoVlsb.FrameBuffer.SetPixel | src/display/mono_vlsb.cpp:55-59 | bit y mod 8 of byte y / 8 * stride + x + offset takes the colour, every other bit of the buffer stays; one pixel takes the colour, all others stay |
| MonoVlsb.FrameBuffer.GetPixel | src/display/mono_vlsb.cpp:61-63 | one or zero as bit y mod 8 of byte y / 8 * stride + x + offset is set |
| MonoVlsb.FrameBuffer.FillRect | src/display/mono_vlsb.cpp:65-75 | exactly the bits of the rectangle's bytes take the colour, also where it hangs over the display and where the row counter wraps; on the display these are exactly its pixels |
| MonoVlsb.FrameBuffer.FillRow | src/display/mono_vlsb.cpp:67-73 | one row: bit `row` mod 8 of each byte from the first column on, all other bits stay |
| MonoVlsb.RowsInBits | src/display/mono_vlsb.cpp:65-75 | which bits a rectangle is made of, byte by byte |
| MonoVlsb.RowWraps | src/display/mono_vlsb.cpp:66-74 | the row counter has 16 bits: behind row 65535 comes row 0 |
| MonoVlsb.RowsArePixels | src/display/mono_vlsb.cpp:65-75 | a bit of the display is in the painted rows exactly when its pixel is in the rectangle |
| MonoVlsb.FrameBuffer.Scroll | src/display/framebuf.cpp:191-229 | for every size and step pair each destination ends as its source was, all other pixels stay, although both share the buffer |
| MonoVlsb.SourceIntact | src/display/framebuf.cpp:192-227 | in the chosen direction no source is overwritten before it is read |
| MonoVlsb.FrameBuffer.Blit | src/display/framebuf.cpp:154-189 | for every offset and size a pixel changes only where the source covers it with a colour other than the key, which is the source pixel or, with a palette, the palette pixel 0 for a dark and 1 for a lit one, and then takes that colour |
| MonoVlsb.LineStaysInBox | src/display/framebuf.cpp:38-97 | the line begins and ends at its end points and stays in their box |
| MonoVlsb.LineIsConnected | src/display/framebuf.cpp:75-91 | consecutive points are neighbours |
| MonoVlsb.LineIsAccurate | src/display/framebuf.cpp:75-91 | no point is further than half a pixel from the exact line |
| MonoVlsb.HalfGoesOn | src/display/framebuf.cpp:74-91 | a point halfway between two pixels goes to the one further along |
| MonoVlsb.ErrorDecides | src/display/framebuf.cpp:74-90 | the decision variable moves the shorter extent exactly when due, and the inner loop never runs twice |
| MonoVlsb.FrameBuffer.DrawLine | src/display/framebuf.cpp:38-97 | exactly the points of the line that lie on the display take the colour |
| MonoVlsb.FrameBuffer.Trace | src/display/framebuf.cpp:38-97 | the loop visits the points in order and ends at the end point, without wrap of a coordinate |

## Left out

- Wi-Fi, lwIP, I2C, UART, DMA and timers: hardware calls. The EEPROM is a byte array with atomic page writes, received network data a byte sequence, the clock the time stamp of a record, and a look at a timer an arbitrary answer.
- The Modbus controller (src/modbus_handler/modbus_controller.cpp): it lives on DMA and alarm hardware. Responses are taken to fit the 32-byte receive buffer.
- Flask server, website, menus, text and image output, fan control: input, output and a clamp.
- paho.mqtt.embedded-c/MQTTClient-C: a clone of the C++ client that the firmware does not build.
- SUBACK, UNSUBSCRIBE and UNSUBACK codecs, and with them `subscribe` and `unsubscribe` of the client: the same pattern as PUBLISH and its acknowledgement. Of CONNACK only what `connect` uses; the session-present flag is not reported.
- Message handlers are recorded as calls; a handler that calls back into the client is not modelled.
- MqttClient.Client.constructor: takes packet sizes from 5 to 65535 bytes only; the source takes the size as a template parameter with default 200.
- MqttClient.Client.ReadPacket: the two bytes behind the read buffer, which the PUBLISH parser can look at when a malformed packet fills the buffer, are part of the array.
- MqttClient.TakesPacket: without a keep-alive interval and with writes that succeed, as are the five members after it, to speak of single bytes; `MqttClient.Client.Cycle` is about every network.
- MqttPublish.DeserializePublish: what the out-parameters hold after a failed parse is not specified beyond being unset.
- Qos2Protocol.ExactlyOnce: one direction, since after a loss a repeated copy may still be delivered and the two flags do not decide it; the condition that does is `Qos2Protocol.DeliveredExactlyWhenTaken`.
- A packet that a reconnect or a short read cuts in the middle, or that is longer than the read buffer, leaves the reader inside it: the runs of `MqttHistory` are those in which each turn reads a whole packet or none.
- MqttPublish.SerializePublish: not for a topic whose two forms differ in length, where the packet's length field and its bytes disagree.
- MqttConnect.SerializeConnect: versions 3 and 4 only, for which the size computation is defined, flags that fit their bits, and not for strings whose two forms differ in length.
- MqttClient.Client.Handshake: options as in the line before.
- MqttSubscribe.SerializeSubscribe: not for filters whose two forms differ in length.
- Outgoing QoS 2 exactly once: not a property of this client, see `pubrel` above.
- A power cut in the middle of `clearAllLogs`: used slots then stand above the cursor and are found again at boot, so clearing is one step here.
- Stored credentials: the SSID record is written without its CRC (src/logHandler.cpp:342-348).
- mono_vlsb objects made from a constant image, rectangles outlined, text.
- Packet trace formatting (MQTTFormat.c), the samples and the test proxies.
