/**
  The MQTT `message` handler: a status message from the controller is parsed, and a parsed
  reading is stored with the device's tag. Every other topic is ignored. Connection
  management and publishing on the control topic are not part of this model.
*/
module MqttBridge {
  import opened Wrappers
  import opened Regex
  import opened Esp32Parser
  import opened Persistence

  /** Commands to the controller are published here. */
  const TopicControl: string := "iot/device/control"

  /** The controller reports its status here; the bridge subscribes to it. */
  const TopicStatus: string := "iot/device/status"

  /** The inserts that handling one message issues. */
  function MessageRows(topic: string, message: string): (r: seq<Row>)
    ensures |r| <= 4
    ensures r != [] ==> topic == TopicStatus && ParseEsp32Data(message).Some?
  {
    if topic == TopicStatus then
      match ParseEsp32Data(message)
      case Some(parsed) => Dispatch(parsed)
      case None => []
    else
      []
  }

  method OnMessage(db: Store, topic: string, message: string)
    modifies db
    ensures db.log == old(db.log) + MessageRows(topic, message)
  {
    if topic == TopicStatus {
      var parsed := ParseEsp32Data(message);
      if parsed.Some? {
        SaveToDatabase(db, parsed.value);
      }
    }
  }

  /** A message leads to inserts exactly when it arrives on the status topic and carries a
      temperature; it then leads to at most four, all tagged with the device's id. */
  lemma MessageInsertsIff(topic: string, message: string)
    ensures MessageRows(topic, message) != [] <==>
      topic == TopicStatus && exists p: nat, t :: Matches(message, SuhuPattern, p, t)
    ensures |MessageRows(topic, message)| <= 4
    ensures forall i :: 0 <= i < |MessageRows(topic, message)| ==>
      MessageRows(topic, message)[i].userId == DefaultIotUserId
  {
    ParseNullIffNoTemperature(message);
    var parsed := ParseEsp32Data(message);
    if topic == TopicStatus && parsed.Some? {
      DispatchCount(parsed.value);
      DispatchDecisions(parsed.value);
    }
  }

  /** Messages on the control topic (the bridge's own commands) are never stored. */
  lemma ControlTopicIgnored(message: string)
    ensures MessageRows(TopicControl, message) == []
  {
  }

  /** A status message holding only a temperature is stored as a single sensor reading. */
  lemma TemperatureOnlyMessage(t: string)
    requires IsNumberLexeme(t)
    ensures MessageRows(TopicStatus, "Suhu: " + t + " C") == [SensorData(t, DefaultIotUserId)]
  {
    TemperatureOnly(t);
  }

  /** The documented status line, received on the status topic, is stored as four rows. */
  lemma ExampleMessage()
    ensures |MessageRows(TopicStatus, ExampleLine)| == 4
  {
    ExampleLineDispatch();
  }
}
