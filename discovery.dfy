/**
 * The discovery handshake end to end: what a storage node's beacon sends is
 * what the coordinator's listener reads back as the node's port.
 */
module Discovery {
  import opened JavaStrings
  import opened Beacon
  import opened CoordinatorState
  import opened Configuration

  /**
   * A discovery datagram announces its port: the listener's ':' split puts the
   * port's text in field 1, which parses back to the port, provided the tag
   * holds no ':' and the port fits in 32 bits.
   */
  lemma DiscoveryRoundTrip(tag: string, port: int, timestamp: int)
    requires ':' !in tag && InInt32(port)
    ensures ParseAnnouncement(DiscoveryMessage(tag, port, timestamp), tag) == Ready(port)
  {
    var portText := IntToString(port);
    var timeText := IntToString(timestamp);
    var message := DiscoveryMessage(tag, port, timestamp);
    assert ':' !in portText;
    assert ':' !in timeText;
    assert message == tag + ":" + (portText + ":" + timeText);
    assert StartsWith(message, tag) by {
      assert message[..|tag|] == tag;
    }
    SplitAllAt(tag, portText + ":" + timeText, ":");
    SplitAllAt(portText, timeText, ":");
    SplitAllWithout(timeText, ":");
    var pieces := SplitAll(message, ":");
    assert pieces == [tag, portText, timeText];
    assert Split(message, ":") == pieces;
    ParseIntOfIntToString(port);
  }

  /**
   * Every datagram a beacon sends, built from the settings the node loaded,
   * is read by a coordinator with the same settings as an announcement of the
   * node's configured port: the file cannot change the tag "READY_SLAVE", and
   * every port it sets is a 32-bit integer.
   */
  lemma {:induction false} BeaconAnnouncesConfiguredPort(lines: seq<string>, attempts: seq<Attempt>)
    ensures forall m :: m in Broadcasts(ApplyLines(Defaults, lines).readySlavesMessage, ApplyLines(Defaults, lines).slavePort, attempts) ==>
      ParseAnnouncement(m, ApplyLines(Defaults, lines).readySlavesMessage) == Ready(ApplyLines(Defaults, lines).slavePort)
  {
    var c := ApplyLines(Defaults, lines);
    FixedFieldsNeverChange(Defaults, lines);
    LoadedSlavePortIsInt32(Defaults, lines);
    assert ':' !in c.readySlavesMessage by {
      assert c.readySlavesMessage == "READY_SLAVE";
    }
    BroadcastsAnnouncePort(c.readySlavesMessage, c.slavePort, attempts);
    forall m | m in Broadcasts(c.readySlavesMessage, c.slavePort, attempts)
      ensures ParseAnnouncement(m, c.readySlavesMessage) == Ready(c.slavePort)
    {
      var i :| 0 <= i < |attempts| && !attempts[i].sendFails && m == DiscoveryMessage(c.readySlavesMessage, c.slavePort, attempts[i].now);
      DiscoveryRoundTrip(c.readySlavesMessage, c.slavePort, attempts[i].now);
    }
  }
}
