/**
 * The storage node's discovery beacon: a thread that, while it is running
 * and not interrupted, broadcasts `READY_SLAVE:<port>:<timestamp>` and
 * sleeps for the broadcast interval.
 */
module Beacon {
  import opened JavaStrings

  /** `String.format("%s:%d:%d", tag, port, timestamp)`. */
  function DiscoveryMessage(tag: string, port: int, timestamp: int): string {
    tag + ":" + IntToString(port) + ":" + IntToString(timestamp)
  }

  /** The broadcast socket: not yet created, open, or closed. */
  datatype SocketState = NoSocket | Open | Closed

  /**
   * What happens during one pass of the loop: the clock reading used in the
   * message, whether the send raises an IOException, and whether the sleep
   * that follows (the interval after a send, the one-second back-off after a
   * failed one) is interrupted.
   */
  datatype Attempt = Attempt(now: int, sendFails: bool, interruptedInSleep: bool)

  /** The index of the first pass whose sleep is interrupted, or the number of passes. */
  function StopIndex(attempts: seq<Attempt>): (k: nat)
    ensures k <= |attempts|
    ensures forall i :: 0 <= i < k ==> !attempts[i].interruptedInSleep
    ensures k < |attempts| ==> attempts[k].interruptedInSleep
  {
    if attempts == [] then 0
    else if attempts[0].interruptedInSleep then 0
    else 1 + StopIndex(attempts[1..])
  }

  /** The datagrams the passes send: one per pass whose send succeeds. */
  function Broadcasts(tag: string, port: int, attempts: seq<Attempt>): seq<string> {
    if attempts == [] then []
    else
      var last := attempts[|attempts| - 1];
      Broadcasts(tag, port, attempts[..|attempts| - 1])
        + (if last.sendFails then [] else [DiscoveryMessage(tag, port, last.now)])
  }

  /** The socket after `cleanup`: closed if it was open, otherwise as it was. */
  function AfterCleanup(socket: SocketState): SocketState {
    if socket == Open then Closed else socket
  }

  /** Repeating `cleanup` is harmless. */
  lemma CleanupIdempotent(socket: SocketState)
    ensures AfterCleanup(AfterCleanup(socket)) == AfterCleanup(socket)
    ensures AfterCleanup(socket) != Open
  {
  }

  /** Failed sends never stop the beacon: with no interrupted sleep every pass is made. */
  lemma {:induction false} FailedSendsDoNotStop(attempts: seq<Attempt>)
    requires forall i :: 0 <= i < |attempts| ==> !attempts[i].interruptedInSleep
    ensures StopIndex(attempts) == |attempts|
  {
    if attempts != [] {
      FailedSendsDoNotStop(attempts[1..]);
    }
  }

  /** Every datagram sent announces `port`, whatever else the beacon was built with. */
  lemma {:induction false} BroadcastsAnnouncePort(tag: string, port: int, attempts: seq<Attempt>)
    ensures |Broadcasts(tag, port, attempts)| <= |attempts|
    ensures forall m :: m in Broadcasts(tag, port, attempts) ==>
      exists i :: 0 <= i < |attempts| && !attempts[i].sendFails && m == DiscoveryMessage(tag, port, attempts[i].now)
  {
    if attempts != [] {
      var prefix := attempts[..|attempts| - 1];
      BroadcastsAnnouncePort(tag, port, prefix);
      forall m | m in Broadcasts(tag, port, prefix)
        ensures exists i :: 0 <= i < |attempts| && !attempts[i].sendFails && m == DiscoveryMessage(tag, port, attempts[i].now)
      {
        var i :| 0 <= i < |prefix| && !prefix[i].sendFails && m == DiscoveryMessage(tag, port, prefix[i].now);
        assert attempts[i] == prefix[i];
      }
    }
  }

  class BroadcastSlaves {
    var running: bool
    var interrupted: bool
    var socket: SocketState
    /** Every datagram this beacon has sent, oldest first. */
    var sent: seq<string>
    /** Stored by the constructor and never read. */
    const serverPort: int
    /** READY_SLAVES_MESSAGE and DEFAULT_SLAVE_PORT of the loaded configuration. */
    const readyMessage: string
    const slavePort: int

    constructor (serverPort: int, readyMessage: string, slavePort: int)
      ensures running && !interrupted && socket == NoSocket && sent == []
      ensures this.serverPort == serverPort && this.readyMessage == readyMessage && this.slavePort == slavePort
    {
      running := true;
      interrupted := false;
      socket := NoSocket;
      sent := [];
      this.serverPort := serverPort;
      this.readyMessage := readyMessage;
      this.slavePort := slavePort;
    }

    /** The message of one pass: the configured tag and slave port, and the clock reading. */
    method CreateDiscoveryMessage(now: int) returns (message: string)
      ensures message == DiscoveryMessage(readyMessage, slavePort, now)
    {
      message := readyMessage + ":" + IntToString(slavePort) + ":" + IntToString(now);
    }

    /**
     * The thread body. The socket cannot be created when `socketFails`.
     * Otherwise the loop makes one pass per attempt while `running` is set
     * and the thread is not interrupted. An interrupted interval sleep sets
     * the interrupt flag again and leaves the loop; an interrupted back-off
     * sleep escapes the loop with the flag cleared. When the attempts run out
     * first, the thread is still inside the loop and its socket still open.
     */
    method Run(attempts: seq<Attempt>, socketFails: bool)
      modifies this
      ensures running == old(running)
      ensures socketFails ==>
        socket == AfterCleanup(old(socket)) && sent == old(sent) && interrupted == old(interrupted)
      ensures !socketFails && (!old(running) || old(interrupted)) ==>
        socket == Closed && sent == old(sent) && interrupted == old(interrupted)
      ensures !socketFails && old(running) && !old(interrupted) ==>
        var k := StopIndex(attempts);
        sent == old(sent) + Broadcasts(readyMessage, slavePort, attempts[..if k < |attempts| then k + 1 else k])
        && (k == |attempts| ==> socket == Open && !interrupted)
        && (k < |attempts| ==> socket == Closed && interrupted == !attempts[k].sendFails)
    {
      if socketFails {
        Cleanup();
        return;
      }
      socket := Open;
      var i := 0;
      ghost var k := StopIndex(attempts);
      while running && !interrupted
        invariant 0 <= i <= |attempts| && i <= k
        invariant !old(running) || old(interrupted) ==> i == 0
        invariant running == old(running)
        invariant socket == Open
        invariant i > 0 ==> !interrupted
        invariant interrupted == old(interrupted)
        invariant sent == old(sent) + Broadcasts(readyMessage, slavePort, attempts[..i])
        decreases |attempts| - i
      {
        if i == |attempts| {
          assert attempts[..k] == attempts[..i];
          return;
        }
        var attempt := attempts[i];
        assert attempts[..i + 1][..i] == attempts[..i];
        assert attempt.interruptedInSleep ==> i == k;
        if !attempt.sendFails {
          var message := CreateDiscoveryMessage(attempt.now);
          sent := sent + [message];
          if attempt.interruptedInSleep {
            interrupted := true;
            break;
          }
        } else if attempt.interruptedInSleep {
          interrupted := false;
          socket := Closed;
          Cleanup();
          return;
        }
        i := i + 1;
      }
      socket := Closed;
      Cleanup();
    }

    /** `shutdown`: clears `running`, interrupts the thread and closes the socket. */
    method Shutdown()
      modifies this
      ensures !running && interrupted
      ensures socket == AfterCleanup(old(socket)) && sent == old(sent)
    {
      running := false;
      interrupted := true;
      Cleanup();
    }

    /** `cleanup`: closes the socket only when it exists and is not closed yet. */
    method Cleanup()
      modifies this
      ensures socket == AfterCleanup(old(socket))
      ensures running == old(running) && interrupted == old(interrupted) && sent == old(sent)
    {
      if socket == Open {
        socket := Closed;
      }
    }
  }
}
