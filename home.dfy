/**
 * HomeComponent: the palette it builds, the frame loop of getAsciiString and
 * the field updates of startStream, with the SignalR connection and the
 * host's interval timers as small objects that record what was asked of them.
 */
module Home {
  import opened Wrappers
  import Palette
  import Transcoder
  import TranscoderLemmas

  /**
   * The connection states the component distinguishes: `Disconnected`, and
   * otherwise `Connected` (handshakes in flight are not modelled).
   */
  datatype HubConnectionState = Disconnected | Connected

  /** A client-to-server stream (signalR Subject<string>); the items pushed into it are not modelled. */
  class Subject {
    constructor ()
    {
    }
  }

  /** One `connection.send(methodName, arg)` call. */
  datatype Invocation = Invocation(methodName: string, arg: Subject)

  /**
   * The parts of a HubConnection the component uses: its state, `start()`
   * and `send()`.  The transport decides whether a call succeeds; that
   * outcome is a parameter here.
   */
  class HubConnection {
    var state: HubConnectionState
    /** Number of `start()` handshakes begun. */
    var handshakes: nat
    /** The invocations handed to `send`, oldest first. */
    var sent: seq<Invocation>

    /** HubConnectionBuilder().build(): a connection that has not yet started. */
    constructor ()
      ensures state == Disconnected && handshakes == 0 && sent == []
    {
      state := Disconnected;
      handshakes := 0;
      sent := [];
    }

    /** `start()`: connected when the handshake succeeds, still disconnected when it fails. */
    method Start(succeeds: bool)
      modifies this
      ensures handshakes == old(handshakes) + 1 && sent == old(sent)
      ensures state == (if succeeds then Connected else Disconnected)
    {
      handshakes := handshakes + 1;
      state := if succeeds then Connected else Disconnected;
    }

    /** `send(methodName, arg)`: the invocation is handed to the transport. */
    method Send(methodName: string, arg: Subject)
      modifies this
      ensures sent == old(sent) + [Invocation(methodName, arg)]
      ensures state == old(state) && handshakes == old(handshakes)
    {
      sent := sent + [Invocation(methodName, arg)];
    }

    /** The transport closing the connection (a dropped network, a server stop). */
    method Close()
      modifies this
      ensures state == Disconnected
      ensures handshakes == old(handshakes) && sent == old(sent)
    {
      state := Disconnected;
    }
  }

  /**
   * An interval handle.  Hosts hand out positive handles, so a stored handle
   * is always truthy and `if (this.timeout)` holds exactly when one is stored.
   */
  type Handle = h: nat | h >= 1 witness 1

  /** The host's `setInterval` / `clearInterval`: the handles of the intervals now armed. */
  class IntervalTimers {
    var active: set<Handle>
    var nextHandle: Handle

    /** A handle is handed out once. */
    ghost predicate Valid()
      reads this
    {
      forall h :: h in active ==> h < nextHandle
    }

    constructor ()
      ensures Valid() && active == {}
    {
      active := {};
      nextHandle := 1;
    }

    /** `setInterval(...)`: arms a new interval under a handle never used before. */
    method SetInterval() returns (handle: Handle)
      requires Valid()
      modifies this
      ensures Valid()
      ensures handle == old(nextHandle) && nextHandle == old(nextHandle) + 1
      ensures handle !in old(active) && active == old(active) + {handle}
    {
      handle := nextHandle;
      nextHandle := nextHandle + 1;
      active := active + {handle};
    }

    /** `clearInterval(handle)`: disarms it; a handle that is not armed is ignored. */
    method ClearInterval(handle: Handle)
      requires Valid()
      modifies this
      ensures Valid()
      ensures active == old(active) - {handle} && nextHandle == old(nextHandle)
    {
      active := active - {handle};
    }
  }

  function HandleSet(t: Option<Handle>): set<Handle> {
    if t.Some? then {t.value} else {}
  }

  /** How the promise of `startStream()` settles. */
  datatype StartOutcome = Resolved | StartRejected | SendRejected

  class HomeComponent {
    const connection: HubConnection
    const asciiChars: seq<char>
    /** The interval handle of the frame timer, once armed. */
    var timeout: Option<Handle>
    var subject: Subject?

    constructor ()
      ensures fresh(connection)
      ensures connection.state == Disconnected && connection.handshakes == 0 && connection.sent == []
      ensures asciiChars == Palette.AsciiChars()
      ensures timeout == None && subject == null
    {
      connection := new HubConnection();
      asciiChars := Palette.AsciiChars();
      timeout := None;
      subject := null;
    }

    /**
     * The frame owns the timers: no interval is armed except the one held in
     * `timeout`.
     */
    ghost predicate OwnsTimers(timers: IntervalTimers)
      reads this, timers
    {
      timers.active <= HandleSet(timeout)
    }

    /**
     * startStream(): a handshake only from the disconnected state (a failed
     * handshake rejects before anything else happens); then the previous
     * interval is cleared, the subject is created only if there is none, a
     * new interval is armed and 'startStream' is sent with the subject.
     */
    method StartStream(timers: IntervalTimers, handshakeSucceeds: bool, sendSucceeds: bool)
      returns (outcome: StartOutcome)
      requires timers.Valid()
      modifies this, connection, timers
      ensures timers.Valid()
      ensures connection.handshakes
           == old(connection.handshakes) + (if old(connection.state) == Disconnected then 1 else 0)
      ensures outcome == StartRejected <==> old(connection.state) == Disconnected && !handshakeSucceeds
      ensures outcome == StartRejected ==>
                && connection.state == Disconnected && connection.sent == old(connection.sent)
                && timeout == old(timeout) && subject == old(subject) && timers.active == old(timers.active)
      ensures outcome != StartRejected ==>
                && connection.state == Connected
                && timeout.Some? && timeout.value !in old(timers.active)
                && timers.active == (old(timers.active) - HandleSet(old(timeout))) + {timeout.value}
                && (old(subject) != null ==> subject == old(subject))
                && (old(subject) == null ==> subject != null && fresh(subject))
                && subject != null
                && connection.sent == old(connection.sent) + [Invocation("startStream", subject)]
      ensures outcome == SendRejected <==> outcome != StartRejected && !sendSucceeds
      ensures old(OwnsTimers(timers)) ==> OwnsTimers(timers)
      ensures old(OwnsTimers(timers)) && outcome != StartRejected ==> timers.active == {timeout.value}
    {
      if connection.state == Disconnected {
        connection.Start(handshakeSucceeds);
        if !handshakeSucceeds {
          return StartRejected;
        }
      }
      if timeout.Some? {
        timers.ClearInterval(timeout.value);
      }
      if subject == null {
        subject := new Subject();
      }
      var handle := timers.SetInterval();
      timeout := Some(handle);
      connection.Send("startStream", subject);
      outcome := if sendSucceeds then Resolved else SendRejected;
    }

    /** getAsciiString(imageData, width, height): the loop that appends to `str`. */
    method GetAsciiString(imageData: array<Transcoder.byte>, width: nat, height: nat) returns (str: string)
      ensures str == Transcoder.AsciiString(asciiChars, imageData[..], width, height)
    {
      var data := imageData[..];
      var chars := asciiChars;
      str := "";
      var i := 0;
      while i < width * height
        invariant 0 <= i <= width * height
        invariant str == Transcoder.AsciiPrefix(chars, data, width, i)
      {
        TranscoderLemmas.PixelWidth(width, height, i);
        ghost var before := str;
        if i % width == 0 {
          str := str + "\n";
        }
        var rgb := Transcoder.GetRGB(data, i);
        var val := Transcoder.Brightness(rgb);
        var cell := Transcoder.Cell(rgb, Transcoder.GetChar(chars, val));
        str := str + Transcoder.TokenText(cell);
        TranscoderLemmas.AsciiPrefixNext(chars, data, width, i, before, cell, str);
        i := i + 1;
      }
    }
  }

  /**
   * Two calls of startStream in a row: one handshake, one armed interval, the
   * same subject both times, and 'startStream' sent twice.
   */
  method StartTwice() returns (handshakes: nat, armed: nat, announcements: nat, sameSubject: bool)
    ensures handshakes == 1 && armed == 1 && announcements == 2 && sameSubject
  {
    var timers := new IntervalTimers();
    var home := new HomeComponent();
    var first := home.StartStream(timers, true, true);
    var s1 := home.subject;
    var second := home.StartStream(timers, true, true);
    handshakes := home.connection.handshakes;
    armed := |timers.active|;
    announcements := |home.connection.sent|;
    sameSubject := s1 == home.subject && home.connection.sent[0] == home.connection.sent[1];
  }

  /**
   * After the connection drops, startStream runs the handshake again but keeps
   * announcing the subject it created first.
   */
  method RestartAfterClose() returns (handshakes: nat, armed: nat, sameSubject: bool)
    ensures handshakes == 2 && armed == 1 && sameSubject
  {
    var timers := new IntervalTimers();
    var home := new HomeComponent();
    var first := home.StartStream(timers, true, true);
    var s1 := home.subject;
    home.connection.Close();
    var second := home.StartStream(timers, true, true);
    handshakes := home.connection.handshakes;
    armed := |timers.active|;
    sameSubject := s1 == home.subject && home.connection.sent[1].arg == s1;
  }

  /** A failed handshake leaves the timers, the subject and the sent invocations untouched. */
  method FailedHandshake() returns (armed: nat, announcements: nat, hasSubject: bool, outcome: StartOutcome)
    ensures armed == 0 && announcements == 0 && !hasSubject && outcome == StartRejected
  {
    var timers := new IntervalTimers();
    var home := new HomeComponent();
    outcome := home.StartStream(timers, false, true);
    armed := |timers.active|;
    announcements := |home.connection.sent|;
    hasSubject := home.subject != null;
  }
}
