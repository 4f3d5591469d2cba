/** The JSON physics backend: it streams binary control packets to an external
    simulator over UDP and reads its replies as JSON telemetry. The class
    carries the state of both of its bases, the physics-backend interface
    (frame rate, frame count, status code) and the configurable object (its
    configuration snapshot). */
module JsonBackend {
  import opened Wrappers
  import opened Json
  import opened ControlPacket
  import opened Physics
  import TelemetryDecoder
  import Exchange
  import Configurable
  import Sockets

  const ST_GOOD: int := 0
  const ST_SOCKET_FAIL: int := 1
  const ST_BIND_FAIL: int := 2
  const ST_MOVED_OUT: int := 3

  /** The four tunables read from the configuration. */
  datatype Tunables = Tunables(telemTimeout: real, receiveTimeout: real, serverPort: int, serverAddr: string)

  const DEFAULT_TUNABLES: Tunables := Tunables(10.0, 0.01, 9002, "127.0.0.1")

  /** Conversion of a double to an integer type: truncation toward zero. */
  function Truncate(x: real): (n: int)
    ensures 0.0 <= x ==> n as real <= x < n as real + 1.0
    ensures x < 0.0 ==> n as real - 1.0 < x <= n as real
  {
    if x >= 0.0 then x.Floor else -((-x).Floor)
  }

  /** A configured port converts to a 16-bit unsigned integer without
      leaving its range (outside it the conversion is undefined). */
  predicate PortFits(config: Json)
  {
    Contains(config, "port") && Member(config, "port").Number? ==>
      -1.0 < Member(config, "port").num < 65536.0
  }

  /** `configure`: each tunable is read from the configuration with its
      current value as the fallback; the port is then truncated to 16 bits. */
  function Configured(config: Json, current: Tunables): (r: Tunables)
    requires PortFits(config) && IsU16(current.serverPort)
    ensures IsU16(r.serverPort)
  {
    Tunables(
      Configurable.ConfNum(config, "telem_timeout", current.telemTimeout),
      Configurable.ConfNum(config, "receive_timeout", current.receiveTimeout),
      Truncate(Configurable.ConfNum(config, "port", current.serverPort as real)),
      Configurable.ConfStr(config, "addr", current.serverAddr))
  }

  /** A configuration that sets none of the four keys leaves every tunable at
      its current value; a key that is set overrides exactly its tunable. */
  lemma ConfiguredOverrides(config: Json, current: Tunables)
    requires PortFits(config) && IsU16(current.serverPort)
    ensures var r := Configured(config, current);
            && (if Contains(config, "telem_timeout") && Member(config, "telem_timeout").Number?
                then Member(config, "telem_timeout") == Number(r.telemTimeout)
                else r.telemTimeout == current.telemTimeout)
            && (if Contains(config, "receive_timeout") && Member(config, "receive_timeout").Number?
                then Member(config, "receive_timeout") == Number(r.receiveTimeout)
                else r.receiveTimeout == current.receiveTimeout)
            && (if Contains(config, "port") && Member(config, "port").Number?
                then r.serverPort == Truncate(Member(config, "port").num)
                else r.serverPort == current.serverPort)
            && (if Contains(config, "addr") && Member(config, "addr").String?
                then Member(config, "addr") == String(r.serverAddr)
                else r.serverAddr == current.serverAddr)
  {
  }

  /** A backend whose key has no configuration keeps the built-in defaults. */
  lemma UnconfiguredKeepsDefaults()
    ensures Configured(Null, DEFAULT_TUNABLES) == Tunables(10.0, 0.01, 9002, "127.0.0.1")
  {
  }

  /** A control signal whose every channel lands in a 16-bit pwm word (the
      conversion to uint16 is undefined outside that range). */
  predicate Encodable(ctrl: Control)
  {
    ValidControl(ctrl) && forall i :: 0 <= i < |ctrl.pwm| ==> IsU16(PwmWord(ctrl.pwm[i]))
  }

  /** The fields of the control packet built from the current frame rate and
      count and the actuator values. */
  function FrameOf(frameRate: real, frameCount: nat, ctrl: Control): (f: Frame)
    requires -1.0 < frameRate < 65536.0 && IsU32(frameCount) && Encodable(ctrl)
    ensures WellFormed(f)
    ensures f.magic == MAGIC && f.frameCount == frameCount
    ensures 0.0 <= frameRate ==> f.frameRate as real <= frameRate < f.frameRate as real + 1.0
    ensures frameRate < 0.0 ==> f.frameRate == 0
    ensures forall i :: 0 <= i < PWM_CHANNELS ==> f.pwm[i] == ctrl.pwm[i] + 1500
  {
    Frame(MAGIC, Truncate(frameRate), frameCount,
          seq(PWM_CHANNELS, i requires 0 <= i < PWM_CHANNELS => PwmWord(ctrl.pwm[i])))
  }

  /** The first packet of a fresh backend starts with the magic, frame rate 50
      and frame count 0. */
  lemma FirstPacketHeader(ctrl: Control)
    requires Encodable(ctrl)
    ensures Encode(FrameOf(INITIAL_FRAME_RATE, INITIAL_FRAME_COUNT, ctrl))[..PWM_OFFSET]
            == [0x48, 0x1A, 0, 50, 0, 0, 0, 0]
  {
    var f := FrameOf(INITIAL_FRAME_RATE, INITIAL_FRAME_COUNT, ctrl);
    assert f.frameRate == 50;
    EncodeLayout(f);
  }

  class Backend {
    // PhysicsBackend state
    var frameRate: real
    var frameCount: nat
    var statusCode: int
    // Configurable state
    var config: Json
    // Tunables: TELEM_TIMEOUT, RECEIVE_TIMEOUT, SERVER_PORT and SERVER_ADDR
    var telemTimeout: real
    var receiveTimeout: real
    var serverPort: int
    var serverAddr: string
    // Socket and buffers
    var sockfd: int
    const control: array<Byte>
    const telemBuffer: array<Byte>
    const kernel: Sockets.Kernel
    /** Every control packet handed to the transport, in order. */
    ghost var sent: seq<seq<Byte>>
    /** The outcome of every receive performed, in order. */
    ghost var polled: seq<Exchange.Reception>

    ghost predicate Valid()
      reads this, kernel, control
    {
      && control.Length == PACKET_SIZE
      && control[0] == MAGIC / 0x100 && control[1] == MAGIC % 0x100
      && telemBuffer.Length == Exchange.BUFFER_SIZE
      && control != telemBuffer
      && sockfd >= -1
      && (sockfd >= 0 ==> sockfd in kernel.owner && kernel.owner[sockfd] == this)
      && (statusCode == ST_GOOD <==> sockfd >= 0)
      && 0 <= statusCode <= ST_MOVED_OUT
      && IsU16(serverPort)
    }

    function CurrentTunables(): Tunables
      reads this
    {
      Tunables(telemTimeout, receiveTimeout, serverPort, serverAddr)
    }

    /** Construction: snapshot the configuration under `key`, apply it over
        the defaults, and take the descriptor `fd` returned by `socket`
        (-1 when the socket could not be created). */
    constructor (kernel: Sockets.Kernel, store: Configurable.ConfigStore, fd: int, key: string := "JSONBackend")
      requires store.global.Null? || store.global.Object?
      requires PortFits(Configurable.Section(store.global, key))
      requires fd == -1 || (fd >= 0 && fd !in kernel.owner)
      modifies store, kernel
      ensures Valid() && fresh(control) && fresh(telemBuffer)
      ensures this.kernel == kernel
      ensures config == Configurable.Section(old(store.global), key)
      ensures CurrentTunables() == Configured(config, DEFAULT_TUNABLES)
      ensures frameRate == INITIAL_FRAME_RATE && frameCount == INITIAL_FRAME_COUNT
      ensures sockfd == fd
      ensures statusCode == if fd == -1 then ST_SOCKET_FAIL else ST_GOOD
      ensures kernel.owner == if fd == -1 then old(kernel.owner) else old(kernel.owner)[fd := this]
      ensures sent == [] && polled == []
    {
      var snapshot := store.Snapshot(key);
      frameRate, frameCount, statusCode := INITIAL_FRAME_RATE, INITIAL_FRAME_COUNT, INITIAL_STATUS;
      config := snapshot;
      telemTimeout, receiveTimeout := DEFAULT_TUNABLES.telemTimeout, DEFAULT_TUNABLES.receiveTimeout;
      serverPort, serverAddr := DEFAULT_TUNABLES.serverPort, DEFAULT_TUNABLES.serverAddr;
      control := new Byte[PACKET_SIZE];
      telemBuffer := new Byte[Exchange.BUFFER_SIZE];
      this.kernel := kernel;
      sockfd := fd;
      sent, polled := [], [];
      new;
      control[0], control[1] := MAGIC / 0x100, MAGIC % 0x100;
      Configure();
      if fd == -1 {
        statusCode := ST_SOCKET_FAIL;
      } else {
        kernel.Open(fd, this);
      }
    }

    /** `configure`. */
    method Configure()
      requires PortFits(config) && IsU16(serverPort)
      modifies this`telemTimeout, this`receiveTimeout, this`serverAddr, this`serverPort
      ensures CurrentTunables() == Configured(config, old(CurrentTunables()))
    {
      telemTimeout := Configurable.ConfNum(config, "telem_timeout", telemTimeout);
      receiveTimeout := Configurable.ConfNum(config, "receive_timeout", receiveTimeout);
      serverAddr := Configurable.ConfStr(config, "addr", serverAddr);
      serverPort := Truncate(Configurable.ConfNum(config, "port", serverPort as real));
    }

    /** `setFrameRate`. */
    method SetFrameRate(hz: real)
      requires Valid()
      modifies this`frameRate
      ensures Valid() && frameRate == hz
    {
      frameRate := hz;
    }

    /** `status`: the backend is usable exactly when it owns an open socket. */
    function Status(): (good: bool)
      reads this, kernel, control
      ensures good <==> statusCode == ST_GOOD
      ensures Valid() ==> (good <==> sockfd >= 0 && sockfd in kernel.owner && kernel.owner[sockfd] == this)
    {
      statusCode == ST_GOOD
    }

    /** `operator bool`. */
    function AsBool(): (b: bool)
      reads this, kernel, control
      ensures b == Status()
    {
      Status()
    }

    /** `getStatus`. */
    function GetStatus(): (code: int)
      reads this
      ensures code == statusCode
    {
      statusCode
    }

    /** Writes the frame rate, the frame count and the sixteen pwm words into
        the control packet, in network byte order; the magic stays as set at
        construction. */
    method FillControl(ctrl: Control)
      requires Valid()
      requires Encodable(ctrl)
      requires -1.0 < frameRate < 65536.0 && IsU32(frameCount)
      modifies control
      ensures Valid()
      ensures control[..] == Encode(FrameOf(frameRate, frameCount, ctrl))
    {
      var f := FrameOf(frameRate, frameCount, ctrl);
      var rate, count := f.frameRate, f.frameCount;
      control[2], control[3] := rate / 0x100, rate % 0x100;
      control[4], control[5] := count / 0x100_0000, (count / 0x1_0000) % 0x100;
      control[6], control[7] := (count / 0x100) % 0x100, count % 0x100;
      for i := 0 to PWM_CHANNELS
        invariant control[0] == MAGIC / 0x100 && control[1] == MAGIC % 0x100
        invariant control[2] == rate / 0x100 && control[3] == rate % 0x100
        invariant control[4..8] == Be32(count)
        invariant forall k :: 0 <= k < i ==>
                    control[PWM_OFFSET + 2 * k] == f.pwm[k] / 0x100 &&
                    control[PWM_OFFSET + 2 * k + 1] == f.pwm[k] % 0x100
      {
        var w := PwmWord(ctrl.pwm[i]);
        control[PWM_OFFSET + 2 * i] := w / 0x100;
        control[PWM_OFFSET + 2 * i + 1] := w % 0x100;
      }
      LayoutDeterminesEncoding(control[..], f);
    }

    /** One non-blocking receive of at most BUFFER_SIZE - 1 bytes into the
        telemetry buffer. Returns the byte count, or -1 with `wouldBlock`
        telling EAGAIN/EWOULDBLOCK apart from any other error. */
    method Receive(rx: Exchange.Reception) returns (receivedBytes: int, wouldBlock: bool)
      requires telemBuffer.Length == Exchange.BUFFER_SIZE
      modifies telemBuffer, this`polled
      ensures polled == old(polled) + [rx]
      ensures rx.NotReady? ==> receivedBytes == -1 && wouldBlock && telemBuffer[..] == old(telemBuffer[..])
      ensures rx.RecvError? ==> receivedBytes == -1 && !wouldBlock && telemBuffer[..] == old(telemBuffer[..])
      ensures rx.Datagram? ==>
                && receivedBytes == |Exchange.Received(rx.payload)|
                && telemBuffer[..receivedBytes] == Exchange.Received(rx.payload)
                && telemBuffer[receivedBytes..] == old(telemBuffer[receivedBytes..])
    {
      polled := polled + [rx];
      match rx
      case NotReady =>
        receivedBytes, wouldBlock := -1, true;
      case RecvError =>
        receivedBytes, wouldBlock := -1, false;
      case Datagram(p) =>
        var bytes := Exchange.Received(p);
        forall k | 0 <= k < |bytes| {
          telemBuffer[k] := bytes[k];
        }
        receivedBytes, wouldBlock := |bytes|, false;
    }

    /** `iterate`: send one control packet, then poll for telemetry until a
        valid message arrives, the transport fails or the deadline passes.
        A failed send returns before any receive. The frame count advances
        exactly when a record is returned. A backend without a socket (its
        creation failed, or the backend was moved out) sends on descriptor -1,
        which always fails, so it never receives and never returns a record. */
    method Iterate(ctrl: Control, t: Exchange.Transport) returns (r: Option<Telemetry>)
      requires Valid()
      requires Encodable(ctrl)
      requires -1.0 < frameRate < 65536.0 && IsU32(frameCount)
      requires sockfd < 0 ==> !t.sendOk
      modifies this`frameCount, this`sent, this`polled, control, telemBuffer
      ensures Valid()
      ensures sent == old(sent) + [Encode(FrameOf(frameRate, old(frameCount), ctrl))]
      ensures control[..] == sent[|sent| - 1]
      ensures r == Exchange.Run(t)
      ensures r.Some? ==> Complete(r.value)
      ensures frameCount == old(frameCount) + (if r.Some? then 1 else 0)
      ensures !t.sendOk ==> polled == old(polled) && telemBuffer[..] == old(telemBuffer[..])
      ensures |old(polled)| <= |polled| <= |old(polled)| + |t.attempts|
      ensures |polled| - |old(polled)| == if t.sendOk then Exchange.Passes(t, 0) else 0
      ensures polled == old(polled) + Exchange.Schedule(t)[..|polled| - |old(polled)|]
      ensures !old(Status()) ==> r == None && frameCount == old(frameCount) && polled == old(polled)
    {
      FillControl(ctrl);
      sent := sent + [control[..]];
      if !t.sendOk {
        return None;
      }
      r := Listen(t);
    }

    /** The polling loop of `iterate`, after a successful send: one
        non-blocking receive per pass until a pass delivers or aborts, or the
        deadline passes. */
    method Listen(t: Exchange.Transport) returns (r: Option<Telemetry>)
      requires Valid() && t.sendOk
      modifies this`frameCount, this`polled, telemBuffer
      ensures Valid()
      ensures r == Exchange.Run(t)
      ensures frameCount == old(frameCount) + (if r.Some? then 1 else 0)
      ensures |old(polled)| <= |polled| <= |old(polled)| + |t.attempts|
      ensures |polled| - |old(polled)| == Exchange.Passes(t, 0)
      ensures polled == old(polled) + Exchange.Schedule(t)[..|polled| - |old(polled)|]
    {
      var i := 0;
      while i < |t.attempts|
        invariant 0 <= i <= |t.attempts|
        invariant Exchange.Await(t, i) == Exchange.Run(t)
        invariant Valid() && frameCount == old(frameCount)
        invariant polled == old(polled) + Exchange.Schedule(t)[..i]
        invariant Exchange.Passes(t, 0) == i + Exchange.Passes(t, i)
      {
        Exchange.ScheduleStep(t, i);
        Exchange.PassesStep(t, i);
        var done, telem := Poll(t, i);
        if done {
          return telem;
        }
        i := i + 1;
      }
      return None;
    }

    /** One pass of the polling loop: a single receive, then either a sleep
        (nothing to read), a skipped message (it failed to parse or validate),
        an error, or a valid record, which advances the frame count. `done`
        is set when the loop ends with this pass. */
    method Poll(t: Exchange.Transport, i: nat) returns (done: bool, r: Option<Telemetry>)
      requires Valid() && i < |t.attempts|
      modifies this`frameCount, this`polled, telemBuffer
      ensures Valid()
      ensures polled == old(polled) + [t.attempts[i].reception]
      ensures done == !Exchange.Continues(t, i)
      ensures r == if Exchange.StepAt(t, i).Deliver? then Some(Exchange.StepAt(t, i).telemetry) else None
      ensures frameCount == old(frameCount) + (if r.Some? then 1 else 0)
    {
      var a := t.attempts[i];
      var receivedBytes, wouldBlock := Receive(a.reception);
      if receivedBytes <= 0 {
        if (receivedBytes < 0 && wouldBlock) || receivedBytes == 0 {
          return !a.sleepOk, None;
        }
        assert a.reception.RecvError?;
        return true, None;
      }
      telemBuffer[receivedBytes] := 0;
      var msg := t.parse(telemBuffer[..receivedBytes]);
      if msg.None? {
        return false, None;
      }
      var telem := TelemetryDecoder.ValidateTelemetry(msg.value);
      if telem.None? {
        return false, None;
      }
      frameCount := frameCount + 1;
      return true, telem;
    }

    /** The destructor: closes the socket this backend holds, if any. */
    method Destroy()
      requires Valid()
      modifies kernel
      ensures kernel.owner == if sockfd < 0 then old(kernel.owner) else old(kernel.owner) - {sockfd}
    {
      kernel.Close(sockfd, this);
    }

    /** The move constructor: takes over every field of `other` except the
        receive buffer, which it leaves uninitialised, leaving `other`
        without a socket and with status ST_MOVED_OUT. Both bases declare a
        destructor and so have no move constructor: their state, the
        configuration snapshot included, is copied; only the address string
        is moved out of `other`. */
    constructor Move(other: Backend)
      requires other.Valid()
      modifies other`serverAddr, other`sockfd, other`statusCode, other.kernel
      ensures Valid() && other.Valid()
      ensures kernel == other.kernel && fresh(control) && fresh(telemBuffer)
      ensures frameRate == old(other.frameRate) && frameCount == old(other.frameCount)
      ensures statusCode == old(other.statusCode) && sockfd == old(other.sockfd)
      ensures config == old(other.config) && CurrentTunables() == old(other.CurrentTunables())
      ensures control[..] == old(other.control[..])
      ensures sent == [] && polled == []
      ensures other.sockfd == -1 && other.statusCode == ST_MOVED_OUT
      ensures other.config == old(other.config) && other.serverAddr == ""
      ensures kernel.owner == if old(other.sockfd) >= 0 then old(other.kernel.owner)[old(other.sockfd) := this]
                              else old(other.kernel.owner)
    {
      frameRate, frameCount, statusCode := other.frameRate, other.frameCount, other.statusCode;
      config := other.config;
      telemTimeout, receiveTimeout := other.telemTimeout, other.receiveTimeout;
      serverPort, serverAddr := other.serverPort, other.serverAddr;
      sockfd := other.sockfd;
      control := new Byte[PACKET_SIZE](i reads other.control => if 0 <= i < other.control.Length then other.control[i] else 0);
      telemBuffer := new Byte[Exchange.BUFFER_SIZE];
      kernel := other.kernel;
      sent, polled := [], [];
      new;
      if sockfd >= 0 {
        kernel.Transfer(sockfd, other, this);
      }
      other.serverAddr := "";
      other.sockfd := -1;
      other.statusCode := ST_MOVED_OUT;
    }

    /** Move assignment: closes this backend's own socket, then takes over
        the state of `other` (but keeps its own packet and buffer), leaving
        `other` moved out. The bases are copy-assigned, so `other` keeps its
        configuration snapshot. Assigning a backend to itself changes nothing. */
    method MoveAssign(other: Backend)
      requires Valid() && other.Valid() && other.kernel == kernel
      modifies this`frameRate, this`frameCount, this`statusCode, this`config, this`telemTimeout
      modifies this`receiveTimeout, this`serverPort, this`serverAddr, this`sockfd
      modifies other`serverAddr, other`sockfd, other`statusCode, kernel
      ensures Valid() && other.Valid()
      ensures other == this ==> unchanged(this) && kernel.owner == old(kernel.owner)
      ensures other != this ==>
                && frameRate == old(other.frameRate) && frameCount == old(other.frameCount)
                && statusCode == old(other.statusCode) && sockfd == old(other.sockfd)
                && config == old(other.config) && CurrentTunables() == old(other.CurrentTunables())
                && other.sockfd == -1 && other.statusCode == ST_MOVED_OUT
                && other.config == old(other.config) && other.serverAddr == ""
                && (old(sockfd) >= 0 ==> old(sockfd) !in kernel.owner)
                && kernel.owner ==
                     var released := if old(sockfd) < 0 then old(kernel.owner) else old(kernel.owner) - {old(sockfd)};
                     if old(other.sockfd) >= 0 then released[old(other.sockfd) := this] else released
    {
      if this != other {
        ghost var mine, theirs := sockfd, other.sockfd;
        assert mine >= 0 && theirs >= 0 ==> mine != theirs;
        if sockfd >= 0 {
          kernel.Close(sockfd, this);
          sockfd := -1;
        }
        frameRate, frameCount, statusCode := other.frameRate, other.frameCount, other.statusCode;
        config := other.config;
        telemTimeout, receiveTimeout := other.telemTimeout, other.receiveTimeout;
        serverPort, serverAddr := other.serverPort, other.serverAddr;
        other.serverAddr := "";
        sockfd := other.sockfd;
        if sockfd >= 0 {
          kernel.Transfer(sockfd, other, this);
        }
        other.sockfd := -1;
        other.statusCode := ST_MOVED_OUT;
      }
    }
  }

  /** Moving a backend and then destroying both the moved-out original and
      the new owner closes the socket exactly once. */
  method MoveThenDestroy(kernel: Sockets.Kernel, store: Configurable.ConfigStore, fd: int)
    requires store.global.Null? || store.global.Object?
    requires PortFits(Configurable.Section(store.global, "JSONBackend"))
    requires fd >= 0 && fd !in kernel.owner
    modifies kernel, store
    ensures kernel.owner == old(kernel.owner)
  {
    var a := new Backend(kernel, store, fd);
    assert a.Status();
    var b := new Backend.Move(a);
    assert !a.Status() && b.Status();
    assert kernel.owner == old(kernel.owner)[fd := b];
    a.Destroy();
    b.Destroy();
    assert kernel.owner == old(kernel.owner)[fd := b] - {fd};
  }
}
