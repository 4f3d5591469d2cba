# JSON physics backend: a Dafny model

This project models the client side of the simulator link of the Daedalus
flight software: the `JSONBackend` physics backend, which streams binary
control packets to an external physics simulator over UDP and reads its
replies as JSON telemetry, together with the two base classes whose state it
carries (`PhysicsBackend`: frame rate, frame count and status code;
`Configurable`: a per-object snapshot of the global JSON configuration and
lookups with a fallback value).

The modules follow the program:

- `Wrappers` — the optional value used for every operation that may fail.
- `Json` — JSON values with the six kinds of section 3 of RFC 8259, and the
  `contains`/member lookup the backend uses.
- `ControlPacket` — the packed 40-byte control packet in network byte order:
  encoder, decoder, layout and round trips in both directions.
- `Physics` — the `Telemetry` and `Control` records and the backend's initial
  frame rate, frame count and status.
- `TelemetryDecoder` — the strict validation chain over a parsed telemetry
  message, both as a specification function and as the backend's methods
  (`validateAndGetJson`, `validateAndGetJsonArr` copying into an array in a
  loop).
- `Exchange` — one exchange seen from outside: send, then poll until the first
  valid message, an error, or the deadline.
- `Configurable` — `getOrDefault`, `confNum`, `confStr` and the mutable global
  configuration whose `global[key]` snapshot each object takes.
- `Sockets` — the descriptor table reduced to ownership: which object is
  responsible for closing each open socket.
- `JsonBackend` — the backend class itself: construction, `configure`, the
  status accessors, `setFrameRate`, `iterate` (filling the packet, the polling
  loop, the NUL-terminated receive buffer, the frame counter), the destructor
  and both move operations.

The socket calls, the sleep and the clock are inputs: `iterate` receives a
`Transport` that says whether `sendto` succeeds and, for each pass of the
polling loop that starts before the deadline, what the non-blocking
`recvfrom` returns and whether the following `usleep` succeeds; the JSON text
parser is an opaque function of the received bytes. Socket creation is the
descriptor passed to the constructor (-1 on failure).

## Model

| member | source | states |
|---|---|---|
| ControlPacket.Encode | include/sim/JSONBackend.h:113-120 | the packed packet is exactly 40 bytes: 2 + 2 + 4 + 16 * 2 |
| ControlPacket.EncodeLayout | src/sim/JSONBackend.cpp:86-95 | bytes 0-1 carry the magic, 2-3 the frame rate, 4-7 the frame count and 8+2i, 9+2i pwm word i, each most significant byte first |
| ControlPacket.LayoutDeterminesEncoding | src/sim/JSONBackend.cpp:86-95 | conversely, any 40 bytes laid out that way are the encoding of the frame |
| ControlPacket.Decode | include/sim/JSONBackend.h:113-120 | reading the big-endian fields of any 40-byte packet yields a well-formed frame with 16 words |
| ControlPacket.DecodeEncode | include/sim/JSONBackend.h:113-120 | decoding an encoded frame gives the frame back |
| ControlPacket.EncodeDecode | include/sim/JSONBackend.h:113-120 | encoding a decoded 40-byte packet gives the bytes back, so the encoding is a bijection |
| ControlPacket.Be16RoundTrip | src/sim/JSONBackend.cpp:86 | a 16-bit field written in network byte order reads back, most significant byte first, as the same value |
| ControlPacket.Be32RoundTrip | src/sim/JSONBackend.cpp:87 | a 32-bit field in network byte order reads back as the same value |
| ControlPacket.PwmWord | src/sim/JSONBackend.cpp:91-95 | a rounded actuator value in [-500, 500] gives a word in [1000, 2000]; -500, 0 and 500 give 1000, 1500 and 2000 |
| TelemetryDecoder.Numbers | src/sim/JSONBackend.cpp:210-219 | the numbers of an all-number array, one per element and in order |
| TelemetryDecoder.DecodeTelemetry | src/sim/JSONBackend.cpp:150-188 | a record is produced only fully populated: one timestamp and 3, 3, 3, 3 and 4 values |
| TelemetryDecoder.DecodeTelemetrySound | src/sim/JSONBackend.cpp:150-184 | a record is produced iff timestamp is a number, imu an object, imu.accel_body, imu.gyro, position and velocity arrays of 3 numbers and quaternion an array of 4; every field equals the JSON numbers |
| TelemetryDecoder.RejectsMissingImu | src/sim/JSONBackend.cpp:156-159 | a message without an imu object is rejected |
| TelemetryDecoder.RejectsWrongLength | src/sim/JSONBackend.cpp:171-184 | a position, velocity or quaternion array of the wrong length rejects the message, never truncated or padded |
| TelemetryDecoder.DecodesSampleReply | test/sim/JSONBackend.cpp:107-154 | the simulator reply used by the backend's test decodes to exactly its numbers |
| TelemetryDecoder.ValidateAndGetJson | src/sim/JSONBackend.cpp:196-204 | returns true iff the field is present and a number, and then outputs that number |
| TelemetryDecoder.ValidateAndGetJsonArr | src/sim/JSONBackend.cpp:206-223 | returns true iff the field is present, an array of exactly `len` elements and all numbers; then values[0..len) hold them; any element it overwrote lies below `len` and holds the matching number |
| TelemetryDecoder.ValidateTelemetry | src/sim/JSONBackend.cpp:150-184 | running the checks in the backend's order with early exit gives exactly `TelemetryDecoder.DecodeTelemetry`'s result |
| Exchange.Received | src/sim/JSONBackend.cpp:114-115 | a receive keeps a prefix of the datagram of at most BUFFER_SIZE - 1 bytes, so the NUL written after it stays inside the buffer; shorter datagrams are kept whole, longer ones cut to exactly BUFFER_SIZE - 1 bytes |
| Exchange.AwaitReturnsFirstValid | src/sim/JSONBackend.cpp:112-189 | the polling loop returns a record iff some pass delivers it and every earlier pass only slept or skipped a bad message |
| Exchange.AwaitTimesOut | src/sim/JSONBackend.cpp:112-193 | when every pass before the deadline only sleeps or skips, no record is returned |
| Exchange.AwaitStopsAtAbort | src/sim/JSONBackend.cpp:118-134 | a receive error other than EAGAIN/EWOULDBLOCK, or a failed sleep after an empty poll, ends the exchange without a record whatever arrives later |
| Exchange.MalformedThenValid | src/sim/JSONBackend.cpp:140-188 | a message that fails to parse is skipped without resending and a valid message that follows within the deadline is returned |
| Exchange.StepAt | src/sim/JSONBackend.cpp:114-184 | one pass of the polling loop: only a non-empty datagram can deliver or be skipped, a delivered record is complete, waiting needs a successful sleep, and a receive error always aborts |
| Exchange.Await | src/sim/JSONBackend.cpp:112-193 | the polling loop from a given pass on returns only a complete record that some later pass delivered |
| Exchange.Passes | src/sim/JSONBackend.cpp:112-189 | the number of passes the loop makes from a given pass on: at least one while the deadline has not passed, and never past the deadline |
| Exchange.Run | include/sim/PhysicsBackend.h:77 | the exchange yields either nothing or a fully populated record, and nothing at all when the send fails |
| Configurable.GetOrDefault | include/common/Configurable.h:120-133 | the result is either the default or the converted value stored under the key |
| Configurable.GetOrDefaultAfterStore | include/common/Configurable.h:120-133 | reading a key after storing a value under it gives the converted value, or the default for null and unconvertible values; storing under another key does not change the lookup |
| Configurable.GetOrDefaultCases | include/common/Configurable.h:120-133 | the default is returned when the key is absent, holds null or does not convert; otherwise the converted stored value |
| Configurable.ConfNum | src/common/Configurable.cpp:42-44 | a number stored under the key overrides the default; anything else yields the default |
| Configurable.ConfStr | src/common/Configurable.cpp:46-48 | a string stored under the key overrides the default; anything else yields the default |
| Configurable.DefaultArguments | include/common/Configurable.h:90-100 | without an explicit default a missing number reads as 0 and a missing string as "" |
| Configurable.SampleComponent | test/common/Configurable.cpp:29-54 | stored a = 100, b = 0, a_str = "100", b_str = "" win over their defaults; missing c and c_str yield 10 and "balloon" |
| Configurable.ConfigStore.Snapshot | src/common/Configurable.cpp:20 | the snapshot is the value under the key, or null when absent, in which case the key is added to the global document with a null value; no other entry changes |
| Sockets.Kernel.Open | src/sim/JSONBackend.cpp:25-29 | a successfully created socket is a fresh descriptor, owned from then on by the backend that created it |
| Sockets.Kernel.Close | src/sim/JSONBackend.cpp:44 | closing -1 changes nothing; closing any other descriptor requires that it is open and owned by the caller, so no descriptor is closed twice |
| JsonBackend.Truncate | src/sim/JSONBackend.cpp:86 | a double is converted to an integer by truncation toward zero |
| JsonBackend.Configured | src/sim/JSONBackend.cpp:225-231 | the configured port stays a 16-bit value |
| JsonBackend.ConfiguredOverrides | src/sim/JSONBackend.cpp:225-231 | telem_timeout, receive_timeout, port and addr each override exactly their tunable when present with the right kind; otherwise the tunable keeps its value |
| JsonBackend.UnconfiguredKeepsDefaults | include/sim/JSONBackend.h:126-136 | with no configuration the tunables are 10 s, 0.01 s, port 9002 and address "127.0.0.1" |
| JsonBackend.FrameOf | src/sim/JSONBackend.cpp:86-95 | the packet fields: magic 18458 never taken from the input, frame rate truncated, frame count unchanged, pwm word i = rounded value + 1500 |
| JsonBackend.FirstPacketHeader | test/sim/JSONBackend.cpp:95-97 | the first packet of a fresh backend starts 0x48 0x1A, frame rate 50, frame count 0 |
| JsonBackend.Backend.constructor | src/sim/JSONBackend.cpp:21-29 | a fresh backend snapshots its configuration, applies it over the defaults, starts at frame rate 50 and frame count 0, and has status good iff its socket was created, in which case it owns it |
| JsonBackend.Backend.Configure | src/sim/JSONBackend.cpp:225-231 | the tunables become the configured ones over their current values; nothing else changes |
| JsonBackend.Backend.SetFrameRate | src/sim/PhysicsBackend.cpp:19 | sets the frame rate, changes nothing else and keeps the backend valid |
| JsonBackend.Backend.Status | src/sim/PhysicsBackend.cpp:23 | true iff the status code is 0; for a valid backend iff it owns an open socket |
| JsonBackend.Backend.AsBool | src/sim/PhysicsBackend.cpp:21 | equals the status |
| JsonBackend.Backend.GetStatus | src/sim/PhysicsBackend.cpp:25 | returns the status code and changes nothing |
| JsonBackend.Backend.FillControl | src/sim/JSONBackend.cpp:86-95 | after the loop over the 16 channels the packet buffer is exactly the encoding of the current frame |
| JsonBackend.Backend.Receive | src/sim/JSONBackend.cpp:114-118 | one receive is performed and logged; EAGAIN and other errors return -1 and leave the buffer alone; a datagram is copied to the front of the buffer, truncated to BUFFER_SIZE - 1 bytes, and the byte count returned |
| JsonBackend.Backend.Iterate | src/sim/JSONBackend.cpp:83-105 | sends exactly the encoded packet, which the packet buffer then holds; returns exactly what `Exchange.Run` returns; when the send fails no receive is performed and the receive buffer is untouched; otherwise exactly one receive is performed per pass up to the deciding one (`Exchange.Passes`), taking the transport's outcomes in order; the frame count grows by one iff a record is returned; a backend without a socket, whose send on descriptor -1 fails, returns nothing, receives nothing and keeps its frame count |
| JsonBackend.Backend.Listen | src/sim/JSONBackend.cpp:108-193 | the polling loop returns exactly what `Exchange.Run` returns for a successful send, performs exactly one receive per pass up to the deciding one (`Exchange.Passes`), taking the transport's outcomes in order, and advances the frame count iff it returns a record |
| JsonBackend.Backend.Poll | src/sim/JSONBackend.cpp:114-189 | one pass performs exactly one receive; it ends the loop iff `Exchange.StepAt` neither waits nor skips, returns a record iff that pass delivers it, and advances the frame count exactly then |
| JsonBackend.Backend.Destroy | src/sim/JSONBackend.cpp:44 | closes the socket the backend owns, if any |
| JsonBackend.Backend.Move | src/sim/JSONBackend.cpp:46-55 | the new backend takes over every field except the receive buffer, which is fresh and uninitialised, and the socket; the source is left with sockfd -1, status ST_MOVED_OUT and an empty address string, and keeps its configuration snapshot |
| JsonBackend.Backend.MoveAssign | src/sim/JSONBackend.cpp:57-81 | self-assignment changes nothing; otherwise the destination's own socket is closed first, then it takes over the source's state and socket, and the source is left with sockfd -1, status ST_MOVED_OUT and an empty address string, and keeps its configuration snapshot |
| JsonBackend.MoveThenDestroy | include/sim/JSONBackend.h:80-94 | moving a backend and destroying both the original and the new one closes its socket exactly once |

## Left out

- Socket calls (`socket`, `sendto`, `recvfrom`, `usleep`, `close`, `inet_pton`) are not executed: their outcomes are inputs (`Transport`, the constructor's descriptor) and `close` is the ownership step of `Sockets.Kernel`.
- The `sockaddr_in` server address and the `inet_pton` conversion of the configured address are not modelled; a failed conversion is only logged by the source.
- The wall clock and the timeout arithmetic are replaced by the number of polling passes that start before the deadline (the length of `attempts`); the sleep duration is not modelled.
- JSON text parsing by the nlohmann library is an opaque function from the received bytes to an optional JSON value.
- Floating point: `std::round(v * 500)` is taken as an already-rounded integer input, JSON numbers and timeouts are exact reals, and `frameCount` is an exact natural number rather than a double.
- JsonBackend.Backend.Iterate: requires the frame rate in (-1, 65536), the frame count below 2^32 and every pwm word in 16 bits, because the source's conversions to `uint16_t`/`uint32_t` are undefined outside those ranges; no wrap-around is modelled.
- JsonBackend.Backend.constructor: requires the global configuration to be null or an object (otherwise `global[key]` throws, and the exception is not modelled) and a configured port in (-1, 65536) for the same undefined conversion.
- JsonBackend.Backend.Iterate: a null `ctrl` argument is not modelled (the source dereferences it unchecked).
- nlohmann's `get<double>` is taken to succeed exactly on numbers and `get<std::string>` exactly on strings; booleans and other kinds fall back to the default.
- `Configurable::initialize` reads and parses a file; the model starts from an already-loaded document (`ConfigStore`).
- `cnf` is declared without a definition, so its effect is not modelled; the sample configuration of `Configurable.SampleComponent` is stated as its requires because the configuration file is not part of this model.
- The `key` member of `Configurable` is never assigned by the source and is not modelled.
- The `SERVER_ADDR` string is moved by both move operations and is taken to be left empty. The base classes declare destructors and so have no move operations: the moves copy their state, and the moved-from backend keeps its configuration snapshot, frame rate and frame count.
- Logging has no behaviour to verify and is left out.
- The status guard of the design ("a faulted backend does no I/O") is not in the code: `iterate` never reads `statusCode`, and the model follows the code. A backend without a socket still does no exchange, because its send on descriptor -1 fails; `JsonBackend.Backend.Iterate` requires such a transport to report a failed send and ensures that a backend whose status is not good returns nothing, receives nothing and keeps its frame count.
- The backend's test computes its expected pwm word by rounding after adding 1500, while the backend rounds before adding; the model follows the backend.
- Copy construction and copy assignment are deleted in the source; the model simply has no copy operation, and single ownership is enforced by `Sockets.Kernel`.
