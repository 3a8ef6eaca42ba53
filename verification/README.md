# Grassy Core clock setter: a Dafny model

This models the core of an ESP32 sketch. The sketch sets the clock of a BLE
peripheral that advertises itself as "GrassyCore C". It fetches UTC epoch
seconds over NTP and scans for the peripheral. When the peripheral's
advertisement arrives, the sketch stops the scan and connects. It then looks
up the service `F000C0E0-…` and the characteristic `F000C0E1-…`. If the
characteristic accepts writes, it writes two 14-byte frames. The first is a
set-time frame carrying the UTC+8 hour, minute and second. The second is a
constant configuration frame.

Modules:

- `CommandCodec` (`command_codec.dfy`): the two frames, built as `seq<Byte>`.
  `Decode` is a receiver-side reading of the frames. It is not in the sketch.
  It is there so that the encoding can be stated as a round trip.
- `TimeOfDay` (`time_of_day.dfy`): the `tm_hour`, `tm_min` and `tm_sec`
  fields `gmtime` yields, written as arithmetic on a natural epoch value. Also
  the +8 hour shift with wrap-around at 24, and the narrowing to `uint8_t`.
- `DeviceMatcher` (`device_matcher.dfy`): exact comparison of the advertised name.
- `CommandSequencer` (`command_sequencer.dfy`): the advertisement callback
  `onResult` as a pure step function. It also holds the two send functions
  with their null-handle guards, and a scan driver that delivers
  advertisements until the scan is stopped. The BLE stack and the NTP client
  appear only as abstract answers: a `Peer` value holds the service lookup,
  the characteristic lookup, the characteristic's `canWrite` and the epoch
  seconds. Writes are returned as the list of frames written, in order.
- `Optional` (`optional.dfy`): the `Option` type standing for a null pointer.

Behaviour of the code worth noting:

- A characteristic that refuses writes is silently skipped. The code logs
  nothing and records no failure on that path (`src/main.cpp:72`), so the
  model has a separate `NotWritable` branch with an empty write trace.
- No disconnect is ever issued. `Client.connectRequested` stays true after the callback.
- The scan is stopped before connecting, so it stays stopped even when the
  lookup then fails. The scan is not restarted.

## Model

| member | source | states |
|---|---|---|
| CommandCodec.Encode | src/main.cpp:29-30 | every frame is 14 bytes long; a set-time frame holds hour, minute and second at offsets 5, 8 and 11, and every other byte equals the constant `80 31 06 00 00 _ 00 00 _ 00 00 _ 00 00` at its position; the configuration frame does not have the set-time layout |
| CommandCodec.Decode | src/main.cpp:29-30 | whatever command a frame is read as, encoding that command gives back exactly that frame |
| CommandCodec.DecodeEncode | src/main.cpp:29-30 | reading an encoded frame gives back the command it was built from, for both commands |
| CommandCodec.EncodeInjective | src/main.cpp:47-48 | two commands give the same frame exactly when they are equal, so the configuration frame never collides with a set-time frame |
| TimeOfDay.UtcClock | src/main.cpp:76 | the fields `gmtime` yields are in range (hour 0..23, minute and second 0..59) and read back as the second of the UTC day, `epoch % 86400` |
| TimeOfDay.UtcClockIsSecondOfDay | src/main.cpp:76-79 | hour, minute and second taken as `(e/3600)%24`, `(e/60)%60` and `e%60` recombine to `e % 86400` |
| TimeOfDay.LocalClock | src/main.cpp:77-79 | the sent clock is in range, is the second of the day eight hours after the epoch, `(e + 28800) % 86400`, and keeps the UTC minute and second |
| TimeOfDay.LocalIsShiftedUtc | src/main.cpp:77 | adding 8 to the UTC hour modulo 24 gives the same clock as `gmtime` of the epoch eight hours later |
| TimeOfDay.LocalHourWraps | src/main.cpp:77 | the local hour is the UTC hour plus 8, less 24 exactly when the UTC hour is 16 or more |
| TimeOfDay.Narrow | src/main.cpp:77-79 | the `uint8_t` conversion gives a byte and leaves values 0..255 unchanged |
| TimeOfDay.NarrowKeepsClock | src/main.cpp:77-79 | every field of a valid clock fits in one byte, so narrowing truncates nothing |
| TimeOfDay.WorkedExample | src/main.cpp:75-79 | epoch 1700000000 is 22:13:20 UTC and 06:13:20 in the display zone |
| DeviceMatcher.Matches | src/main.cpp:62 | an advertised name selects the peripheral exactly when it has the length of "GrassyCore C" and the same character at every position |
| DeviceMatcher.PrefixesDoNotMatch | src/main.cpp:62 | no proper prefix or extension of "GrassyCore C" selects the peripheral |
| DeviceMatcher.CaseVariantsDoNotMatch | src/main.cpp:62 | every name equal to "GrassyCore C" up to ASCII letter case, other than the name itself, is rejected; the all-lower-case and all-upper-case spellings are such variants and are rejected |
| DeviceMatcher.LowerAfterUpper | src/main.cpp:62 | lower-casing an upper-cased name gives the lower-cased name, so a name and its upper-case spelling are case variants of each other |
| CommandSequencer.SendSetTimeCommand | src/main.cpp:23-33 | a null handle gives no write; otherwise exactly one frame is written, and it reads back as the set-time command for the given hour, minute and second |
| CommandSequencer.SendFixedCommand | src/main.cpp:42-51 | a null handle gives no write; otherwise exactly one frame is written, and it is `80 31 01 00 00 3B 00 00 01 00 00 6E 01 00` |
| CommandSequencer.TimeCommand | src/main.cpp:75-79 | the set-time command carries the display-zone hour, minute and second of the epoch value, unchanged by the byte narrowing |
| CommandSequencer.OnResult | src/main.cpp:61-91 | the callback does nothing and changes no state unless the name matches exactly; on a match it stops the scan and requests a connection, then takes the service-not-found branch exactly when the service lookup is null, the not-writable branch exactly when the characteristic refuses writes, and the success branch otherwise; the global characteristic handle is kept when the service is missing and set to the looked-up characteristic when the service is found; it writes something exactly when it takes the success branch, and then it writes the time frame followed by the configuration frame |
| CommandSequencer.MissingServiceNoWrite | src/main.cpp:68-90 | when the service lookup returns null, nothing is written, and a matching advertisement ends in the service-not-found branch |
| CommandSequencer.NotWritableNoWrite | src/main.cpp:70-72 | when the characteristic refuses writes, nothing is written, and a matching advertisement ends in the not-writable branch |
| CommandSequencer.SuccessWritesTimeThenConfig | src/main.cpp:72-86 | on success the writes are exactly the set-time frame for the display-zone clock of the epoch value, then the configuration frame; the first reads back as an in-range clock whose second of the day is `(epoch + 8 h) % 1 day` |
| CommandSequencer.ConfigFrameIndependent | src/main.cpp:86 | any two successful callbacks write the same second frame, whatever the epoch value and the prior state |
| CommandSequencer.Scan | src/main.cpp:62-64 | a stopped scan delivers nothing; a scan acts on at most one advertisement; its writes are either none or the two success frames |
| CommandSequencer.ScanActsOnFirstMatchOnly | src/main.cpp:62-64 | a running scan writes and acts exactly as the callback for the first matching advertisement does, and writes nothing when no advertisement matches |
| CommandSequencer.Run | src/main.cpp:122-127 | starting from the initial state, a scan without a matching name acts on nothing, writes nothing and leaves the state initial; otherwise its final state, branch and writes are exactly those of the callback for the first matching advertisement |
| CommandSequencer.WorkedExample | src/main.cpp:61-91 | epoch 1700000000 with a writable characteristic writes `80 31 06 00 00 06 00 00 0D 00 00 14 00 00` and then the configuration frame, even when further matching advertisements follow |

## Left out

- The WiFi join and teardown (`src/main.cpp:99-113`) are left out. They are network I/O, and the join waits in an unbounded blocking retry loop.
- NTP client internals are left out because they are a foreign library. The epoch seconds the client reports are an input (`Peer.epoch`). The callback's `timeClient.update()` runs after WiFi is gone, and its effect is part of that input.
- BLE stack calls are left out because they are a foreign library. This covers scan start and stop, `connect`, `getService`, `getCharacteristic`, `canWrite` and `writeValue`. Lookups are abstract answers in `Peer`. Stopping the scan is `Client.scanning := false`. Writes are the returned frame list. A write is assumed to succeed.
- The 50 ms delay between the two writes (`src/main.cpp:83`) is real time. Only the order of the two writes is modelled.
- Serial logging and hex dumps (`src/main.cpp:34-38`, `52-56`, `63`, `66`, `89`, `115-119`) are observational only. This includes the clock printed in `setup`.
- The `(time_t *)&epochTime` cast of an `unsigned long` (`src/main.cpp:76`) is a platform-width quirk. The epoch is a correct natural number.
- CommandSequencer.OnResult: the characteristic handle is dereferenced at `src/main.cpp:72` without a null check. A matched advertisement whose service is found therefore requires a non-null characteristic (`CharacteristicResolved`). A null handle there would crash the program; the model excludes that input by `CharacteristicResolved`.
- CommandSequencer.OnResult: the code ignores the result of `connect()` (`src/main.cpp:65`) and goes on to the service lookup either way. The model records only that a connection was requested. A failed connection shows up only as a `None` service answer.
- CommandSequencer.Scan: the advertisement sequence stands in for the BLE library's callback dispatch during the 5-second scan window. A single `Peer` answers the lookups of the one connection made.
