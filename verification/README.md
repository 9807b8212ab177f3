# RidolfiGE firmware: a verified model

The firmware of an ESP32 that polls a generator over Modbus and publishes its registers to an MQTT broker,
authenticating with a JWT it builds itself. This project models its four self-contained parts and proves what they
are for. `dafny verify dfyconfig.toml` checks everything.

| file | part |
|---|---|
| `CTypes.dfy`, `Text.dfy`, `Heap.dfy` | 32-bit conversions, C strings and `sprintf`; decimal printing and the parser that undoes it; the heap as a ledger |
| `Json.dfy` | a JSON reader that knows nothing of the firmware, and a writer that it undoes; the firmware's texts are read with it |
| `Base64Url.dfy`, `Base64UrlCodec.dfy`, `Base64UrlLaws.dfy` | `base64url.c`: its meaning, its two loops over buffers, its laws |
| `Jwt.dfy`, `Gcpjwt.dfy` | `gcpjwt.c`: the token as text and what a reader finds in it; the function with its buffers, globals and exits |
| `Mqtt.dfy`, `SharedPointer.dfy` | `mqtt.c` and the MQTT event handler; the global pointers under overlapping callers |
| `Telemetry.dfy` | the payload printer, the MAC string, one cycle of the control task |
| `WifiConnect.dfy`, `WifiDriver.dfy` | the address semaphore and the connect/disconnect lifecycle as a machine; the C functions over their statics |
| `Firmware.dfy` | control task, MQTT handlers and Wi-Fi callbacks interleaved |
| `Sntp.dfy`, `Interval.dfy` | the clock wait of `fsntp.c`; the interval checkers of `utility.c` |

Code that updates state is modelled as classes and methods; each method's contract gives its whole new state, directly
or through a function, and the lemmas are about those functions. C's `const` input pointers are values; buffers that
are written are arrays. Shifts and masks are division and remainder by powers of two, and every conversion that can
wrap is written out. The configuration is that of `sdkconfig`: Wi-Fi and IPv6 on, Ethernet off, link-local preferred.

## What the proofs found

- The alphabets of the two codec directions differ, so decoding an encoding fails exactly when some 6-bit group is 62
  or 63 (`RoundTrip`, `RoundTripFails`); after changing `-` and `_` back it never fails (`RoundTripMapped`).
- `BASE64_ENCODE_OUT_SIZE` is one cell short, for the NUL, exactly when 3 divides the length; `BASE64_DECODE_OUT_SIZE`
  is short for unpadded input whose whole quartets are accepted (`EncodeOutSizeExact`, `DecodeOutSizeExact`,
  `OutSizesTooSmall`).
- `gcpjwt.h:64` and `gcpjwt.h:109` call the encoding normal base64; the code writes base64url, as RFC 7515 needs.
- The printed claims are right exactly while `now + exp_time_s` is below 2^31 (`ClaimsTimesExact`).
- The RSA key context is freed on success only (`pkContexts` in `XgiotcGenJwt`).
- `mqtt.h:35-38` promises defaults for a NULL configuration and a time-out result of -2; the code has neither.
- Both global pointers need callers that do not overlap. The ledger of `jwt`, whose allocation is not seen to fail, is
  clean exactly when they do not (`CleanIffSerial`). That of `oBuf`, where a failed `malloc` stores NULL, is clean
  exactly when each block is freed once before the next allocation is tried: overlapping calls that fail can be
  harmless, and a failing call can lose another's block (`CleanExactly`, `FailuresMatter`).
- The firmware's own tasks do overlap in `mqtt_app_start`. Its `jwt` ledger is clean exactly in the runs in which no
  start begins inside another, and in those the `oBuf` ledger is too (`JwtLedger`, `OBufLedger`, `StartsCanOverlap`).
- `is_our_netif` does not compare the last character of the prefix its comment speaks of (`IsOurNetifExact`).
- An address event gives to a NULL semaphore exactly when it arrives in one of two windows, both open to every address
  of ours (`FaultExactly`, `AddressesInTheWindows`).
- The wait is sized for one address of each family but does not tell them apart: connect can return with one family
  alone exactly when the first two addresses are of the same family (`ReturnsEarlyExactly`).
- A publish follows a read of CONNECTED, but the state at the publish itself can differ (`StateAtPublish`,
  `StalePublish`), and so can the client: it goes through NULL exactly when the latest initialisation failed
  (`PublishesThrough`, `NullPublish`).
- With the SNTP flag set and a clock that stays before 2016 the wait never ends (`StickyFlag`, `StoppedClock`).
- `chck_time_int_ms` keeps its interval exactly while no reading from 2^31 milliseconds on fires with another close
  behind it, because the hold is cut to 32 bits (`MillisecondsApartExactly`).

## Model

| member | source | states |
|---|---|---|
| Base64Url.EncodeTableIsUrlAlphabet | main/base64url.c:12-21 | the encode table is Table 2 of RFC 4648 |
| Base64Url.DecodeTableIsStandardAlphabet | main/base64url.c:29-59 | the decode table, offset by '+', is the inverse of Table 1 of RFC 4648, with -1 for every other character |
| Base64UrlCodec.Base64UrlEncode | main/base64url.c:61-98 | the loop, the step back and the NUL leave exactly the encoding, a NUL, and every later cell untouched; the 32-bit counters never wrap |
| Base64UrlLaws.EncodeKeepsBits | main/base64url.c:61-98 | RFC 4648 section 5 as bit strings: the 6-bit groups hold the input's bits in order, padded with zero bits |
| Base64UrlLaws.SextetsExactly | main/base64url.c:61-98 | the encoder's groups are the only least string of groups with those bits |
| Base64UrlLaws.LengthsAgree | main/base64url.c:84-93 | n bytes give the least number of groups that hold 8n bits, ceil(4n/3), and that many groups hold n whole bytes |
| Base64UrlLaws.EncodeAppend | main/base64url.c:65-79 | encoding splits at every multiple of three bytes |
| Base64UrlLaws.EncodeInjective | main/base64url.c:61-98 | different byte strings have different encodings |
| Base64UrlLaws.TestVectors | main/base64url.c:12-98 | the encodings of f and foo from section 10 of RFC 4648, and one with both characters of the URL alphabet |
| Base64UrlCodec.Base64UrlDecode | main/base64url.c:100-139 | the status, and the whole buffer: the assigned cells as a function of the input alone, whose contents DecodedExactly gives, everything after them untouched, for every input including padded, malformed and one- or two-character ones |
| Base64UrlCodec.DecodeChar | main/base64url.c:115-135 | one pass of the switch turns the cells of i characters into those of i + 1, each `+=` on a cell assigned before |
| Base64UrlCodec.LookAheadSecond | main/base64url.c:122-124 | the wrapping look-ahead skips the assignment exactly when a padding character stands next, two before the end |
| Base64UrlCodec.LookAheadThird | main/base64url.c:129-131 | likewise for the third of four characters |
| Base64UrlCodec.CellsAfterStep | main/base64url.c:115-135 | a skipped assignment is never read: an accepted character always finds its pending cell stored |
| Base64Url.RegroupStep | main/base64url.c:120-134 | a further group completes exactly one byte except at the start of four, and no sum carries past 255 |
| Base64UrlLaws.RegroupKeepsBits | main/base64url.c:115-135 | the completed bytes are the bits of the groups in order, cut to whole bytes |
| Base64UrlLaws.RegroupExactly | main/base64url.c:115-135 | the decoder's whole bytes are the only longest byte string whose bits begin those of the groups |
| Base64UrlLaws.DecodeAcceptsExactly | main/base64url.c:108-113 | OK exactly when every character before the first '=' is in the standard alphabet |
| Base64UrlLaws.DecodedExactly | main/base64url.c:104-139 | for every text, padded or not: the assigned cells are exactly the bits of the characters before the first that is not in the alphabet, in whole bytes, and the bits left over at the top of one more cell, unless there are none or the text is fully padded |
| Base64UrlLaws.PaddedRoundTrip | main/base64url.c:61-139 | the encoding with its alphabet changed back and its padding added decodes to OK and exactly the bytes |
| Base64UrlLaws.RoundTripMapped | main/base64url.c:61-139 | with the alphabet changed back, decoding an encoding gives OK and the bytes, plus one zero cell if 3 does not divide their number |
| Base64UrlLaws.RoundTrip | main/base64url.c:61-139 | without the change it does so if every 6-bit group is below 62, and gives INVALID otherwise |
| Base64UrlLaws.RoundTripFails | main/base64url.c:12-59 | a one-byte input whose encoding is rejected |
| Base64UrlLaws.CanonicalText | main/base64url.c:61-139 | a text over the standard alphabet is an encoding exactly when it leaves no lone character and no left-over bit set |
| Base64UrlLaws.EncodeOutSizeExact | main/base64url.h:13 | encoding and NUL fit the macro's size exactly when 3 does not divide the length |
| Base64UrlLaws.DecodeOutSizeExact | main/base64url.h:14 | the assigned cells fit the macro's size exactly when 4 divides the length or a character up to the end of the whole quartets is rejected |
| Base64UrlLaws.OutSizesTooSmall | main/base64url.h:13-14 | the least inputs that the macros do not allow for: three bytes, and two unpadded characters |
| Text.ReadIntOfDecimal | main/gcpjwt.c:179 | reading undoes %d for every integer, if no digit follows |
| Text.Decimal32Length | main/gcpjwt.c:179 | a 32-bit number prints in at most 11 characters |
| Jwt.ClaimsRoundTrip | main/gcpjwt.c:177-179 | the printed claims are JSON: iat and exp as signed 32-bit numbers, and aud the project |
| Jwt.HeaderRoundTrip | main/gcpjwt.c:165 | the header is JSON: alg RS256 and typ JWT |
| Jwt.ClaimsTimesExact | main/gcpjwt.c:172-179 | the parsed times are now and now + exp_time_s exactly when the latter is below 2^31 |
| Jwt.SavedExpiryNotLater | main/gcpjwt.c:169-175 | with two clock readings in order, the saved expire_t is no later than the printed exp |
| Jwt.ClaimsLength | main/gcpjwt.c:177-179 | the claims have at most 60 characters, for all 32-bit times |
| Jwt.EncodeExcludes | main/gcpjwt.c:186 | no encoding contains a dot or a NUL |
| Jwt.TokenParts | main/gcpjwt.c:186-232 | RFC 7515 section 7.1: splitting a token at its dots gives exactly the three encoded parts |
| Jwt.DecodeSegmentOfEncode | main/gcpjwt.c:167-224 | decoding a segment with the alphabet changed back gives back its bytes |
| Jwt.TokenRoundTrip | main/gcpjwt.c:164-232 | a reader of the token finds the RS256 header, both times, the project, the signing input and the signature bytes |
| Jwt.IssuedTokenVerifies | main/gcpjwt.c:206-232 | every issued token is shorter than len - 1, and its signature is the signature of the digest of its own first two segments |
| Jwt.LengthCheckExact | main/gcpjwt.c:226-231 | when every foreign call succeeds a token is issued exactly if the lengths of its parts, the dots, the NUL and one more cell fit |
| Jwt.DocumentedLengthSuffices | main/gcpjwt.h:123 | with the 1200 bytes the header asks for, issuing fails exactly when a foreign call fails |
| Gcpjwt.SignatureFits | main/gcpjwt.c:223-224 | base64Signature[600] holds the encoding and NUL of a signature exactly up to 449 bytes |
| Gcpjwt.BuildSigningInput | main/gcpjwt.c:164-186 | the header and claims segments, through buffers of 100, 100, 100 and 800 cells that are never overrun |
| Gcpjwt.Gcpjwt.SignInto | main/gcpjwt.c:190-237 | on every path: the return code, the caller's buffer (the token and NUL, or untouched), and the ledger of oBuf and the key context |
| Gcpjwt.Gcpjwt.XgiotcGenJwt | main/gcpjwt.c:155-238 | 0 exactly when a token is issued; then the buffer holds it, on -1 it is unwritten; expire_t is saved on every path; oBuf is freed exactly once if allocated |
| Mqtt.MqttApp.MqttAppStart | main/mqtt.c:70-139 | the return code, the handle, the number of clients and every field of the configuration for every outcome; the jwt block of this call is freed and no block is outstanding |
| Mqtt.StartExactly | main/mqtt.c:76-138 | a start reaches a client's initialisation exactly with a URI and, for the broker, a token; short of that it fails and leaves the handle; then it sets the handle, to NULL on failure, and returns the code of the client's own start |
| Mqtt.ClientKeeps | main/mqtt.c:74-102 | the client gets the caller's URI, event handler and stack size, and off the broker the caller's whole configuration |
| Mqtt.TokenUnlessForeign | main/mqtt.c:80-85 | in the 5000-byte block a token fails exactly when a foreign call does |
| Mqtt.MqttApp.MqttAppStartMain | main/app_main.c:240-250 | the global configuration gets broker, handler and a stack of 5 * 1024, so that no start lacks a URI, and a start is made with it; the client has all three |
| Mqtt.MqttApp.MqttEventHandler | main/app_main.c:160-237 | the service state after each event; a disconnection starts a client with the global configuration with Wi-Fi up, and restarts the device otherwise; nothing else changes; a reconnected client has the firmware's broker, handler and stack too |
| Mqtt.MqttApp.GetMqttServiceState | main/mqtt.c:141-143 | returns the shared state |
| Mqtt.MqttApp.SetMqttServiceState | main/mqtt.c:145-148 | sets it and nothing else |
| Mqtt.BrokerPasswordVerifies | main/mqtt.c:81-102 | the broker client's password is a token of the present, valid for a day exactly while that fits 31 bits, with the signature of its own text |
| SharedPointer.LostForever | main/mqtt.c:68-85 | a block that the global pointer has been moved away from is never freed |
| SharedPointer.TidyExactly | main/gcpjwt.c:199-237 | with failing allocations, as those of oBuf, and whatever the order: no block is lost and none freed twice if and only if each is freed before the next allocation is tried, and not again before it |
| SharedPointer.CleanExactly | main/gcpjwt.c:199-237 | the same for complete calls: every block is freed exactly once and nothing else is |
| SharedPointer.SerialIsClean | main/gcpjwt.c:199-237 | calls that do not overlap keep the ledger clean, whichever allocations fail |
| SharedPointer.FailuresMatter | main/gcpjwt.c:199-205 | overlapping traces that end clean because an allocation failed, and traces in which a failure or an overlap loses or twice frees a block |
| SharedPointer.CleanIffSerial | main/mqtt.c:68-135 | over every interleaving of calls whose allocations succeed, as those of jwt, the ledger is in order, and clean once all have returned, if and only if no call begins while another is open |
| Telemetry.GetMacStr | main/utility.c:169-172 | the buffer holds the twelve digits and a NUL |
| Telemetry.HexRoundTrip | main/utility.c:169-172 | reading the digits gives back the bytes |
| Telemetry.HexOfDevice | main/utility.c:170 | lower-case digits: the manufacturer's part of the device's own address |
| Telemetry.PayloadRoundTrip | main/app_main.c:297-430 | a JSON reader finds in every payload rt true, u the MAC string, ts the time, and under m exactly 29 entries, whose m is the text _1_ and the register's number and whose v is the contents of that register |
| Telemetry.RegistersInRuns | main/app_main.c:305-389 | those registers are 5-8, 14-25, 61-63, 66-69, 76-78 and 82-84 |
| Telemetry.PayloadInjective | main/app_main.c:297-430 | equal payloads have equal MAC address, time and 29 registers |
| Telemetry.PayloadFits | main/app_main.c:58 | at most 811 characters for 16-bit registers and a 32-bit time, so the 2000-byte buffer suffices |
| Telemetry.CtrlTask.Cycle | main/app_main.c:271-438 | one cycle publishes exactly the payload of the polled registers through the current handle if the state reads CONNECTED, and nothing otherwise |
| WifiConnect.IsOurNetifExact | main/WifiConnect.c:114-122 | accepts every description with the prefix, and besides exactly those that have all of it but its last character |
| WifiConnect.OwnInterface | main/WifiConnect.c:285-288 | the station interface that wifi_start names is ours |
| WifiConnect.NextKeepsSemaphore | main/WifiConnect.c:35-214 | for any number of interfaces, every step keeps accepted gives = taken + count, both at most the number awaited, and count + taken at least the lesser of that and the events delivered |
| WifiConnect.NextKeepsLifecycle | main/WifiConnect.c:125-249 | every step keeps the tie between call phase, interface count, semaphore, shutdown hook and callback registrations |
| WifiConnect.RunKeepsInv | main/WifiConnect.c:125-249 | both invariants hold after every run from power-on |
| WifiConnect.ConnectWaitsForAll | main/WifiConnect.c:212-214 | in every interleaving and for any number of interfaces connect returns only after as many addresses of ours as are awaited, and is not blocked once there were so many |
| WifiConnect.BlockedExactly | main/WifiConnect.c:212-214 | the waiting task is blocked exactly when it has taken every event delivered and those are fewer than awaited |
| WifiConnect.ReturnsEarlyExactly | main/WifiConnect.c:167-214 | for every arrival sequence, some interleaving lets connect return before both families have arrived if and only if the first two addresses are of the same family |
| WifiConnect.ReturnsWithOneFamily | main/WifiConnect.c:167-214 | two IPv4 events do so, and two link-local IPv6 events |
| WifiConnect.FaultExactly | main/WifiConnect.c:145 | a run gives to a NULL semaphore exactly when an address event of ours falls between registration and creation, or between deletion and unregistration |
| WifiConnect.AddressesInTheWindows | main/WifiConnect.c:145-246 | any address of ours faults right after the callbacks were registered, and right after the semaphore was deleted |
| WifiConnect.EarlyAddressFaults | main/WifiConnect.c:145 | from power-on: an IPv4 event before the creation |
| WifiConnect.FlagExactly | main/WifiConnect.c:253-274 | in every run wifi_connect is set exactly when the last station event that reached its callback was a connection |
| WifiConnect.LastStationExactly | main/WifiConnect.c:253-274 | what a sequence of events leaves of the flag: set exactly after a connection that no disconnection follows, or throughout |
| WifiConnect.CallBoundaries | main/WifiConnect.c:202-249 | between calls the interface count is one exactly when the semaphore exists and zero otherwise, and the call that does not fit is rejected without effect |
| WifiConnect.DisconnectUndoesConnect | main/WifiConnect.c:125-338 | a disconnect after a connect restores count, semaphore, hook and every registration, except the driver's own when it reports Wi-Fi not initialised; wifi_connect is not reset |
| WifiDriver.Connection.WifiStart | main/WifiConnect.c:278-318 | takes the registering step |
| WifiDriver.Connection.Start | main/WifiConnect.c:125-148 | takes the registering and the creating step |
| WifiDriver.Connection.OnGotIp | main/WifiConnect.c:167-178 | gives for an interface of ours, which faults if there is no semaphore, and does nothing otherwise |
| WifiDriver.Connection.OnGotIpv6 | main/WifiConnect.c:183-198 | likewise for a link-local address of an interface of ours |
| WifiDriver.Connection.Dispatch | main/WifiConnect.c:253-274 | at any time, an event reaches its callback only while that is registered, and takes the machine's step |
| WifiDriver.Connection.FisiExampleConnect | main/WifiConnect.c:202-237 | rejected without effect if connected; otherwise it returns exactly when the arrivals hold two addresses of ours, by a run of the machine that delivers the arrivals in order up to the second, and all of them if it still waits; wifi_connect is what the station events among those leave |
| WifiDriver.ConnectedWithBoth | main/WifiConnect.c:212-214 | that run has seen both families exactly when the first two addresses differ in theirs |
| WifiDriver.Connection.WifiStop | main/WifiConnect.c:320-338 | removes our registrations always, the driver's and the interface unless it reports Wi-Fi not initialised |
| WifiDriver.Connection.ExampleDisconnect | main/WifiConnect.c:239-249 | rejected without effect if not connected; otherwise the two steps of a disconnect |
| Firmware.NextKeepsStateAccounts | main/app_main.c:160-276 | every step keeps the flag, the handle, the number of clients and the control task's one start in agreement with the log |
| Firmware.NextKeepsStartAccounts | main/app_main.c:176-187 | every step keeps disconnections, Wi-Fi readings and handler starts in agreement with the log |
| Firmware.RunKeepsAccounts | main/app_main.c:176-276 | in every run: the flag is the fold of the events handled; clients are the starts that succeeded; the handle is that of the latest initialisation reached; one start by the control task and one by a handler per disconnection that found Wi-Fi up |
| Firmware.PublishSafety | main/app_main.c:257-432 | in every interleaving each publish comes after Wi-Fi was seen up and the start returned, and in the same cycle after a read of a state that the events made CONNECTED; it uses the latest handle |
| Firmware.PublishesThrough | main/app_main.c:432 | a publish goes through NULL exactly when the latest initialisation reached failed, and through the client whose event made the state CONNECTED exactly when no initialisation was reached since its own |
| Firmware.NullPublish | main/app_main.c:182-432 | a run that publishes through NULL after a failed reconnection |
| Firmware.EntriesAreTrue | main/app_main.c:276-432 | every read returns the fold of the events handled before it, every publish uses the latest handle, every event is of a client started before |
| Firmware.StateAtPublish | main/app_main.c:276-432 | at the publish the state is CONNECTED exactly when no event set it since the read, or the last that did was CONNECTED |
| Firmware.FoldExactly | main/app_main.c:165-235 | the shared state is CONNECTED, DISCONNECTED or ERROR as the last event of those three kinds says, and ERROR before any |
| Firmware.StalePublish | main/app_main.c:276-432 | a run that publishes while the state is DISCONNECTED |
| Firmware.RunKeepsOpens | main/mqtt.c:70-139 | in every run as many jwt blocks are between malloc and free as tasks are inside mqtt_app_start, and likewise for oBuf |
| Firmware.JwtLedger | main/app_main.c:182-266 | in every run the jwt ledger is in order, and clean while no start is in progress, if and only if no start began inside another |
| Firmware.OBufLedger | main/gcpjwt.c:199-237 | in every run the oBuf ledger is in order if and only if each block was freed before the next allocation was tried, and in every run without nested starts it is, and clean while no start is in progress |
| Firmware.StartsCanOverlap | main/app_main.c:182-266 | a run in which a handler's start begins inside the control task's own, and the jwt ledger is not clean when both have returned |
| Firmware.HandlerUninterrupted | main/app_main.c:176-187 | uninterrupted, the handler's steps amount to the handler's contract |
| Firmware.WifiIsLast | main/app_main.c:180-261 | what the tasks read as Wi-Fi is up exactly when the last Wi-Fi step was a connection |
| Firmware.CyclesGoOn | main/app_main.c:271-438 | whatever the handlers do, at most six turns of the control task, once past its wait for Wi-Fi, begin another cycle, unless the device restarts |
| Sntp.Client.SntpInitTime | main/fsntp.c:43-69 | the loop's result and the flag it leaves, for every sequence of rounds, with the argument as the limit and thirty seconds for zero |
| Sntp.Client.TimeSyncNotificationCb | main/fsntp.c:27-30 | sets the flag |
| Sntp.WaitEnds | main/fsntp.c:55-68 | 0 only on a reading in 2016 or later, -2 only with the flag read clear and the limit exceeded, and the flag is set exactly when it was or the callback ran |
| Sntp.WaitExactly | main/fsntp.c:55-68 | the wait ends with the first round that finds the flag clear and more than the limit elapsed, with -2, or else reads 2016 or later, with 0 |
| Sntp.YearIs2016 | main/fsntp.c:55-60 | comparing a reading with the first second of 2016 is comparing its calendar year |
| Sntp.EndsWithinLimit | main/fsntp.c:48-66 | with the flag clear and delays of at least two seconds a call ends within tmout/2 + 1 rounds, sixteen for zero |
| Sntp.SuccessMeansSynced | main/fsntp.c:61-68 | a wait whose limit lies before 2016 succeeds only after the callback ran |
| Sntp.StickyFlag | main/fsntp.c:23-66 | with the flag set there is no time-out, and no end exactly while every reading is before 2016 |
| Sntp.StoppedClock | main/fsntp.c:55-66 | a clock that stops before 2016 keeps the wait going for any number of rounds |
| Sntp.NoLaterTimeout | main/app_main.c:561-568 | over the retry loop, no call after one that leaves the flag set times out |
| Interval.ChckTimeInt | main/utility.c:59-64 | fires when the signed difference exceeds the interval, and then moves the hold |
| Interval.ChckTimeIntMs | main/utility.c:66-71 | likewise for the unsigned 64-bit difference, cutting the stored reading to 32 bits |
| Interval.HoldIsLastFiring | main/utility.c:59-71 | after any run the hold is the reading of the last firing, cut to 32 bits, or its first value |
| Interval.FiringsSpaced | main/utility.c:59-64 | on a steady clock any two firings are more than the interval apart |
| Interval.FiringsBounded | main/utility.c:59-64 | n firings in a window span at least n - 1 intervals of t_int + 1 |
| Interval.FormsAgreeExactly | main/utility.c:59-71 | on readings that fit, the two forms decide alike exactly when the clock is not behind the hold |
| Interval.FormsAgreeOnSteadyClock | main/utility.c:59-71 | on a steady clock they agree throughout a run |
| Interval.MillisecondsSpacedExactly | main/utility.c:66-71 | after a firing the milliseconds form keeps its interval exactly when that reading is below 2^31 |
| Interval.MillisecondsApartExactly | main/utility.c:66-71 | over every run on a clock that does not step back, all firings are more than the interval apart if and only if no reading from 2^31 on fires with the next reading within the interval |
| Interval.MillisecondsPolled | main/utility.c:66-71 | polled at least once per interval: if and only if every firing before the last reading is below 2^31 |
| Interval.FiresTwiceAtOnce | main/utility.c:66-71 | two readings at 2^31 milliseconds both fire |

## Left out

- Base64UrlCodec.Base64UrlEncode: an empty input is outside the C function's domain (its step back wraps and reads out of bounds), as is an output index beyond 32 bits; input and output do not overlap
- Gcpjwt.Gcpjwt.XgiotcGenJwt: hashing, signing and key parsing are parameters; a signature is taken to have between 1 and 449 bytes, which SignatureFits shows to be the exact capacity (the repository's key gives 256)
- Gcpjwt.BuildSigningInput: local buffers are read back as C strings, so only their sizes and texts are modelled, not their addresses
- Mqtt.MqttApp.MqttAppStart: the malloc of the jwt block is taken to succeed, because the code writes through it unchecked; printing the token is left out
- Mqtt.MqttApp.MqttEventHandler: one handler at a time; interleavings are in Firmware
- Telemetry.CtrlTask.Cycle: topic and quality of service are constants and are not modelled; one round of the endless loop, with the state and handle read at once; their interleaving is in Firmware, and the Modbus poll is a parameter
- WifiDriver.Connection.FisiExampleConnect: one family of schedules, in which callbacks run while the task waits; all interleavings are in WifiConnect, and the listing of addresses after the wait is left out
- WifiConnect.RunKeepsInv: calls come from one task at a time, and foreign calls other than esp_wifi_stop succeed, as ESP_ERROR_CHECK aborts otherwise
- Sntp.Client.SntpInitTime: local time is UTC, as the firmware sets no time zone, so tm_year is compared through the second in which 2016 begins; the rounds given may end before the loop does
- Interval.FiringsBounded: the seconds form; readings fit a 32-bit long
- Firmware.PublishSafety: events may come from any client that exists, more than esp-mqtt would allow; the contents of a publish are in Telemetry
- Firmware.RunKeepsAccounts: a start's later reads of mqttc (mqtt.c:123, mqtt.c:132) are taken with its assignment, so that it sees its own client
- Firmware.OBufLedger: a start may go on to its client after a failed allocation of oBuf, which the code's never does
- WifiConnect.NextKeepsLifecycle: one interface, as configured; the semaphore laws hold for any number
- Modbus, GPIO, NVS, chip information, logging and Ethernet: hardware calls with no property of their own
- gnsst2ts, ts2time, ts2date, ts2datetime and rand_int_decimal: decided by the C library
- TLS, esp-mqtt, FreeRTOS and lwIP internals: environment steps
