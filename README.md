# NTPClient in Dafny

A model of the Arduino `NTPClient` class (`NTPClient.h`, `NTPClient.cpp`): an
NTP client that sends one 48-byte request, polls a UDP socket for a reply in
a bounded loop, validates the reply's header, decodes the transmit
timestamp's seconds and from then on extrapolates wall-clock time from the
free-running `millis()` counter. `unsigned long` is 32 bits wide on this
platform; every `unsigned long` value is a `ULong` (0 ≤ x < 2^32). An
operation that can wrap does so explicitly (`Arduino.Wrap`, `Arduino.Sub`); on
every other one the `ULong` type makes the verifier prove that it cannot. Packet bytes
are `bv8`, so the header masks are written as in the code.

Modules, one per part of the class:

- `Arduino`: `unsigned long`, `int` and `byte`, with wrap-around and the
  `int` to `unsigned long` conversion.
- `NtpConfig`: `NTP_PACKET_SIZE` = 48, `NTP_DEFAULT_LOCAL_PORT` = 1337,
  `NTP_SERVER` = "pool.ntp.org", the constructor defaults 0 s and 60000 ms,
  and `SEVENZYYEARS` = 2208988800.
- `PacketCodec`: the request `sendNTPPacket` writes, the `isValid` gate and
  the transmit-timestamp decode. The header layout is section 7.3 of RFC 5905.
  The timestamp format and the 1900 prime epoch are section 6 of RFC 5905.
- `Polling`: the `forceUpdate` poll loop as a function of the poll results.
- `Calendar`: the Gregorian year and month walk of `date`.
- `TimeProjection`: `epochTime` and `hours`/`minutes`/`seconds`.
- `TimeFormat`: `formattedTime` and `formattedDate` (the profile of ISO 8601
  in section 5.6 of RFC 3339), and a digit reader to check them against.
- `Client`: the class `NtpClient` with the fields `m_udpSetup`, `m_port`,
  `m_timeOffset`, `m_updateInterval`, `m_currentEpoc`, `m_lastUpdate` and the
  48-byte `m_packetBuffer` array, whose methods update them in place.

Inputs from outside the class are explicit arguments:

- `polls[i]` is what `parsePacket()` gives on poll i: either no packet, or
  a datagram whose bytes `read()` copies.
- `Update` takes two `millis()` readings. `now` is read when deciding
  whether to synchronise. `syncedAt` is read after the poll loop.
- `ForceUpdate` takes the `millis()` reading after its loop.
- The accessors take the current `millis()` reading.

`Client.ExchangeScenario` runs the class end to end on symbolic input. A
server's valid reply carries the Unix time 1700000000 and arrives on the
first poll. Such replies exist: `EncodeEpoch` of any valid header is one, by
`PacketCodec.EncodeKeepsValidity` and `PacketCodec.DecodeEncode`. The first `update` synchronises, and `epochTime` reads
1700000000. Five seconds later `update` is not due and changes nothing, and
`epochTime` reads 1700000005. `setEpochTime(1800000000)` then gives
1800000005, because `m_lastUpdate` is kept. Each of these facts is an
assertion the verifier proves.

## Behaviour of the code as written

These are modelled as the code has them:

- The request header byte is 0xE3, which is LI = 3, VN = 4, Mode = 3.
- The reference-timestamp test reads bytes 16 to 22 and tests byte 22 twice.
  Byte 23 is never read (`PacketCodec.IsValidIgnoresByte23`).
- Polls run with `timeout` = 0..101. A valid packet on poll 102 is still
  refused by the `timeout > 100` test. So a successful exchange stops at
  poll n ≤ 101 and back-dates `m_lastUpdate` by 10·(n+1) ms.
- `forceUpdate` does not start the socket. Only `update` calls `begin()`.
- `setEpochTime` changes `m_currentEpoc` only. `m_lastUpdate` keeps its
  value.
- `formattedDate(0)` renders `epochTime()`, and that includes
  `m_timeOffset`. The result still ends in "Z".
- A synchronisation that happens to store `m_lastUpdate` = 0 makes every
  later `update` due.
- The decode subtracts `SEVENZYYEARS` modulo 2^32. So it gives the right Unix
  time from 1970-01-01 to 2106-02-07, across the NTP era boundary of
  2036-02-07 as well: the era-1 seconds word 0 decodes to 2085978496
  (`PacketCodec.EraOneStartBytes`). An era-0 timestamp before 1970 cannot be
  told from an era-1 one; it decodes as the later instant.

## Model

The table lists contracts. A definition that only computes, such as
`PacketCodec.IsValid`, `PacketCodec.TransmitSeconds`, `Calendar.LeapYear`,
`TimeProjection.Elapsed`, `TimeFormat.ClockText`, `TimeFormat.DateText` or
`Client.NtpClient.Due`, has no row of its own. It is reached through the row
of the lemma or method whose contract states what it means.

| member | source | states |
|---|---|---|
| Arduino.Sub | NTPClient.cpp:119-119 | `unsigned long` subtraction: the difference modulo 2^32, the true difference when no wrap occurs |
| Arduino.ToULong | NTPClient.cpp:133-133 | the `int` offset enters `unsigned long` arithmetic as its two's-complement value |
| PacketCodec.IsValidIff | NTPClient.cpp:46-73 | `isValid` holds iff LI ≠ 3, version ≥ 4, mode = 4, 1 ≤ stratum ≤ 15 and one of bytes 16..22 is non-zero |
| PacketCodec.IsValidIgnoresByte23 | NTPClient.cpp:66-69 | changing byte 23 never changes the verdict |
| PacketCodec.NonZeroReferenceRejected | NTPClient.cpp:66-70 | a reply whose only non-zero reference-timestamp byte is byte 23 is rejected although its reference timestamp is not zero |
| PacketCodec.RequestPacket | NTPClient.cpp:254-266 | the request is 0xE3, 0, 6, 0xEC, the bytes 0x49 0x4E 0x49 0x52 at 12..15, and zero everywhere else in the 48 bytes |
| PacketCodec.RequestHeaderFields | NTPClient.cpp:258-258 | the header byte 0xE3 has LI = 3, VN = 4, Mode = 3 |
| PacketCodec.RequestRejected | NTPClient.cpp:50-51 | the client's own request fails `isValid` |
| PacketCodec.DecodeEpoch | NTPClient.cpp:106-111 | the epoch plus 2208988800 is the transmit seconds modulo 2^32; the plain difference when the seconds are at least that offset |
| PacketCodec.DecodeEpochBigEndian | NTPClient.cpp:106-111 | the epoch is (b40·2^24 + b41·2^16 + b42·2^8 + b43 − 2208988800) mod 2^32 |
| PacketCodec.DecodeEncode | NTPClient.cpp:106-111 | writing e + 2208988800 big-endian into bytes 40..43 and decoding returns e, for every 32-bit e |
| PacketCodec.DecodeEpochReadsTransmitSeconds | NTPClient.cpp:106-107 | the decoded epoch depends on bytes 40..43 only |
| PacketCodec.EncodeKeepsValidity | NTPClient.cpp:46-73 | `isValid` never reads the transmit timestamp: rewriting bytes 40..43 keeps the verdict |
| PacketCodec.EraOneStartBytes | NTPClient.cpp:106-111 | the seconds word 0 of NTP era 1 decodes to the Unix time 2085978496 (2036-02-07T06:28:16Z) |
| PacketCodec.UnixEpochBytes | NTPClient.cpp:24-24 | the transmit seconds 83 AA 7E 80 decode to the Unix epoch 0 |
| Polling.Receive | NTPClient.cpp:93-93 | `read` of 48 bytes: byte i comes from the datagram when it has one, otherwise it keeps the old buffer value |
| Polling.PollFrom | NTPClient.cpp:84-103 | the loop ends after more polls than it started with and at most 102; it succeeds iff it stopped before poll 102 |
| Polling.Synchronise | NTPClient.cpp:81-103 | from the request buffer, the loop takes 1 to 102 polls and succeeds iff it takes fewer than 102 |
| Polling.PollFromStops | NTPClient.cpp:84-103 | from any poll on, no poll before the last one the loop makes delivers a valid packet, and a successful loop ended on a poll that did |
| Polling.PollFromBuffer | NTPClient.cpp:86-103 | the buffer the loop ends with is the one its polls left, one `read` per arrived datagram |
| Polling.SynchroniseSpec | NTPClient.cpp:84-103 | `forceUpdate`'s loop succeeds iff some poll 1..101 delivers a valid packet; it stops at the first one, and its buffer then passes `isValid`; a failing loop has made 102 polls |
| Polling.SilenceTimesOut | NTPClient.cpp:98-100 | with no datagram at all the loop fails after 102 polls |
| Polling.FullDatagramAccepts | NTPClient.cpp:91-96 | a datagram of 48 bytes or more replaces the buffer, and is accepted iff its first 48 bytes pass `isValid` |
| Polling.FullDatagramOutcome | NTPClient.cpp:84-103 | invalid packets are discarded and polling goes on; the first valid full packet, on poll n, ends the loop with that packet iff n ≤ 101 |
| Calendar.MonthLength | NTPClient.cpp:179-193 | month lengths are 28..31 days; February has 29 days iff `LEAP_YEAR(year)` |
| Calendar.MonthsFillYear | NTPClient.cpp:179-193 | the twelve month lengths add up to the year length |
| Calendar.DateOfUnique | NTPClient.cpp:174-207 | at most one valid date lies a given number of days after 1970-01-01 |
| Calendar.DateOfCorrect | NTPClient.cpp:181-199 | the year-then-month walk yields a valid date whose day number is the input |
| Calendar.DateOfDayNumber | NTPClient.cpp:174-207 | every date from 1970 on is recovered from its day number |
| Calendar.SeventyYearsGregorian | NTPClient.cpp:24-24 | 2208988800 s is exactly the Gregorian years 1900..1969 |
| Calendar.YearBound | NTPClient.cpp:201-206 | for any 32-bit second count the year is at most 2106, month ≤ 12 and day ≤ 31, so the `uint16_t`/`uint8_t` casts lose nothing |
| Calendar.MonthOfYear | NTPClient.cpp:186-199 | the month walk stops in month m + 1 with rest below that month's length, and the days of the months before plus rest is the day of the year |
| Calendar.CivilDate | NTPClient.cpp:176-206 | the loops of `date`: year ≥ 1970 and ≤ 2106, month in 1..12, day in 1..length of that month, and days of the years before plus days of the months before plus day − 1 equals secs / 86400 |
| TimeProjection.ProjectedEpoch | NTPClient.cpp:131-136 | `epochTime` is offset + epoch + elapsed ms / 1000, modulo 2^32 |
| TimeProjection.ElapsedAcrossWrap | NTPClient.cpp:135-135 | `millis() - m_lastUpdate` is the true duration of any interval shorter than 2^32 ms, also across a counter wrap |
| TimeProjection.ProjectionAfter | NTPClient.cpp:133-135 | d ms after the last synchronisation, `epochTime` is offset + epoch + d / 1000 modulo 2^32 |
| TimeProjection.ProjectionAdvances | NTPClient.cpp:133-135 | between synchronisations `epochTime` advances by exactly the whole seconds elapsed, also across a counter wrap |
| TimeProjection.Hours | NTPClient.cpp:139-142 | the hour of the day: below 24, and h hours ≤ second of day < h + 1 hours |
| TimeProjection.Minutes | NTPClient.cpp:143-146 | the minute of the hour: below 60, bracketing the second of the hour |
| TimeProjection.Seconds | NTPClient.cpp:148-151 | the second of the minute: below 60, and t minus it is a whole number of minutes |
| TimeProjection.TimeOfDay | NTPClient.cpp:139-151 | hours·3600 + minutes·60 + seconds equals the second of the day |
| TimeFormat.DecimalRoundTrip | NTPClient.cpp:213-219 | `String(n)` is all digits, reads back as n and has no leading zero |
| TimeFormat.DecimalFourDigits | NTPClient.cpp:233-233 | years 1000..9999 print as four digits |
| TimeFormat.TwoDigitsRoundTrip | NTPClient.cpp:213-219 | a zero-padded field below 100 is two digits that read back as the number |
| TimeFormat.ClockTextFormat | NTPClient.cpp:209-222 | `HH:MM:SS`: 8 characters, colons at 2 and 5, digit fields HH < 24, MM, SS < 60 with HH·3600 + MM·60 + SS = t mod 86400 |
| TimeFormat.DateTextFormat | NTPClient.cpp:226-234 | `YYYY-MM-DDTHH:MM:SSZ`: 20 characters, separators in place, fields read back as year, month, day, and `formattedTime` at 11..18 |
| Client.NtpClient.constructor | NTPClient.h:29-29 | defaults "pool.ntp.org", offset 0, interval 60000; not synchronised, socket not started, port 1337 |
| Client.NtpClient.Begin | NTPClient.cpp:39-44 | stores the port (1337 by default) and marks the socket started |
| Client.NtpClient.End | NTPClient.cpp:236-240 | marks the socket stopped, nothing else changes |
| Client.NtpClient.SetTimeOffset | NTPClient.cpp:242-245 | assigns `m_timeOffset` only |
| Client.NtpClient.SetUpdateInterval | NTPClient.cpp:247-250 | assigns `m_updateInterval` only |
| Client.NtpClient.SetEpochTime | NTPClient.cpp:275-278 | assigns `m_currentEpoc` only; `m_lastUpdate` is kept |
| Client.NtpClient.SendNtpPacket | NTPClient.cpp:252-267 | the 48-byte buffer afterwards holds exactly the request |
| Client.NtpClient.ReadDatagram | NTPClient.cpp:93-93 | the buffer afterwards is the old buffer overwritten by up to 48 datagram bytes |
| Client.NtpClient.ReceivePoll | NTPClient.cpp:89-96 | one pass of the poll body: the buffer afterwards is the one poll's result, and `cb` is non-zero iff a datagram arrived and the buffer then passes `isValid` |
| Client.FirstPollSynchronises | NTPClient.cpp:86-103 | a valid 48-byte reply on the first poll ends the loop at once, successfully, with that reply in the buffer |
| Client.NtpClient.ForceUpdate | NTPClient.cpp:75-114 | result = the loop's success; on success `m_lastUpdate` = now − 10·(n+1) mod 2^32 for the accepting poll n and `m_currentEpoc` = the decoded transmit seconds of the accepted buffer; on failure both unchanged |
| Client.NtpClient.Update | NTPClient.cpp:116-129 | when elapsed ≥ interval or `m_lastUpdate` = 0: starts the socket on port 1337 if needed, then behaves as `ForceUpdate`; otherwise returns true and changes nothing |
| Client.NtpClient.EpochTime | NTPClient.cpp:131-136 | `epochTime()` is offset + `m_currentEpoc` + elapsed seconds, modulo 2^32 |
| Client.NtpClient.Hours | NTPClient.cpp:139-142 | the hour of the day of `epochTime()` |
| Client.NtpClient.Minutes | NTPClient.cpp:143-146 | the minute of the hour of `epochTime()` |
| Client.NtpClient.Seconds | NTPClient.cpp:148-151 | the second of the minute of `epochTime()` |
| Client.NtpClient.Date | NTPClient.cpp:174-207 | the date whose day number is secs / 86400, or `epochTime()` / 86400 when secs = 0 (a zero argument means now, NTPClient.h:77-90) |
| Client.NtpClient.Year | NTPClient.cpp:153-158 | the year of the current date, at least 1970 |
| Client.NtpClient.Month | NTPClient.cpp:160-165 | the month of the current date, in 1..12 |
| Client.NtpClient.Day | NTPClient.cpp:167-172 | the day of the current date, in 1..31 |
| Client.NtpClient.FormattedTime | NTPClient.cpp:209-222 | `HH:MM:SS`: two-digit decimal fields below 24, 60, 60 recomposing the second of the day of secs, or of `epochTime()` when secs = 0 |
| Client.NtpClient.FormattedDate | NTPClient.cpp:226-234 | `YYYY-MM-DDTHH:MM:SSZ` whose decimal-digit fields are the year, month and day of the unique date of secs (of `epochTime()` when secs = 0) and whose time part is `formattedTime(secs)` |

## Left out

- The UDP calls `begin`, `stop`, `beginPacket`, `write`, `endPacket`,
  `parsePacket` and `read` are foreign library I/O. Only the effect of `read`
  on the buffer is modelled (`ReadDatagram`). A poll result is an argument.
- `delay(10)` and `millis()` are real-time primitives. Each delay is one loop
  iteration, and each `millis()` reading is a parameter.
- The `Serial.println` debug output under `DEBUG_NTPClient` is not modelled.
- The internals of Arduino `String` are not modelled. `String(n)` is the
  decimal digits of n (`TimeFormat.Decimal`).
- `isReady()` returns `m_ready`, a field that is never assigned, so its value
  is undefined. It and the `m_udp` pointer are not modelled.
- `FormattedDate` uses one `now` for the two `epochTime()` reads in `date` and
  `formattedTime`. On the device these two `millis()` readings can fall on
  either side of a second boundary.
- `int` is taken as 32 bits wide (`Int32`). On 8-bit AVR boards it is 16 bits.
  That range is a subset of `Int32`, so the contracts cover it.
- The C++ packet buffer starts uninitialised. The model leaves its contents
  unspecified too; nothing reads it before `sendNTPPacket` writes it.
