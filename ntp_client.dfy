/** The `NTPClient` object: its state, the rate-limited synchronisation
    entry points, the setters and the time accessors. The UDP socket and
    `millis()` are not modelled: each poll result and each counter reading
    is an argument. */
module Client {
  import opened Arduino
  import opened NtpConfig
  import opened PacketCodec
  import opened Polling
  import opened Calendar
  import opened TimeProjection
  import opened TimeFormat

  class NtpClient {
    var udpSetup: bool             // m_udpSetup
    const poolServerName: string   // m_poolServerName
    var port: Int32                // m_port
    var timeOffset: Int32          // m_timeOffset, seconds
    var updateInterval: ULong      // m_updateInterval, ms
    var currentEpoc: ULong         // m_currentEpoc, s
    var lastUpdate: ULong          // m_lastUpdate, ms
    const packetBuffer: array<Byte>  // m_packetBuffer

    ghost predicate Valid()
      reads this
    {
      packetBuffer.Length == PacketSize
    }

    /** The contents of `m_packetBuffer`. */
    ghost function Buffer(): Packet
      reads this, packetBuffer
      requires Valid()
    {
      packetBuffer[..]
    }

    /** `NTPClient(udp, poolServerName = NTP_SERVER, timeOffset = 0,
        updateInterval = 60000)`: never synchronised, socket not started. */
    constructor (poolServerName: string := DefaultServer, timeOffset: Int32 := DefaultTimeOffset,
                 updateInterval: ULong := DefaultUpdateInterval)
      ensures Valid() && fresh(packetBuffer)
      ensures this.poolServerName == poolServerName
      ensures this.timeOffset == timeOffset && this.updateInterval == updateInterval
      ensures !udpSetup && port == DefaultLocalPort
      ensures currentEpoc == 0 && lastUpdate == 0
    {
      this.poolServerName := poolServerName;
      this.timeOffset := timeOffset;
      this.updateInterval := updateInterval;
      udpSetup := false;
      port := DefaultLocalPort;
      currentEpoc := 0;
      lastUpdate := 0;
      packetBuffer := new Byte[PacketSize];
    }

    /** `begin(port = NTP_DEFAULT_LOCAL_PORT)`: opens the socket on the port. */
    method Begin(port: Int32 := DefaultLocalPort)
      modifies this`port, this`udpSetup
      ensures this.port == port && udpSetup
    {
      this.port := port;
      udpSetup := true;
    }

    /** `end()`: closes the socket. */
    method End()
      modifies this`udpSetup
      ensures !udpSetup
    {
      udpSetup := false;
    }

    method SetTimeOffset(timeOffset: Int32)
      modifies this`timeOffset
      ensures this.timeOffset == timeOffset
    {
      this.timeOffset := timeOffset;
    }

    method SetUpdateInterval(updateInterval: ULong)
      modifies this`updateInterval
      ensures this.updateInterval == updateInterval
    {
      this.updateInterval := updateInterval;
    }

    /** `setEpochTime(secs)`: replaces the synchronised epoch and nothing
        else; in particular `m_lastUpdate` keeps its value. */
    method SetEpochTime(secs: ULong)
      modifies this`currentEpoc
      ensures currentEpoc == secs
    {
      currentEpoc := secs;
    }

    /** `sendNTPPacket()`: clears the buffer and writes the request header
        (the datagram send itself is not modelled). */
    method SendNtpPacket()
      requires Valid()
      modifies packetBuffer
      ensures Buffer() == RequestPacket()
    {
      forall i | 0 <= i < PacketSize {
        packetBuffer[i] := 0;
      }
      packetBuffer[0] := 0xE3;
      packetBuffer[1] := 0;
      packetBuffer[2] := 6;
      packetBuffer[3] := 0xEC;
      packetBuffer[12] := 0x49;
      packetBuffer[13] := 0x4E;
      packetBuffer[14] := 0x49;
      packetBuffer[15] := 0x52;
      assert packetBuffer[..] == RequestPacket();
    }

    /** `read(m_packetBuffer, NTP_PACKET_SIZE)` of an arrived datagram. */
    method ReadDatagram(data: seq<Byte>)
      requires Valid()
      modifies packetBuffer
      ensures Buffer() == Receive(old(Buffer()), data)
    {
      var n := if |data| < PacketSize then |data| else PacketSize;
      forall i | 0 <= i < n {
        packetBuffer[i] := data[i];
      }
      assert packetBuffer[..] == Receive(old(packetBuffer[..]), data);
    }

    /** One pass of the poll loop's body: `parsePacket()` yields `poll`; a
        datagram is read into the buffer, and `cb` is reset to 0 when the
        buffer then fails `isValid`. */
    method ReceivePoll(poll: Poll) returns (cb: nat)
      requires Valid()
      modifies packetBuffer
      ensures Buffer() == AfterPoll(old(Buffer()), poll)
      ensures cb != 0 <==> Accepts(old(Buffer()), poll)
    {
      cb := if poll.Datagram? then |poll.data| else 0;
      if cb > 0 {
        ReadDatagram(poll.data);
        if !IsValid(packetBuffer[..]) {
          cb := 0;
        }
      }
    }

    /** `forceUpdate()`: sends the request, then polls every 10 ms while the
        byte counter `timeout` runs from 0; on its value 101 it gives up.
        `polls[i]` is what `parsePacket()` yields on poll i; `now` is the
        `millis()` reading after the loop. On success the arrival time is
        back-dated by 10 ms per poll plus one. */
    method ForceUpdate(polls: seq<Poll>, now: ULong) returns (ok: bool)
      requires Valid()
      modifies this`lastUpdate, this`currentEpoc, packetBuffer
      ensures var r := Synchronise(polls);
        && ok == r.synced
        && Buffer() == r.buffer
        && (ok ==> lastUpdate == Sub(now, 10 * (r.polls + 1)) && currentEpoc == DecodeEpoch(r.buffer))
        && (!ok ==> lastUpdate == old(lastUpdate) && currentEpoc == old(currentEpoc))
    {
      SendNtpPacket();
      var timeout: nat := 0;   // a `byte`; it never exceeds 101
      var cb: nat := 0;
      while true
        invariant timeout < MaxPolls
        invariant Synchronise(polls) == PollFrom(Buffer(), polls, timeout)
        invariant lastUpdate == old(lastUpdate) && currentEpoc == old(currentEpoc)
        decreases MaxPolls - timeout
      {
        ghost var before := Buffer();
        var poll := PollAt(polls, timeout);
        PollFromUnfold(before, polls, timeout);
        cb := ReceivePoll(poll);
        if timeout > 100 {
          return false;
        }
        timeout := timeout + 1;
        if cb != 0 {
          break;
        }
      }
      lastUpdate := Sub(now, 10 * (timeout + 1));
      currentEpoc := DecodeEpoch(packetBuffer[..]);
      return true;
    }

    /** Synchronisation is due: the interval has elapsed since the last one,
        or there was none yet (`m_lastUpdate == 0`). */
    predicate Due(now: ULong)
      reads this
    {
      Elapsed(lastUpdate, now) >= updateInterval || lastUpdate == 0
    }

    /** `update()`: `now` is the `millis()` reading that decides whether a
        synchronisation is due, `syncedAt` the one `forceUpdate` takes after
        polling. When not due, nothing changes and the result is true. */
    method Update(now: ULong, polls: seq<Poll>, syncedAt: ULong) returns (ok: bool)
      requires Valid()
      modifies this`udpSetup, this`port, this`lastUpdate, this`currentEpoc, packetBuffer
      ensures !old(Due(now)) ==> ok && unchanged(this) && unchanged(packetBuffer)
      ensures old(Due(now)) ==>
        && udpSetup
        && port == (if old(udpSetup) then old(port) else DefaultLocalPort)
        && var r := Synchronise(polls);
        && ok == r.synced
        && Buffer() == r.buffer
        && (ok ==> lastUpdate == Sub(syncedAt, 10 * (r.polls + 1)) && currentEpoc == DecodeEpoch(r.buffer))
        && (!ok ==> lastUpdate == old(lastUpdate) && currentEpoc == old(currentEpoc))
    {
      if Due(now) {
        if !udpSetup {
          Begin();
        }
        ok := ForceUpdate(polls, syncedAt);
      } else {
        ok := true;
      }
    }

    /** `epochTime()`: the synchronised epoch extrapolated to `now`, plus the
        offset, modulo 2^32. */
    function EpochTime(now: ULong): (r: ULong)
      reads this
      ensures r == Wrap(timeOffset + currentEpoc + Elapsed(lastUpdate, now) / 1000)
    {
      ProjectedEpoch(timeOffset, currentEpoc, lastUpdate, now)
    }

    /** `secs ? secs : epochTime()`: a zero argument means "now". */
    function Instant(now: ULong, secs: ULong): (t: ULong)
      reads this
    {
      if secs != 0 then secs else EpochTime(now)
    }

    function Hours(now: ULong): (h: int)
      reads this
      ensures 0 <= h < 24
      ensures h * 3600 <= EpochTime(now) % 86400 < (h + 1) * 3600
    {
      TimeProjection.Hours(EpochTime(now))
    }

    function Minutes(now: ULong): (m: int)
      reads this
      ensures 0 <= m < 60
      ensures m * 60 <= EpochTime(now) % 3600 < (m + 1) * 60
    {
      TimeProjection.Minutes(EpochTime(now))
    }

    function Seconds(now: ULong): (s: int)
      reads this
      ensures 0 <= s < 60
      ensures (EpochTime(now) - s) % 60 == 0
    {
      TimeProjection.Seconds(EpochTime(now))
    }

    /** `date(&year, &month, &day, secs = 0)`, the three outputs returned. */
    method Date(now: ULong, secs: ULong := 0) returns (year: nat, month: nat, day: nat)
      ensures secs != 0 ==> IsDateOf(secs / SecondsPerDay, Calendar.Date(year, month, day))
      ensures secs == 0 ==> IsDateOf(EpochTime(now) / SecondsPerDay, Calendar.Date(year, month, day))
      ensures year <= 2106
    {
      var d := CivilDate(Instant(now, secs));
      year, month, day := d.year, d.month, d.day;
    }

    /** `year()`, `month()`, `day()`: `date()` of the current time. */
    method Year(now: ULong) returns (year: nat)
      ensures year == DateOf(EpochTime(now) / SecondsPerDay).year
      ensures year >= 1970
    {
      var month, day;
      year, month, day := Date(now);
      DatePinned(EpochTime(now) / SecondsPerDay, Calendar.Date(year, month, day));
    }

    method Month(now: ULong) returns (month: nat)
      ensures month == DateOf(EpochTime(now) / SecondsPerDay).month
      ensures 1 <= month <= 12
    {
      var year, day;
      year, month, day := Date(now);
      DatePinned(EpochTime(now) / SecondsPerDay, Calendar.Date(year, month, day));
    }

    method Day(now: ULong) returns (day: nat)
      ensures day == DateOf(EpochTime(now) / SecondsPerDay).day
      ensures 1 <= day <= 31
    {
      var year, month;
      year, month, day := Date(now);
      DatePinned(EpochTime(now) / SecondsPerDay, Calendar.Date(year, month, day));
    }

    /** `formattedTime(secs = 0)`: `HH:MM:SS` of the argument, or of the
        current time when the argument is 0. */
    function FormattedTime(now: ULong, secs: ULong := 0): (s: string)
      reads this
      ensures |s| == 8 && s[2] == ':' && s[5] == ':'
      ensures AllDigits(s[0..2]) && AllDigits(s[3..5]) && AllDigits(s[6..8])
      ensures ParseDecimal(s[0..2]) < 24 && ParseDecimal(s[3..5]) < 60 && ParseDecimal(s[6..8]) < 60
      ensures secs != 0 ==>
        ParseDecimal(s[0..2]) * 3600 + ParseDecimal(s[3..5]) * 60 + ParseDecimal(s[6..8]) == secs % 86400
      ensures secs == 0 ==>
        ParseDecimal(s[0..2]) * 3600 + ParseDecimal(s[3..5]) * 60 + ParseDecimal(s[6..8]) == EpochTime(now) % 86400
    {
      ClockTextFormat(Instant(now, secs));
      ClockText(Instant(now, secs))
    }

    /** `formattedDate(secs = 0)`: `YYYY-MM-DDTHH:MM:SSZ` of the argument, or
        of the current time (offset included) when the argument is 0. */
    method FormattedDate(now: ULong, secs: ULong := 0) returns (s: string)
      ensures var t := if secs == 0 then EpochTime(now) else secs;
        var d := DateOf(t / SecondsPerDay);
        && |s| == 20 && s[4] == '-' && s[7] == '-' && s[10] == 'T' && s[19] == 'Z'
        && AllDigits(s[0..4]) && AllDigits(s[5..7]) && AllDigits(s[8..10])
        && ParseDecimal(s[0..4]) == d.year
        && ParseDecimal(s[5..7]) == d.month
        && ParseDecimal(s[8..10]) == d.day
        && s[11..19] == FormattedTime(now, secs)
    {
      var year, month, day := Date(now, secs);
      var t := Instant(now, secs);
      DatePinned(t / SecondsPerDay, Calendar.Date(year, month, day));
      s := DateText(Calendar.Date(year, month, day), t);
      DateTextFormat(Calendar.Date(year, month, day), t);
    }
  }

  /** A date with the given day number is the one DateOf names. */
  lemma {:induction false} DatePinned(days: nat, d: Date)
    requires IsDateOf(days, d)
    ensures d == DateOf(days)
  {
    DateOfCorrect(days);
    DateOfUnique(days, d, DateOf(days));
  }

  /** A server that answers valid packet p on the first poll synchronises
      the client with p. */
  lemma {:induction false} FirstPollSynchronises(p: Packet)
    requires IsValid(p)
    ensures Synchronise([Datagram(p)]) == Outcome(true, 1, p)
  {
    assert p[..PacketSize] == p;
    FullDatagramAccepts(RequestPacket(), p);
  }

  /** A first `update()` against a server whose reply carries the Unix
      time 1700000000 and arrives on the first poll (`EncodeEpoch` of any
      valid header is such a reply, by `EncodeKeepsValidity` and
      `DecodeEncode`), then a second one 5 s
      later that is not due: the clock reads the server's time and then five
      seconds more; `setEpochTime` then moves it without touching the
      synchronisation instant. */
  method ExchangeScenario(reply: Packet)
    requires IsValid(reply) && DecodeEpoch(reply) == 1700000000
  {
    var client := new NtpClient();
    FirstPollSynchronises(reply);
    var ok := client.Update(1000, [Datagram(reply)], 1020);
    assert ok && client.lastUpdate == 1000 && client.currentEpoc == 1700000000;
    assert client.timeOffset == 0 && client.updateInterval == 60000;
    assert Elapsed(1000, 1000) == 0;
    assert client.EpochTime(1000) == 1700000000;
    assert Elapsed(1000, 6000) == 5000;
    assert !client.Due(6000);
    ok := client.Update(6000, [], 6000);
    assert ok && client.timeOffset == 0 && client.lastUpdate == 1000 && client.currentEpoc == 1700000000;
    assert client.EpochTime(6000) == 1700000005;
    client.SetEpochTime(1800000000);
    assert client.timeOffset == 0 && client.lastUpdate == 1000 && client.currentEpoc == 1800000000;
    assert client.EpochTime(6000) == 1800000005;
  }
}
