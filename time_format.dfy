/** The text forms `formattedTime` (`HH:MM:SS`) and `formattedDate`
    (`YYYY-MM-DDTHH:MM:SSZ`, the profile of ISO 8601 in section 5.6 of
    RFC 3339), built from Arduino `String` decimal conversions. */
module TimeFormat {
  import opened Arduino
  import opened Calendar
  import opened TimeProjection

  function DigitChar(d: nat): (c: char)
    requires d < 10
    ensures '0' <= c <= '9'
  {
    "0123456789"[d]
  }

  /** `String(n)` of an unsigned number: its decimal digits, no leading zero. */
  function Decimal(n: nat): (s: string)
    ensures 1 <= |s|
    decreases n
  {
    if n < 10 then [DigitChar(n)] else Decimal(n / 10) + [DigitChar(n % 10)]
  }

  /** `n < 10 ? "0" + String(n) : String(n)`. */
  function TwoDigits(n: nat): string
  {
    if n < 10 then "0" + Decimal(n) else Decimal(n)
  }

  /** `formattedTime(t)` for a non-zero or already resolved t. */
  function ClockText(t: ULong): string
  {
    TwoDigits(Hours(t)) + ":" + TwoDigits(Minutes(t)) + ":" + TwoDigits(Seconds(t))
  }

  /** `formattedDate`: `String(year) + "-" + MM + "-" + DD + "T" + formattedTime + "Z"`. */
  function DateText(d: Date, t: ULong): string
  {
    Decimal(d.year) + "-" + TwoDigits(d.month) + "-" + TwoDigits(d.day) + "T" + ClockText(t) + "Z"
  }

  // A reader for decimal digit strings, the inverse the renderings are checked against.

  predicate AllDigits(s: string)
  {
    forall i :: 0 <= i < |s| ==> '0' <= s[i] <= '9'
  }

  function DigitValue(c: char): nat
  {
    if '0' <= c <= '9' then c as nat - '0' as nat else 0
  }

  function ParseDecimal(s: string): nat
  {
    if s == [] then 0 else 10 * ParseDecimal(s[..|s| - 1]) + DigitValue(s[|s| - 1])
  }

  lemma {:induction false} DigitCharValue(d: nat)
    requires d < 10
    ensures DigitValue(DigitChar(d)) == d
  {
    assert "0123456789"[d] as nat == '0' as nat + d;
  }

  /** `String(n)` is all digits, reads back as n, and has no leading zero. */
  lemma {:induction false} DecimalRoundTrip(n: nat)
    ensures AllDigits(Decimal(n))
    ensures ParseDecimal(Decimal(n)) == n
    ensures |Decimal(n)| > 1 ==> Decimal(n)[0] != '0'
    decreases n
  {
    var s := Decimal(n);
    if n < 10 {
      DigitCharValue(n);
      assert s[..0] == [];
    } else {
      DecimalRoundTrip(n / 10);
      DigitCharValue(n % 10);
      assert s[..|s| - 1] == Decimal(n / 10);
      assert s[0] == Decimal(n / 10)[0];
    }
  }

  /** Numbers from 1000 to 9999 print as four digits. */
  lemma {:induction false} DecimalFourDigits(n: nat)
    requires 1000 <= n < 10000
    ensures |Decimal(n)| == 4
  {
    assert |Decimal(n / 1000)| == 1;
    assert |Decimal(n / 100)| == 2;
    assert |Decimal(n / 10)| == 3;
  }

  /** Below 100, TwoDigits is two digits that read back as the number. */
  lemma {:induction false} TwoDigitsRoundTrip(n: nat)
    requires n < 100
    ensures |TwoDigits(n)| == 2 && AllDigits(TwoDigits(n))
    ensures ParseDecimal(TwoDigits(n)) == n
  {
    DecimalRoundTrip(n);
    if n < 10 {
      var s := TwoDigits(n);
      assert s[..1] == "0";
      assert ParseDecimal(s[..1]) == 0 by {
        assert s[..1][..0] == [];
      }
    } else {
      assert |Decimal(n / 10)| == 1;
    }
  }

  /** Where the fields sit in `HH:MM:SS`. */
  lemma {:induction false} ClockLayout(hh: string, mm: string, ss: string)
    requires |hh| == 2 && |mm| == 2 && |ss| == 2
    ensures var s := hh + ":" + mm + ":" + ss;
      && |s| == 8 && s[2] == ':' && s[5] == ':'
      && s[0..2] == hh && s[3..5] == mm && s[6..8] == ss
  {
  }

  /** `formattedTime` is `HH:MM:SS`: eight characters, two-digit fields
      below 24, 60 and 60 that recompose the second of the day. */
  lemma {:induction false} ClockTextFormat(t: ULong)
    ensures var s := ClockText(t);
      && |s| == 8 && s[2] == ':' && s[5] == ':'
      && AllDigits(s[0..2]) && AllDigits(s[3..5]) && AllDigits(s[6..8])
      && ParseDecimal(s[0..2]) == Hours(t) < 24
      && ParseDecimal(s[3..5]) == Minutes(t) < 60
      && ParseDecimal(s[6..8]) == Seconds(t) < 60
      && ParseDecimal(s[0..2]) * 3600 + ParseDecimal(s[3..5]) * 60 + ParseDecimal(s[6..8]) == t % 86400
  {
    TwoDigitsRoundTrip(Hours(t));
    TwoDigitsRoundTrip(Minutes(t));
    TwoDigitsRoundTrip(Seconds(t));
    ClockLayout(TwoDigits(Hours(t)), TwoDigits(Minutes(t)), TwoDigits(Seconds(t)));
    TimeOfDay(t);
  }

  /** Where the fields sit in `YYYY-MM-DDTHH:MM:SSZ`. */
  lemma {:induction false} DateLayout(year: string, month: string, day: string, time: string)
    requires |year| == 4 && |month| == 2 && |day| == 2 && |time| == 8
    ensures var s := year + "-" + month + "-" + day + "T" + time + "Z";
      && |s| == 20 && s[4] == '-' && s[7] == '-' && s[10] == 'T' && s[19] == 'Z'
      && s[0..4] == year && s[5..7] == month && s[8..10] == day && s[11..19] == time
  {
  }

  /** `formattedDate` of a date in 1970..2106 is `YYYY-MM-DDTHH:MM:SSZ`:
      twenty characters whose fields read back as year, month and day, with
      `formattedTime` in the middle. */
  lemma {:induction false} DateTextFormat(d: Date, t: ULong)
    requires ValidDate(d) && d.year <= 2106
    ensures var s := DateText(d, t);
      && |s| == 20 && s[4] == '-' && s[7] == '-' && s[10] == 'T' && s[19] == 'Z'
      && AllDigits(s[0..4]) && AllDigits(s[5..7]) && AllDigits(s[8..10])
      && ParseDecimal(s[0..4]) == d.year
      && ParseDecimal(s[5..7]) == d.month
      && ParseDecimal(s[8..10]) == d.day
      && s[11..19] == ClockText(t)
  {
    DecimalFourDigits(d.year);
    DecimalRoundTrip(d.year);
    TwoDigitsRoundTrip(d.month);
    TwoDigitsRoundTrip(d.day);
    ClockTextFormat(t);
    DateLayout(Decimal(d.year), TwoDigits(d.month), TwoDigits(d.day), ClockText(t));
  }
}
