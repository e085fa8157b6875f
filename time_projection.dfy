/** Extrapolating the synchronised epoch with the millisecond counter, and
    splitting an epoch second count into the time of day. */
module TimeProjection {
  import opened Arduino

  /** `millis() - m_lastUpdate`: milliseconds since the last synchronisation,
      correct across one wrap of the counter. */
  function Elapsed(lastUpdate: ULong, now: ULong): ULong
  {
    Sub(now, lastUpdate)
  }

  /** `epochTime()`: offset + synchronised epoch + whole seconds elapsed, all
      in `unsigned long` arithmetic (the `int` offset is converted first). */
  function ProjectedEpoch(offset: Int32, epoch: ULong, lastUpdate: ULong, now: ULong): (r: ULong)
    ensures r == Wrap(offset + epoch + Elapsed(lastUpdate, now) / 1000)
  {
    ToULongWrap(offset, epoch + Elapsed(lastUpdate, now) / 1000);
    Wrap(ToULong(offset) + epoch + Elapsed(lastUpdate, now) / 1000)
  }

  /** The elapsed time is the true duration d of any interval shorter than
      the counter's period, whether or not the counter wrapped within it. */
  lemma {:induction false} ElapsedAcrossWrap(lastUpdate: ULong, d: nat)
    requires d < TwoTo32
    ensures Elapsed(lastUpdate, Wrap(lastUpdate + d)) == d
  {
    if lastUpdate + d >= TwoTo32 {
      assert Wrap(lastUpdate + d) == lastUpdate + d - TwoTo32;
    }
  }

  /** d milliseconds after the last synchronisation the projected epoch is
      the offset-adjusted epoch plus d / 1000 seconds, modulo 2^32. */
  lemma {:induction false} ProjectionAfter(offset: Int32, epoch: ULong, lastUpdate: ULong, d: nat)
    requires d < TwoTo32
    ensures ProjectedEpoch(offset, epoch, lastUpdate, Wrap(lastUpdate + d))
         == Wrap(offset + epoch + d / 1000)
  {
    ElapsedAcrossWrap(lastUpdate, d);
  }

  /** Between two synchronisations the projection advances by exactly the
      whole seconds elapsed (modulo 2^32), across a counter wrap as well. */
  lemma {:induction false} ProjectionAdvances(offset: Int32, epoch: ULong, lastUpdate: ULong, d1: nat, d2: nat)
    requires d1 <= d2 < TwoTo32
    ensures Sub(ProjectedEpoch(offset, epoch, lastUpdate, Wrap(lastUpdate + d2)),
                ProjectedEpoch(offset, epoch, lastUpdate, Wrap(lastUpdate + d1)))
         == d2 / 1000 - d1 / 1000
  {
    ProjectionAfter(offset, epoch, lastUpdate, d1);
    ProjectionAfter(offset, epoch, lastUpdate, d2);
    WrapShift(offset + epoch + d1 / 1000, offset + epoch + d2 / 1000,
              ProjectedEpoch(offset, epoch, lastUpdate, Wrap(lastUpdate + d1)),
              ProjectedEpoch(offset, epoch, lastUpdate, Wrap(lastUpdate + d2)));
  }

  lemma {:induction false} WrapShift(x1: int, x2: int, e1: ULong, e2: ULong)
    requires 0 <= x2 - x1 < TwoTo32
    requires e1 == Wrap(x1) && e2 == Wrap(x2)
    ensures Sub(e2, e1) == x2 - x1
  {
    var q := x1 / TwoTo32;
    assert e1 == x1 - q * TwoTo32;
    if e1 + (x2 - x1) < TwoTo32 {
      assert e2 == x2 - q * TwoTo32;
    } else {
      assert e2 == x2 - (q + 1) * TwoTo32;
    }
  }

  /** `hours()`: (t % 86400) / 3600. */
  function Hours(t: ULong): (h: nat)
    ensures h < 24
    ensures h * 3600 <= t % 86400 < (h + 1) * 3600
  {
    (t % 86400) / 3600
  }

  /** `minutes()`: (t % 3600) / 60. */
  function Minutes(t: ULong): (m: nat)
    ensures m < 60
    ensures m * 60 <= t % 3600 < (m + 1) * 60
  {
    (t % 3600) / 60
  }

  /** `seconds()`: t % 60. */
  function Seconds(t: ULong): (s: nat)
    ensures s < 60
    ensures (t - s) % 60 == 0
  {
    t % 60
  }

  lemma {:induction false} Mod3600(t: int, k: int, b: int)
    requires t == 3600 * k + b && 0 <= b < 3600
    ensures t % 3600 == b
  {
  }

  lemma {:induction false} Mod60(t: int, k: int, c: int)
    requires t == 60 * k + c && 0 <= c < 60
    ensures t % 60 == c
  {
  }

  /** Hours, minutes and seconds recompose the second of the day. */
  lemma {:induction false} TimeOfDay(t: ULong)
    ensures Hours(t) * 3600 + Minutes(t) * 60 + Seconds(t) == t % 86400
  {
    var q := t / 86400;
    var a := t % 86400;
    var h := a / 3600;
    var b := a % 3600;
    Mod3600(t, 24 * q + h, b);
    var m := b / 60;
    var c := b % 60;
    Mod60(t, 60 * (24 * q + h) + m, c);
  }
}
