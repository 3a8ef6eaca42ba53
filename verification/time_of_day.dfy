/** The time-of-day fields the program takes from `gmtime` on the NTP epoch
    value, and their shift to the UTC+8 display zone. */
module TimeOfDay {

  const SecondsPerMinute: nat := 60
  const SecondsPerHour: nat := 3600
  const SecondsPerDay: nat := 86400

  /** The display zone's offset from UTC, in whole hours. */
  const UtcOffsetHours: nat := 8

  datatype Clock = Clock(hour: int, minute: int, second: int)

  predicate Valid(t: Clock) {
    && 0 <= t.hour < 24
    && 0 <= t.minute < 60
    && 0 <= t.second < 60
  }

  /** Seconds elapsed since midnight at the time `t` shows. */
  function SecondOfDay(t: Clock): int {
    t.hour * SecondsPerHour + t.minute * SecondsPerMinute + t.second
  }

  /** The `tm_hour`, `tm_min` and `tm_sec` fields `gmtime` yields for a
      non-negative epoch value: the clock reading of the UTC day. */
  function UtcClock(epoch: nat): (t: Clock)
    ensures Valid(t)
    ensures SecondOfDay(t) == epoch % SecondsPerDay
  {
    var t := Clock((epoch / 3600) % 24, (epoch / 60) % 60, epoch % 60);
    UtcClockIsSecondOfDay(epoch);
    t
  }

  /** The field arithmetic reads off the position within the day. */
  lemma UtcClockIsSecondOfDay(epoch: nat)
    ensures ((epoch / 3600) % 24) * 3600 + ((epoch / 60) % 60) * 60 + epoch % 60
            == epoch % 86400
  {
    var q := epoch / 86400;
    var d := epoch % 86400;
    var h := d / 3600;
    var m := (d % 3600) / 60;
    var s := d % 60;
    DivModUnique(d, 3600, h, d % 3600);
    DivModUnique(d % 3600, 60, m, (d % 3600) % 60);
    assert d == 3600 * h + 60 * m + (d % 3600) % 60;
    DivModUnique(epoch, 60, 1440 * q + 60 * h + m, (d % 3600) % 60);
    DivModUnique(epoch / 60, 60, 24 * q + h, m);
    DivModUnique(epoch, 3600, 24 * q + h, 60 * m + (d % 3600) % 60);
    DivModUnique(epoch / 3600, 24, q, h);
  }

  /** Quotient and remainder are the only pair that rebuilds the dividend. */
  lemma DivModUnique(n: int, k: int, q: int, r: int)
    requires 0 < k && 0 <= r < k && n == k * q + r
    ensures n / k == q && n % k == r
  {
    var q', r' := n / k, n % k;
    assert k * q + r == k * q' + r';
    if q > q' {
      MulAtLeast(k, q - q');
    } else if q < q' {
      MulAtLeast(k, q' - q);
    }
  }

  lemma MulAtLeast(k: nat, a: int)
    requires 1 <= a
    ensures k * a >= k
  {
  }

  /** The hour, minute and second the program sends: the UTC hour moved
      forward by `UtcOffsetHours` and wrapped at 24, the minute and second
      unchanged. */
  function LocalClock(epoch: nat): (t: Clock)
    ensures Valid(t)
    ensures SecondOfDay(t) == (epoch + UtcOffsetHours * SecondsPerHour) % SecondsPerDay
    ensures t.minute == UtcClock(epoch).minute && t.second == UtcClock(epoch).second
  {
    var u := UtcClock(epoch);
    var t := Clock((u.hour + UtcOffsetHours) % 24, u.minute, u.second);
    LocalIsShiftedUtc(epoch);
    t
  }

  /** Shifting the hour field is the same as reading `gmtime` eight hours later. */
  lemma LocalIsShiftedUtc(epoch: nat)
    ensures var u := UtcClock(epoch);
            var s := UtcClock(epoch + UtcOffsetHours * SecondsPerHour);
            s == Clock((u.hour + UtcOffsetHours) % 24, u.minute, u.second)
  {
    var e := epoch + 8 * 3600;
    DivModUnique(e, 60, epoch / 60 + 480, epoch % 60);
    DivModUnique(e, 3600, epoch / 3600 + 8, epoch % 3600);
    DivModUnique(e / 60, 60, (epoch / 60) / 60 + 8, (epoch / 60) % 60);
  }

  /** The shifted hour wraps past midnight exactly when the UTC hour is 16 or later. */
  lemma LocalHourWraps(epoch: nat)
    ensures UtcClock(epoch).hour >= 24 - UtcOffsetHours
            ==> LocalClock(epoch).hour == UtcClock(epoch).hour + UtcOffsetHours - 24
    ensures UtcClock(epoch).hour < 24 - UtcOffsetHours
            ==> LocalClock(epoch).hour == UtcClock(epoch).hour + UtcOffsetHours
  {
  }

  /** The `uint8_t` conversion: keep the low eight bits. */
  function Narrow(x: int): (b: int)
    ensures 0 <= b < 256
    ensures 0 <= x < 256 ==> b == x
  {
    x % 256
  }

  /** Every field of a valid clock survives the `uint8_t` conversion unchanged. */
  lemma NarrowKeepsClock(t: Clock)
    requires Valid(t)
    ensures Narrow(t.hour) == t.hour && Narrow(t.minute) == t.minute && Narrow(t.second) == t.second
  {
  }

  /** Epoch 1700000000 is 22:13:20 UTC and so 06:13:20 in the display zone. */
  lemma WorkedExample()
    ensures UtcClock(1700000000) == Clock(22, 13, 20)
    ensures LocalClock(1700000000) == Clock(6, 13, 20)
  {
  }
}
