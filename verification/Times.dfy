/** Windows file times and Unix times, with the wrap-around of 64-bit arithmetic written out. */
module Times {
  import opened Bits
  import opened Wire

  /** Seconds from 1601 to 1970. */
  const EPOCH_DIFFERENCE := 11644473600
  const TICKS := 10000000

  /** 369 years, 89 of them leap years, of 86400 seconds a day; ten million ticks of 100 ns a second. */
  lemma EpochInDays()
    ensures EPOCH_DIFFERENCE == (369 * 365 + 89) * 86400 && TICKS * 100 == 1000000000
  {
  }

  /** The last Unix time whose file time fits 64 bits. */
  const LAST_UNIX := 1833029933770

  datatype Filetime = Filetime(low: u32, high: u32) {
    function Ticks(): u64 {
      high * TWO32 + low
    }
  }

  function FromUnix(unixTime: u64): Filetime {
    var sinceWindowsEpoch := (unixTime + EPOCH_DIFFERENCE) % TWO64;
    var ticks := (TICKS * sinceWindowsEpoch) % TWO64;
    Filetime(ticks % TWO32, (ticks / TWO32) % TWO32)
  }

  /** The subtraction mixes a signed and an unsigned operand, so it wraps before it is read back
      as signed. */
  function ToUnix(t: Filetime): u64 {
    SwapHalves(t.high, t.low);
    var seconds := Or(t.high * TWO32, t.low) / TICKS;
    var wrapped := (seconds - EPOCH_DIFFERENCE) % TWO64;
    var signed := ToSigned(wrapped);
    if signed < 0 then 0 else signed
  }

  lemma SecondsBound(ticks: u64)
    ensures 0 <= ticks / TICKS <= LAST_UNIX + EPOCH_DIFFERENCE
  {
  }

  lemma WrappedDifference(seconds: int)
    requires 0 <= seconds <= LAST_UNIX + EPOCH_DIFFERENCE
    ensures (seconds - EPOCH_DIFFERENCE) % TWO64 ==
            if seconds < EPOCH_DIFFERENCE then seconds - EPOCH_DIFFERENCE + TWO64 else seconds - EPOCH_DIFFERENCE
  {
  }

  /** Despite the wrapping subtraction: the whole second, clamped at 1970. */
  lemma ToUnixIsClamped(t: Filetime)
    ensures ToUnix(t) == if t.Ticks() / TICKS < EPOCH_DIFFERENCE then 0 else t.Ticks() / TICKS - EPOCH_DIFFERENCE
  {
    SwapHalves(t.high, t.low);
    SecondsBound(t.Ticks());
    WrappedDifference(t.Ticks() / TICKS);
  }

  /** Unix to file time and back is the identity exactly up to the 64-bit overflow bound. */
  lemma UnixRoundTrip(u: u64)
    ensures ToUnix(FromUnix(u)) == u <==> u <= LAST_UNIX
  {
    var t := FromUnix(u);
    ToUnixIsClamped(t);
    SecondsBound(t.Ticks());
    if u <= LAST_UNIX {
      FromUnixTicks(u);
      var since := u + EPOCH_DIFFERENCE;
      assert (TICKS * since) / TICKS == since;
    }
  }

  lemma FromUnixTicks(u: u64)
    requires u <= LAST_UNIX
    ensures FromUnix(u).Ticks() == TICKS * (u + EPOCH_DIFFERENCE)
  {
    var since := u + EPOCH_DIFFERENCE;
    var ticks := TICKS * since;
    assert since % TWO64 == since && ticks % TWO64 == ticks;
    assert ticks / TWO32 < TWO32;
  }

  /** A file time from 1970 on comes back rounded down to its whole second. */
  lemma FiletimeRoundTrip(t: Filetime)
    requires t.Ticks() >= TICKS * EPOCH_DIFFERENCE
    ensures FromUnix(ToUnix(t)).Ticks() == t.Ticks() - t.Ticks() % TICKS
  {
    ToUnixIsClamped(t);
    var seconds := t.Ticks() / TICKS;
    assert ToUnix(t) == seconds - EPOCH_DIFFERENCE;
    SecondsBound(t.Ticks());
    FromUnixTicks(ToUnix(t));
  }

  // ----- setting a time -----

  datatype TimePtr = Null | Time(t: Filetime)

  /** A missing time and the zero time both mean: leave it alone. */
  function SignedTime(p: TimePtr): i64 {
    match p
    case Null => -1
    case Time(t) =>
      if t.high == 0 && t.low == 0 then -1
      else
        ToUnixIsClamped(t);
        ToUnix(t)
  }

  datatype Timespec = Omit | Seconds(s: i64)

  function TimespecFor(timestamp: i64): Timespec {
    if timestamp == -1 then Omit else Seconds(timestamp)
  }

  /** A time on its way to the device: signed, sent as unsigned, read back as signed. */
  function Sent(p: TimePtr): Timespec {
    TimespecFor(ToSigned(ToUnsigned(SignedTime(p))))
  }

  /** A file time rounded down to its second, and not before 1970. */
  function WholeSecond(t: Filetime): int {
    if t.Ticks() < TICKS * EPOCH_DIFFERENCE then TICKS * EPOCH_DIFFERENCE else t.Ticks() - t.Ticks() % TICKS
  }

  /** The device leaves a time unchanged if and only if it was null or zero, and otherwise sets the
      whole second, clamped at 1970; reading it back then gives the original rounded down to a
      second, or 1970 for anything earlier. */
  lemma SetTimeMeaning(p: TimePtr)
    ensures Sent(p) == Omit <==> p == Null || p.t.Ticks() == 0
    ensures Sent(p) != Omit ==>
              && p.Time? && Sent(p).s >= 0
              && Sent(p).s == (if p.t.Ticks() < TICKS * EPOCH_DIFFERENCE then 0 else p.t.Ticks() / TICKS - EPOCH_DIFFERENCE)
              && FromUnix(Sent(p).s).Ticks() == WholeSecond(p.t)
  {
    SignRoundTrip(SignedTime(p));
    FromUnixTicks(0);
    if p.Time? {
      assert p.t.Ticks() == 0 <==> p.t.high == 0 && p.t.low == 0;
      ToUnixIsClamped(p.t);
      hide FromUnix, ToUnix, Filetime.Ticks, ToSigned, ToUnsigned;
      if p.t.Ticks() >= TICKS * EPOCH_DIFFERENCE {
        FiletimeRoundTrip(p.t);
      }
    }
  }
}
