/** Relative time stamps: seconds and microseconds, as `struct os_reltime` keeps them. */
module RelTimes {

  const MILLION := 1000000

  datatype RelTime = RelTime(sec: int, usec: int) {
    /** The time stamp as one number of microseconds. */
    function Us(): int {
      sec * MILLION + usec
    }

    predicate Normal() {
      0 <= usec < MILLION
    }
  }

  /** A clock reading: the microsecond part never carries a whole second. */
  type Time = t: RelTime | t.Normal() witness RelTime(0, 0)

  predicate Before(a: Time, b: Time) {
    a.sec < b.sec || (a.sec == b.sec && a.usec < b.usec)
  }

  /** Borrow from the seconds when the microseconds run under. */
  function Sub(a: Time, b: Time): (r: Time)
    ensures r.Us() == a.Us() - b.Us()
  {
    if a.usec < b.usec
    then RelTime(a.sec - b.sec - 1, a.usec - b.usec + MILLION)
    else RelTime(a.sec - b.sec, a.usec - b.usec)
  }

  predicate Expired(now: Time, ts: Time, timeout: int) {
    var age := Sub(now, ts);
    age.sec > timeout || (age.sec == timeout && age.usec > 0)
  }

  /** The normalised time stamp of a given number of microseconds. */
  function FromUs(us: int): (t: Time)
    ensures t.Us() == us
  {
    RelTime(us / MILLION, us % MILLION)
  }

  /** Normalised time stamps are determined by their microseconds. */
  lemma UsInjective(a: Time, b: Time)
    ensures a == b <==> a.Us() == b.Us()
  {
    if a.Us() == b.Us() {
      assert (a.sec - b.sec) * MILLION == b.usec - a.usec;
      assert -MILLION < b.usec - a.usec < MILLION;
    }
  }

  function UpdateTime(fetch: Time, ageMs: nat): Time {
    FromUs(fetch.Us() - 1000 * ageMs)
  }

  /** The comparisons of time stamps are the comparisons of their microseconds. */
  lemma BeforeIsLess(a: Time, b: Time)
    ensures Before(a, b) <==> a.Us() < b.Us()
  {
    if a.sec < b.sec {
      assert (b.sec - a.sec) * MILLION >= MILLION;
    } else if b.sec < a.sec {
      assert (a.sec - b.sec) * MILLION >= MILLION;
    }
  }

  lemma ExpiredIsMore(now: Time, ts: Time, timeout: int)
    ensures Expired(now, ts, timeout) <==> now.Us() - ts.Us() > timeout * MILLION
  {
    var age := Sub(now, ts);
    BeforeIsLess(RelTime(timeout, 0), age);
  }

  /** When a scan result was received: `ageMs` milliseconds before it was fetched. */
  method CalculateUpdateTime(fetch: Time, ageMs: nat) returns (update: Time)
    ensures update.Us() == fetch.Us() - 1000 * ageMs
    ensures update == UpdateTime(fetch, ageMs)
  {
    var sec := fetch.sec;
    var usec := fetch.usec;
    sec := sec - ageMs / 1000;
    var part := ageMs % 1000 * 1000;
    if usec < part {
      sec := sec - 1;
      usec := usec + MILLION;
    }
    usec := usec - part;
    update := RelTime(sec, usec);
    assert ageMs == ageMs / 1000 * 1000 + ageMs % 1000;
    UsInjective(update, UpdateTime(fetch, ageMs));
  }
}
