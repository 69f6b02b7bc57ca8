// Relative times of seconds and microseconds.
module RelTime {

  const US_PER_S: int := 1_000_000

  datatype RelTime = RelTime(sec: int, usec: int)

  predicate Normal(t: RelTime) {
    0 <= t.usec < US_PER_S
  }

  function Micros(t: RelTime): int {
    t.sec * US_PER_S + t.usec
  }

  // os_reltime_before.
  predicate Before(a: RelTime, b: RelTime) {
    a.sec < b.sec || (a.sec == b.sec && a.usec < b.usec)
  }

  // On normalised times the order is that of the microseconds they stand for.
  lemma BeforeIsEarlier(a: RelTime, b: RelTime)
    requires Normal(a) && Normal(b)
    ensures Before(a, b) <==> Micros(a) < Micros(b)
  {
  }

  // os_reltime_sub, writing res in place: exact for all times, and normalised if and only if the
  // microseconds are less than a second apart.
  method Sub(a: RelTime, b: RelTime) returns (res: RelTime)
    ensures Micros(res) == Micros(a) - Micros(b)
    ensures Normal(res) <==> -US_PER_S <= a.usec - b.usec < US_PER_S
  {
    res := RelTime(a.sec - b.sec, a.usec - b.usec);
    if res.usec < 0 {
      res := res.(sec := res.sec - 1);
      res := res.(usec := res.usec + US_PER_S);
    }
  }

  // os_reltime_expired: the age exceeds the timeout, to the microsecond.
  method Expired(now: RelTime, ts: RelTime, timeout: int) returns (expired: bool)
    requires Normal(now) && Normal(ts)
    ensures expired <==> Micros(now) - Micros(ts) > timeout * US_PER_S
  {
    var age := Sub(now, ts);
    expired := age.sec > timeout || (age.sec == timeout && age.usec > 0);
  }
}
