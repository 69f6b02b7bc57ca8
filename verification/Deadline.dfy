// The absolute deadline of a timed wait.
module Deadline {

  const NS_PER_S: int := 1_000_000_000

  // The quotient and remainder of C, which truncate toward zero.
  function Quot(a: int, b: int): int
    requires b > 0
  {
    if a >= 0 then a / b else -((-a) / b)
  }

  function Rem(a: int, b: int): int
    requires b > 0
  {
    a - Quot(a, b) * b
  }

  // setTimespecRelative, for the clock reading sec, usec: the deadline is exactly msec later, and
  // it is normalised if and only if the remainder does not pull the microseconds below zero.
  method SetTimespecRelative(sec: int, usec: int, msec: int) returns (tvSec: int, tvNsec: int)
    requires 0 <= usec < 1_000_000
    ensures tvSec * NS_PER_S + tvNsec == sec * NS_PER_S + usec * 1000 + msec * 1_000_000
    ensures 0 <= tvNsec < NS_PER_S <==> usec + Rem(msec, 1000) * 1000 >= 0
    ensures msec >= 0 ==> 0 <= tvNsec < NS_PER_S
  {
    tvSec := sec + Quot(msec, 1000);
    tvNsec := (usec + Rem(msec, 1000) * 1000) * 1000;
    assert -1000 < Rem(msec, 1000) < 1000;
    if tvNsec >= NS_PER_S {
      tvSec := tvSec + 1;
      tvNsec := tvNsec - NS_PER_S;
    }
  }
}
