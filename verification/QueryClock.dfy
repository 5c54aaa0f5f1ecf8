/**
 The read phase of one query: reads begin as long as the deadline has not
 passed, each may block for its own timeout.
 */
module QueryClock {
  function Seconds(s: seq<real>): real {
    if s == [] then 0.0 else Seconds(s[..|s| - 1]) + s[|s| - 1]
  }

  lemma SecondsNext(s: seq<real>, i: nat)
    requires i < |s|
    ensures Seconds(s[..i + 1]) == Seconds(s[..i]) + s[i]
  {
    assert s[..i + 1][..i] == s[..i];
  }

  /** The number of reads that begin before the deadline. */
  function Begun(s: seq<real>, timeout: real, from: nat): (k: nat)
    requires from <= |s|
    ensures from <= k <= |s|
    ensures forall j :: from <= j < k ==> Seconds(s[..j]) < timeout
    ensures k < |s| ==> Seconds(s[..k]) >= timeout
    decreases |s| - from
  {
    if from == |s| || Seconds(s[..from]) >= timeout then from else Begun(s, timeout, from + 1)
  }

  predicate Bounded(s: seq<real>, timeout: real) {
    forall i :: 0 <= i < |s| ==> 0.0 <= s[i] <= timeout
  }

  /** The last read may begin just before the deadline, so the phase can come
      close to two timeouts, and never takes that long. */
  lemma ReadPhase(s: seq<real>, timeout: real, k: nat)
    requires Bounded(s, timeout) && k <= Begun(s, timeout, 0) && timeout >= 0.0
    ensures Seconds(s[..k]) <= 2.0 * timeout
    ensures timeout > 0.0 ==> Seconds(s[..k]) < 2.0 * timeout
  {
    if k > 0 { SecondsNext(s, k - 1); }
  }

  /** A noise byte that arrives a moment before the deadline, then nothing. */
  lemma LateRead(timeout: real, early: real)
    requires 0.0 < early <= timeout
    ensures var s := [timeout - early, timeout];
            Begun(s, timeout, 0) == 2 && Seconds(s[..2]) == 2.0 * timeout - early
  {
    var s := [timeout - early, timeout];
    assert s[..0] == [] && s[..2] == s;
    SecondsNext(s, 0);
    SecondsNext(s, 1);
  }

  /** A silent port takes one timeout. */
  lemma SilentRead(timeout: real, rest: seq<real>)
    requires timeout > 0.0
    ensures var s := [timeout] + rest;
            Begun(s, timeout, 0) == 1 && Seconds(s[..1]) == timeout
  {
    var s := [timeout] + rest;
    assert s[..0] == [] && Seconds(s[..0]) == 0.0;
    SecondsNext(s, 0);
  }
}
