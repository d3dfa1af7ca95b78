/** The scroll throttle of animations.js: a scroll event runs the
    scroll-dependent update only when more than 100 ms have passed since
    the last event that did, and only such an event moves the timestamp.

    The update is `updateParallax` when a global function of that name
    exists; in animations.js that function is local to initParallax, so
    the check at the global listener finds none. The model keeps it as a
    flag. */
module ScrollThrottle {

  const Throttle := 100

  /** An event at `now` passes the throttle. */
  predicate Admits(last: int, now: int) {
    now - last > Throttle
  }

  /** The timestamps, among the events at `nows`, that pass the throttle
      when the last accepted one was at `last`. */
  function Admitted(last: int, nows: seq<int>): (r: seq<int>)
    ensures |r| <= |nows|
    ensures forall k :: 0 <= k < |r| ==> r[k] in nows
    ensures |r| > 0 ==> r[0] - last > Throttle
    ensures forall k :: 0 <= k < |r| - 1 ==> r[k + 1] - r[k] > Throttle
    decreases |nows|
  {
    if nows == [] then []
    else if Admits(last, nows[0]) then [nows[0]] + Admitted(nows[0], nows[1..])
    else Admitted(last, nows[1..])
  }

  /** `lastScrollTime` after the events at `nows`. */
  function LastAfter(last: int, nows: seq<int>): (r: int)
    ensures r >= last
    ensures var a := Admitted(last, nows); r == if a == [] then last else a[|a| - 1]
    decreases |nows|
  {
    if nows == [] then last
    else if Admits(last, nows[0]) then LastAfter(nows[0], nows[1..])
    else LastAfter(last, nows[1..])
  }

  /** `lastScrollTime` after one more event at `n` follows `OnScroll`'s
      rule: the event moves it to `n` iff it is more than 100 ms after the
      timestamp the earlier events left. */
  lemma {:induction false} LastAfterOneMore(last: int, nows: seq<int>, n: int)
    ensures LastAfter(last, nows + [n]) ==
            if Admits(LastAfter(last, nows), n) then n else LastAfter(last, nows)
    decreases |nows|
  {
    if nows == [] {
      assert [n][1..] == [];
    } else {
      assert (nows + [n])[1..] == nows[1..] + [n];
      if Admits(last, nows[0]) {
        LastAfterOneMore(nows[0], nows[1..], n);
      } else {
        LastAfterOneMore(last, nows[1..], n);
      }
    }
  }

  /** One more event at `n` is admitted, after the earlier admitted ones,
      iff it is more than 100 ms after the timestamp the earlier events
      left. With `Admitted(last, []) == []` this fixes the admitted events
      of every input, in input order. */
  lemma {:induction false} AdmittedOneMore(last: int, nows: seq<int>, n: int)
    ensures Admitted(last, nows + [n]) ==
            Admitted(last, nows) + (if Admits(LastAfter(last, nows), n) then [n] else [])
    decreases |nows|
  {
    if nows == [] {
      assert [n][1..] == [];
    } else {
      var rest := nows[1..];
      var more := nows + [n];
      assert more[0] == nows[0] && more[1..] == rest + [n];
      var tail := if Admits(LastAfter(last, nows), n) then [n] else [];
      if Admits(last, nows[0]) {
        assert Admitted(last, more) == [nows[0]] + Admitted(nows[0], rest + [n]);
        assert LastAfter(last, nows) == LastAfter(nows[0], rest);
        AdmittedOneMore(nows[0], rest, n);
        assert [nows[0]] + (Admitted(nows[0], rest) + tail) == ([nows[0]] + Admitted(nows[0], rest)) + tail;
      } else {
        assert Admitted(last, more) == Admitted(last, rest + [n]);
        assert LastAfter(last, nows) == LastAfter(last, rest);
        AdmittedOneMore(last, rest, n);
      }
    }
  }

  /** The global throttle state. */
  class Throttler {
    var lastScrollTime: int
    const hasUpdate: bool

    constructor (hasUpdate: bool)
      ensures lastScrollTime == 0 && this.hasUpdate == hasUpdate
    {
      lastScrollTime := 0;
      this.hasUpdate := hasUpdate;
    }

    /** One scroll event at time `now`; returns whether the update ran. */
    method OnScroll(now: int) returns (updated: bool)
      modifies this
      ensures lastScrollTime == if Admits(old(lastScrollTime), now) then now else old(lastScrollTime)
      ensures updated <==> Admits(old(lastScrollTime), now) && hasUpdate
    {
      updated := false;
      if now - lastScrollTime > Throttle {
        lastScrollTime := now;
        if hasUpdate {
          updated := true;
        }
      }
    }
  }
}
