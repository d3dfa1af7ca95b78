/** The typewriter effect of animations.js (initTextAnimations, second
    half): an element's text is cleared and then retyped one character per
    tick; the tick after the last character removes the cursor border and
    schedules nothing more. */
module Typewriter {
  import opened Options

  /** The delay in milliseconds before the next tick. */
  const TickDelay: nat := 100

  /** The element's original text, the counter `i`, the text shown, the
      width in percent and whether the cursor border is still drawn. */
  datatype State = State(text: string, i: nat, content: string, width: real, border: bool)

  /** The state once the element has been cleared. */
  function Start(text: string): State {
    State(text, 0, "", 0.0, true)
  }

  predicate Valid(s: State) {
    s.i <= |s.text| && s.content == s.text[..s.i]
  }

  /** One call of `type()`: the next state and whether it schedules
      itself again. */
  function Step(s: State): (r: (State, bool))
    requires Valid(s)
    ensures Valid(r.0) && r.0.text == s.text
    ensures r.1 <==> s.i < |s.text|
    ensures r.1 ==> r.0.i == s.i + 1 && r.0.content == s.content + [s.text[s.i]] && r.0.border == s.border
    ensures r.1 ==> r.0.width == (r.0.i as real) / (|s.text| as real) * 100.0
    ensures !r.1 ==> r.0 == s.(border := false)
  {
    if s.i < |s.text| then
      assert s.text[..s.i + 1] == s.text[..s.i] + [s.text[s.i]];
      (s.(content := s.content + [s.text[s.i]],
          width := ((s.i + 1) as real) / (|s.text| as real) * 100.0,
          i := s.i + 1), true)
    else
      (s.(border := false), false)
  }

  /** The state after k ticks, the last tick scheduling none. */
  function Ticks(s: State, k: nat): (r: State)
    requires Valid(s) && k <= |s.text| - s.i + 1
    ensures Valid(r)
    decreases k
  {
    if k == 0 then s else Ticks(Step(s).0, k - 1)
  }

  /** The width shown once k characters are typed. */
  function WidthAfter(text: string, k: nat): real
    requires k <= |text|
  {
    if k == 0 then 0.0 else (k as real) / (|text| as real) * 100.0
  }

  /** After k <= |text| ticks the element shows the first k characters, the
      width is k / |text| of the full width, and the cursor border is still
      drawn. */
  lemma {:induction false} ShowsPrefix(text: string, k: nat)
    requires k <= |text|
    ensures Ticks(Start(text), k) == State(text, k, text[..k], WidthAfter(text, k), true)
  {
    if k > 0 {
      ShowsPrefix(text, k - 1);
      StepsCommute(Start(text), k - 1);
    }
  }

  /** The effect stops exactly at the tick that finds i == |text|: every
      earlier tick schedules another one, that tick schedules none, and the
      element then shows the whole text without the cursor border. */
  lemma StopsAtEnd(text: string, k: nat)
    requires k <= |text|
    ensures Step(Ticks(Start(text), k)).1 <==> k < |text|
    ensures Ticks(Start(text), |text| + 1) == State(text, |text|, text, WidthAfter(text, |text|), false)
  {
    ShowsPrefix(text, k);
    ShowsPrefix(text, |text|);
    StepsCommute(Start(text), |text|);
    assert text[..|text|] == text;
  }

  /** Taking k steps and then one more is the same as k + 1 steps. */
  lemma {:induction false} StepsCommute(s: State, k: nat)
    requires Valid(s) && k + 1 <= |s.text| - s.i + 1
    ensures Ticks(s, k + 1) == Step(Ticks(s, k)).0
    decreases k
  {
    if k > 0 {
      StepsCommute(Step(s).0, k - 1);
    }
  }

  /** The typing element. */
  class Typewriter {
    const text: string
    var i: nat
    var content: string
    var width: real
    var border: bool

    function Snapshot(): State
      reads this
    {
      State(text, i, content, width, border)
    }

    /** Reads the element's text and clears it. */
    constructor (text: string)
      ensures Snapshot() == Start(text)
    {
      this.text := text;
      i, content, width, border := 0, "", 0.0, true;
    }

    /** `type()`; returns the delay it schedules itself again with, if any. */
    method Type() returns (delay: Option<nat>)
      requires Valid(Snapshot())
      modifies this
      ensures Snapshot() == Step(old(Snapshot())).0
      ensures delay == if Step(old(Snapshot())).1 then Some(TickDelay) else None
    {
      if i < |text| {
        content := content + [text[i]];
        width := ((i + 1) as real) / (|text| as real) * 100.0;
        i := i + 1;
        delay := Some(TickDelay);
      } else {
        border := false;
        delay := None;
      }
    }
  }
}
