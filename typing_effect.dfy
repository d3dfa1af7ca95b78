/** The hero "typing text" effect of main.js (initTypingEffect): a fixed list
    of phrases is typed one character per tick, held, erased one character per
    tick, and the effect moves on to the next phrase, forever. The tick rules
    are stated for any list of non-empty phrases; the page's list is `Texts`. */
module TypingEffect {

  /** The phrases, in the order they are shown. */
  const Texts: seq<string> := [
    "Full Stack Developer",
    "UI/UX Designer",
    "Web Developer",
    "Problem Solver",
    "Creative Thinker"
  ]

  /** Timer delays in milliseconds chosen after a tick. */
  const HoldDelay: nat := 2000
  const NextTextDelay: nat := 500
  const EraseDelay: nat := 50
  const TypeDelay: nat := 100

  /** The three closure variables that the ticks update. */
  datatype State = State(textIndex: int, charIndex: int, isDeleting: bool)

  const Start: State := State(0, 0, false)

  /** A list the effect can cycle through: at least one phrase, and no
      empty phrase. */
  predicate Phrases(texts: seq<string>) {
    |texts| > 0 && forall i :: 0 <= i < |texts| ==> texts[i] != []
  }

  /** The states the effect can be in before a tick: the phrase index is in
      range; while typing, the phrase is not yet complete; while erasing,
      at least one character is still shown. */
  predicate Valid(texts: seq<string>, s: State) {
    && 0 <= s.textIndex < |texts|
    && (if s.isDeleting then 1 <= s.charIndex <= |texts[s.textIndex]|
        else 0 <= s.charIndex < |texts[s.textIndex]|)
  }

  /** What one tick does: the text it displays, the next state and the delay
      before the next tick. */
  datatype Tick = Tick(shown: string, next: State, delay: nat)

  /** The closure variables after one call of `type()`. */
  function Next(texts: seq<string>, s: State): (r: State)
    requires Phrases(texts) && Valid(texts, s)
    ensures Valid(texts, r)
  {
    var charIndex := if s.isDeleting then s.charIndex - 1 else s.charIndex + 1;
    if !s.isDeleting && charIndex == |texts[s.textIndex]| then
      State(s.textIndex, charIndex, true)
    else if s.isDeleting && charIndex == 0 then
      State((s.textIndex + 1) % |texts|, charIndex, false)
    else
      State(s.textIndex, charIndex, s.isDeleting)
  }

  /** One call of `type()`, over the phrase list `texts`. */
  function Step(texts: seq<string>, s: State): (t: Tick)
    requires Phrases(texts) && Valid(texts, s)
    ensures t.next == Next(texts, s)
    // the display is always a prefix of the current phrase, and charIndex
    // records its length
    ensures t.shown <= texts[s.textIndex] && t.next.charIndex == |t.shown|
    // a typing tick grows the display by one, an erasing tick shrinks it by one
    ensures !s.isDeleting ==> |t.shown| == s.charIndex + 1
    ensures s.isDeleting ==> |t.shown| == s.charIndex - 1
    // the whole phrase shown: switch to erasing, same phrase
    ensures !s.isDeleting ==>
              t.next.textIndex == s.textIndex
              && (t.next.isDeleting <==> t.shown == texts[s.textIndex])
    // nothing left shown: switch to typing the next phrase, cyclically
    ensures s.isDeleting ==>
              && (t.next.isDeleting <==> t.shown != [])
              && t.next.textIndex == (if t.shown == [] then (s.textIndex + 1) % |texts| else s.textIndex)
    ensures t.delay == (if !s.isDeleting && t.next.isDeleting then HoldDelay
                        else if s.isDeleting && !t.next.isDeleting then NextTextDelay
                        else if t.next.isDeleting then EraseDelay
                        else TypeDelay)
  {
    var currentText := texts[s.textIndex];
    var shown := if s.isDeleting then currentText[..s.charIndex - 1] else currentText[..s.charIndex + 1];
    var charIndex := |shown|;
    if !s.isDeleting && charIndex == |currentText| then
      Tick(shown, Next(texts, s), HoldDelay)
    else if s.isDeleting && charIndex == 0 then
      Tick(shown, Next(texts, s), NextTextDelay)
    else
      Tick(shown, Next(texts, s), if s.isDeleting then EraseDelay else TypeDelay)
  }

  /** The state after n ticks. */
  function Run(texts: seq<string>, s: State, n: nat): (r: State)
    requires Phrases(texts) && Valid(texts, s)
    ensures Valid(texts, r)
    decreases n
  {
    if n == 0 then s else Run(texts, Next(texts, s), n - 1)
  }

  lemma {:induction false} RunAdd(texts: seq<string>, s: State, a: nat, b: nat)
    requires Phrases(texts) && Valid(texts, s)
    ensures Run(texts, s, a + b) == Run(texts, Run(texts, s, a), b)
    decreases a
  {
    if a > 0 {
      RunAdd(texts, Next(texts, s), a - 1, b);
    }
  }

  /** Typing from k shown characters reaches the whole phrase, now erasing,
      after |phrase| - k ticks. */
  lemma {:induction false} TypesOut(texts: seq<string>, t: int, k: int)
    requires Phrases(texts) && 0 <= t < |texts| && 0 <= k < |texts[t]|
    ensures Run(texts, State(t, k, false), |texts[t]| - k) == State(t, |texts[t]|, true)
    decreases |texts[t]| - k
  {
    var n := |texts[t]| - k;
    assert Run(texts, State(t, k, false), n) == Run(texts, Next(texts, State(t, k, false)), n - 1);
    if k + 1 < |texts[t]| {
      TypesOut(texts, t, k + 1);
    }
  }

  /** Erasing from k shown characters reaches the next phrase, typing, after
      k ticks. */
  lemma {:induction false} ErasesOut(texts: seq<string>, t: int, k: int)
    requires Phrases(texts) && 0 <= t < |texts| && 1 <= k <= |texts[t]|
    ensures Run(texts, State(t, k, true), k) == State((t + 1) % |texts|, 0, false)
    decreases k
  {
    assert Run(texts, State(t, k, true), k) == Run(texts, Next(texts, State(t, k, true)), k - 1);
    if k > 1 {
      ErasesOut(texts, t, k - 1);
    }
  }

  /** A whole phrase is typed and erased in 2 * |phrase| ticks, after which
      the effect starts on the next phrase. */
  lemma Cycle(texts: seq<string>, t: int)
    requires Phrases(texts) && 0 <= t < |texts|
    ensures Run(texts, State(t, 0, false), 2 * |texts[t]|) == State((t + 1) % |texts|, 0, false)
  {
    var n := |texts[t]|;
    RunAdd(texts, State(t, 0, false), n, n);
    TypesOut(texts, t, 0);
    ErasesOut(texts, t, n);
  }

  /** Ticks needed to type and erase m phrases, starting with phrase t. */
  function CycleTicks(texts: seq<string>, t: int, m: nat): nat
    requires Phrases(texts) && 0 <= t < |texts|
    decreases m
  {
    if m == 0 then 0 else 2 * |texts[t]| + CycleTicks(texts, (t + 1) % |texts|, m - 1)
  }

  /** After typing and erasing m phrases from phrase t, the effect starts
      on phrase t + m, modulo the number of phrases. */
  lemma {:induction false} Cycles(texts: seq<string>, t: int, m: nat)
    requires Phrases(texts) && 0 <= t < |texts|
    ensures Run(texts, State(t, 0, false), CycleTicks(texts, t, m)) == State((t + m) % |texts|, 0, false)
    decreases m
  {
    if m == 0 {
      ModUnique(t, |texts|, 0, t);
    } else {
      var t' := (t + 1) % |texts|;
      var s := State(t, 0, false);
      var rest := CycleTicks(texts, t', m - 1);
      assert CycleTicks(texts, t, m) == 2 * |texts[t]| + rest;
      RunAdd(texts, s, 2 * |texts[t]|, rest);
      Cycle(texts, t);
      Cycles(texts, t', m - 1);
      NextIndexShift(|texts|, t, m);
    }
  }

  /** The phrase index after m more phrases, starting from the one after t,
      is the index m phrases after t. */
  lemma NextIndexShift(n: int, t: int, m: nat)
    requires 0 <= t < n && m > 0
    ensures ((t + 1) % n + (m - 1)) % n == (t + m) % n
  {
    if t + 1 == n {
      ModUnique(t + 1, n, 1, 0);
      ModUnique(t + m, n, (m - 1) / n + 1, (m - 1) % n);
    } else {
      ModUnique(t + 1, n, 0, t + 1);
    }
  }

  /** Euclidean division is unique: a remainder in [0, n) is the remainder. */
  lemma ModUnique(a: int, n: int, q: int, r: int)
    requires n > 0 && 0 <= r < n && a == q * n + r
    ensures a % n == r
  {
    var q', r' := a / n, a % n;
    assert a == q' * n + r';
    var d := q - q';
    assert d * n == q * n - q' * n;
    assert d * n == r' - r;
    if d >= 1 {
      MulAtLeast(d, n);
    } else if d <= -1 {
      MulAtLeast(-d, n);
    }
  }

  lemma {:induction false} MulAtLeast(d: int, n: int)
    requires d >= 1 && n > 0
    ensures d * n >= n
    decreases d
  {
    if d > 1 {
      MulAtLeast(d - 1, n);
      assert d * n == (d - 1) * n + n;
    }
  }

  /** The effect is periodic: once every phrase of the page has been typed
      and erased it is back where it started. */
  lemma Periodic()
    ensures Phrases(Texts)
    ensures Run(Texts, Start, CycleTicks(Texts, 0, |Texts|)) == Start
  {
    Cycles(Texts, 0, |Texts|);
  }

  /** The closure of initTypingEffect: its three state variables and the
      text content of the typing element. */
  class TypingEffect {
    var textIndex: int
    var charIndex: int
    var isDeleting: bool
    var content: string

    function Snapshot(): State
      reads this
    {
      State(textIndex, charIndex, isDeleting)
    }

    constructor (initialContent: string)
      ensures Snapshot() == Start && content == initialContent
    {
      textIndex, charIndex, isDeleting := 0, 0, false;
      content := initialContent;
    }

    /** `type()`; returns the delay it schedules itself again with. */
    method Type() returns (delay: nat)
      requires Valid(Texts, Snapshot())
      modifies this
      ensures Phrases(Texts) && Valid(Texts, Snapshot())
      ensures Snapshot() == Step(Texts, old(Snapshot())).next
      ensures content == Step(Texts, old(Snapshot())).shown
      ensures delay == Step(Texts, old(Snapshot())).delay
    {
      var currentText := Texts[textIndex];
      if isDeleting {
        content := currentText[..charIndex - 1];
        charIndex := charIndex - 1;
      } else {
        content := currentText[..charIndex + 1];
        charIndex := charIndex + 1;
      }
      if !isDeleting && charIndex == |currentText| {
        isDeleting := true;
        delay := HoldDelay;
      } else if isDeleting && charIndex == 0 {
        isDeleting := false;
        textIndex := (textIndex + 1) % |Texts|;
        delay := NextTextDelay;
      } else {
        delay := if isDeleting then EraseDelay else TypeDelay;
      }
    }
  }
}
