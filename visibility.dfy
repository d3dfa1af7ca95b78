/** Pausing animations while the tab is hidden (animations.js, the
    visibilitychange listener): on hide, every element with an inline
    animation play state saves it in its dataset and is paused; on show,
    every element with a saved state gets it back and the saved entry is
    deleted. */
module Visibility {
  import opened Options

  /** An element's `style.animationPlayState` ("" when unset) and its
      `dataset.animationState` entry. */
  datatype Element = Element(playState: string, saved: Option<string>)

  const PausedState := "paused"

  /** JavaScript truthiness of a dataset entry: present and non-empty. */
  predicate Truthy(v: Option<string>) {
    v.Some? && v.value != ""
  }

  /** What hiding the tab does to one element. */
  function Paused(e: Element): (r: Element)
    // the play state is set iff it was set before; a set one is saved and
    // replaced by "paused", an unset one leaves the element alone
    ensures (r.playState == "") <==> (e.playState == "")
    ensures e.playState != "" ==> r.playState == PausedState && Truthy(r.saved) && r.saved.value == e.playState
    ensures e.playState == "" ==> r == e
  {
    if e.playState != "" then Element(PausedState, Some(e.playState)) else e
  }

  /** What showing the tab does to one element. */
  function Resumed(e: Element): (r: Element)
    // no truthy saved entry survives; a truthy one becomes the play state
    ensures !Truthy(r.saved)
    ensures Truthy(e.saved) ==> r.playState == e.saved.value && r.saved == None
    ensures !Truthy(e.saved) ==> r == e
  {
    if Truthy(e.saved) then Element(e.saved.value, None) else e
  }

  /** Hiding then showing gives an element back its play state, unless it
      had an unset play state and a stale saved entry; an element with no
      saved entry comes back exactly as it was. */
  lemma ResumePaused(e: Element)
    ensures e.playState != "" || !Truthy(e.saved) ==> Resumed(Paused(e)).playState == e.playState
    ensures e.saved == None ==> Resumed(Paused(e)) == e
    ensures e.playState != "" ==> Paused(e).playState == PausedState && Resumed(Paused(e)).saved == None
  {
  }

  function PauseAll(es: seq<Element>): (r: seq<Element>)
    ensures |r| == |es|
    ensures forall i :: 0 <= i < |es| && es[i].playState != "" ==>
              r[i].playState == PausedState && r[i].saved == Some(es[i].playState)
    ensures forall i :: 0 <= i < |es| && es[i].playState == "" ==> r[i] == es[i]
  {
    seq(|es|, i requires 0 <= i < |es| => Paused(es[i]))
  }

  function ResumeAll(es: seq<Element>): (r: seq<Element>)
    ensures |r| == |es|
    ensures forall i :: 0 <= i < |es| ==> !Truthy(r[i].saved)
    ensures forall i :: 0 <= i < |es| && Truthy(es[i].saved) ==>
              r[i] == Element(es[i].saved.value, None)
    ensures forall i :: 0 <= i < |es| && !Truthy(es[i].saved) ==> r[i] == es[i]
  {
    seq(|es|, i requires 0 <= i < |es| => Resumed(es[i]))
  }

  /** Over the whole document: hide followed by show restores every
      element that had no saved entry. */
  lemma RoundTrip(es: seq<Element>)
    requires forall i :: 0 <= i < |es| ==> es[i].saved == None
    ensures ResumeAll(PauseAll(es)) == es
  {
    forall i | 0 <= i < |es| ensures ResumeAll(PauseAll(es))[i] == es[i] {
      ResumePaused(es[i]);
    }
  }

  /** The elements of the document (`querySelectorAll('*')`). */
  class Document {
    var elements: seq<Element>

    constructor (elements: seq<Element>)
      ensures this.elements == elements
    {
      this.elements := elements;
    }

    method Hide()
      modifies this
      ensures elements == PauseAll(old(elements))
    {
      var i := 0;
      while i < |elements|
        invariant 0 <= i <= |elements| && |elements| == |old(elements)|
        invariant forall k :: 0 <= k < i ==> elements[k] == Paused(old(elements[k]))
        invariant forall k :: i <= k < |elements| ==> elements[k] == old(elements[k])
      {
        var animation := elements[i].playState;
        if animation != "" {
          elements := elements[i := elements[i].(saved := Some(animation))];
          elements := elements[i := elements[i].(playState := PausedState)];
        }
        i := i + 1;
      }
    }

    method Show()
      modifies this
      ensures elements == ResumeAll(old(elements))
    {
      var i := 0;
      while i < |elements|
        invariant 0 <= i <= |elements| && |elements| == |old(elements)|
        invariant forall k :: 0 <= k < i ==> elements[k] == Resumed(old(elements[k]))
        invariant forall k :: i <= k < |elements| ==> elements[k] == old(elements[k])
      {
        var saved := elements[i].saved;
        if saved.Some? && saved.value != "" {
          elements := elements[i := elements[i].(playState := saved.value)];
          elements := elements[i := elements[i].(saved := None)];
        }
        i := i + 1;
      }
    }

    /** The listener: `hidden` is `document.hidden`. */
    method OnVisibilityChange(hidden: bool)
      modifies this
      ensures elements == if hidden then PauseAll(old(elements)) else ResumeAll(old(elements))
    {
      if hidden {
        Hide();
      } else {
        Show();
      }
    }
  }
}
