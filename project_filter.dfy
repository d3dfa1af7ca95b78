/** The project gallery filter of main.js (initProjectFilter): clicking a
    filter button makes it the only active button and shows exactly the
    project cards whose category the button selects. */
module ProjectFilter {
  import opened Options

  /** A filter button: its `data-filter` attribute and whether it carries
      the `active` class. */
  datatype Button = Button(filter: Option<string>, active: bool)

  /** A project card: its `data-category` attribute and whether it ends up
      displayed (`display: block`) or hidden (`display: none`). */
  datatype Card = Card(category: Option<string>, shown: bool)

  /** A card is shown for a filter iff the filter is "all" or the card's
      category is the filter. A missing attribute reads as null in the
      source, so a button without `data-filter` selects exactly the cards
      without `data-category`. */
  predicate Matches(filter: Option<string>, category: Option<string>)
    // a card of the selected category is always shown, every card is shown
    // for "all", and for any other filter a shown card has that category
    ensures category == filter ==> Matches(filter, category)
    ensures filter == Some("all") ==> Matches(filter, category)
    ensures Matches(filter, category) && filter != Some("all") ==> category == filter
  {
    filter == Some("all") || category == filter
  }

  function ActiveButtons(buttons: seq<Button>): set<nat> {
    set j | 0 <= j < |buttons| && buttons[j].active
  }

  /** The buttons and cards of the page. When either list is empty the
      initializer returns early and no click handler is installed. */
  class Gallery {
    var buttons: seq<Button>
    var cards: seq<Card>
    const installed: bool

    constructor (buttons: seq<Button>, cards: seq<Card>)
      ensures this.buttons == buttons && this.cards == cards
      ensures installed <==> buttons != [] && cards != []
    {
      this.buttons := buttons;
      this.cards := cards;
      installed := buttons != [] && cards != [];
    }

    /** A click on button b, once all of its timers have fired. */
    method Click(b: nat)
      requires b < |buttons|
      modifies this
      ensures !installed ==> buttons == old(buttons) && cards == old(cards)
      ensures installed ==> ActiveButtons(buttons) == {b}
      ensures |buttons| == |old(buttons)| && |cards| == |old(cards)|
      ensures installed ==> forall j :: 0 <= j < |buttons| ==>
                buttons[j] == old(buttons[j]).(active := j == b)
      ensures installed ==> forall i :: 0 <= i < |cards| ==>
                cards[i] == old(cards[i]).(shown := Matches(old(buttons[b].filter), old(cards[i].category)))
    {
      if !installed {
        return;
      }
      var j := 0;
      while j < |buttons|
        invariant 0 <= j <= |buttons| && |buttons| == |old(buttons)|
        invariant forall k :: 0 <= k < j ==> buttons[k] == old(buttons[k]).(active := false)
        invariant forall k :: j <= k < |buttons| ==> buttons[k] == old(buttons[k])
        invariant cards == old(cards)
      {
        buttons := buttons[j := buttons[j].(active := false)];
        j := j + 1;
      }
      buttons := buttons[b := buttons[b].(active := true)];
      ghost var clicked := buttons;
      var filterValue := buttons[b].filter;
      var i := 0;
      while i < |cards|
        invariant 0 <= i <= |cards| && |cards| == |old(cards)|
        invariant buttons == clicked
        invariant forall k :: 0 <= k < i ==>
                    cards[k] == old(cards[k]).(shown := Matches(filterValue, old(cards[k].category)))
        invariant forall k :: i <= k < |cards| ==> cards[k] == old(cards[k])
      {
        var category := cards[i].category;
        cards := cards[i := cards[i].(shown := filterValue == Some("all") || category == filterValue)];
        i := i + 1;
      }
      assert ActiveButtons(buttons) == {b} by {
        forall k | k in ActiveButtons(buttons) ensures k == b {}
      }
    }
  }
}
