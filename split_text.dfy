/** The split-text effect of animations.js (initTextAnimations, first half):
    an element's text is replaced by one inline-block span per character,
    each fading in 0.1 s after the previous one.

    As written, a space becomes a span whose text content is the six
    characters "&nbsp;": text content is not parsed as HTML, so the page
    shows the entity literally. The evidently intended span holds the
    no-break space U+00A0. Both are modelled: SplitAsWritten and Split. */
module SplitText {

  /** A span: its text content and its animation delay in tenths of a
      second (`fadeInUp 0.5s ease <index * 0.1>s forwards`). */
  datatype Span = Span(text: string, delayTenths: nat)

  const NbspEntity: string := "&nbsp;"
  const Nbsp: char := '\U{00A0}'

  /** The text that a sequence of spans displays. */
  function Rendered(spans: seq<Span>): string {
    if spans == [] then [] else spans[0].text + Rendered(spans[1..])
  }

  function CellAsWritten(c: char): string {
    if c == ' ' then NbspEntity else [c]
  }

  /** The split as the source writes it. */
  function SplitAsWritten(text: string): (spans: seq<Span>)
    ensures |spans| == |text|
    ensures forall i :: 0 <= i < |spans| ==> spans[i].delayTenths == i
  {
    seq(|text|, i requires 0 <= i < |text| => Span(CellAsWritten(text[i]), i))
  }

  /** The text with every space spelled out as the entity "&nbsp;". */
  function EntityForSpaces(text: string): (r: string)
    ensures |r| >= |text|
    ensures ' ' !in text ==> r == text
    ensures ' ' in text ==> |r| >= |text| + 5
  {
    if text == [] then []
    else if text[0] == ' ' then NbspEntity + EntityForSpaces(text[1..])
    else [text[0]] + EntityForSpaces(text[1..])
  }

  lemma {:induction false} RenderedCellsAsWritten(spans: seq<Span>, text: string)
    requires |spans| == |text|
    requires forall i :: 0 <= i < |text| ==> spans[i].text == CellAsWritten(text[i])
    ensures Rendered(spans) == EntityForSpaces(text)
    decreases |text|
  {
    if text != [] {
      RenderedCellsAsWritten(spans[1..], text[1..]);
    }
  }

  /** As written, the spans display the text with each space spelled out as
      "&nbsp;"; only a text without spaces is displayed unchanged. */
  lemma RenderedAsWritten(text: string)
    ensures Rendered(SplitAsWritten(text)) == EntityForSpaces(text)
    ensures ' ' !in text ==> Rendered(SplitAsWritten(text)) == text
  {
    RenderedCellsAsWritten(SplitAsWritten(text), text);
  }

  /** A text with one space shows "&nbsp;" in place of the space, and
      renders longer than the text it came from. */
  lemma AsWrittenShowsEntity()
    ensures Rendered(SplitAsWritten("a b")) == "a&nbsp;b"
    ensures |Rendered(SplitAsWritten("a b"))| == 8 != |"a b"|
  {
    var spans := SplitAsWritten("a b");
    assert spans == [Span("a", 0), Span("&nbsp;", 1), Span("b", 2)];
    assert spans[1..][1..][1..] == [];
  }

  function Cell(c: char): string {
    if c == ' ' then [Nbsp] else [c]
  }

  /** The split with the no-break space. */
  function Split(text: string): (spans: seq<Span>)
    ensures |spans| == |text|
    ensures forall i :: 0 <= i < |spans| ==> |spans[i].text| == 1 && spans[i].delayTenths == i
  {
    seq(|text|, i requires 0 <= i < |text| => Span(Cell(text[i]), i))
  }

  /** The text with every space replaced by a no-break space. */
  function NbspForSpaces(text: string): (r: string)
    ensures |r| == |text|
  {
    seq(|text|, i requires 0 <= i < |text| => if text[i] == ' ' then Nbsp else text[i])
  }

  /** The text with every no-break space replaced by a space. */
  function SpacesForNbsp(text: string): (r: string)
    ensures |r| == |text|
  {
    seq(|text|, i requires 0 <= i < |text| => if text[i] == Nbsp then ' ' else text[i])
  }

  lemma {:induction false} RenderedCells(spans: seq<Span>, text: string)
    requires |spans| == |text|
    requires forall i :: 0 <= i < |text| ==> spans[i].text == Cell(text[i])
    ensures Rendered(spans) == NbspForSpaces(text)
    decreases |text|
  {
    if text != [] {
      RenderedCells(spans[1..], text[1..]);
      assert NbspForSpaces(text) == Cell(text[0]) + NbspForSpaces(text[1..]);
    }
  }

  /** The spans display the text, character for character, with each space
      kept as a no-break space; a text without no-break spaces is recovered
      from what is displayed. */
  lemma SplitRendersText(text: string)
    ensures Rendered(Split(text)) == NbspForSpaces(text)
    ensures Nbsp !in text ==> SpacesForNbsp(Rendered(Split(text))) == text
  {
    RenderedCells(Split(text), text);
  }
}
