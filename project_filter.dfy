/** The project grid's filter buttons: a click activates one button and
    shows the cards of its category (every card for "all"). The model takes
    a click with its 10 ms and 300 ms timers already run. */
module ProjectFilter {
  import opened Optional

  /** A `.filter-btn`: its `data-filter` attribute (None when absent) and class list. */
  datatype Button = Button(filter: Option<string>, classes: set<string>)

  /** A `.project-card`: its `data-category` attribute, class list and the
      inline `display`, `opacity` and `transform` styles. */
  datatype Card = Card(category: Option<string>, classes: set<string>,
                       display: string, opacity: string, transform: string)

  /** The card test of the click handler. An absent `data-filter` and an
      absent `data-category` are both `null` there, and `null === null`. */
  predicate CardMatches(filter: Option<string>, category: Option<string>)
  {
    filter == Some("all") || category == filter
  }

  /** A button after the click: `active` only on the clicked one, other classes kept. */
  function Activated(b: Button, clicked: bool): (r: Button)
    ensures r.filter == b.filter
    ensures ("active" in r.classes) <==> clicked
    ensures r.classes - {"active"} == b.classes - {"active"}
  {
    b.(classes := if clicked then b.classes + {"active"} else b.classes - {"active"})
  }

  /** A card once its timers have fired: a match has `show` and not `hide`,
      is displayed as a block, opaque and in place; any other card has
      `hide` and not `show`, is transparent and shifted down, and keeps its
      display style. No other class changes. */
  function Filtered(c: Card, filter: Option<string>): (r: Card)
    ensures r.category == c.category
    ensures ("show" in r.classes) <==> CardMatches(filter, c.category)
    ensures ("hide" in r.classes) <==> !CardMatches(filter, c.category)
    ensures r.classes - {"show", "hide"} == c.classes - {"show", "hide"}
    ensures CardMatches(filter, c.category) ==>
              r.display == "block" && r.opacity == "1" && r.transform == "translateY(0)"
    ensures !CardMatches(filter, c.category) ==>
              r.display == c.display && r.opacity == "0" && r.transform == "translateY(30px)"
  {
    if CardMatches(filter, c.category) then
      c.(display := "block", classes := c.classes - {"hide"} + {"show"},
         opacity := "1", transform := "translateY(0)")
    else
      c.(opacity := "0", transform := "translateY(30px)",
         classes := c.classes + {"hide"} - {"show"})
  }

  /** The filter keeps no memory of earlier clicks: after any two clicks a
      card's classes, opacity and transform are those the second click gives
      on its own. Only the display style of a card hidden by the second click
      can remember that an earlier click showed it. */
  lemma LastClickDecides(c: Card, first: Option<string>, second: Option<string>)
    ensures var twice := Filtered(Filtered(c, first), second);
            var once := Filtered(c, second);
            twice.classes == once.classes && twice.opacity == once.opacity
            && twice.transform == once.transform
            && (CardMatches(second, c.category) ==> twice == once)
  {
  }

  /** Clicking the same filter again changes nothing. */
  lemma FilterIdempotent(c: Card, f: Option<string>)
    ensures Filtered(Filtered(c, f), f) == Filtered(c, f)
  {
  }

  /** The positions of the cards left showing. */
  function Shown(cards: seq<Card>): set<nat>
  {
    set m | 0 <= m < |cards| && "show" in cards[m].classes
  }

  /** With "all" every card ends up shown; with a category exactly the cards
      of that category do. */
  lemma ShownAreTheCategory(cards: seq<Card>, f: Option<string>)
    ensures var after := seq(|cards|, m requires 0 <= m < |cards| => Filtered(cards[m], f));
            && (forall m :: 0 <= m < |cards| && f == Some("all") ==> m in Shown(after))
            && (forall m :: 0 <= m < |cards| && f != Some("all") ==>
                  (m in Shown(after) <==> cards[m].category == f))
  {
  }

  class Grid {
    /** The `.filter-btn` and `.project-card` elements in document order. */
    var buttons: seq<Button>
    var cards: seq<Card>

    constructor (buttons: seq<Button>, cards: seq<Card>)
      ensures this.buttons == buttons && this.cards == cards
    {
      this.buttons := buttons;
      this.cards := cards;
    }

    /** The click listener of button `k`, with the card timers run. */
    method Click(k: nat)
      requires k < |buttons|
      modifies this
      ensures |buttons| == |old(buttons)| && |cards| == |old(cards)|
      ensures forall m :: 0 <= m < |buttons| ==> buttons[m] == Activated(old(buttons[m]), m == k)
      ensures forall m :: 0 <= m < |cards| ==> cards[m] == Filtered(old(cards[m]), old(buttons[k].filter))
    {
      var j := 0;
      while j < |buttons|
        invariant 0 <= j <= |buttons| == |old(buttons)| && cards == old(cards)
        invariant forall m :: 0 <= m < j ==> buttons[m] == Activated(old(buttons[m]), false)
        invariant forall m :: j <= m < |buttons| ==> buttons[m] == old(buttons[m])
      {
        buttons := buttons[j := buttons[j].(classes := buttons[j].classes - {"active"})];
        j := j + 1;
      }
      buttons := buttons[k := buttons[k].(classes := buttons[k].classes + {"active"})];
      var filterValue := buttons[k].filter;
      ghost var activated := buttons;
      j := 0;
      while j < |cards|
        invariant buttons == activated
        invariant 0 <= j <= |cards| == |old(cards)|
        invariant forall m :: 0 <= m < j ==> cards[m] == Filtered(old(cards[m]), filterValue)
        invariant forall m :: j <= m < |cards| ==> cards[m] == old(cards[m])
      {
        cards := cards[j := Filtered(cards[j], filterValue)];
        j := j + 1;
      }
    }
  }
}
