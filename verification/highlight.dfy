/** Highlighting the card of the next prayer: every card whose `data-prayer`
    attribute equals the chosen name gains the highlight class, and every other
    card loses it. */
module Highlight {
  import opened Wrappers

  const HighlightClass: string := "next-prayer-highlight"

  /** A `.card` element: its `data-prayer` attribute (absent reads as `null`)
      and its class list. */
  datatype Card = Card(prayer: Option<string>, classes: set<string>) {
    predicate Highlighted() {
      HighlightClass in classes
    }
  }

  /** `getAttribute('data-prayer') === name`: an absent attribute never matches. */
  predicate Matches(c: Card, name: string) {
    c.prayer == Some(name)
  }

  /** One card after `classList.add` or `classList.remove`. */
  function Mark(c: Card, name: string): (d: Card)
    ensures d.prayer == c.prayer
    ensures d.Highlighted() <==> Matches(c, name)
    ensures d.classes - {HighlightClass} == c.classes - {HighlightClass}
  {
    if Matches(c, name) then c.(classes := c.classes + {HighlightClass})
    else c.(classes := c.classes - {HighlightClass})
  }

  /** The `forEach` over all cards, in document order. */
  function HighlightCards(cards: seq<Card>, name: string): (r: seq<Card>)
    ensures |r| == |cards|
    ensures forall i :: 0 <= i < |r| ==> r[i].prayer == cards[i].prayer
    ensures forall i :: 0 <= i < |r| ==> (r[i].Highlighted() <==> Matches(cards[i], name))
    ensures forall i :: 0 <= i < |r| ==>
      r[i].classes - {HighlightClass} == cards[i].classes - {HighlightClass}
  {
    seq(|cards|, i requires 0 <= i < |cards| => Mark(cards[i], name))
  }

  /** Highlighting is idempotent: a second pass with the same name changes nothing. */
  lemma HighlightIdempotent(cards: seq<Card>, name: string)
    ensures HighlightCards(HighlightCards(cards, name), name) == HighlightCards(cards, name)
  {
    var once := HighlightCards(cards, name);
    var twice := HighlightCards(once, name);
    forall i | 0 <= i < |once|
      ensures twice[i] == once[i]
    {
      if Matches(once[i], name) {
        assert once[i].classes == cards[i].classes + {HighlightClass};
      } else {
        assert once[i].classes == cards[i].classes - {HighlightClass};
      }
    }
  }

  /** Only the latest name counts: highlighting for `b` after highlighting for
      `a` is the same as highlighting for `b` alone. */
  lemma HighlightOverrides(cards: seq<Card>, a: string, b: string)
    ensures HighlightCards(HighlightCards(cards, a), b) == HighlightCards(cards, b)
  {
    var first := HighlightCards(cards, a);
    var lhs := HighlightCards(first, b);
    var rhs := HighlightCards(cards, b);
    forall i | 0 <= i < |cards|
      ensures lhs[i] == rhs[i]
    {
      assert lhs[i].classes - {HighlightClass} == cards[i].classes - {HighlightClass};
      assert rhs[i].classes - {HighlightClass} == cards[i].classes - {HighlightClass};
      assert lhs[i].classes == rhs[i].classes;
    }
  }

  /** The indices of the highlighted cards. */
  function HighlightedIndices(cards: seq<Card>): set<nat> {
    set i: nat | i < |cards| && cards[i].Highlighted()
  }

  /** When the cards carry distinct `data-prayer` names and one of them is the
      chosen name, exactly that card is highlighted afterwards. */
  lemma ExactlyOneHighlighted(cards: seq<Card>, name: string, k: nat)
    requires k < |cards| && Matches(cards[k], name)
    requires forall i, j :: 0 <= i < j < |cards| && cards[i].prayer.Some? ==> cards[i].prayer != cards[j].prayer
    ensures HighlightedIndices(HighlightCards(cards, name)) == {k}
  {
    var r := HighlightCards(cards, name);
    forall i: nat | i < |r| && r[i].Highlighted()
      ensures i == k
    {
      assert Matches(cards[i], name);
    }
  }
}
