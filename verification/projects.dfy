/**
 * The projects page controller: a row of mutually exclusive filter buttons that show or hide
 * project cards by a substring test on each card's `data-category`, and a live search box that
 * shows or hides the same cards by a case-insensitive substring test on their text.
 */
module Projects {
  import opened Strings
  import opened Style

  /** An attribute as `getAttribute` returns it: absent (null) or a string. */
  datatype Attr = Absent | Present(text: string)

  /** A project card: its `data-category` attribute, title, description and technology tags. */
  datatype Card = Card(category: Attr, title: string, description: string, techTags: seq<string>)

  /** Whether filter `f` keeps `card`: "all" keeps every card, any other value needs a non-empty category containing it. */
  predicate FilterKeeps(f: string, card: Card) {
    f == "all" || (card.category.Present? && card.category.text != "" && Includes(card.category.text, f))
  }

  /**
   * The filter rule in terms of positions: a card is kept by a filter other than "all" exactly
   * when its category attribute is present, non-empty, and has the filter value at some offset.
   */
  lemma {:induction false} FilterKeepsIff(f: string, card: Card)
    ensures FilterKeeps(f, card) <==>
      f == "all" || (card.category.Present? && card.category.text != "" && exists i :: OccursAt(card.category.text, f, i))
  {
    if card.category.Present? {
      IncludesIff(card.category.text, f);
    }
  }

  /** The category test is a substring test, not a token test: "frontend" passes the filter "front". */
  lemma FilterIsSubstringTest()
    ensures FilterKeeps("front", Card(Present("frontend"), "", "", []))
    ensures FilterKeeps("end", Card(Present("web frontend"), "", "", []))
    ensures !FilterKeeps("", Card(Present(""), "", "", []))
    ensures !FilterKeeps("web", Card(Absent, "", "", []))
  {
    assert "frontend"[..5] == "front";
    assert OccursAt("web frontend", "end", 9);
    IncludesIff("web frontend", "end");
  }

  /** Whether the already lower-cased search term `term` finds `card`: in its title, its description or one of its tags. */
  predicate SearchFinds(term: string, card: Card) {
    || Includes(ToLower(card.title), term)
    || Includes(ToLower(card.description), term)
    || exists t | t in card.techTags :: Includes(ToLower(t), term)
  }

  /** The empty search term finds every card. */
  lemma EmptySearchFindsAll(card: Card)
    ensures SearchFinds(ToLower(""), card)
  {
  }

  /** The search is case-insensitive: a term and its lower-cased form find the same cards. */
  lemma SearchIgnoresCase(term: string, card: Card)
    ensures SearchFinds(ToLower(ToLower(term)), card) == SearchFinds(ToLower(term), card)
  {
    ToLowerIdempotent(term);
  }

  /** The `hidden` class of every card after the filter button `f` was clicked. */
  function FilterHidden(f: string, cards: seq<Card>): (r: seq<bool>)
    ensures |r| == |cards|
  {
    seq(|cards|, i requires 0 <= i < |cards| => !FilterKeeps(f, cards[i]))
  }

  /** The `hidden` class of every card after `term` was typed into the search box. */
  function SearchHidden(term: string, cards: seq<Card>): (r: seq<bool>)
    ensures |r| == |cards|
  {
    seq(|cards|, i requires 0 <= i < |cards| => !SearchFinds(ToLower(term), cards[i]))
  }

  /** The `display` style that goes with each `hidden` flag. */
  function DisplayFor(hidden: seq<bool>): (r: seq<Display>)
    ensures |r| == |hidden|
  {
    seq(|hidden|, i requires 0 <= i < |hidden| => if hidden[i] then DisplayNone else Block)
  }

  /** Display and class agree: a card is displayed as a block exactly when it lacks the `hidden` class. */
  lemma DisplayMatchesHidden(hidden: seq<bool>)
    ensures forall i :: 0 <= i < |hidden| ==>
      DisplayFor(hidden)[i] != Unset && (DisplayFor(hidden)[i] == Block <==> !hidden[i])
  {
  }

  /** The filter "all" hides nothing; an empty search hides nothing. */
  lemma ShowAllCases(cards: seq<Card>)
    ensures forall i :: 0 <= i < |cards| ==> !FilterHidden("all", cards)[i]
    ensures forall i :: 0 <= i < |cards| ==> !SearchHidden("", cards)[i]
  {
  }

  class ProjectGrid {
    /** The `data-filter` value of each filter button. */
    const filters: seq<string>
    const cards: seq<Card>
    /** The `active` class of each filter button. */
    var active: seq<bool>
    /** The `hidden` class of each card. */
    var hidden: seq<bool>
    /** The `display` style of each card. */
    var display: seq<Display>

    ghost predicate Valid()
      reads this
    {
      |active| == |filters| && |hidden| == |cards| && |display| == |cards|
    }

    /** The state a click on filter button `b` produces. */
    ghost predicate ShowsFilter(b: nat)
      reads this
      requires b < |filters|
    {
      && active == seq(|filters|, j requires 0 <= j < |filters| => j == b)
      && hidden == FilterHidden(filters[b], cards)
      && display == DisplayFor(hidden)
    }

    /** The page as loaded: the markup decides which button starts active, and no card is hidden or styled. */
    constructor (filters: seq<string>, cards: seq<Card>, active: seq<bool>)
      requires |active| == |filters|
      ensures Valid()
      ensures this.filters == filters && this.cards == cards && this.active == active
      ensures hidden == seq(|cards|, _ => false) && display == seq(|cards|, _ => Unset)
    {
      this.filters := filters;
      this.cards := cards;
      this.active := active;
      hidden := seq(|cards|, _ => false);
      display := seq(|cards|, _ => Unset);
    }

    /**
     * A click on filter button `b`: it becomes the one active button, and every card is shown or
     * hidden by the filter alone. Clicking the button that is already in force changes nothing.
     */
    method ClickFilter(b: nat)
      requires Valid() && b < |filters|
      modifies this
      ensures Valid() && ShowsFilter(b)
      ensures forall j :: 0 <= j < |active| ==> (active[j] <==> j == b)
      ensures forall i :: 0 <= i < |cards| ==> (display[i] == Block <==> !hidden[i]) && display[i] != Unset
      ensures old(ShowsFilter(b)) ==> active == old(active) && hidden == old(hidden) && display == old(display)
    {
      var j := 0;
      while j < |active|
        invariant 0 <= j <= |active| == |filters|
        invariant forall k :: 0 <= k < j ==> !active[k]
        invariant hidden == old(hidden) && display == old(display)
      {
        active := active[j := false];
        j := j + 1;
      }
      active := active[b := true];
      var f := filters[b];
      var i := 0;
      while i < |cards|
        invariant 0 <= i <= |cards| == |hidden| == |display|
        invariant active == seq(|filters|, j requires 0 <= j < |filters| => j == b)
        invariant forall k :: 0 <= k < i ==> hidden[k] == !FilterKeeps(f, cards[k])
        invariant forall k :: 0 <= k < i ==> display[k] == (if hidden[k] then DisplayNone else Block)
      {
        if f == "all" {
          display := display[i := Block];
          hidden := hidden[i := false];
        } else {
          var category := cards[i].category;
          if category.Present? && category.text != "" && Includes(category.text, f) {
            display := display[i := Block];
            hidden := hidden[i := false];
          } else {
            display := display[i := DisplayNone];
            hidden := hidden[i := true];
          }
        }
        i := i + 1;
      }
    }

    /**
     * Typing into the search box: every card is shown or hidden by the lower-cased term alone,
     * whatever filter is in force; the active button is left as it was.
     */
    method Search(term: string)
      requires Valid()
      modifies this`hidden, this`display
      ensures Valid()
      ensures hidden == SearchHidden(term, cards) && display == DisplayFor(hidden)
      ensures forall i :: 0 <= i < |cards| ==> (display[i] == Block <==> !hidden[i]) && display[i] != Unset
      ensures active == old(active)
    {
      var needle := ToLower(term);
      var i := 0;
      while i < |cards|
        invariant 0 <= i <= |cards| == |hidden| == |display|
        invariant forall k :: 0 <= k < i ==> hidden[k] == !SearchFinds(needle, cards[k])
        invariant forall k :: 0 <= k < i ==> display[k] == (if hidden[k] then DisplayNone else Block)
      {
        var card := cards[i];
        var matches := Includes(ToLower(card.title), needle)
          || Includes(ToLower(card.description), needle)
          || exists t | t in card.techTags :: Includes(ToLower(t), needle);
        if matches {
          display := display[i := Block];
          hidden := hidden[i := false];
        } else {
          display := display[i := DisplayNone];
          hidden := hidden[i := true];
        }
        i := i + 1;
      }
    }
  }
}
