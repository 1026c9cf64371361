/**
 * The skills page controller: colour bands for the progress bars, a comparison selection kept
 * both as a list of (name, level) entries and as a `selected` class on each skill item, the
 * comparison panel drawn from that list, and a live search that hides skills and empty categories.
 */
module Skills {
  import opened Strings
  import opened Style

  /** A skill item: the text of its name and description, its `data-skill` level, and the category container it sits in. */
  datatype SkillItem = SkillItem(name: string, description: string, level: int, category: nat)

  /** An element of the comparison list. */
  datatype Entry = Entry(name: string, level: int)

  function EntryOf(item: SkillItem): Entry {
    Entry(item.name, item.level)
  }

  /** The colour band of a level, 1 (best) to 5, by the thresholds 90, 85, 80 and 75. */
  function Band(level: int): (b: nat)
    ensures 1 <= b <= 5
    ensures b == 1 <==> level >= 90
    ensures b == 5 <==> level < 75
  {
    if level >= 90 then 1
    else if level >= 85 then 2
    else if level >= 80 then 3
    else if level >= 75 then 4
    else 5
  }

  /** A higher level never lands in a worse band. */
  lemma BandMonotone(lo: int, hi: int)
    requires lo <= hi
    ensures Band(hi) <= Band(lo)
  {
  }

  /** Each threshold belongs to the band above it. */
  lemma BandBoundaries()
    ensures Band(90) == 1 && Band(89) == 2 && Band(85) == 2 && Band(84) == 3
    ensures Band(80) == 3 && Band(79) == 4 && Band(75) == 4 && Band(74) == 5 && Band(0) == 5
  {
  }

  /** The progress bar's background for each band. */
  function Gradient(band: nat): string
    requires 1 <= band <= 5
  {
    if band == 1 then "linear-gradient(90deg, #00ff88, #00cc6a)"
    else if band == 2 then "linear-gradient(90deg, #0099ff, #007acc)"
    else if band == 3 then "linear-gradient(90deg, #f39c12, #e67e22)"
    else if band == 4 then "linear-gradient(90deg, #ff9500, #ff7b00)"
    else "linear-gradient(90deg, #e74c3c, #c0392b)"
  }

  /** Array `filter`: drop every entry called `name`, keep the rest in order. */
  function RemoveNamed(list: seq<Entry>, name: string): (r: seq<Entry>)
    ensures |r| <= |list|
    ensures forall e :: e in r <==> e in list && e.name != name
    ensures (forall e | e in list :: e.name != name) ==> r == list
  {
    if list == [] then []
    else (if list[0].name == name then [] else [list[0]]) + RemoveNamed(list[1..], name)
  }

  /** Removing by name distributes over concatenation. */
  lemma {:induction false} RemoveNamedAppend(a: seq<Entry>, b: seq<Entry>, name: string)
    ensures RemoveNamed(a + b, name) == RemoveNamed(a, name) + RemoveNamed(b, name)
  {
    if a != [] {
      var head := if a[0].name == name then [] else [a[0]];
      assert (a + b)[0] == a[0] && (a + b)[1..] == a[1..] + b;
      assert RemoveNamed(a + b, name) == head + RemoveNamed(a[1..] + b, name);
      RemoveNamedAppend(a[1..], b, name);
      assert RemoveNamed(a, name) == head + RemoveNamed(a[1..], name);
    } else {
      assert a + b == b;
    }
  }

  /** Filtering a one-entry list keeps the entry exactly when its name differs. */
  lemma RemoveNamedSingleton(e: Entry, name: string)
    ensures RemoveNamed([e], name) == (if e.name == name then [] else [e])
  {
  }

  /** The comparison state: the `selected` class of each item and the list `selectedSkills`. */
  datatype Selection = Selection(flags: seq<bool>, list: seq<Entry>)

  /** A click on item `i`: deselect it and drop its name from the list, or select it and append its entry. */
  function Toggle(items: seq<SkillItem>, s: Selection, i: nat): (r: Selection)
    requires i < |items| == |s.flags|
    ensures |r.flags| == |s.flags|
    ensures r.flags[i] == !s.flags[i]
    ensures forall j :: 0 <= j < |items| && j != i ==> r.flags[j] == s.flags[j]
  {
    if s.flags[i] then Selection(s.flags[i := false], RemoveNamed(s.list, items[i].name))
    else Selection(s.flags[i := true], s.list + [EntryOf(items[i])])
  }

  ghost predicate UniqueNames(items: seq<SkillItem>) {
    forall j, k :: 0 <= j < k < |items| ==> items[j].name != items[k].name
  }

  ghost predicate DistinctNames(list: seq<Entry>) {
    forall j, k :: 0 <= j < k < |list| ==> list[j].name != list[k].name
  }

  /** The list and the flags agree: no name twice, and the entries are exactly those of the selected items. */
  ghost predicate Consistent(items: seq<SkillItem>, s: Selection) {
    && |s.flags| == |items|
    && DistinctNames(s.list)
    && (forall e | e in s.list :: exists j :: 0 <= j < |items| && s.flags[j] && e == EntryOf(items[j]))
    && (forall j :: 0 <= j < |items| && s.flags[j] ==> EntryOf(items[j]) in s.list)
  }

  lemma DistinctCons(head: Entry, rest: seq<Entry>)
    requires DistinctNames(rest) && forall e | e in rest :: e.name != head.name
    ensures DistinctNames([head] + rest)
  {
    var r := [head] + rest;
    forall j, k | 0 <= j < k < |r| ensures r[j].name != r[k].name {
      assert r[k] == rest[k - 1];
      if j == 0 {
        assert r[k] in rest;
      } else {
        assert r[j] == rest[j - 1];
      }
    }
  }

  lemma {:induction false} RemoveNamedKeepsDistinct(list: seq<Entry>, name: string)
    requires DistinctNames(list)
    ensures DistinctNames(RemoveNamed(list, name))
  {
    if list != [] {
      var tail := list[1..];
      assert DistinctNames(tail) by {
        forall j, k | 0 <= j < k < |tail| ensures tail[j].name != tail[k].name {
          assert tail[j] == list[j + 1] && tail[k] == list[k + 1];
        }
      }
      RemoveNamedKeepsDistinct(tail, name);
      var rest := RemoveNamed(tail, name);
      if list[0].name != name {
        forall e | e in rest ensures e.name != list[0].name {
          var m :| 0 <= m < |tail| && tail[m] == e;
          assert list[m + 1] == e;
        }
        DistinctCons(list[0], rest);
      }
    }
  }

  /** With unique item names, no entry of a consistent list carries the name of an unselected item. */
  lemma UnselectedNotListed(items: seq<SkillItem>, s: Selection, i: nat)
    requires UniqueNames(items) && Consistent(items, s) && i < |items| && !s.flags[i]
    ensures forall e | e in s.list :: e.name != items[i].name
  {
    forall e | e in s.list ensures e.name != items[i].name {
      var j :| 0 <= j < |items| && s.flags[j] && e == EntryOf(items[j]);
      assert j != i;
      assert j < i ==> items[j].name != items[i].name;
      assert j > i ==> items[j].name != items[i].name;
    }
  }

  /** Appending an entry whose name the list lacks, then removing by that name, gives the list back. */
  lemma AppendThenRemove(list: seq<Entry>, e: Entry)
    requires forall x | x in list :: x.name != e.name
    ensures RemoveNamed(list + [e], e.name) == list
  {
    RemoveNamedAppend(list, [e], e.name);
    assert RemoveNamed([e], e.name) == [];
  }

  /** With unique item names, every click keeps the list and the flags in agreement. */
  lemma ToggleConsistent(items: seq<SkillItem>, s: Selection, i: nat)
    requires UniqueNames(items) && Consistent(items, s) && i < |items|
    ensures Consistent(items, Toggle(items, s, i))
  {
    var r := Toggle(items, s, i);
    var n := items[i].name;
    if s.flags[i] {
      RemoveNamedKeepsDistinct(s.list, n);
      forall e | e in r.list ensures exists j :: 0 <= j < |items| && r.flags[j] && e == EntryOf(items[j]) {
        var j :| 0 <= j < |items| && s.flags[j] && e == EntryOf(items[j]);
        assert j != i;
        assert r.flags[j];
      }
      forall j | 0 <= j < |items| && r.flags[j] ensures EntryOf(items[j]) in r.list {
        assert j != i && s.flags[j];
        assert j < i ==> items[j].name != n;
        assert j > i ==> items[j].name != n;
      }
    } else {
      var added := EntryOf(items[i]);
      UnselectedNotListed(items, s, i);
      forall j, k | 0 <= j < k < |r.list| ensures r.list[j].name != r.list[k].name {
        if k == |s.list| {
          assert r.list[j] == s.list[j];
          assert s.list[j] in s.list;
        } else {
          assert r.list[j] == s.list[j] && r.list[k] == s.list[k];
        }
      }
      forall e | e in r.list ensures exists j :: 0 <= j < |items| && r.flags[j] && e == EntryOf(items[j]) {
        if e == added {
          assert r.flags[i];
        } else {
          assert e in s.list;
          var j :| 0 <= j < |items| && s.flags[j] && e == EntryOf(items[j]);
          assert r.flags[j];
        }
      }
    }
  }

  /** From an unselected item, clicking it twice gives back the list and the flags exactly. */
  lemma ToggleTwiceRestores(items: seq<SkillItem>, s: Selection, i: nat)
    requires UniqueNames(items) && Consistent(items, s) && i < |items| && !s.flags[i]
    ensures Toggle(items, Toggle(items, s, i), i) == s
  {
    UnselectedNotListed(items, s, i);
    AppendThenRemove(s.list, EntryOf(items[i]));
    assert s.flags[i := true][i := false] == s.flags;
  }

  /**
   * From a selected item, clicking it twice gives back the flags and the same entries, but the
   * item's entry now stands last: it was re-appended.
   */
  lemma ToggleTwiceFromSelected(items: seq<SkillItem>, s: Selection, i: nat)
    requires UniqueNames(items) && Consistent(items, s) && i < |items| && s.flags[i]
    ensures Toggle(items, Toggle(items, s, i), i).flags == s.flags
    ensures forall e :: e in Toggle(items, Toggle(items, s, i), i).list <==> e in s.list
    ensures Toggle(items, Toggle(items, s, i), i).list == RemoveNamed(s.list, items[i].name) + [EntryOf(items[i])]
  {
    assert s.flags[i := false][i := true] == s.flags;
    var n := items[i].name;
    forall e | e in s.list && e.name == n ensures e == EntryOf(items[i]) {
      var j :| 0 <= j < |items| && s.flags[j] && e == EntryOf(items[j]);
      assert j == i;
    }
  }

  /** A row of the comparison panel: the skill's name, the width of its bar and its percentage text. */
  datatype Row = Row(name: string, width: string, percentage: string)

  /** The rows of the comparison panel, one per entry, in list order. */
  function Rows(list: seq<Entry>): (r: seq<Row>)
    ensures |r| == |list|
    ensures forall k :: 0 <= k < |list| ==> r[k].name == list[k].name
    ensures forall k :: 0 <= k < |list| ==> r[k].width == r[k].percentage == IntText(list[k].level) + "%"
  {
    if list == [] then []
    else
      var text := IntText(list[0].level) + "%";
      [Row(list[0].name, text, text)] + Rows(list[1..])
  }

  /** The comparison panel: there is none, or there is one with its rows. */
  datatype Panel = NoPanel | Shown(rows: seq<Row>)

  /** The panel `updateComparison` leaves behind. */
  function PanelFor(list: seq<Entry>): (p: Panel)
    ensures p.Shown? <==> |list| > 1
    ensures p.Shown? ==> p.rows == Rows(list)
  {
    if |list| > 1 then Shown(Rows(list)) else NoPanel
  }

  /** Whether the already lower-cased search term finds a skill, in its name or its description. */
  predicate SkillFound(term: string, item: SkillItem) {
    Includes(ToLower(item.name), term) || Includes(ToLower(item.description), term)
  }

  /** The number of items of category `c` that are not displayed as `none`. */
  function CountShown(items: seq<SkillItem>, display: seq<Display>, c: nat): (n: nat)
    requires |display| == |items|
    ensures n <= |items|
  {
    if items == [] then 0
    else (if items[0].category == c && display[0] != DisplayNone then 1 else 0) + CountShown(items[1..], display[1..], c)
  }

  /** A category counts no shown item exactly when every item in it is displayed as `none`. */
  lemma {:induction false} CountShownZeroIff(items: seq<SkillItem>, display: seq<Display>, c: nat)
    requires |display| == |items|
    ensures CountShown(items, display, c) == 0 <==>
      forall j :: 0 <= j < |items| && items[j].category == c ==> display[j] == DisplayNone
  {
    if items != [] {
      CountShownZeroIff(items[1..], display[1..], c);
      if CountShown(items, display, c) == 0 {
        forall j | 0 <= j < |items| && items[j].category == c ensures display[j] == DisplayNone {
          if j > 0 {
            assert items[1..][j - 1] == items[j] && display[1..][j - 1] == display[j];
          }
        }
      }
      if forall j :: 0 <= j < |items| && items[j].category == c ==> display[j] == DisplayNone {
        forall j | 0 <= j < |items| - 1 && items[1..][j].category == c ensures display[1..][j] == DisplayNone {
          assert items[1..][j] == items[j + 1];
        }
      }
    }
  }

  class SkillBoard {
    const items: seq<SkillItem>
    /** The number of category containers; item categories index into them. */
    const categoryCount: nat
    /** The `selected` class of each item. */
    var selected: seq<bool>
    /** The list `selectedSkills`. */
    var selectedSkills: seq<Entry>
    var panel: Panel
    /** The progress-bar background of each item. */
    var background: seq<string>
    var itemDisplay: seq<Display>
    var categoryDisplay: seq<Display>

    ghost predicate Valid()
      reads this
    {
      && |selected| == |items|
      && |background| == |items|
      && |itemDisplay| == |items|
      && |categoryDisplay| == categoryCount
    }

    ghost function State(): Selection
      reads this
    {
      Selection(selected, selectedSkills)
    }

    /** The page as loaded: nothing selected, no panel, no background or display set by script. */
    constructor (items: seq<SkillItem>, categoryCount: nat)
      ensures Valid() && this.items == items && this.categoryCount == categoryCount
      ensures selected == seq(|items|, _ => false) && selectedSkills == [] && panel == NoPanel
      ensures Consistent(items, State())
      ensures background == seq(|items|, _ => "")
      ensures itemDisplay == seq(|items|, _ => Unset) && categoryDisplay == seq(categoryCount, _ => Unset)
    {
      this.items := items;
      this.categoryCount := categoryCount;
      selected := seq(|items|, _ => false);
      selectedSkills := [];
      panel := NoPanel;
      background := seq(|items|, _ => "");
      itemDisplay := seq(|items|, _ => Unset);
      categoryDisplay := seq(categoryCount, _ => Unset);
    }

    /** `updateSkillColors`: paint every progress bar with its level's band. */
    method UpdateSkillColors()
      requires Valid()
      modifies this`background
      ensures Valid()
      ensures forall j :: 0 <= j < |items| ==> background[j] == Gradient(Band(items[j].level))
    {
      var j := 0;
      while j < |items|
        invariant 0 <= j <= |items| == |background|
        invariant forall k :: 0 <= k < j ==> background[k] == Gradient(Band(items[k].level))
      {
        var level := items[j].level;
        var gradient;
        if level >= 90 {
          gradient := "linear-gradient(90deg, #00ff88, #00cc6a)";
        } else if level >= 85 {
          gradient := "linear-gradient(90deg, #0099ff, #007acc)";
        } else if level >= 80 {
          gradient := "linear-gradient(90deg, #f39c12, #e67e22)";
        } else if level >= 75 {
          gradient := "linear-gradient(90deg, #ff9500, #ff7b00)";
        } else {
          gradient := "linear-gradient(90deg, #e74c3c, #c0392b)";
        }
        background := background[j := gradient];
        j := j + 1;
      }
    }

    /** `updateComparison`: remove any panel, then draw one if more than one skill is selected. */
    method UpdateComparison()
      modifies this`panel
      ensures panel == PanelFor(selectedSkills)
    {
      panel := NoPanel;
      if |selectedSkills| > 1 {
        panel := Shown(Rows(selectedSkills));
      }
    }

    /** A click on item `i` toggles its selection and redraws the panel; with unique names the list and flags keep agreeing. */
    method Click(i: nat)
      requires Valid() && i < |items|
      modifies this`selected, this`selectedSkills, this`panel
      ensures Valid()
      ensures State() == Toggle(items, old(State()), i)
      ensures panel == PanelFor(selectedSkills)
    {
      var name := items[i].name;
      var level := items[i].level;
      if selected[i] {
        selected := selected[i := false];
        selectedSkills := RemoveNamed(selectedSkills, name);
      } else {
        selected := selected[i := true];
        selectedSkills := selectedSkills + [Entry(name, level)];
      }
      UpdateComparison();
    }

    /** `clearComparison`: empty the list, deselect every item and remove the panel. */
    method ClearComparison()
      requires Valid()
      modifies this`selected, this`selectedSkills, this`panel
      ensures Valid()
      ensures selectedSkills == [] && panel == NoPanel
      ensures forall j :: 0 <= j < |selected| ==> !selected[j]
      ensures Consistent(items, State())
    {
      selectedSkills := [];
      var j := 0;
      while j < |selected|
        modifies this`selected
        invariant 0 <= j <= |selected| == |items|
        invariant forall k :: 0 <= k < j ==> !selected[k]
      {
        selected := selected[j := false];
        j := j + 1;
      }
      panel := NoPanel;
    }

    /**
     * Typing into the search box: an item is displayed exactly when the lower-cased term occurs in
     * its lower-cased name or description, and a category is hidden exactly when none of its items is.
     */
    method Search(term: string)
      requires Valid()
      modifies this`itemDisplay, this`categoryDisplay
      ensures Valid()
      ensures forall j :: 0 <= j < |items| ==>
        itemDisplay[j] == (if SkillFound(ToLower(term), items[j]) then Block else DisplayNone)
      ensures forall c :: 0 <= c < categoryCount ==>
        (categoryDisplay[c] == DisplayNone <==>
          forall j :: 0 <= j < |items| && items[j].category == c ==> !SkillFound(ToLower(term), items[j]))
      ensures forall c :: 0 <= c < categoryCount ==> categoryDisplay[c] != Unset
    {
      var needle := ToLower(term);
      var j := 0;
      while j < |items|
        modifies this`itemDisplay
        invariant 0 <= j <= |items| == |itemDisplay|
        invariant forall k :: 0 <= k < j ==> itemDisplay[k] == (if SkillFound(needle, items[k]) then Block else DisplayNone)
      {
        var name := ToLower(items[j].name);
        var description := ToLower(items[j].description);
        if Includes(name, needle) || Includes(description, needle) {
          itemDisplay := itemDisplay[j := Block];
        } else {
          itemDisplay := itemDisplay[j := DisplayNone];
        }
        j := j + 1;
      }
      var c := 0;
      while c < categoryCount
        modifies this`categoryDisplay
        invariant 0 <= c <= categoryCount == |categoryDisplay|
        invariant forall d :: 0 <= d < c ==>
          (categoryDisplay[d] == DisplayNone <==> CountShown(items, itemDisplay, d) == 0)
        invariant forall d :: 0 <= d < c ==> categoryDisplay[d] != Unset
      {
        var visible := CountShown(items, itemDisplay, c);
        if visible == 0 {
          categoryDisplay := categoryDisplay[c := DisplayNone];
        } else {
          categoryDisplay := categoryDisplay[c := Block];
        }
        c := c + 1;
      }
      forall d | 0 <= d < categoryCount
        ensures categoryDisplay[d] == DisplayNone <==>
          forall j :: 0 <= j < |items| && items[j].category == d ==> !SkillFound(needle, items[j])
      {
        CountShownZeroIff(items, itemDisplay, d);
      }
    }
  }

  /** An empty search shows every skill. */
  lemma EmptySearchFindsAll(item: SkillItem)
    ensures SkillFound(ToLower(""), item)
  {
  }
}
