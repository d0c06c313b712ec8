/** The sidebar's tab selection. The core's `SidebarComponent` and the application's
    `SidebarPane` are two copies of one state machine: a column of buttons, a map from tab
    name to the button added for it, and the name of the selected tab; the selected tab's
    button carries the "selected" style class. */
module Sidebar {
  import opened Wrappers

  const SidebarButton: string := "sidebar-button"
  const Selected: string := "selected"

  /** A sidebar button: its text, its style classes (in order) and whether it shows an icon. */
  datatype Button = Button(text: string, styleClass: seq<string>, hasIcon: bool)

  /** `List.remove(x)`: the first occurrence of `x` is removed, if any. */
  function RemoveFirst(s: seq<string>, x: string): (r: seq<string>)
    ensures multiset(r) == multiset(s) - multiset{x}
  {
    if s == [] then []
    else if s[0] == x then
      assert s == [s[0]] + s[1..];
      s[1..]
    else
      assert s == [s[0]] + s[1..];
      [s[0]] + RemoveFirst(s[1..], x)
  }

  /** Removing a class the list does not hold changes nothing. */
  lemma {:induction false} RemoveAbsent(s: seq<string>, x: string)
    requires x !in s
    ensures RemoveFirst(s, x) == s
  {
    if s != [] {
      assert s[0] in s && s[0] != x;
      assert x !in s[1..] by {
        forall k | 0 <= k < |s[1..]| ensures s[1..][k] != x {
          assert s[1..][k] == s[k + 1];
        }
      }
      RemoveAbsent(s[1..], x);
      assert s == [s[0]] + s[1..];
    }
  }

  /** How many times a button carries the "selected" class. */
  function Highlights(b: Button): nat {
    multiset(b.styleClass)[Selected]
  }

  /** The shape every sidebar keeps: each registered name points at a button whose text is
      that name, and no registered button but the selected tab's carries "selected", that
      one at most once. Buttons displaced by a re-added name are no longer registered. */
  predicate WellFormed(children: seq<Button>, tabButtons: map<string, nat>, selectedTab: Option<string>) {
    (forall n :: n in tabButtons ==> tabButtons[n] < |children| && children[tabButtons[n]].text == n) &&
    (forall n :: n in tabButtons ==> Highlights(children[tabButtons[n]]) <= if selectedTab == Some(n) then 1 else 0)
  }

  /** At most one registered button is highlighted, and it is the selected tab's. */
  lemma {:induction false} HighlightIsUnique(children: seq<Button>, tabButtons: map<string, nat>, selectedTab: Option<string>,
                                             n: string, m: string)
    requires WellFormed(children, tabButtons, selectedTab)
    requires n in tabButtons && m in tabButtons
    requires Selected in children[tabButtons[n]].styleClass && Selected in children[tabButtons[m]].styleClass
    ensures n == m && selectedTab == Some(n)
  {
    assert Highlights(children[tabButtons[n]]) >= 1;
    assert Highlights(children[tabButtons[m]]) >= 1;
  }

  /** Two distinct registered names never share a button. */
  lemma DistinctTabsDistinctButtons(children: seq<Button>, tabButtons: map<string, nat>, selectedTab: Option<string>,
                                    n: string, m: string)
    requires WellFormed(children, tabButtons, selectedTab)
    requires n in tabButtons && m in tabButtons && n != m
    ensures tabButtons[n] != tabButtons[m]
  {
    assert children[tabButtons[n]].text == n;
    assert children[tabButtons[m]].text == m;
  }

  class Sidebar {
    /** The buttons shown, in the order they were added. */
    var children: seq<Button>
    /** Each tab name's button, as an index into `children`. */
    var tabButtons: map<string, nat>
    var selectedTab: Option<string>

    ghost predicate Valid()
      reads this
    {
      WellFormed(children, tabButtons, selectedTab)
    }

    constructor()
      ensures Valid()
      ensures children == [] && tabButtons == map[] && selectedTab == None
    {
      children := [];
      tabButtons := map[];
      selectedTab := None;
    }

    /** `addTab(name, icon)`: appends a new "sidebar-button" for the name and maps the name to
        it; a name added again keeps its old button on screen but unmapped. */
    method AddTab(name: string, hasIcon: bool)
      requires Valid()
      modifies this
      ensures Valid()
      ensures children == old(children) + [Button(name, [SidebarButton], hasIcon)]
      ensures tabButtons == old(tabButtons)[name := |old(children)|]
      ensures selectedTab == old(selectedTab)
    {
      var button := Button(name, [SidebarButton], hasIcon);
      assert Highlights(button) == 0;
      children := children + [button];
      tabButtons := tabButtons[name := |children| - 1];
    }

    /** `selectTab(name)`: un-highlights the previously selected tab's button, records the
        name (registered or not), and highlights its button if it has one. When the previous
        selection has no button, the lookup dereferences null and nothing changes. */
    method SelectTab(name: string) returns (r: Outcome<string>)
      requires Valid()
      modifies this
      ensures Valid()
      ensures r.Fail? <==> old(selectedTab).Some? && old(selectedTab).value !in old(tabButtons)
      ensures r.Fail? ==> r.error == NullPointer && children == old(children) && selectedTab == old(selectedTab)
      ensures tabButtons == old(tabButtons)
      ensures r.Pass? ==> selectedTab == Some(name)
      ensures r.Pass? ==> children == Marked(Cleared(old(children), old(tabButtons), old(selectedTab)), tabButtons, name)
      ensures r.Pass? && name in tabButtons ==> Highlights(children[tabButtons[name]]) == 1
    {
      if selectedTab.Some? {
        if selectedTab.value !in tabButtons {
          return Fail(NullPointer);
        }
        var i := tabButtons[selectedTab.value];
        children := children[i := children[i].(styleClass := RemoveFirst(children[i].styleClass, Selected))];
      }
      ClearingUnhighlightsAll(old(children), tabButtons, old(selectedTab));
      MarkingHighlightsOne(children, tabButtons, name);
      selectedTab := Some(name);
      if name in tabButtons {
        var j := tabButtons[name];
        children := children[j := children[j].(styleClass := children[j].styleClass + [Selected])];
      }
      r := Pass;
    }

    /** The button's action handler for tab `name`: a click on the tab already selected does
        nothing; any other click selects the tab and then notifies `onTabSelected` once. */
    method Click(name: string) returns (r: Outcome<string>, notified: Option<string>)
      requires Valid()
      modifies this
      ensures Valid()
      ensures tabButtons == old(tabButtons)
      ensures old(selectedTab) == Some(name) ==>
                r == Pass && notified == None && children == old(children) && selectedTab == old(selectedTab)
      ensures r.Fail? <==> old(selectedTab) != Some(name) && old(selectedTab).Some? && old(selectedTab).value !in old(tabButtons)
      ensures old(selectedTab) != Some(name) && r.Pass? ==>
                notified == Some(name) && selectedTab == Some(name) &&
                children == Marked(Cleared(old(children), old(tabButtons), old(selectedTab)), tabButtons, name)
      ensures r.Fail? ==> notified == None && children == old(children) && selectedTab == old(selectedTab)
    {
      if selectedTab == Some(name) {
        return Pass, None;
      }
      r := SelectTab(name);
      if r.Fail? {
        return r, None;
      }
      notified := Some(name);
    }
  }

  /** Every registered name points at a button whose text is that name, and none of those
      buttons is highlighted. */
  predicate NoneHighlighted(children: seq<Button>, tabButtons: map<string, nat>) {
    forall n :: n in tabButtons ==>
      tabButtons[n] < |children| && children[tabButtons[n]].text == n && Highlights(children[tabButtons[n]]) == 0
  }

  /** The first half of `selectTab`: the previous selection's button loses one "selected". */
  function Cleared(children: seq<Button>, tabButtons: map<string, nat>, previous: Option<string>): (r: seq<Button>)
    requires WellFormed(children, tabButtons, previous)
    requires previous.Some? ==> previous.value in tabButtons
    ensures |r| == |children|
    ensures forall i :: 0 <= i < |children| ==> r[i].text == children[i].text
  {
    if previous.Some? then
      var i := tabButtons[previous.value];
      children[i := children[i].(styleClass := RemoveFirst(children[i].styleClass, Selected))]
    else children
  }

  /** The second half: the new selection's button, if it has one, gains one "selected". */
  function Marked(children: seq<Button>, tabButtons: map<string, nat>, name: string): (r: seq<Button>)
    requires name in tabButtons ==> tabButtons[name] < |children|
    ensures |r| == |children|
    ensures forall i :: 0 <= i < |children| ==> r[i].text == children[i].text
  {
    if name in tabButtons then
      var j := tabButtons[name];
      children[j := children[j].(styleClass := children[j].styleClass + [Selected])]
    else children
  }

  /** After the first half no registered button is highlighted. */
  lemma ClearingUnhighlightsAll(children: seq<Button>, tabButtons: map<string, nat>, previous: Option<string>)
    requires WellFormed(children, tabButtons, previous)
    requires previous.Some? ==> previous.value in tabButtons
    ensures NoneHighlighted(Cleared(children, tabButtons, previous), tabButtons)
  {
    var cleared := Cleared(children, tabButtons, previous);
    forall n | n in tabButtons
      ensures Highlights(cleared[tabButtons[n]]) == 0
    {
      if previous.Some? && n == previous.value {
        var i := tabButtons[n];
        assert multiset(cleared[i].styleClass) == multiset(children[i].styleClass) - multiset{Selected};
      } else if previous.Some? {
        DistinctTabsDistinctButtons(children, tabButtons, previous, n, previous.value);
      }
    }
  }

  /** After the second half the sidebar is well formed for the new selection, whose button
      (if it has one) is highlighted exactly once. */
  lemma MarkingHighlightsOne(children: seq<Button>, tabButtons: map<string, nat>, name: string)
    requires NoneHighlighted(children, tabButtons)
    ensures WellFormed(Marked(children, tabButtons, name), tabButtons, Some(name))
    ensures name in tabButtons ==> Highlights(Marked(children, tabButtons, name)[tabButtons[name]]) == 1
  {
    var result := Marked(children, tabButtons, name);
    forall n | n in tabButtons
      ensures Highlights(result[tabButtons[n]]) <= if Some(name) == Some(n) then 1 else 0
    {
      if name in tabButtons {
        var j := tabButtons[name];
        if n == name {
          assert multiset(result[j].styleClass) == multiset(children[j].styleClass) + multiset{Selected};
        } else {
          assert children[tabButtons[n]].text == n && children[j].text == name;
        }
      }
    }
  }
}
