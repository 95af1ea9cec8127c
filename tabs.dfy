/** Tabbed content (experience/education, awards/certifications): each group has
    a row of `.tab-button`s, each naming through its data-target attribute the
    id of a `.tab` panel in the group's `.tabs` container. */
module Tabs {
  import opened Elements

  /** The "active" classes of one group: its sibling buttons and its panels. */
  datatype TabView = TabView(buttons: seq<bool>, panels: seq<bool>)

  /** What a click on button `b` makes of the group's classes: every button and
      panel is cleared, then button `b` and the first panel whose id is the
      button's target are marked. */
  function Clicked(v: TabView, targets: seq<string>, panelIds: seq<string>, b: nat): (r: TabView)
    requires |v.buttons| == |targets| && |v.panels| == |panelIds| && b < |targets|
    ensures |r.buttons| == |v.buttons| && |r.panels| == |v.panels|
  {
    var buttons := Marked(|v.buttons|, None)[b := true];
    var panels := match FirstIndex(panelIds, targets[b])
      case None => Marked(|v.panels|, None)
      case Some(p) => Marked(|v.panels|, None)[p := true];
    TabView(buttons, panels)
  }

  /** After a click the clicked button is the only active button, and the only
      active panel is the first one whose id is its target; when no panel has
      that id, no panel is active. */
  lemma ClickedActivatesPair(v: TabView, targets: seq<string>, panelIds: seq<string>, b: nat)
    requires |v.buttons| == |targets| && |v.panels| == |panelIds| && b < |targets|
    ensures var r := Clicked(v, targets, panelIds, b);
      r.buttons == Marked(|targets|, Some(b)) &&
      r.panels == Marked(|panelIds|, FirstIndex(panelIds, targets[b])) &&
      Count(r.buttons) == 1 &&
      Count(r.panels) == (if targets[b] in panelIds then 1 else 0)
  {
    var r := Clicked(v, targets, panelIds, b);
    MarkedAt(|targets|, b);
    MarkedCount(|targets|, Some(b));
    var p := FirstIndex(panelIds, targets[b]);
    if p.Some? {
      MarkedAt(|panelIds|, p.value);
    }
    MarkedCount(|panelIds|, p);
  }

  /** Clicking the same button a second time changes nothing. */
  lemma ClickedIdempotent(v: TabView, targets: seq<string>, panelIds: seq<string>, b: nat)
    requires |v.buttons| == |targets| && |v.panels| == |panelIds| && b < |targets|
    ensures var once := Clicked(v, targets, panelIds, b);
      Clicked(once, targets, panelIds, b) == once
  {
  }

  /** Buttons for pane1 and pane2: clicking the second one activates it and its
      pane and deactivates the first pair. */
  lemma SwitchExample()
    ensures Clicked(TabView([true, false], [true, false]), ["pane1", "pane2"], ["pane1", "pane2"], 1)
      == TabView([false, true], [false, true])
  {
    assert FirstIndex(["pane1", "pane2"], "pane2") == Some(1);
  }

  /** One tab group, as the click handler of any of its buttons sees it. */
  class TabGroup {
    /** The data-target attribute of each sibling button. */
    const targets: seq<string>
    /** The id of each panel. */
    const panelIds: seq<string>
    const buttonActive: array<bool>
    const panelActive: array<bool>

    ghost predicate Valid()
      reads this
    {
      buttonActive != panelActive &&
      buttonActive.Length == |targets| && panelActive.Length == |panelIds|
    }

    function View(): TabView
      reads this, buttonActive, panelActive
    {
      TabView(buttonActive[..], panelActive[..])
    }

    constructor (targets: seq<string>, panelIds: seq<string>, buttons: seq<bool>, panels: seq<bool>)
      requires |buttons| == |targets| && |panels| == |panelIds|
      ensures Valid() && fresh(buttonActive) && fresh(panelActive)
      ensures this.targets == targets && this.panelIds == panelIds
      ensures View() == TabView(buttons, panels)
    {
      this.targets := targets;
      this.panelIds := panelIds;
      buttonActive := new bool[|buttons|](i requires 0 <= i < |buttons| => buttons[i]);
      panelActive := new bool[|panels|](i requires 0 <= i < |panels| => panels[i]);
    }

    /** The click handler of button `b`. */
    method Click(b: nat)
      requires Valid() && b < |targets|
      modifies buttonActive, panelActive
      ensures View() == Clicked(old(View()), targets, panelIds, b)
    {
      ClearAll(buttonActive);
      ClearAll(panelActive);
      buttonActive[b] := true;
      var targetTab := QuerySelector(panelIds, targets[b]);
      if targetTab.Some? {
        panelActive[targetTab.value] := true;
      }
    }
  }
}
