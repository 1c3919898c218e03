/** Scenarios that drive the handlers of a small page in sequence, the way a
    visitor's events would. */
module Scenarios {
  import opened Collections
  import Controller
  import Progress
  import Keyboard

  /** A page with sections intro, design and ops, one nav item each, the
      first section active as authored, and no tabs or layers. */
  method NewPage(storage: map<string, string>) returns (page: Controller.ViewState)
    ensures fresh(page) && page.Valid()
    ensures page.navTargets == page.sectionIds == ["intro", "design", "ops"]
    ensures page.navActive == page.sectionActive == [true, false, false]
    ensures page.storage == storage
  {
    var ids := ["intro", "design", "ops"];
    var feature := new Controller.TabGroup("feature-", [], [], [], []);
    var example := new Controller.TabGroup("example-", [], [], [], []);
    page := new Controller.ViewState(ids, ids, ["Overview", "Design notes", "Operations"],
                                     [true, false, false], [true, false, false], [],
                                     feature, example, storage);
  }

  /** ArrowLeft on the first section wraps to the last one and saves its id;
      a reload over the same storage restores it. */
  method WrapSaveReload() returns (afterKey: seq<bool>, saved: string, restored: seq<bool>)
    ensures afterKey == [false, false, true]
    ensures saved == "ops"
    ensures restored == [false, false, true]
  {
    var page := NewPage(map[]);
    assert page.CurrentIndex() == 0;
    page.KeyDown("ArrowLeft");
    assert IndexOf(page.navTargets, "ops") == 2;
    afterKey := page.sectionActive;
    saved := page.storage[Progress.ProgressKey];

    var reloaded := NewPage(page.storage);
    reloaded.LoadProgress();
    restored := reloaded.sectionActive;
  }

  /** Selecting the same section twice leaves the state of one selection. */
  method SelectTwice(page: Controller.ViewState, n: nat)
    requires page.Valid() && n < |page.navTargets| && page.navTargets[n] in page.sectionIds
    modifies page`navActive, page`sectionActive, page`storage
    ensures page.Valid() && page.ShowsSection(n)
    ensures page.storage == old(page.storage)[Progress.ProgressKey := page.navTargets[n]]
  {
    page.ClickNavItem(n);
    ghost var nav, sections, storage := page.navActive, page.sectionActive, page.storage;
    page.ClickNavItem(n);
    assert page.navActive == nav && page.sectionActive == sections;
    assert page.storage.Keys == storage.Keys;
    assert page.storage == storage;
  }

  /** With distinct section ids and a nav item for every section, `k` presses
      of ArrowRight from section `i` activate section `Advance(i, n, k)`, so the
      properties proved of `Advance` hold of the page. */
  method PressNext(page: Controller.ViewState, i: nat, k: nat)
    requires page.Valid() && i < |page.sectionIds|
    requires page.sectionActive == Exclusive(|page.sectionIds|, i)
    requires forall a, b :: 0 <= a < b < |page.sectionIds| ==> page.sectionIds[a] != page.sectionIds[b]
    requires forall a :: 0 <= a < |page.sectionIds| ==> page.sectionIds[a] in page.navTargets
    modifies page`navActive, page`sectionActive, page`storage
    ensures page.Valid()
    ensures page.sectionActive == Exclusive(|page.sectionIds|, Keyboard.Advance(i, |page.sectionIds|, k))
  {
    var n := |page.sectionIds|;
    var j := 0;
    while j < k
      invariant j <= k && page.Valid()
      invariant page.sectionActive == Exclusive(n, Keyboard.Advance(i, n, j))
    {
      var c := Keyboard.Advance(i, n, j);
      CountExclusive(n, c);
      IndexOfDistinct(page.sectionIds, c);
      assert page.CurrentIndex() == c;
      var next := Keyboard.NextIndex(c, n);
      IndexOfDistinct(page.sectionIds, next);
      page.KeyDown("ArrowRight");
      j := j + 1;
    }
  }

  /** Keyboard navigation stops at a section that no nav item leads to: with
      nav items only for intro and ops, ArrowRight on intro changes nothing. */
  method StuckWithoutNavItem() returns (afterKey: seq<bool>)
    ensures afterKey == [true, false, false]
  {
    var feature := new Controller.TabGroup("feature-", [], [], [], []);
    var example := new Controller.TabGroup("example-", [], [], [], []);
    var page := new Controller.ViewState(["intro", "ops"], ["intro", "design", "ops"],
                                         ["Overview", "Design notes", "Operations"],
                                         [true, false], [true, false, false], [],
                                         feature, example, map[]);
    assert page.CurrentIndex() == 0;
    assert "design" !in page.navTargets;
    page.KeyDown("ArrowRight");
    afterKey := page.sectionActive;
  }
}
