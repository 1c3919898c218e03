/** The view state of the course page and its event handlers. The static
    markup (identifiers, attributes, text content) is held in constants; the
    classes the handlers add and remove (`active`, `expanded`), the sections'
    inline display and the browser's `localStorage` are fields that the
    handlers update. */
module Controller {
  import opened Collections
  import opened Text
  import Keyboard
  import Layers
  import Progress
  import Search

  /** A group of tabs, each showing the panel whose id is the group's prefix
      followed by the tab's key (`feature-<key>`, `example-<key>`). */
  class TabGroup {
    const prefix: string
    /** The `data-feature` / `data-example` attribute of each tab. */
    const keys: seq<string>
    /** The id of each panel. */
    const panelIds: seq<string>
    var tabActive: seq<bool>
    var panelActive: seq<bool>

    ghost predicate Valid()
      reads this
    {
      |tabActive| == |keys| && |panelActive| == |panelIds|
    }

    constructor (prefix: string, keys: seq<string>, panelIds: seq<string>,
                 tabActive: seq<bool>, panelActive: seq<bool>)
      requires |tabActive| == |keys| && |panelActive| == |panelIds|
      ensures Valid()
      ensures this.prefix == prefix && this.keys == keys && this.panelIds == panelIds
      ensures this.tabActive == tabActive && this.panelActive == panelActive
    {
      this.prefix, this.keys, this.panelIds := prefix, keys, panelIds;
      this.tabActive, this.panelActive := tabActive, panelActive;
    }

    /** Tab `t` and the first panel named after its key are the only active
        members of the group. */
    ghost predicate Shows(t: nat)
      reads this
      requires t < |keys| && prefix + keys[t] in panelIds
    {
      tabActive == Exclusive(|keys|, t) &&
      panelActive == Exclusive(|panelIds|, IndexOf(panelIds, prefix + keys[t]))
    }

    /** The click handler of a tab. */
    method Click(t: nat)
      requires Valid()
      requires t < |keys|
      requires prefix + keys[t] in panelIds   // getElementById must find the panel
      modifies this
      ensures Valid() && Shows(t)
      ensures CountSet(tabActive) == 1 && CountSet(panelActive) == 1
      ensures forall i, j :: 0 <= i < |keys| && 0 <= j < |panelIds| && tabActive[i] && panelActive[j] ==>
                i == t && panelIds[j] == prefix + keys[i]
    {
      tabActive := ClearFlags(tabActive);
      panelActive := ClearFlags(panelActive);
      tabActive := tabActive[t := true];
      panelActive := panelActive[IndexOf(panelIds, prefix + keys[t]) := true];
      SelectionPairs(|keys|, panelIds, t, prefix + keys[t]);
      assert tabActive == Exclusive(|keys|, t);
      assert panelActive == Exclusive(|panelIds|, IndexOf(panelIds, prefix + keys[t]));
    }
  }

  class ViewState {
    /** The `data-section` attribute of each nav item. */
    const navTargets: seq<string>
    /** The id of each section. */
    const sectionIds: seq<string>
    /** The text content of each section. */
    const sectionTexts: seq<string>
    const layerCount: nat
    const feature: TabGroup
    const example: TabGroup

    var navActive: seq<bool>
    var sectionActive: seq<bool>
    /** False exactly when the section's inline `style.display` is `'none'`. */
    var sectionVisible: seq<bool>
    var layerExpanded: seq<bool>
    var storage: map<string, string>

    ghost predicate Valid()
      reads this, feature, example
    {
      |navActive| == |navTargets| &&
      |sectionActive| == |sectionIds| && |sectionVisible| == |sectionIds| &&
      |sectionTexts| == |sectionIds| && |layerExpanded| == layerCount &&
      (forall k :: 0 <= k < |sectionIds| ==> sectionIds[k] != "") &&
      feature != example && feature.Valid() && example.Valid() &&
      feature.prefix == "feature-" && example.prefix == "example-"
    }

    /** The page as authored, before `loadProgress` runs; `storage` is what
        `localStorage` holds from earlier visits. */
    constructor (navTargets: seq<string>, sectionIds: seq<string>, sectionTexts: seq<string>,
                 navActive: seq<bool>, sectionActive: seq<bool>, layerExpanded: seq<bool>,
                 feature: TabGroup, example: TabGroup, storage: map<string, string>)
      requires |navActive| == |navTargets|
      requires |sectionActive| == |sectionIds| == |sectionTexts|
      requires forall k :: 0 <= k < |sectionIds| ==> sectionIds[k] != ""
      requires feature != example && feature.Valid() && example.Valid()
      requires feature.prefix == "feature-" && example.prefix == "example-"
      ensures Valid()
      ensures this.navTargets == navTargets && this.sectionIds == sectionIds
      ensures this.sectionTexts == sectionTexts && this.layerCount == |layerExpanded|
      ensures this.feature == feature && this.example == example
      ensures this.navActive == navActive && this.sectionActive == sectionActive
      ensures this.sectionVisible == seq(|sectionIds|, k => true)
      ensures this.layerExpanded == layerExpanded && this.storage == storage
    {
      this.navTargets, this.sectionIds, this.sectionTexts := navTargets, sectionIds, sectionTexts;
      this.layerCount := |layerExpanded|;
      this.feature, this.example := feature, example;
      this.navActive, this.sectionActive := navActive, sectionActive;
      this.sectionVisible := seq(|sectionIds|, k => true);
      this.layerExpanded, this.storage := layerExpanded, storage;
    }

    /** Nav item `n` and the first section whose id is its `data-section` are
        the only active ones. */
    ghost predicate ShowsSection(n: nat)
      reads this
      requires n < |navTargets| && navTargets[n] in sectionIds
    {
      navActive == Exclusive(|navTargets|, n) &&
      sectionActive == Exclusive(|sectionIds|, IndexOf(sectionIds, navTargets[n]))
    }

    /** The position, among all sections, of the id of the first active
        section (`sectionIds.indexOf(querySelector('.section.active').id)`). */
    function CurrentIndex(): (r: nat)
      reads this
      requires |sectionActive| == |sectionIds| && true in sectionActive
      ensures r <= IndexOf(sectionActive, true) && sectionIds[r] == sectionIds[IndexOf(sectionActive, true)]
      ensures forall j :: 0 <= j < r ==> sectionIds[j] != sectionIds[IndexOf(sectionActive, true)]
    {
      IndexOf(sectionIds, sectionIds[IndexOf(sectionActive, true)])
    }

    /** `saveProgress`: record the id of the first active section, if any,
        under the progress key, and nothing else. */
    method SaveProgress()
      requires Valid()
      modifies this`storage
      ensures Valid()
      ensures true in sectionActive ==>
                storage == old(storage)[Progress.ProgressKey := sectionIds[IndexOf(sectionActive, true)]]
      ensures true !in sectionActive ==> storage == old(storage)
    {
      if true in sectionActive {
        storage := storage[Progress.ProgressKey := sectionIds[IndexOf(sectionActive, true)]];
      }
    }

    /** A click on nav item `n`: the navigation handler, then the
        `saveProgress` listener registered after it. */
    method ClickNavItem(n: nat)
      requires Valid()
      requires n < |navTargets|
      requires navTargets[n] in sectionIds   // getElementById must find the section
      modifies this`navActive, this`sectionActive, this`storage
      ensures Valid() && ShowsSection(n)
      ensures CountSet(navActive) == 1 && CountSet(sectionActive) == 1
      ensures forall i, j ::
                (0 <= i < |navTargets| && 0 <= j < |sectionIds| && navActive[i] && sectionActive[j]) ==>
                i == n && sectionIds[j] == navTargets[n]
      ensures storage == old(storage)[Progress.ProgressKey := navTargets[n]]
    {
      SelectionPairs(|navTargets|, sectionIds, n, navTargets[n]);
      var target := IndexOf(sectionIds, navTargets[n]);
      navActive := ClearFlags(navActive);
      sectionActive := ClearFlags(sectionActive);
      navActive := navActive[n := true];
      sectionActive := sectionActive[target := true];
      CountExclusive(|sectionIds|, target);
      assert sectionActive == Exclusive(|sectionIds|, target);
      SaveProgress();
    }

    /** A click on tab `t` of the feature group. */
    method ClickFeatureTab(t: nat)
      requires Valid()
      requires t < |feature.keys| && "feature-" + feature.keys[t] in feature.panelIds
      modifies feature
      ensures Valid() && feature.Shows(t)
      ensures unchanged(this) && unchanged(example)
    {
      feature.Click(t);
    }

    /** A click on tab `t` of the example group. */
    method ClickExampleTab(t: nat)
      requires Valid()
      requires t < |example.keys| && "example-" + example.keys[t] in example.panelIds
      modifies example
      ensures Valid() && example.Shows(t)
      ensures unchanged(this) && unchanged(feature)
    {
      example.Click(t);
    }

    /** A click on layer `k`: toggle it, then close every other layer. */
    method ClickLayer(k: nat)
      requires Valid()
      requires k < |layerExpanded|
      modifies this`layerExpanded
      ensures Valid()
      ensures layerExpanded == Layers.Toggled(old(layerExpanded), k)
    {
      var e := layerExpanded[k := !layerExpanded[k]];
      var j := 0;
      while j < |e|
        invariant |e| == |layerExpanded| && j <= |e|
        invariant e[k] == !layerExpanded[k]
        invariant forall m :: 0 <= m < j && m != k ==> !e[m]
      {
        if j != k {
          e := e[j := false];
        }
        j := j + 1;
      }
      layerExpanded := e;
    }

    /** The keydown handler: an arrow key clicks the nav item of the next or
        previous section, when there is one; any other key changes nothing. */
    method KeyDown(key: string)
      requires Valid()
      requires true in sectionActive   // querySelector('.section.active') must find one
      modifies this`navActive, this`sectionActive, this`storage
      ensures Valid()
      ensures var t := Keyboard.Target(key, old(CurrentIndex()), |sectionIds|);
              if t.Some? && sectionIds[t.value] in navTargets then
                ShowsSection(IndexOf(navTargets, sectionIds[t.value])) &&
                storage == old(storage)[Progress.ProgressKey := sectionIds[t.value]]
              else
                navActive == old(navActive) && sectionActive == old(sectionActive) &&
                storage == old(storage)
    {
      var n := |sectionIds|;
      var current := CurrentIndex();
      var t := Keyboard.Target(key, current, n);
      if t.Some? {
        var id := sectionIds[t.value];
        if id in navTargets {
          ClickNavItem(IndexOf(navTargets, id));
        }
      }
    }

    /** `loadProgress` at start-up. */
    method LoadProgress()
      requires Valid()
      modifies this`navActive, this`sectionActive, this`storage
      ensures Valid() && storage == old(storage)
      ensures var r := Progress.RestoreTarget(old(storage), sectionIds, navTargets);
              if r.Some? then ShowsSection(r.value)
              else navActive == old(navActive) && sectionActive == old(sectionActive)
    {
      var r := Progress.RestoreTarget(storage, sectionIds, navTargets);
      if r.Some? {
        ghost var before := storage;
        ClickNavItem(r.value);
        assert storage == before;
      }
    }

    /** One run of the debounced search handler with the typed `term`. */
    method FilterSections(term: string)
      requires Valid()
      modifies this`sectionVisible
      ensures Valid()
      ensures sectionVisible == Search.Filtered(term, sectionTexts)
    {
      var t := Lower(term);
      var v := sectionVisible;
      var j := 0;
      LowerKeepsUtf16Length(term);
      if Utf16Length(t) < 2 {
        while j < |v|
          invariant |v| == |sectionTexts| && j <= |v|
          invariant forall m :: 0 <= m < j ==> v[m]
        {
          v := v[j := true];
          j := j + 1;
        }
      } else {
        while j < |v|
          invariant |v| == |sectionTexts| && j <= |v|
          invariant forall m :: 0 <= m < j ==> v[m] == Includes(Lower(sectionTexts[m]), t)
        {
          v := v[j := Includes(Lower(sectionTexts[j]), t)];
          j := j + 1;
        }
      }
      sectionVisible := v;
    }
  }
}
