/** Progress persistence: the single storage entry that records the active
    section, and which nav item `loadProgress` clicks at start-up. */
module Progress {
  import opened Collections

  /** The one key the page writes to `localStorage`. */
  const ProgressKey: string := "jakartaEE_currentSection"

  /** The nav item `loadProgress` clicks: the first one whose `data-section`
      is the stored id, provided the entry is present, non-empty and names a
      section. */
  function RestoreTarget(storage: map<string, string>, sectionIds: seq<string>,
                         navTargets: seq<string>): (r: Option<nat>)
    ensures r.Some? ==> r.value < |navTargets| && ProgressKey in storage &&
                        storage[ProgressKey] != "" &&
                        navTargets[r.value] == storage[ProgressKey] &&
                        storage[ProgressKey] in sectionIds
    ensures r.Some? ==> forall j :: 0 <= j < r.value ==> navTargets[j] != storage[ProgressKey]
  {
    if ProgressKey in storage && storage[ProgressKey] != "" &&
       storage[ProgressKey] in sectionIds && storage[ProgressKey] in navTargets
    then Some(IndexOf(navTargets, storage[ProgressKey]))
    else None
  }

  /** The page restores nothing when the entry is absent, empty, or names no
      section; otherwise it restores exactly when a nav item leads to that
      section. */
  lemma RestoreOnlyKnownSections(storage: map<string, string>, sectionIds: seq<string>,
                                 navTargets: seq<string>)
    ensures ProgressKey !in storage ==> RestoreTarget(storage, sectionIds, navTargets) == None
    ensures ProgressKey in storage && storage[ProgressKey] == "" ==>
              RestoreTarget(storage, sectionIds, navTargets) == None
    ensures ProgressKey in storage && storage[ProgressKey] !in sectionIds ==>
              RestoreTarget(storage, sectionIds, navTargets) == None
    ensures ProgressKey in storage && storage[ProgressKey] != "" &&
            storage[ProgressKey] in sectionIds ==>
              (RestoreTarget(storage, sectionIds, navTargets).Some? <==>
               storage[ProgressKey] in navTargets)
  {
  }

  /** Round trip: after saving the id of a section that some nav item leads
      to, loading clicks a nav item leading to that same id, whatever else the
      storage holds. With distinct section ids the restored section is the
      saved one. */
  lemma SaveThenRestore(storage: map<string, string>, sectionIds: seq<string>,
                        navTargets: seq<string>, a: nat)
    requires a < |sectionIds| && sectionIds[a] != "" && sectionIds[a] in navTargets
    ensures var r := RestoreTarget(storage[ProgressKey := sectionIds[a]], sectionIds, navTargets);
            r.Some? && navTargets[r.value] == sectionIds[a] &&
            ((forall i, j :: 0 <= i < j < |sectionIds| ==> sectionIds[i] != sectionIds[j]) ==>
               IndexOf(sectionIds, navTargets[r.value]) == a)
  {
    if forall i, j :: 0 <= i < j < |sectionIds| ==> sectionIds[i] != sectionIds[j] {
      IndexOfDistinct(sectionIds, a);
    }
  }

  /** Entries under other keys do not influence the restore. */
  lemma RestoreReadsOnlyProgressKey(storage: map<string, string>, key: string, value: string,
                                    sectionIds: seq<string>, navTargets: seq<string>)
    requires key != ProgressKey
    ensures RestoreTarget(storage[key := value], sectionIds, navTargets) ==
            RestoreTarget(storage, sectionIds, navTargets)
  {
  }
}
