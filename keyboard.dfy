/** The index arithmetic of the keydown handler: the arrow keys move the
    current section cyclically through the `n` sections of the page. */
module Keyboard {
  import opened Collections

  /** ArrowRight and ArrowDown move to the next section. */
  predicate IsNextKey(key: string)
  {
    key == "ArrowRight" || key == "ArrowDown"
  }

  /** ArrowLeft and ArrowUp move to the previous section. */
  predicate IsPrevKey(key: string)
  {
    key == "ArrowLeft" || key == "ArrowUp"
  }

  /** `(currentIndex + 1) % sectionIds.length`; the index is never negative,
      so the remainder is the same in JavaScript and in Dafny. */
  function NextIndex(i: nat, n: nat): (r: nat)
    requires i < n
    ensures r < n
    ensures i < n - 1 ==> r == i + 1
    ensures i == n - 1 ==> r == 0
  {
    (i + 1) % n
  }

  /** `currentIndex === 0 ? sectionIds.length - 1 : currentIndex - 1`. */
  function PrevIndex(i: nat, n: nat): (r: nat)
    requires i < n
    ensures r < n
    ensures NextIndex(r, n) == i
  {
    if i == 0 then n - 1 else i - 1
  }

  /** Moving forward then back returns to the start. */
  lemma PrevUndoesNext(i: nat, n: nat)
    requires i < n
    ensures PrevIndex(NextIndex(i, n), n) == i
  {
  }

  /** The section a key moves to from section `i`, or `None` for a key the
      handler ignores. */
  function Target(key: string, i: nat, n: nat): (r: Option<nat>)
    requires i < n
    ensures r.Some? <==> IsNextKey(key) || IsPrevKey(key)
    ensures r.Some? ==> r.value < n
    ensures IsNextKey(key) ==> r == Some(NextIndex(i, n))
    ensures IsPrevKey(key) ==> r == Some(PrevIndex(i, n))
  {
    if IsNextKey(key) then Some(NextIndex(i, n))
    else if IsPrevKey(key) then Some(PrevIndex(i, n))
    else None
  }

  /** The index reached from `i` by `k` steps of the "next" arithmetic. On the
      page this is the section `k` presses of a "next" key activate only when
      section ids are distinct and every section has a nav item: a press
      towards a section without one does nothing, and a repeated id sends the
      current index back to its first occurrence. */
  function Advance(i: nat, n: nat, k: nat): (r: nat)
    requires i < n
    ensures r < n
  {
    if k == 0 then i else NextIndex(Advance(i, n, k - 1), n)
  }

  /** Before the end is reached, each step moves one index on. */
  lemma {:induction false} AdvanceWithinRange(i: nat, n: nat, k: nat)
    requires i + k < n
    ensures Advance(i, n, k) == i + k
  {
    if k > 0 {
      AdvanceWithinRange(i, n, k - 1);
    }
  }

  /** Past the last section the count starts again from the first. */
  lemma {:induction false} AdvanceWrapsOnce(i: nat, n: nat, k: nat)
    requires i < n <= i + k < 2 * n
    ensures Advance(i, n, k) == i + k - n
  {
    if i + k == n {
      AdvanceWithinRange(i, n, k - 1);
    } else {
      AdvanceWrapsOnce(i, n, k - 1);
    }
  }

  /** Steps add up: `a` steps followed by `b` steps are `a + b` steps. */
  lemma {:induction false} AdvanceCompose(i: nat, n: nat, a: nat, b: nat)
    requires i < n
    ensures Advance(i, n, a + b) == Advance(Advance(i, n, a), n, b)
  {
    if b > 0 {
      AdvanceCompose(i, n, a, b - 1);
    }
  }

  /** `n` steps go once round the indices and come back, so the walk is
      periodic, and every index is reached from every other. */
  lemma CycleVisitsAll(i: nat, j: nat, n: nat, k: nat)
    requires i < n && j < n
    ensures Advance(i, n, n) == i
    ensures Advance(i, n, k + n) == Advance(i, n, k)
    ensures Advance(i, n, if i <= j then j - i else n - i + j) == j
  {
    AdvanceWrapsOnce(i, n, n);
    AdvanceCompose(i, n, n, k);
    assert n + k == k + n;
    if i <= j {
      AdvanceWithinRange(i, n, j - i);
    } else {
      AdvanceWrapsOnce(i, n, n - i + j);
    }
  }

  /** Pressing a "next" key on the last of three sections wraps to the first. */
  lemma WrapsToFirst()
    ensures Target("ArrowRight", 2, 3) == Some(0)
    ensures Target("ArrowUp", 0, 3) == Some(2)
    ensures Target("Enter", 1, 3) == None
  {
  }
}
