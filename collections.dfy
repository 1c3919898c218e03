/** Per-element boolean flags, one per element of a collection of the page
    (the `active` class on nav items, sections, tabs and panels, the
    `expanded` class on layers), and first-match lookup in a sequence, which
    is what `indexOf`, `getElementById` and `querySelector` return. */
module Collections {

  datatype Option<+T> = None | Some(value: T)

  /** Position of the first occurrence of `x` in `s`. */
  function IndexOf<T(==)>(s: seq<T>, x: T): (r: nat)
    requires x in s
    ensures r < |s| && s[r] == x
    ensures forall j :: 0 <= j < r ==> s[j] != x
  {
    if s[0] == x then 0 else 1 + IndexOf(s[1..], x)
  }

  /** The element at `k` is found at `k` itself exactly when no earlier
      element equals it; with distinct elements that is always the case. */
  lemma IndexOfDistinct<T>(s: seq<T>, k: nat)
    requires k < |s|
    requires forall i, j :: 0 <= i < j < |s| ==> s[i] != s[j]
    ensures IndexOf(s, s[k]) == k
  {
  }

  /** `n` flags of which exactly the one at `k` is set. */
  function Exclusive(n: nat, k: nat): seq<bool>
  {
    seq(n, j => j == k)
  }

  /** `n` cleared flags. */
  function AllClear(n: nat): seq<bool>
  {
    seq(n, j => false)
  }

  /** Number of set flags: the reference against which "exactly one" and
      "at most one" are stated. */
  function CountSet(s: seq<bool>): nat
  {
    if s == [] then 0 else CountSet(s[..|s| - 1]) + (if s[|s| - 1] then 1 else 0)
  }

  lemma {:induction false} CountSetZero(s: seq<bool>)
    ensures CountSet(s) == 0 <==> forall j :: 0 <= j < |s| ==> !s[j]
  {
    if s != [] {
      var p := s[..|s| - 1];
      CountSetZero(p);
      assert forall j :: 0 <= j < |p| ==> p[j] == s[j];
    }
  }

  /** `CountSet` is 1 exactly for the sequences `Exclusive` builds. */
  lemma {:induction false} ExactlyOneSet(s: seq<bool>)
    ensures CountSet(s) == 1 <==> exists k :: 0 <= k < |s| && s == Exclusive(|s|, k)
  {
    if s == [] {
      return;
    }
    var n := |s|;
    var p := s[..n - 1];
    ExactlyOneSet(p);
    CountSetZero(p);
    if exists k :: 0 <= k < n && s == Exclusive(n, k) {
      var k :| 0 <= k < n && s == Exclusive(n, k);
      if k == n - 1 {
        assert forall j :: 0 <= j < |p| ==> !p[j];
      } else {
        assert p == Exclusive(n - 1, k);
      }
    }
    if CountSet(s) == 1 {
      if s[n - 1] {
        assert forall j :: 0 <= j < n ==> s[j] == (j == n - 1) by {
          assert forall j :: 0 <= j < n - 1 ==> p[j] == s[j];
        }
        assert s == Exclusive(n, n - 1);
      } else {
        var k :| 0 <= k < |p| && p == Exclusive(|p|, k);
        assert forall j :: 0 <= j < n ==> s[j] == (j == k) by {
          assert forall j :: 0 <= j < n - 1 ==> p[j] == s[j];
        }
        assert s == Exclusive(n, k);
      }
    }
  }

  lemma CountExclusive(n: nat, k: nat)
    requires k < n
    ensures CountSet(Exclusive(n, k)) == 1
    ensures Exclusive(n, k)[k] && IndexOf(Exclusive(n, k), true) == k
  {
    assert Exclusive(n, k)[k];
    ExactlyOneSet(Exclusive(n, k));
  }

  lemma CountAllClear(n: nat)
    ensures CountSet(AllClear(n)) == 0
    ensures true !in AllClear(n)
  {
    CountSetZero(AllClear(n));
  }

  /** One selection within a group of mutually exclusive elements: the
      clicked one and the one whose identifier is `target`. Afterwards each of
      the two collections holds exactly one set flag, and any set pair is the
      clicked element together with an element named `target`. */
  lemma SelectionPairs(n: nat, ids: seq<string>, clicked: nat, target: string)
    requires clicked < n && target in ids
    ensures CountSet(Exclusive(n, clicked)) == 1
    ensures CountSet(Exclusive(|ids|, IndexOf(ids, target))) == 1
    ensures forall i, j ::
              (0 <= i < n && 0 <= j < |ids| &&
               Exclusive(n, clicked)[i] && Exclusive(|ids|, IndexOf(ids, target))[j]) ==>
              i == clicked && ids[j] == target
  {
    CountExclusive(n, clicked);
    CountExclusive(|ids|, IndexOf(ids, target));
  }

  /** One pass of `forEach(x => x.classList.remove(...))` over a collection. */
  method ClearFlags(s: seq<bool>) returns (r: seq<bool>)
    ensures r == AllClear(|s|)
  {
    r := s;
    var j := 0;
    while j < |r|
      invariant |r| == |s| && j <= |r|
      invariant forall m :: 0 <= m < j ==> !r[m]
    {
      r := r[j := false];
      j := j + 1;
    }
  }
}
