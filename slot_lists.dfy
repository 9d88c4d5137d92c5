/**
 * Per-slot lists of region indices, the arena the assignment passes work on
 * (slot i's list is `endpointFragmentMapping.get(i)`, holding region indices
 * instead of sub-scan specs). `Flatten` joins them so that "every region in
 * exactly one slot" is a multiset equation, and `Gap` sums how far the slots
 * of a heap lie above a level.
 */
module SlotLists {

  /** All lists joined, slot 0 first. */
  function Flatten(ls: seq<seq<nat>>): seq<nat>
  {
    if ls == [] then [] else Flatten(ls[..|ls| - 1]) + ls[|ls| - 1]
  }

  /** Replacing one list changes the joined multiset by exactly that list's difference. */
  lemma {:induction false} FlattenUpdate(ls: seq<seq<nat>>, i: nat, v: seq<nat>)
    requires i < |ls|
    ensures multiset(Flatten(ls[i := v])) + multiset(ls[i]) == multiset(Flatten(ls)) + multiset(v)
  {
    var n := |ls| - 1;
    var ls' := ls[i := v];
    assert Flatten(ls) == Flatten(ls[..n]) + ls[n];
    assert Flatten(ls') == Flatten(ls'[..n]) + ls'[n];
    if i == n {
      assert ls'[..n] == ls[..n];
    } else {
      assert ls'[..n] == ls[..n][i := v];
      FlattenUpdate(ls[..n], i, v);
      assert ls[..n][i] == ls[i];
      assert ls'[n] == ls[n];
      var f, f' := multiset(Flatten(ls[..n])), multiset(Flatten(ls'[..n]));
      assert f' + multiset(ls[i]) == f + multiset(v);
      assert multiset(Flatten(ls')) == f' + multiset(ls[n]);
      assert multiset(Flatten(ls)) == f + multiset(ls[n]);
      var lhs := multiset(Flatten(ls')) + multiset(ls[i]);
      var rhs := multiset(Flatten(ls)) + multiset(v);
      forall y ensures lhs[y] == rhs[y] {
        assert (f' + multiset(ls[i]))[y] == (f + multiset(v))[y];
      }
      assert lhs == rhs;
    }
  }

  /** Appending a region to one slot adds it to the joined multiset. */
  lemma FlattenAppend(ls: seq<seq<nat>>, i: nat, x: nat)
    requires i < |ls|
    ensures multiset(Flatten(ls[i := ls[i] + [x]])) == multiset(Flatten(ls)) + multiset{x}
  {
    FlattenUpdate(ls, i, ls[i] + [x]);
    assert multiset(ls[i] + [x]) == multiset(ls[i]) + multiset{x};
    var a, b := multiset(Flatten(ls[i := ls[i] + [x]])), multiset(Flatten(ls));
    assert a + multiset(ls[i]) == b + multiset(ls[i]) + multiset{x};
    forall y ensures a[y] == (b + multiset{x})[y] {
      assert (a + multiset(ls[i]))[y] == (b + multiset(ls[i]) + multiset{x})[y];
    }
    assert a == b + multiset{x};
  }

  /** Moving the last region of slot `from` to the end of slot `to` keeps the joined multiset. */
  lemma MoveLastKeepsRegions(ls: seq<seq<nat>>, from: nat, to: nat)
    requires from < |ls| && to < |ls| && from != to && ls[from] != []
    ensures var x := ls[from][|ls[from]| - 1];
      var ls' := ls[from := ls[from][..|ls[from]| - 1]];
      multiset(Flatten(ls'[to := ls'[to] + [x]])) == multiset(Flatten(ls))
  {
    var x := ls[from][|ls[from]| - 1];
    var rest := ls[from][..|ls[from]| - 1];
    assert ls[from] == rest + [x];
    var ls' := ls[from := rest];
    FlattenUpdate(ls, from, rest);
    FlattenAppend(ls', to, x);
    var a, b, c := multiset(Flatten(ls')), multiset(Flatten(ls)), multiset(Flatten(ls'[to := ls'[to] + [x]]));
    assert a + multiset(rest + [x]) == b + multiset(rest);
    assert c == a + multiset{x};
    forall y ensures c[y] == b[y] {
      assert (a + multiset(rest + [x]))[y] == (b + multiset(rest))[y];
      assert multiset(rest + [x])[y] == multiset(rest)[y] + multiset{x}[y];
    }
    assert c == b;
  }

  /** Every entry of every list is in the joined sequence. */
  lemma {:induction false} FlattenHolds(ls: seq<seq<nat>>, i: nat, j: nat)
    requires i < |ls| && j < |ls[i]|
    ensures ls[i][j] in Flatten(ls)
  {
    var n := |ls| - 1;
    assert Flatten(ls) == Flatten(ls[..n]) + ls[n];
    if i == n {
      assert Flatten(ls)[|Flatten(ls[..n])| + j] == ls[i][j];
    } else {
      FlattenHolds(ls[..n], i, j);
    }
  }

  /** The joined length is the sum of the list lengths. */
  function TotalSize(ls: seq<seq<nat>>): nat
  {
    if ls == [] then 0 else TotalSize(ls[..|ls| - 1]) + |ls[|ls| - 1]|
  }

  lemma {:induction false} FlattenLength(ls: seq<seq<nat>>)
    ensures |Flatten(ls)| == TotalSize(ls)
  {
    if ls != [] {
      FlattenLength(ls[..|ls| - 1]);
    }
  }

  // ---------------------------------------------------------------------
  // Gap: the sum of (size - level) over the slots below k that lie in a heap

  function Gap(ls: seq<seq<nat>>, heap: set<nat>, level: int, k: nat): int
    requires k <= |ls|
  {
    if k == 0 then 0
    else Gap(ls, heap, level, k - 1) + (if k - 1 in heap then |ls[k - 1]| - level else 0)
  }

  /** Changing one list changes the gap by the change of its length, when the slot is in the heap. */
  lemma {:induction false} GapUpdate(ls: seq<seq<nat>>, heap: set<nat>, level: int, k: nat, i: nat, v: seq<nat>)
    requires k <= |ls| && i < |ls|
    ensures Gap(ls[i := v], heap, level, k)
         == Gap(ls, heap, level, k) + (if i < k && i in heap then |v| - |ls[i]| else 0)
  {
    if k > 0 {
      GapUpdate(ls, heap, level, k - 1, i, v);
    }
  }

  /** Removing a slot from the heap removes its term. */
  lemma {:induction false} GapRemove(ls: seq<seq<nat>>, heap: set<nat>, level: int, k: nat, i: nat)
    requires k <= |ls|
    ensures Gap(ls, heap - {i}, level, k)
         == Gap(ls, heap, level, k) - (if i < k && i in heap then |ls[i]| - level else 0)
  {
    if k > 0 {
      GapRemove(ls, heap, level, k - 1, i);
    }
  }

  /** Adding a slot to the heap adds its term. */
  lemma {:induction false} GapAdd(ls: seq<seq<nat>>, heap: set<nat>, level: int, k: nat, i: nat)
    requires k <= |ls| && i !in heap
    ensures Gap(ls, heap + {i}, level, k)
         == Gap(ls, heap, level, k) + (if i < k then |ls[i]| - level else 0)
  {
    if k > 0 {
      GapAdd(ls, heap, level, k - 1, i);
    }
  }

  /** If no heap slot lies above the level the gap is not positive; one slot strictly below makes it negative. */
  lemma {:induction false} GapNotPositive(ls: seq<seq<nat>>, heap: set<nat>, level: int, k: nat)
    requires k <= |ls|
    requires forall i :: i in heap && i < k ==> |ls[i]| <= level
    ensures Gap(ls, heap, level, k) <= 0
    ensures (exists j :: j in heap && j < k && |ls[j]| < level) ==> Gap(ls, heap, level, k) < 0
  {
    if k > 0 {
      GapNotPositive(ls, heap, level, k - 1);
    }
  }

  /** A positive gap has a heap slot above the level. */
  lemma {:induction false} GapPositiveWitness(ls: seq<seq<nat>>, heap: set<nat>, level: int, k: nat) returns (i: nat)
    requires k <= |ls| && Gap(ls, heap, level, k) > 0
    ensures i in heap && i < k && |ls[i]| > level
  {
    if k - 1 in heap && |ls[k - 1]| > level {
      i := k - 1;
    } else {
      i := GapPositiveWitness(ls, heap, level, k - 1);
    }
  }

  /** A heap whose slots all sit at the level has gap 0. */
  lemma {:induction false} GapAtLevel(ls: seq<seq<nat>>, heap: set<nat>, level: int, k: nat)
    requires k <= |ls|
    requires forall i :: i in heap && i < k ==> |ls[i]| == level
    ensures Gap(ls, heap, level, k) == 0
  {
    if k > 0 {
      GapAtLevel(ls, heap, level, k - 1);
    }
  }

  /** A heap with no slot below k has gap 0. */
  lemma {:induction false} GapOfEmpty(ls: seq<seq<nat>>, heap: set<nat>, level: int, k: nat)
    requires k <= |ls|
    requires forall i :: i in heap ==> i >= k
    ensures Gap(ls, heap, level, k) == 0
  {
    if k > 0 {
      GapOfEmpty(ls, heap, level, k - 1);
    }
  }

  /** When every slot outside the heap sits exactly at the level, the heap's gap is the total excess over the level. */
  lemma {:induction false} GapOfAllButLevel(ls: seq<seq<nat>>, heap: set<nat>, level: int, k: nat)
    requires k <= |ls|
    requires forall i :: 0 <= i < k && i !in heap ==> |ls[i]| == level
    ensures Gap(ls, heap, level, k) == TotalSize(ls[..k]) - k * level
  {
    if k > 0 {
      GapOfAllButLevel(ls, heap, level, k - 1);
      assert ls[..k][..k - 1] == ls[..k - 1];
    }
  }

  // ---------------------------------------------------------------------
  // Priority-queue heads: some slot of least (greatest) size exists in every non-empty heap

  lemma {:induction false} SmallestExists(ls: seq<seq<nat>>, heap: set<nat>)
    requires heap != {} && forall i :: i in heap ==> i < |ls|
    ensures exists s :: s in heap && forall u :: u in heap ==> |ls[s]| <= |ls[u]|
    decreases heap
  {
    var x :| x in heap;
    if heap != {x} {
      SmallestExists(ls, heap - {x});
      var y :| y in heap - {x} && forall u :: u in heap - {x} ==> |ls[y]| <= |ls[u]|;
      if |ls[x]| < |ls[y]| {
        assert forall u :: u in heap ==> |ls[x]| <= |ls[u]|;
      } else {
        assert forall u :: u in heap ==> |ls[y]| <= |ls[u]|;
      }
    } else {
      assert forall u :: u in heap ==> |ls[x]| <= |ls[u]|;
    }
  }

  lemma {:induction false} LargestExists(ls: seq<seq<nat>>, heap: set<nat>)
    requires heap != {} && forall i :: i in heap ==> i < |ls|
    ensures exists s :: s in heap && forall u :: u in heap ==> |ls[u]| <= |ls[s]|
    decreases heap
  {
    var x :| x in heap;
    if heap != {x} {
      LargestExists(ls, heap - {x});
      var y :| y in heap - {x} && forall u :: u in heap - {x} ==> |ls[u]| <= |ls[y]|;
      if |ls[x]| > |ls[y]| {
        assert forall u :: u in heap ==> |ls[u]| <= |ls[x]|;
      } else {
        assert forall u :: u in heap ==> |ls[u]| <= |ls[y]|;
      }
    } else {
      assert forall u :: u in heap ==> |ls[u]| <= |ls[x]|;
    }
  }
}
