/**
 * The second and third phases of `applyAssignments`: the fill pass, which hands
 * the regions the locality pass left over to the least-loaded slots below the
 * floor, and the rebalance pass, which moves regions from the longest lists to
 * the shortest until no queued slot is below the floor.
 *
 * The two priority queues hold slot indices; a poll takes any slot of least
 * (min-heap) or greatest (max-heap) list size, since the source's tie-breaking
 * is unspecified.
 */
module Balance {
  import opened SlotLists
  import opened JavaInts

  const INT_MAX: int := 0x7fff_ffff

  /**
   * `(int) Math.floor((double) p / n)`: the floor of P/N, and for N = 0 the
   * double quotient is infinite (P > 0, cast to Integer.MAX_VALUE) or NaN (P = 0, cast to 0).
   */
  function MinPerSlot(p: nat, n: nat): (m: int)
    requires p <= INT_MAX
    ensures n > 0 ==> 0 <= n * m <= p < n * (m + 1)
    ensures n == 0 ==> m == (if p == 0 then 0 else INT_MAX)
    ensures 0 <= m && (1 <= n <= p ==> 1 <= m)
  {
    if n == 0 then (if p == 0 then 0 else INT_MAX)
    else
      var q := p / n;
      assert n * (q + 1) == n * q + n;
      DivBounds(p, n);
      assert n <= p ==> 1 <= q by {
        if n <= p {
          assert p == n * q + p % n;
          assert q != 0;
        }
      }
      q
  }

  /** `(int) Math.ceil((double) p / n)`: the ceiling of P/N, one above the floor exactly when N does not divide P. */
  function MaxPerSlot(p: nat, n: nat): (m: int)
    requires p <= INT_MAX
    ensures n > 0 ==> n * (m - 1) < p <= n * m
    ensures m == MinPerSlot(p, n) || (n > 0 && m == MinPerSlot(p, n) + 1)
  {
    if n == 0 then (if p == 0 then 0 else INT_MAX)
    else
      var q := p / n;
      assert n * (q + 1) == n * q + n;
      assert n * (q - 1) == n * q - n;
      if p % n == 0 then q else q + 1
  }

  /** The slots whose list is shorter than `level`: the slots offered to the min-heap. */
  function Below(ls: seq<seq<nat>>, level: int): (b: set<nat>)
    ensures forall i: nat :: i in b <==> i < |ls| && |ls[i]| < level
  {
    set i | 0 <= i < |ls| && |ls[i]| < level
  }

  /** The slots whose list is longer than `level`: the slots offered to the max-heap. */
  function Above(ls: seq<seq<nat>>, level: int): (b: set<nat>)
    ensures forall i: nat :: i in b <==> i < |ls| && |ls[i]| > level
  {
    set i | 0 <= i < |ls| && |ls[i]| > level
  }

  /**
   * How many regions the fill pass can place before its heap runs dry: each slot
   * below the floor takes regions until its list reaches the ceiling.
   */
  function FillCapacity(ls: seq<seq<nat>>, minPer: int, maxPer: int): (c: int)
    requires minPer <= maxPer
    ensures c >= 0
  {
    GapNotPositive(ls, Below(ls, minPer), maxPer, |ls|);
    -Gap(ls, Below(ls, minPer), maxPer, |ls|)
  }

  // ---------------------------------------------------------------------
  // Fill pass (lines 282-303)

  /**
   * What the fill pass keeps after placing the first t leftover regions: the
   * heap holds slots that started below the floor and are still below the
   * ceiling, the slots that left it sit at the ceiling, no other slot changed,
   * every region placed is in exactly one list, and the heap's slots have
   * absorbed t of the capacity.
   */
  ghost predicate FillInvariant(ls0: seq<seq<nat>>, rest: seq<nat>, t: nat, minPer: int, maxPer: int,
                                ls: seq<seq<nat>>, minH: set<nat>)
    requires t <= |rest| && minPer <= maxPer
  {
    var low := Below(ls0, minPer);
    && |ls| == |ls0|
    && minH <= low
    && (forall i :: i in minH ==> |ls[i]| < maxPer)
    && (forall i :: i in low && i !in minH ==> |ls[i]| == maxPer)
    && (forall i :: 0 <= i < |ls0| && i !in low ==> ls[i] == ls0[i])
    && (forall i :: 0 <= i < |ls0| ==> |ls0[i]| <= |ls[i]| && ls[i][..|ls0[i]|] == ls0[i])
    && multiset(Flatten(ls)) == multiset(Flatten(ls0)) + multiset(rest[..t])
    && Gap(ls, low, maxPer, |ls|) == t - FillCapacity(ls0, minPer, maxPer)
    && ((exists i :: i in minH && |ls[i]| < minPer) ==> forall i :: i in low ==> |ls[i]| <= minPer)
  }

  lemma FillStart(ls0: seq<seq<nat>>, rest: seq<nat>, minPer: int, maxPer: int)
    requires minPer <= maxPer
    ensures FillInvariant(ls0, rest, 0, minPer, maxPer, ls0, Below(ls0, minPer))
  {
    assert rest[..0] == [];
    forall i | 0 <= i < |ls0| ensures ls0[i][..|ls0[i]|] == ls0[i] {
    }
  }

  lemma AppendKeepsBag(ls0: seq<seq<nat>>, rest: seq<nat>, t: nat, ls: seq<seq<nat>>, s: nat)
    requires t < |rest| && s < |ls|
    requires multiset(Flatten(ls)) == multiset(Flatten(ls0)) + multiset(rest[..t])
    ensures multiset(Flatten(ls[s := ls[s] + [rest[t]]])) == multiset(Flatten(ls0)) + multiset(rest[..t + 1])
  {
    assert rest[..t + 1] == rest[..t] + [rest[t]];
    FlattenAppend(ls, s, rest[t]);
  }

  lemma AppendKeepsPrefixes(ls0: seq<seq<nat>>, ls: seq<seq<nat>>, s: nat, x: nat)
    requires |ls| == |ls0| && s < |ls|
    requires forall i :: 0 <= i < |ls0| ==> |ls0[i]| <= |ls[i]| && ls[i][..|ls0[i]|] == ls0[i]
    ensures var ls' := ls[s := ls[s] + [x]];
      forall i :: 0 <= i < |ls0| ==> |ls0[i]| <= |ls'[i]| && ls'[i][..|ls0[i]|] == ls0[i]
  {
    var ls' := ls[s := ls[s] + [x]];
    assert ls'[s][..|ls0[s]|] == ls[s][..|ls0[s]|];
  }

  /** Growing a smallest heap slot by one keeps "while some heap slot is below the floor, no starting-low slot is above it". */
  lemma AppendKeepsLevel(low: set<nat>, minPer: int, maxPer: int, ls: seq<seq<nat>>, minH: set<nat>, s: nat, x: nat)
    requires maxPer <= minPer + 1 && minH <= low && s in minH && s < |ls|
    requires forall u :: u in minH ==> u < |ls| && |ls[s]| <= |ls[u]|
    requires forall i :: i in low ==> i < |ls|
    requires (exists i :: i in minH && |ls[i]| < minPer) ==> forall i :: i in low ==> |ls[i]| <= minPer
    ensures var ls' := ls[s := ls[s] + [x]];
      var minH' := if |ls'[s]| < maxPer then minH - {s} + {s} else minH - {s};
      (exists i :: i in minH' && |ls'[i]| < minPer) ==> forall i :: i in low ==> |ls'[i]| <= minPer
  {
    var ls' := ls[s := ls[s] + [x]];
    var minH' := if |ls'[s]| < maxPer then minH - {s} + {s} else minH - {s};
    if exists i :: i in minH' && |ls'[i]| < minPer {
      var i :| i in minH' && |ls'[i]| < minPer;
      assert |ls[i]| < minPer;
    }
  }

  /** After a region is placed on heap slot s, the heap still holds the slots below the ceiling and the others sit at it. */
  lemma AppendKeepsHeap(low: set<nat>, maxPer: int, ls: seq<seq<nat>>, minH: set<nat>, s: nat, x: nat)
    requires minH <= low && s in minH
    requires forall i :: i in low ==> i < |ls|
    requires forall i :: i in minH ==> |ls[i]| < maxPer
    requires forall i :: i in low && i !in minH ==> |ls[i]| == maxPer
    ensures var ls' := ls[s := ls[s] + [x]];
      var minH' := if |ls'[s]| < maxPer then minH - {s} + {s} else minH - {s};
      && minH' <= low
      && (forall i :: i in minH' ==> |ls'[i]| < maxPer)
      && (forall i :: i in low && i !in minH' ==> |ls'[i]| == maxPer)
  {
  }

  /** Placing region rest[t] on a smallest heap slot s keeps the invariant one region further on. */
  lemma FillStep(ls0: seq<seq<nat>>, rest: seq<nat>, t: nat, minPer: int, maxPer: int,
                 ls: seq<seq<nat>>, minH: set<nat>, s: nat)
    requires t < |rest| && minPer <= maxPer <= minPer + 1
    requires FillInvariant(ls0, rest, t, minPer, maxPer, ls, minH)
    requires s in minH && forall u :: u in minH ==> |ls[s]| <= |ls[u]|
    ensures var ls' := ls[s := ls[s] + [rest[t]]];
      var minH' := if |ls'[s]| < maxPer then minH - {s} + {s} else minH - {s};
      FillInvariant(ls0, rest, t + 1, minPer, maxPer, ls', minH')
  {
    var low := Below(ls0, minPer);
    var x := rest[t];
    AppendKeepsBag(ls0, rest, t, ls, s);
    GapUpdate(ls, low, maxPer, |ls|, s, ls[s] + [x]);
    AppendKeepsPrefixes(ls0, ls, s, x);
    AppendKeepsLevel(low, minPer, maxPer, ls, minH, s, x);
    AppendKeepsHeap(low, maxPer, ls, minH, s, x);
  }

  /**
   * The fill pass's outcome: it completes when all leftover regions were placed,
   * and it stops when the heap ran dry, which happens exactly when the capacity is used up.
   */
  lemma FillOutcome(ls0: seq<seq<nat>>, rest: seq<nat>, t: nat, minPer: int, maxPer: int,
                    ls: seq<seq<nat>>, minH: set<nat>, ok: bool)
    requires t <= |rest| && minPer <= maxPer
    requires FillInvariant(ls0, rest, t, minPer, maxPer, ls, minH)
    requires ok ==> t == |rest|
    requires !ok ==> t < |rest| && minH == {}
    ensures ok <==> |rest| <= FillCapacity(ls0, minPer, maxPer)
    ensures multiset(Flatten(ls))
         == multiset(Flatten(ls0)) + multiset(rest[..if ok then |rest| else FillCapacity(ls0, minPer, maxPer)])
  {
    var low := Below(ls0, minPer);
    if ok {
      FillDone(ls, low, maxPer, |rest|, FillCapacity(ls0, minPer, maxPer));
      assert rest[..|rest|] == rest;
    } else {
      FillDry(ls, low, maxPer, t, FillCapacity(ls0, minPer, maxPer));
    }
  }

  /** With every heap slot at most at the ceiling, the gap left after placing all regions shows they fit. */
  lemma FillDone(ls: seq<seq<nat>>, low: set<nat>, maxPer: int, placed: int, capacity: int)
    requires forall i :: i in low ==> i < |ls| && |ls[i]| <= maxPer
    requires Gap(ls, low, maxPer, |ls|) == placed - capacity
    ensures placed <= capacity
  {
    GapNotPositive(ls, low, maxPer, |ls|);
  }

  /** With every heap slot at the ceiling, the regions placed so far are exactly the capacity. */
  lemma FillDry(ls: seq<seq<nat>>, low: set<nat>, maxPer: int, placed: int, capacity: int)
    requires forall i :: i in low ==> i < |ls| && |ls[i]| == maxPer
    requires Gap(ls, low, maxPer, |ls|) == placed - capacity
    ensures placed == capacity
  {
    GapAtLevel(ls, low, maxPer, |ls|);
  }

  /** Where the fill pass stops, a slot that started below the floor holds at most the ceiling. */
  lemma FillShape(ls0: seq<seq<nat>>, rest: seq<nat>, t: nat, minPer: int, maxPer: int,
                  ls: seq<seq<nat>>, minH: set<nat>)
    requires t <= |rest| && minPer <= maxPer
    requires FillInvariant(ls0, rest, t, minPer, maxPer, ls, minH)
    ensures forall i :: 0 <= i < |ls0| && |ls0[i]| >= minPer ==> ls[i] == ls0[i]
    ensures forall i :: 0 <= i < |ls0| && |ls0[i]| < minPer ==> |ls[i]| <= maxPer
    ensures (exists i :: i in minH && |ls[i]| < minPer) ==>
              forall i :: 0 <= i < |ls0| && |ls0[i]| < minPer ==> |ls[i]| <= minPer
  {
    var low := Below(ls0, minPer);
    forall i | 0 <= i < |ls0| && |ls0[i]| < minPer ensures i in low {
    }
  }

  /**
   * Lines 282-303. The leftover regions, in visiting order, each go to a slot of
   * least size in the min-heap, which holds the slots that started below the
   * floor; a slot leaves the heap once its list reaches the ceiling. When the
   * heap is empty at a poll the source dereferences null: `ok` is false and the
   * lists are left as they were at that moment.
   */
  method FillPass(ls0: seq<seq<nat>>, rest: seq<nat>, minPer: int, maxPer: int)
    returns (ok: bool, ls: seq<seq<nat>>, minH: set<nat>)
    requires minPer <= maxPer <= minPer + 1
    ensures ok <==> |rest| <= FillCapacity(ls0, minPer, maxPer)
    ensures |ls| == |ls0|
    ensures multiset(Flatten(ls))
         == multiset(Flatten(ls0)) + multiset(rest[..if ok then |rest| else FillCapacity(ls0, minPer, maxPer)])
    ensures forall i :: 0 <= i < |ls0| && |ls0[i]| >= minPer ==> ls[i] == ls0[i]
    ensures forall i :: 0 <= i < |ls0| ==> |ls0[i]| <= |ls[i]| && ls[i][..|ls0[i]|] == ls0[i]
    ensures forall i :: 0 <= i < |ls0| && |ls0[i]| < minPer ==> |ls[i]| <= maxPer
    ensures minH <= Below(ls0, minPer)
    ensures forall i :: i in minH ==> |ls[i]| < maxPer
    ensures forall i :: i in Below(ls0, minPer) && i !in minH ==> |ls[i]| == maxPer
    ensures (exists i :: i in minH && |ls[i]| < minPer) ==>
              forall i :: 0 <= i < |ls0| && |ls0[i]| < minPer ==> |ls[i]| <= minPer
  {
    ls, minH, ok := ls0, Below(ls0, minPer), true;
    FillStart(ls0, rest, minPer, maxPer);
    var t := 0;
    while t < |rest|
      invariant t <= |rest|
      invariant FillInvariant(ls0, rest, t, minPer, maxPer, ls, minH)
    {
      if minH == {} {
        ok := false;
        break;
      }
      SmallestExists(ls, minH);
      var s :| s in minH && forall u :: u in minH ==> |ls[s]| <= |ls[u]|;
      FillStep(ls0, rest, t, minPer, maxPer, ls, minH, s);
      minH := minH - {s};
      ls := ls[s := ls[s] + [rest[t]]];
      if |ls[s]| < maxPer {
        minH := minH + {s};
      }
      t := t + 1;
    }
    FillOutcome(ls0, rest, t, minPer, maxPer, ls, minH, ok);
    FillShape(ls0, rest, t, minPer, maxPer, ls, minH);
  }

  // ---------------------------------------------------------------------
  // Rebalance pass (lines 305-318)

  /** The lists after the last region of slot b moves to the end of slot s. */
  function MoveLast(ls: seq<seq<nat>>, b: nat, s: nat): (ls': seq<seq<nat>>)
    requires b < |ls| && s < |ls| && b != s && ls[b] != []
    ensures |ls'| == |ls|
    ensures ls'[b] == ls[b][..|ls[b]| - 1] && ls'[s] == ls[s] + [ls[b][|ls[b]| - 1]]
    ensures forall i :: 0 <= i < |ls| && i != b && i != s ==> ls'[i] == ls[i]
    ensures multiset(Flatten(ls')) == multiset(Flatten(ls))
  {
    MoveLastKeepsRegions(ls, b, s);
    var x := ls[b][|ls[b]| - 1];
    var ls1 := ls[b := ls[b][..|ls[b]| - 1]];
    ls1[s := ls1[s] + [x]]
  }

  /** A slot below the floor in the min-heap, with the joint gap not negative, leaves a slot above the floor in the max-heap. */
  lemma MaxHeapHasDonor(ls: seq<seq<nat>>, minH: set<nat>, maxH: set<nat>, minPer: int, s: nat)
    returns (b: nat)
    requires forall i :: i in minH ==> i < |ls| && |ls[i]| <= minPer
    requires forall i :: i in maxH ==> i < |ls| && |ls[i]| > minPer
    requires s in minH && |ls[s]| < minPer
    requires Gap(ls, minH + maxH, minPer, |ls|) >= 0
    ensures b in maxH
  {
    GapRemove(ls, minH + maxH, minPer, |ls|, s);
    b := GapPositiveWitness(ls, minH + maxH - {s}, minPer, |ls|);
  }

  /**
   * One move shifts one unit of the min-heap's deficit: the min-heap's gap grows
   * by one, and the joint gap of both heaps stays put.
   */
  lemma MoveGaps(ls: seq<seq<nat>>, minH: set<nat>, maxH: set<nat>, minPer: int, s: nat, b: nat)
    requires forall i :: i in minH ==> i < |ls| && |ls[i]| <= minPer
    requires forall i :: i in maxH ==> i < |ls| && |ls[i]| > minPer
    requires s in minH && |ls[s]| < minPer && b in maxH
    ensures var ls' := MoveLast(ls, b, s);
      var minH' := if |ls'[s]| < minPer then minH - {s} + {s} else minH - {s};
      var maxH' := if |ls'[b]| > minPer then maxH - {b} + {b} else maxH - {b};
      && Gap(ls', minH', minPer, |ls|) == Gap(ls, minH, minPer, |ls|) + 1
      && Gap(ls', minH' + maxH', minPer, |ls|) == Gap(ls, minH + maxH, minPer, |ls|)
  {
    var n := |ls|;
    var x := ls[b][|ls[b]| - 1];
    var ls1 := ls[b := ls[b][..|ls[b]| - 1]];
    var ls' := ls1[s := ls1[s] + [x]];
    assert ls' == MoveLast(ls, b, s);
    var minH' := if |ls'[s]| < minPer then minH - {s} + {s} else minH - {s};
    var maxH' := if |ls'[b]| > minPer then maxH - {b} + {b} else maxH - {b};
    var u := minH + maxH;
    GapUpdate(ls, minH, minPer, n, b, ls[b][..|ls[b]| - 1]);
    GapUpdate(ls1, minH, minPer, n, s, ls1[s] + [x]);
    GapUpdate(ls, u, minPer, n, b, ls[b][..|ls[b]| - 1]);
    GapUpdate(ls1, u, minPer, n, s, ls1[s] + [x]);
    assert Gap(ls', u, minPer, n) == Gap(ls, u, minPer, n);
    var v1 := u;
    if |ls'[s]| < minPer {
      assert minH' == minH;
    } else {
      GapRemove(ls', minH, minPer, n, s);
      GapRemove(ls', u, minPer, n, s);
      v1 := u - {s};
    }
    assert Gap(ls', v1, minPer, n) == Gap(ls, u, minPer, n);
    var v2 := v1;
    if |ls'[b]| <= minPer {
      GapRemove(ls', v1, minPer, n, b);
      v2 := v1 - {b};
    }
    assert v2 == minH' + maxH';
  }

  /**
   * What the rebalance pass keeps: the heaps shrink from their starting sets and
   * hold slots at or below (min-heap) and above (max-heap) the floor; a slot
   * that left either heap sits at the floor; min-heap slots only grow at their
   * end and max-heap slots only shrink at their end; no other slot changes;
   * the regions are the same; and the joint gap is the starting one.
   */
  ghost predicate RebalanceInvariant(ls0: seq<seq<nat>>, minH0: set<nat>, maxH0: set<nat>, minPer: int,
                                     ls: seq<seq<nat>>, minH: set<nat>, maxH: set<nat>)
    requires (forall i :: i in minH0 ==> i < |ls0|) && (forall i :: i in maxH0 ==> i < |ls0|)
  {
    && |ls| == |ls0|
    && minH <= minH0 && maxH <= maxH0
    && (forall i :: i in minH ==> |ls[i]| <= minPer)
    && (forall i :: i in maxH ==> |ls[i]| > minPer)
    && (forall i :: i in minH0 && i !in minH ==> |ls[i]| == minPer)
    && (forall i :: i in maxH0 && i !in maxH ==> |ls[i]| == minPer)
    && (forall i :: 0 <= i < |ls0| && i !in minH0 && i !in maxH0 ==> ls[i] == ls0[i])
    && (forall i :: i in minH0 ==> |ls0[i]| <= |ls[i]| && ls[i][..|ls0[i]|] == ls0[i])
    && (forall i :: i in maxH0 ==> |ls[i]| <= |ls0[i]| && ls[i] == ls0[i][..|ls[i]|])
    && multiset(Flatten(ls)) == multiset(Flatten(ls0))
    && Gap(ls, minH + maxH, minPer, |ls|) == Gap(ls0, minH0 + maxH0, minPer, |ls0|)
  }

  lemma MoveKeepsShape(ls0: seq<seq<nat>>, minH0: set<nat>, maxH0: set<nat>, ls: seq<seq<nat>>, s: nat, b: nat)
    requires (forall i :: i in minH0 ==> i < |ls0|) && (forall i :: i in maxH0 ==> i < |ls0|)
    requires |ls| == |ls0| && s in minH0 && s !in maxH0 && b in maxH0 && b !in minH0 && ls[b] != []
    requires forall i :: 0 <= i < |ls0| && i !in minH0 && i !in maxH0 ==> ls[i] == ls0[i]
    requires forall i :: i in minH0 ==> |ls0[i]| <= |ls[i]| && ls[i][..|ls0[i]|] == ls0[i]
    requires forall i :: i in maxH0 ==> |ls[i]| <= |ls0[i]| && ls[i] == ls0[i][..|ls[i]|]
    ensures var ls' := MoveLast(ls, b, s);
      && (forall i :: 0 <= i < |ls0| && i !in minH0 && i !in maxH0 ==> ls'[i] == ls0[i])
      && (forall i :: i in minH0 ==> |ls0[i]| <= |ls'[i]| && ls'[i][..|ls0[i]|] == ls0[i])
      && (forall i :: i in maxH0 ==> |ls'[i]| <= |ls0[i]| && ls'[i] == ls0[i][..|ls'[i]|])
  {
    var ls' := MoveLast(ls, b, s);
    assert ls'[s][..|ls0[s]|] == ls[s][..|ls0[s]|];
    assert ls0[b][..|ls[b]|][..|ls[b]| - 1] == ls0[b][..|ls[b]| - 1];
  }

  /** After one move, each heap still holds its own kind of slot, and a slot that left a heap sits at the floor. */
  lemma MoveKeepsHeaps(ls0: seq<seq<nat>>, minH0: set<nat>, maxH0: set<nat>, minPer: int,
                       ls: seq<seq<nat>>, minH: set<nat>, maxH: set<nat>, s: nat, b: nat)
    requires |ls| == |ls0| && minH <= minH0 && maxH <= maxH0
    requires forall i :: i in minH0 ==> i < |ls0|
    requires forall i :: i in maxH0 ==> i < |ls0|
    requires forall i :: i in minH ==> |ls[i]| <= minPer
    requires forall i :: i in maxH ==> |ls[i]| > minPer
    requires forall i :: i in minH0 && i !in minH ==> |ls[i]| == minPer
    requires forall i :: i in maxH0 && i !in maxH ==> |ls[i]| == minPer
    requires s in minH && |ls[s]| < minPer && b in maxH
    ensures var ls' := MoveLast(ls, b, s);
      var minH' := if |ls'[s]| < minPer then minH - {s} + {s} else minH - {s};
      var maxH' := if |ls'[b]| > minPer then maxH - {b} + {b} else maxH - {b};
      && minH' <= minH0 && maxH' <= maxH0
      && (forall i :: i in minH' ==> |ls'[i]| <= minPer)
      && (forall i :: i in maxH' ==> |ls'[i]| > minPer)
      && (forall i :: i in minH0 && i !in minH' ==> |ls'[i]| == minPer)
      && (forall i :: i in maxH0 && i !in maxH' ==> |ls'[i]| == minPer)
  {
  }

  /** One move, from a largest max-heap slot b to a smallest min-heap slot s below the floor, keeps the invariant. */
  lemma RebalanceStep(ls0: seq<seq<nat>>, minH0: set<nat>, maxH0: set<nat>, minPer: int,
                      ls: seq<seq<nat>>, minH: set<nat>, maxH: set<nat>, s: nat, b: nat)
    requires forall i :: i in minH0 ==> i < |ls0| && |ls0[i]| <= minPer
    requires forall i :: i in maxH0 ==> i < |ls0| && |ls0[i]| > minPer
    requires RebalanceInvariant(ls0, minH0, maxH0, minPer, ls, minH, maxH)
    requires s in minH && |ls[s]| < minPer && b in maxH
    ensures var ls' := MoveLast(ls, b, s);
      var minH' := if |ls'[s]| < minPer then minH - {s} + {s} else minH - {s};
      var maxH' := if |ls'[b]| > minPer then maxH - {b} + {b} else maxH - {b};
      && RebalanceInvariant(ls0, minH0, maxH0, minPer, ls', minH', maxH')
      && Gap(ls', minH', minPer, |ls|) == Gap(ls, minH, minPer, |ls|) + 1
  {
    MoveKeepsShape(ls0, minH0, maxH0, ls, s, b);
    MoveKeepsHeaps(ls0, minH0, maxH0, minPer, ls, minH, maxH, s, b);
    MoveGaps(ls, minH, maxH, minPer, s, b);
  }

  /**
   * Lines 305-318. While the min-heap's smallest slot is below the floor, the
   * last region of a largest max-heap slot moves to it; each slot goes back to
   * its heap while it is still outside the floor. The min-heap starts with
   * slots at or below the floor and the max-heap with slots above it; unless the
   * min-heap has nothing below the floor, the heaps' slots together hold at
   * least the floor's worth of regions, so the max-heap never runs dry. The
   * loop ends with every min-heap slot at the floor.
   */
  method Rebalance(ls0: seq<seq<nat>>, minH0: set<nat>, maxH0: set<nat>, minPer: int)
    returns (ls: seq<seq<nat>>)
    requires forall i :: i in minH0 ==> i < |ls0| && |ls0[i]| <= minPer
    requires forall i :: i in maxH0 ==> i < |ls0| && |ls0[i]| > minPer
    requires (forall i :: i in minH0 ==> |ls0[i]| >= minPer) || Gap(ls0, minH0 + maxH0, minPer, |ls0|) >= 0
    ensures |ls| == |ls0|
    ensures multiset(Flatten(ls)) == multiset(Flatten(ls0))
    ensures forall i :: 0 <= i < |ls0| && i !in minH0 && i !in maxH0 ==> ls[i] == ls0[i]
    ensures forall i :: i in minH0 ==> |ls[i]| == minPer && ls[i][..|ls0[i]|] == ls0[i]
    ensures forall i :: i in maxH0 ==> minPer <= |ls[i]| <= |ls0[i]| && ls[i] == ls0[i][..|ls[i]|]
    ensures (forall i :: i in minH0 ==> |ls0[i]| >= minPer) ==> ls == ls0
  {
    ls := ls0;
    var minH, maxH := minH0, maxH0;
    RebalanceStart(ls0, minH0, maxH0, minPer);
    while true
      invariant RebalanceInvariant(ls0, minH0, maxH0, minPer, ls, minH, maxH)
      invariant (forall i :: i in minH ==> |ls[i]| >= minPer) || Gap(ls0, minH0 + maxH0, minPer, |ls0|) >= 0
      invariant (forall i :: i in minH0 ==> |ls0[i]| >= minPer) ==> ls == ls0
      decreases -Gap(ls, minH, minPer, |ls|)
    {
      if minH == {} {
        break;
      }
      SmallestExists(ls, minH);
      var s :| s in minH && forall u :: u in minH ==> |ls[s]| <= |ls[u]|;
      if |ls[s]| >= minPer {
        break;
      }
      ghost var donor := MaxHeapHasDonor(ls, minH, maxH, minPer, s);
      LargestExists(ls, maxH);
      var b :| b in maxH && forall u :: u in maxH ==> |ls[u]| <= |ls[b]|;
      GapNotPositive(ls, minH, minPer, |ls|);
      RebalanceStep(ls0, minH0, maxH0, minPer, ls, minH, maxH, s, b);
      minH, maxH := minH - {s}, maxH - {b};
      ls := MoveLast(ls, b, s);
      if |ls[b]| > minPer {
        maxH := maxH + {b};
      }
      if |ls[s]| < minPer {
        minH := minH + {s};
      }
    }
    RebalanceOutcome(ls0, minH0, maxH0, minPer, ls, minH, maxH);
  }

  lemma RebalanceStart(ls0: seq<seq<nat>>, minH0: set<nat>, maxH0: set<nat>, minPer: int)
    requires forall i :: i in minH0 ==> i < |ls0| && |ls0[i]| <= minPer
    requires forall i :: i in maxH0 ==> i < |ls0| && |ls0[i]| > minPer
    ensures RebalanceInvariant(ls0, minH0, maxH0, minPer, ls0, minH0, maxH0)
  {
    forall i | i in minH0 ensures ls0[i][..|ls0[i]|] == ls0[i] {
    }
    forall i | i in maxH0 ensures ls0[i] == ls0[i][..|ls0[i]|] {
    }
  }

  lemma RebalanceOutcome(ls0: seq<seq<nat>>, minH0: set<nat>, maxH0: set<nat>, minPer: int,
                         ls: seq<seq<nat>>, minH: set<nat>, maxH: set<nat>)
    requires forall i :: i in minH0 ==> i < |ls0| && |ls0[i]| <= minPer
    requires forall i :: i in maxH0 ==> i < |ls0| && |ls0[i]| > minPer
    requires RebalanceInvariant(ls0, minH0, maxH0, minPer, ls, minH, maxH)
    requires forall i :: i in minH ==> |ls[i]| >= minPer
    ensures forall i :: i in minH0 ==> |ls[i]| == minPer && ls[i][..|ls0[i]|] == ls0[i]
    ensures forall i :: i in maxH0 ==> minPer <= |ls[i]| <= |ls0[i]| && ls[i] == ls0[i][..|ls[i]|]
  {
  }

  // ---------------------------------------------------------------------
  // From the fill pass to the rebalance pass

  /**
   * After a completed fill pass, the heaps the rebalance pass starts from meet
   * its requirements: the min-heap holds slots at or below the floor, the
   * max-heap (the slots above the floor before the fill, which it does not
   * touch) slots above it, and, when some min-heap slot is below the floor,
   * every slot outside the heaps sits at the floor, so the heaps' joint gap is
   * the total excess of all R regions over N slots at the floor, R - N * floor >= 0.
   */
  lemma RebalanceReady(ls1: seq<seq<nat>>, ls2: seq<seq<nat>>, minH: set<nat>, minPer: int, maxPer: int)
    requires minPer <= maxPer <= minPer + 1 && |ls2| == |ls1|
    requires |ls1| * minPer <= TotalSize(ls2)
    requires forall i :: 0 <= i < |ls1| && |ls1[i]| >= minPer ==> ls2[i] == ls1[i]
    requires minH <= Below(ls1, minPer)
    requires forall i :: i in minH ==> |ls2[i]| < maxPer
    requires forall i :: i in Below(ls1, minPer) && i !in minH ==> |ls2[i]| == maxPer
    requires (exists i :: i in minH && |ls2[i]| < minPer) ==>
               forall i :: 0 <= i < |ls1| && |ls1[i]| < minPer ==> |ls2[i]| <= minPer
    ensures forall i :: i in minH ==> i < |ls2| && |ls2[i]| <= minPer
    ensures forall i :: i in Above(ls1, minPer) ==> i < |ls2| && |ls2[i]| > minPer
    ensures (forall i :: i in minH ==> |ls2[i]| >= minPer) || Gap(ls2, minH + Above(ls1, minPer), minPer, |ls2|) >= 0
  {
    var heaps := minH + Above(ls1, minPer);
    if exists i :: i in minH && |ls2[i]| < minPer {
      forall i | 0 <= i < |ls2| && i !in heaps ensures |ls2[i]| == minPer {
        if |ls1[i]| < minPer {
          assert i in Below(ls1, minPer);
        }
      }
      GapOfAllButLevel(ls2, heaps, minPer, |ls2|);
      assert ls2[..|ls2|] == ls2;
    }
  }

  function Max(a: int, b: int): int
  {
    if a < b then b else a
  }

  function Min(a: int, b: int): int
  {
    if a < b then a else b
  }

  /**
   * Where a slot ends after a completed fill pass and the rebalance pass: at
   * least the floor, at most the larger of its locality share and the ceiling,
   * and still holding the first min(share, floor) regions of its locality share.
   */
  lemma BalancedBounds(ls1: seq<seq<nat>>, ls2: seq<seq<nat>>, minH: set<nat>, ls3: seq<seq<nat>>,
                       minPer: int, maxPer: int)
    requires 0 <= minPer <= maxPer && |ls2| == |ls1| && |ls3| == |ls1|
    // what the fill pass guarantees
    requires forall i :: 0 <= i < |ls1| && |ls1[i]| >= minPer ==> ls2[i] == ls1[i]
    requires forall i :: 0 <= i < |ls1| ==> |ls1[i]| <= |ls2[i]| && ls2[i][..|ls1[i]|] == ls1[i]
    requires minH <= Below(ls1, minPer)
    requires forall i :: i in Below(ls1, minPer) && i !in minH ==> |ls2[i]| == maxPer
    // what the rebalance pass guarantees, for the heaps minH and Above(ls1, minPer)
    requires forall i :: 0 <= i < |ls2| && i !in minH && i !in Above(ls1, minPer) ==> ls3[i] == ls2[i]
    requires forall i :: i in minH ==> |ls3[i]| == minPer && |ls2[i]| <= minPer && ls3[i][..|ls2[i]|] == ls2[i]
    requires forall i :: i in Above(ls1, minPer) ==> minPer <= |ls3[i]| <= |ls2[i]| && ls3[i] == ls2[i][..|ls3[i]|]
    ensures forall i :: 0 <= i < |ls1| ==> minPer <= |ls3[i]| <= Max(|ls1[i]|, maxPer)
    ensures forall i :: 0 <= i < |ls1| ==>
              Min(|ls1[i]|, minPer) <= |ls3[i]|
              && ls3[i][..Min(|ls1[i]|, minPer)] == ls1[i][..Min(|ls1[i]|, minPer)]
  {
    forall i | 0 <= i < |ls1|
      ensures minPer <= |ls3[i]| <= Max(|ls1[i]|, maxPer)
      ensures Min(|ls1[i]|, minPer) <= |ls3[i]|
      ensures ls3[i][..Min(|ls1[i]|, minPer)] == ls1[i][..Min(|ls1[i]|, minPer)]
    {
      var k := Min(|ls1[i]|, minPer);
      if i in minH {
        assert i in Below(ls1, minPer);
        assert ls3[i][..|ls1[i]|] == ls3[i][..|ls2[i]|][..|ls1[i]|];
      } else if i in Above(ls1, minPer) {
        assert ls3[i][..k] == ls2[i][..|ls3[i]|][..k];
      } else if i in Below(ls1, minPer) {
        assert ls3[i][..|ls1[i]|] == ls2[i][..|ls1[i]|];
      }
    }
  }

  // ---------------------------------------------------------------------
  // What the two passes do not guarantee

  /**
   * Ten regions on three slots whose locality pass placed three regions on each
   * slot, one region left over: no slot is below the floor of 3, so the min-heap
   * is empty and the fill pass fails at its first poll.
   */
  method FillRunsDry() returns (ok: bool)
    ensures !ok
  {
    var p, n := 10, 3;
    var ls1 := [[0, 1, 2], [3, 4, 5], [6, 7, 8]];
    assert MinPerSlot(p, n) == 3 && MaxPerSlot(p, n) == 4;
    assert Below(ls1, 3) == {} by {
      forall i | i in Below(ls1, 3) ensures false {
      }
    }
    GapOfEmpty(ls1, {}, 4, 3);
    var ls2, minH;
    ok, ls2, minH := FillPass(ls1, [9], MinPerSlot(p, n), MaxPerSlot(p, n));
  }

  /**
   * Eight regions on three slots whose locality pass placed 4, 2 and 2 regions:
   * nothing is left over and no slot is below the floor of 2, so neither pass
   * moves anything and the first slot keeps 4 regions, above the ceiling of 3.
   */
  method CeilingExceeded() returns (ls: seq<seq<nat>>)
    ensures |ls| == 3 && |ls[0]| == 4 > MaxPerSlot(8, 3)
  {
    var p, n := 8, 3;
    var ls1 := [[0, 1, 2, 3], [4, 5], [6, 7]];
    var minPer, maxPer := MinPerSlot(p, n), MaxPerSlot(p, n);
    assert minPer == 2 && maxPer == 3;
    assert Below(ls1, minPer) == {} by {
      forall i | i in Below(ls1, minPer) ensures false {
      }
    }
    var ok, ls2, minH := FillPass(ls1, [], minPer, maxPer);
    assert ls2[0] == ls1[0];
    ls := Rebalance(ls2, minH, Above(ls1, minPer), minPer);
  }
}
