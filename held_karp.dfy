/**
 * Exact tour solver by bitmask dynamic programming (package/connect_points.py,
 * held_karp).
 *
 * The memo C maps a state (bits, k) to (cost, path): the cheapest path found
 * that starts at node 0, visits exactly the nodes of `bits` and ends at k.
 * The bitmask `bits` (the sum of 1 << b over the nodes b of a subset) is
 * represented here by the set of nodes it encodes.
 */
module HeldKarp {
  import opened Tours

  datatype Option<T> = None | Some(value: T)

  /** A memo value (cost, path). */
  type Entry = (int, seq<nat>)

  type Memo = map<(set<nat>, nat), Entry>

  /** The set of nodes of a combination tuple: its bitmask. */
  function Elems(c: seq<nat>): set<nat> {
    set x | x in c
  }

  /** Every node of S is one of 1 .. n-1. */
  predicate WithinNodes(S: set<nat>, n: nat) {
    forall x :: x in S ==> 1 <= x < n
  }

  /**
   * e is a path from 0 through exactly S ending at k, e.0 is its cost, and no
   * path from 0 through exactly S ending at k is cheaper.
   */
  ghost predicate OptimalEntry(dist: seq<seq<int>>, S: set<nat>, k: nat, e: Entry) {
    IsPathThrough(e.1, S, k) && e.0 == PathCost(dist, e.1) &&
    forall p :: IsPathThrough(p, S, k) ==> e.0 <= PathCost(dist, p)
  }

  /** Every entry of C is a state (S, k) with k in S over nodes 1..n-1, and is optimal. */
  ghost predicate MemoSound(dist: seq<seq<int>>, C: Memo, n: nat) {
    forall key :: key in C ==>
      WithinNodes(key.0, n) && key.1 in key.0 && OptimalEntry(dist, key.0, key.1, C[key])
  }

  /** C holds every state (S, k) with 1 <= |S| <= m. */
  ghost predicate MemoCovers(C: Memo, n: nat, m: nat) {
    forall S: set<nat>, k: nat :: WithinNodes(S, n) && 1 <= |S| <= m && k in S ==> (S, k) in C
  }

  // ---------------------------------------------------------------------------
  // itertools.combinations(range(lo, hi), m)

  function Prepend(x: nat, cs: seq<seq<nat>>): (r: seq<seq<nat>>)
    ensures |r| == |cs|
    ensures forall q :: 0 <= q < |cs| ==> r[q] == [x] + cs[q]
  {
    seq(|cs|, q requires 0 <= q < |cs| => [x] + cs[q])
  }

  /** The m-element combinations of lo, lo+1, .., hi-1 as ascending tuples, in lexicographic order. */
  function Combos(lo: nat, hi: nat, m: nat): (r: seq<seq<nat>>)
    ensures m == 0 ==> r == [[]]
    decreases hi - lo
  {
    if m == 0 then [[]]
    else if lo >= hi then []
    else Prepend(lo, Combos(lo + 1, hi, m - 1)) + Combos(lo + 1, hi, m)
  }

  /** There is no combination of more elements than the range holds. */
  lemma {:induction false} CombosTooMany(lo: nat, hi: nat, m: nat)
    requires lo + m > hi
    ensures m > 0 ==> Combos(lo, hi, m) == []
    decreases hi - lo
  {
    if m > 0 && lo < hi {
      CombosTooMany(lo + 1, hi, m - 1);
      CombosTooMany(lo + 1, hi, m);
    }
  }

  predicate Ascending(c: seq<nat>) {
    forall a, b :: 0 <= a < b < |c| ==> c[a] < c[b]
  }

  /** Every combination has m strictly ascending elements from [lo, hi). */
  lemma {:induction false} CombosShape(lo: nat, hi: nat, m: nat, q: nat)
    requires q < |Combos(lo, hi, m)|
    ensures var c := Combos(lo, hi, m)[q];
      |c| == m && Ascending(c) && forall a :: 0 <= a < |c| ==> lo <= c[a] < hi
    decreases hi - lo
  {
    if m > 0 && lo < hi {
      var left := Combos(lo + 1, hi, m - 1);
      if q < |left| {
        CombosShape(lo + 1, hi, m - 1, q);
        assert Combos(lo, hi, m)[q] == [lo] + left[q];
        ConsAscending(lo, left[q], hi);
      } else {
        CombosShape(lo + 1, hi, m, q - |left|);
        CombosSkip(lo, hi, m, q - |left|);
      }
    }
  }

  /** Putting x in front of an ascending tuple over (x, hi) keeps it ascending, over [x, hi). */
  lemma ConsAscending(x: nat, d: seq<nat>, hi: nat)
    requires x < hi && Ascending(d) && forall a :: 0 <= a < |d| ==> x < d[a] < hi
    ensures var c := [x] + d;
      Ascending(c) && forall a :: 0 <= a < |c| ==> x <= c[a] < hi
  {
    var c := [x] + d;
    forall a | 0 <= a < |c|
      ensures x <= c[a] < hi
    {
      if a > 0 {
        assert c[a] == d[a - 1];
      }
    }
    forall a, b | 0 <= a < b < |c|
      ensures c[a] < c[b]
    {
      if a > 0 {
        assert c[a] == d[a - 1] && c[b] == d[b - 1];
      } else {
        assert c[b] == d[b - 1];
      }
    }
  }

  /** Every m-element subset of [lo, hi) is the element set of some combination: the one at index q. */
  lemma {:induction false} CombosComplete(lo: nat, hi: nat, m: nat, S: set<nat>) returns (q: nat)
    requires forall x :: x in S ==> lo <= x < hi
    requires |S| == m
    ensures q < |Combos(lo, hi, m)| && Elems(Combos(lo, hi, m)[q]) == S
    decreases hi - lo
  {
    if m == 0 {
      assert S == {};
      q := 0;
      assert Elems(Combos(lo, hi, m)[0]) == {};
    } else {
      var x :| x in S;
      assert lo <= x < hi;
      if lo in S {
        var rest := S - {lo};
        assert |rest| == m - 1;
        assert forall y :: y in rest ==> lo + 1 <= y < hi;
        q := CombosComplete(lo + 1, hi, m - 1, rest);
        CombosTake(lo, hi, m, S, q);
      } else {
        assert forall y :: y in S ==> lo + 1 <= y < hi;
        var q' := CombosComplete(lo + 1, hi, m, S);
        q := |Combos(lo + 1, hi, m - 1)| + q';
        CombosSkip(lo, hi, m, q');
        assert Combos(lo, hi, m)[q] == Combos(lo + 1, hi, m)[q'];
      }
    }
  }

  /** The combinations that take lo come first, as lo followed by a combination of the rest. */
  lemma CombosTake(lo: nat, hi: nat, m: nat, S: set<nat>, q: nat)
    requires lo < hi && m > 0 && lo in S
    requires q < |Combos(lo + 1, hi, m - 1)| && Elems(Combos(lo + 1, hi, m - 1)[q]) == S - {lo}
    ensures q < |Combos(lo, hi, m)| && Elems(Combos(lo, hi, m)[q]) == S
  {
    var left := Combos(lo + 1, hi, m - 1);
    assert Combos(lo, hi, m)[q] == [lo] + left[q];
    ElemsCons(lo, left[q]);
    assert (S - {lo}) + {lo} == S;
  }

  /** The combinations that skip lo follow, as the combinations of the rest. */
  lemma CombosSkip(lo: nat, hi: nat, m: nat, q: nat)
    requires lo < hi && m > 0
    requires q < |Combos(lo + 1, hi, m)|
    ensures var k := |Combos(lo + 1, hi, m - 1)| + q;
      k < |Combos(lo, hi, m)| && Combos(lo, hi, m)[k] == Combos(lo + 1, hi, m)[q]
  {
  }

  lemma ElemsCons(x: nat, c: seq<nat>)
    ensures Elems([x] + c) == {x} + Elems(c)
  {
    assert forall y :: y in [x] + c <==> y == x || y in c;
  }

  /** An ascending tuple has as many distinct elements as entries. */
  lemma {:induction false} AscendingCard(c: seq<nat>)
    requires Ascending(c)
    ensures |Elems(c)| == |c|
    ensures multiset(c) == multiset(Elems(c))
    decreases |c|
  {
    if |c| > 0 {
      var init := c[..|c| - 1];
      AscendingCard(init);
      assert c == init + [c[|c| - 1]];
      assert Elems(c) == Elems(init) + {c[|c| - 1]};
      assert c[|c| - 1] !in Elems(init);
      MultisetAddOne(Elems(init), c[|c| - 1]);
    }
  }

  // ---------------------------------------------------------------------------
  // Paths and states

  /** Extending a path through S ending at j by a new node k gives a path through S + {k} ending at k. */
  lemma ExtendPath(dist: seq<seq<int>>, p: seq<nat>, S: set<nat>, j: nat, k: nat)
    requires IsPathThrough(p, S, j) && k !in S
    ensures IsPathThrough(p + [k], S + {k}, k)
    ensures PathCost(dist, p + [k]) == PathCost(dist, p) + Edge(dist, j, k)
  {
    PathCostAppend(dist, p, k);
    MultisetAddOne(S, k);
    assert (p + [k])[1..] == p[1..] + [k];
  }

  /**
   * The last edge of a path through S (|S| >= 2) ending at k comes from some
   * j in S other than k, and the path without its last node goes through S - {k}.
   */
  lemma TrimPath(dist: seq<seq<int>>, p: seq<nat>, S: set<nat>, k: nat)
    requires IsPathThrough(p, S, k) && |S| >= 2
    ensures var j := p[|p| - 2];
      j in S && j != k && IsPathThrough(p[..|p| - 1], S - {k}, j) &&
      PathCost(dist, p) == PathCost(dist, p[..|p| - 1]) + Edge(dist, j, k)
  {
    var q := p[..|p| - 1];
    var j := p[|p| - 2];
    var tail := q[1..];
    assert p[1..] == tail + [k];
    assert multiset(p[1..]) == multiset(tail) + multiset{k};
    MultisetOfSetMember(S, k);
    MultisetRemoveOne(S, k);
    assert multiset(tail) == multiset(S - {k});
    assert j == tail[|tail| - 1];
    assert j in multiset(tail);
    MultisetOfSetMember(S - {k}, j);
    PathCostAppend(dist, q, k);
    assert q + [k] == p;
  }

  /** The only path from 0 through {k} ending at k is [0, k]. */
  lemma SingletonPaths(dist: seq<seq<int>>, k: nat)
    requires k != 0
    ensures IsPathThrough([0, k], {k}, k)
    ensures forall p :: IsPathThrough(p, {k}, k) ==> p == [0, k]
  {
    forall p | IsPathThrough(p, {k}, k)
      ensures p == [0, k]
    {
      assert |p| == 2;
    }
  }

  // ---------------------------------------------------------------------------
  // The computation

  /** Python's min(opts, key=lambda x: x[0]): the index of the first option of least cost. */
  function FirstMin(opts: seq<Entry>): (r: nat)
    requires |opts| > 0
    ensures r < |opts|
    ensures forall i :: 0 <= i < |opts| ==> opts[r].0 <= opts[i].0
    ensures forall i :: 0 <= i < r ==> opts[i].0 > opts[r].0
  {
    if |opts| == 1 then 0
    else
      var r := FirstMin(opts[..|opts| - 1]);
      if opts[|opts| - 1].0 < opts[r].0 then |opts| - 1 else r
  }

  /** The position in opts of the option for c[q] (q != ki): the option for c[ki] = k is skipped. */
  function Slot(q: nat, ki: nat): nat
    requires q != ki
  {
    if q < ki then q else q - 1
  }

  /** The option a state e = C[(prev, j)] offers to k: (cost + dist[j][k], path + [k]). */
  function Extend(dist: seq<seq<int>>, e: Entry, j: nat, k: nat): Entry {
    (e.0 + Edge(dist, j, k), e.1 + [k])
  }

  /** Every state (prev, j) that the state (Elems(c), c[ki]) is built from is in C. */
  ghost predicate HasPredecessors(C: Memo, c: seq<nat>, ki: nat)
    requires ki < |c|
  {
    forall q :: 0 <= q < |c| && q != ki ==> (Elems(c) - {c[ki]}, c[q]) in C
  }

  /** The list opts after the first `upto` rounds of the j-loop for the state (Elems(c), c[ki]). */
  ghost function Options(dist: seq<seq<int>>, C: Memo, c: seq<nat>, ki: nat, upto: nat): (opts: seq<Entry>)
    requires ki < |c| && upto <= |c| && HasPredecessors(C, c, ki)
    ensures |opts| == if upto <= ki then upto else upto - 1
  {
    if upto == 0 then []
    else
      var j := c[upto - 1];
      Options(dist, C, c, ki, upto - 1) +
      (if upto - 1 == ki then [] else [Extend(dist, C[(Elems(c) - {c[ki]}, j)], j, c[ki])])
  }

  lemma {:induction false} OptionsAt(dist: seq<seq<int>>, C: Memo, c: seq<nat>, ki: nat, upto: nat, q: nat)
    requires ki < |c| && upto <= |c| && HasPredecessors(C, c, ki)
    requires q < upto && q != ki
    ensures Options(dist, C, c, ki, upto)[Slot(q, ki)] == Extend(dist, C[(Elems(c) - {c[ki]}, c[q])], c[q], c[ki])
  {
    if q < upto - 1 {
      OptionsAt(dist, C, c, ki, upto - 1, q);
    }
  }

  /**
   * Extending an optimal entry for (prev, j) by k not in prev gives a path
   * through prev + {k} ending at k, with its cost, that no such path whose
   * last edge comes from j undercuts.
   */
  lemma ExtendOptimal(dist: seq<seq<int>>, prev: set<nat>, j: nat, k: nat, e: Entry)
    requires OptimalEntry(dist, prev, j, e) && j in prev && k !in prev
    ensures var o := Extend(dist, e, j, k);
      IsPathThrough(o.1, prev + {k}, k) && o.0 == PathCost(dist, o.1)
    ensures forall p :: IsPathThrough(p, prev + {k}, k) && p[|p| - 2] == j ==>
      Extend(dist, e, j, k).0 <= PathCost(dist, p)
  {
    ExtendPath(dist, e.1, prev, j, k);
    var S := prev + {k};
    assert S - {k} == prev;
    assert |S| >= 2 by {
      assert {j, k} <= S;
      SubsetCard({j, k}, S);
    }
    forall p | IsPathThrough(p, S, k) && p[|p| - 2] == j
      ensures Extend(dist, e, j, k).0 <= PathCost(dist, p)
    {
      TrimPath(dist, p, S, k);
    }
  }

  /** The entries a state is built from are in C and optimal. */
  lemma Predecessors(dist: seq<seq<int>>, C: Memo, n: nat, c: seq<nat>, ki: nat)
    requires Ascending(c) && |c| >= 2 && ki < |c| && WithinNodes(Elems(c), n)
    requires MemoSound(dist, C, n) && MemoCovers(C, n, |c| - 1)
    ensures OptimalPredecessors(dist, C, c, ki)
  {
    AscendingCard(c);
    var prev := Elems(c) - {c[ki]};
    assert |prev| == |c| - 1;
    forall q | 0 <= q < |c| && q != ki
      ensures (prev, c[q]) in C && OptimalEntry(dist, prev, c[q], C[(prev, c[q])])
    {
      assert c[q] in prev;
    }
  }

  /** The conditions under which the options of the state (Elems(c), c[ki]) are built from optimal entries. */
  ghost predicate OptimalPredecessors(dist: seq<seq<int>>, C: Memo, c: seq<nat>, ki: nat)
    requires ki < |c|
  {
    HasPredecessors(C, c, ki) &&
    forall q :: 0 <= q < |c| && q != ki ==>
      OptimalEntry(dist, Elems(c) - {c[ki]}, c[q], C[(Elems(c) - {c[ki]}, c[q])])
  }

  /** No path through Elems(c) ending at c[ki] is cheaper than every option. */
  lemma OptionsLowerBound(dist: seq<seq<int>>, C: Memo, c: seq<nat>, ki: nat, p: seq<nat>) returns (r: nat)
    requires Ascending(c) && |c| >= 2 && ki < |c|
    requires OptimalPredecessors(dist, C, c, ki)
    requires IsPathThrough(p, Elems(c), c[ki])
    ensures r < |Options(dist, C, c, ki, |c|)| && Options(dist, C, c, ki, |c|)[r].0 <= PathCost(dist, p)
  {
    var k, S := c[ki], Elems(c);
    var prev := S - {k};
    assert prev + {k} == S;
    AscendingCard(c);
    TrimPath(dist, p, S, k);
    var j := p[|p| - 2];
    var q :| 0 <= q < |c| && c[q] == j;
    OptionsAt(dist, C, c, ki, |c|, q);
    ExtendOptimal(dist, prev, j, k, C[(prev, j)]);
    r := Slot(q, ki);
  }

  /** The first cheapest option is an optimal entry for (Elems(c), c[ki]). */
  lemma BestOption(dist: seq<seq<int>>, C: Memo, c: seq<nat>, ki: nat)
    requires Ascending(c) && |c| >= 2 && ki < |c|
    requires OptimalPredecessors(dist, C, c, ki)
    ensures var opts := Options(dist, C, c, ki, |c|);
      |opts| > 0 && OptimalEntry(dist, Elems(c), c[ki], opts[FirstMin(opts)])
  {
    var k, S := c[ki], Elems(c);
    var prev := S - {k};
    assert prev + {k} == S;
    var opts := Options(dist, C, c, ki, |c|);
    var r := FirstMin(opts);
    var q := if r < ki then r else r + 1;
    assert Slot(q, ki) == r;
    OptionsAt(dist, C, c, ki, |c|, q);
    assert c[q] in prev;
    ExtendOptimal(dist, prev, c[q], k, C[(prev, c[q])]);
    forall p | IsPathThrough(p, S, k)
      ensures opts[r].0 <= PathCost(dist, p)
    {
      var r' := OptionsLowerBound(dist, C, c, ki, p);
    }
  }

  /** The j-loop of one state: opts built in the order of c, skipping j == k. */
  method CollectOptions(dist: seq<seq<int>>, C: Memo, c: seq<nat>, ki: nat) returns (opts: seq<Entry>)
    requires IsSquare(dist) && ki < |c|
    requires forall a :: 0 <= a < |c| ==> c[a] < |dist|
    requires HasPredecessors(C, c, ki)
    ensures opts == Options(dist, C, c, ki, |c|)
  {
    var k := c[ki];
    var prev := Elems(c) - {k};
    opts := [];
    var ji := 0;
    while ji < |c|
      invariant 0 <= ji <= |c|
      invariant opts == Options(dist, C, c, ki, ji)
    {
      var j := c[ji];
      if ji == ki {
        ji := ji + 1;
        continue;
      }
      var (cost, path) := C[(prev, j)];
      assert Edge(dist, j, k) == dist[j][k];
      opts := opts + [(cost + dist[j][k], path + [k])];
      ji := ji + 1;
    }
  }

  /**
   * One state (bits, k) of a combination c: the options C[(prev, j)] extended
   * by k, for every j of c other than k, and the first cheapest of them.
   */
  method BestEntry(dist: seq<seq<int>>, C: Memo, c: seq<nat>, ki: nat) returns (e: Entry)
    requires IsSquare(dist)
    requires Ascending(c) && |c| >= 2 && ki < |c|
    requires WithinNodes(Elems(c), |dist|)
    requires MemoSound(dist, C, |dist|) && MemoCovers(C, |dist|, |c| - 1)
    ensures OptimalEntry(dist, Elems(c), c[ki], e)
  {
    Predecessors(dist, C, |dist|, c, ki);
    assert forall a :: 0 <= a < |c| ==> c[a] in Elems(c);
    var opts := CollectOptions(dist, C, c, ki);
    BestOption(dist, C, c, ki);
    e := opts[FirstMin(opts)];
  }

  lemma SubsetCard(A: set<nat>, B: set<nat>)
    requires A <= B
    ensures |A| <= |B|
  {
    assert B == A + (B - A);
  }

  /** Storing an optimal entry for a state keeps the memo sound. */
  lemma MemoStore(dist: seq<seq<int>>, C: Memo, n: nat, S: set<nat>, k: nat, e: Entry)
    requires MemoSound(dist, C, n)
    requires WithinNodes(S, n) && k in S && OptimalEntry(dist, S, k, e)
    ensures MemoSound(dist, C[(S, k) := e], n)
  {
  }

  lemma SingletonOf(S: set<nat>, k: nat)
    requires |S| == 1 && k in S
    ensures S == {k}
  {
    assert S == (S - {k}) + {k};
    assert |S - {k}| == 0;
  }

  /** The first loop of held_karp: C[(1 << k, k)] = (dist[0][k], [0, k]) for k = 1 .. n-1. */
  method InitSingletons(dist: seq<seq<int>>) returns (C: Memo)
    requires IsSquare(dist)
    ensures MemoSound(dist, C, |dist|) && MemoCovers(C, |dist|, 1)
  {
    var n := |dist|;
    C := map[];
    var k := 1;
    while k < n
      invariant 1 <= k <= if n < 1 then 1 else n
      invariant MemoSound(dist, C, n)
      invariant forall k' :: 1 <= k' < k ==> ({k'}, k') in C
    {
      SingletonPaths(dist, k);
      assert [0, k][..1] == [0];
      assert PathCost(dist, [0, k]) == dist[0][k];
      MemoStore(dist, C, n, {k}, k, (dist[0][k], [0, k]));
      C := C[({k}, k) := (dist[0][k], [0, k])];
      k := k + 1;
    }
    forall S: set<nat>, k' | WithinNodes(S, n) && 1 <= |S| <= 1 && k' in S
      ensures (S, k') in C
    {
      SingletonOf(S, k');
    }
  }

  /** Adding states keeps every state that was covered covered. */
  lemma CoversMono(C0: Memo, C: Memo, n: nat, m: nat)
    requires MemoCovers(C0, n, m) && C0.Keys <= C.Keys
    ensures MemoCovers(C, n, m)
  {
  }

  /** The states (bits, k) of one combination c, for every k of c in order. */
  method FillCombination(dist: seq<seq<int>>, C0: Memo, c: seq<nat>) returns (C: Memo)
    requires IsSquare(dist)
    requires Ascending(c) && |c| >= 2 && WithinNodes(Elems(c), |dist|)
    requires MemoSound(dist, C0, |dist|) && MemoCovers(C0, |dist|, |c| - 1)
    ensures MemoSound(dist, C, |dist|) && C0.Keys <= C.Keys
    ensures forall k :: k in c ==> (Elems(c), k) in C
  {
    var n := |dist|;
    var bits := Elems(c);
    C := C0;
    var ki := 0;
    while ki < |c|
      invariant 0 <= ki <= |c|
      invariant MemoSound(dist, C, n) && C0.Keys <= C.Keys
      invariant StatesDone(C, c, ki)
    {
      var k := c[ki];
      CoversMono(C0, C, n, |c| - 1);
      var e := BestEntry(dist, C, c, ki);
      assert k in bits;
      MemoStore(dist, C, n, bits, k, e);
      ghost var before := C;
      C := C[(bits, k) := e];
      StatesDoneStep(before, c, ki, e);
      ki := ki + 1;
    }
    StatesDoneAll(C, c);
  }

  /** The states (Elems(c), c[a]) for a < upto are in C. */
  ghost predicate StatesDone(C: Memo, c: seq<nat>, upto: nat)
    requires upto <= |c|
  {
    forall a :: 0 <= a < upto ==> (Elems(c), c[a]) in C
  }

  lemma StatesDoneStep(C: Memo, c: seq<nat>, ki: nat, e: Entry)
    requires ki < |c| && StatesDone(C, c, ki)
    ensures StatesDone(C[(Elems(c), c[ki]) := e], c, ki + 1)
  {
  }

  lemma StatesDoneAll(C: Memo, c: seq<nat>)
    requires StatesDone(C, c, |c|)
    ensures forall k :: k in c ==> (Elems(c), k) in C
  {
  }

  /** Once every combination of size m has all its states, every state of size <= m is covered. */
  lemma StageCovers(C: Memo, n: nat, m: nat)
    requires 1 <= m
    requires MemoCovers(C, n, m - 1)
    requires Filled(C, Combos(1, n, m), |Combos(1, n, m)|)
    ensures MemoCovers(C, n, m)
  {
    var cs := Combos(1, n, m);
    forall S: set<nat>, k | WithinNodes(S, n) && 1 <= |S| <= m && k in S
      ensures (S, k) in C
    {
      if |S| == m {
        var q := CombosComplete(1, n, m, S);
        assert k in cs[q];
      }
    }
  }

  /** Every state of the first `upto` combinations of cs is in C. */
  ghost predicate Filled(C: Memo, cs: seq<seq<nat>>, upto: nat)
    requires upto <= |cs|
  {
    forall q, k :: 0 <= q < upto && k in cs[q] ==> (Elems(cs[q]), k) in C
  }

  lemma FilledStep(C0: Memo, C: Memo, cs: seq<seq<nat>>, ci: nat)
    requires ci < |cs| && Filled(C0, cs, ci) && C0.Keys <= C.Keys
    requires forall k :: k in cs[ci] ==> (Elems(cs[ci]), k) in C
    ensures Filled(C, cs, ci + 1)
  {
  }

  /** One round m of the main loop: every m-element combination, in order. */
  method FillStage(dist: seq<seq<int>>, C0: Memo, m: nat) returns (C: Memo)
    requires IsSquare(dist) && 2 <= m < |dist|
    requires MemoSound(dist, C0, |dist|) && MemoCovers(C0, |dist|, m - 1)
    ensures MemoSound(dist, C, |dist|) && MemoCovers(C, |dist|, m)
  {
    var n := |dist|;
    var cs := Combos(1, n, m);
    C := C0;
    var ci := 0;
    while ci < |cs|
      invariant 0 <= ci <= |cs|
      invariant MemoSound(dist, C, n) && C0.Keys <= C.Keys
      invariant Filled(C, cs, ci)
    {
      var c := cs[ci];
      CombosShape(1, n, m, ci);
      CoversMono(C0, C, n, m - 1);
      ghost var before := C;
      C := FillCombination(dist, C, c);
      FilledStep(before, C, cs, ci);
      ci := ci + 1;
    }
    CoversMono(C0, C, n, m - 1);
    StageCovers(C, n, m);
  }

  // ---------------------------------------------------------------------------
  // Closing the tour

  /** A path from 0 through every other node, ending at k, closed by the edge back to 0. */
  lemma CloseTour(dist: seq<seq<int>>, p: seq<nat>, n: nat, k: nat)
    requires n >= 2 && IsPathThrough(p, Others(n), k)
    ensures IsClosedTour(p + [0], n)
    ensures PathCost(dist, p + [0]) == PathCost(dist, p) + Edge(dist, k, 0)
  {
    OthersSize(n);
    PathCostAppend(dist, p, 0);
    assert (p + [0])[1..n] == p[1..];
  }

  /** A closed tour is a path through every other node ending at t[n-1], then the edge back to 0. */
  lemma OpenTour(dist: seq<seq<int>>, t: seq<nat>, n: nat)
    requires n >= 2 && IsClosedTour(t, n)
    ensures 1 <= t[n - 1] < n
    ensures IsPathThrough(t[..n], Others(n), t[n - 1])
    ensures PathCost(dist, t) == PathCost(dist, t[..n]) + Edge(dist, t[n - 1], 0)
  {
    ClosedTourNodes(t, n);
    OthersSize(n);
    assert t[..n][1..] == t[1..n];
    assert t == t[..n] + [0];
    PathCostAppend(dist, t[..n], 0);
  }

  /** Every state (Others(n), k) of the full set is present and optimal. */
  ghost predicate FullOptimal(dist: seq<seq<int>>, C: Memo, n: nat) {
    forall k :: 1 <= k < n ==>
      (Others(n), k) in C && OptimalEntry(dist, Others(n), k, C[(Others(n), k)])
  }

  /** After the last round every state of the full set is present and optimal. */
  lemma FullStates(dist: seq<seq<int>>, C: Memo, n: nat)
    requires n >= 2 && MemoSound(dist, C, n) && MemoCovers(C, n, n - 1)
    ensures FullOptimal(dist, C, n)
  {
    OthersSize(n);
    forall k | 1 <= k < n
      ensures (Others(n), k) in C
    {
      OthersIff(n, k);
      forall x | x in Others(n)
        ensures 1 <= x < n
      {
        OthersIff(n, x);
      }
    }
  }

  /** The closing options for k = 1 .. n-1, in that order: the full state for k, then back to 0. */
  ghost predicate ClosingOptions(dist: seq<seq<int>>, C: Memo, n: nat, opts: seq<Entry>)
  {
    |opts| == n - 1 &&
    forall i :: 0 <= i < |opts| ==>
      (Others(n), i + 1) in C && opts[i] == Extend(dist, C[(Others(n), i + 1)], i + 1, 0)
  }

  /** Each closing option is a closed tour at its cost. */
  lemma ClosingIsTour(dist: seq<seq<int>>, C: Memo, n: nat, opts: seq<Entry>, i: nat)
    requires n >= 2 && FullOptimal(dist, C, n) && ClosingOptions(dist, C, n, opts) && i < |opts|
    ensures IsClosedTour(opts[i].1, n) && PathCost(dist, opts[i].1) == opts[i].0
  {
    var e := C[(Others(n), i + 1)];
    assert OptimalEntry(dist, Others(n), i + 1, e);
    CloseTour(dist, e.1, n, i + 1);
  }

  /** A closed tour costs at least the closing option of its last node before 0. */
  lemma ClosingBound(dist: seq<seq<int>>, C: Memo, n: nat, opts: seq<Entry>, t: seq<nat>)
    requires n >= 2 && FullOptimal(dist, C, n) && ClosingOptions(dist, C, n, opts)
    requires IsClosedTour(t, n)
    ensures 1 <= t[n - 1] < n && opts[t[n - 1] - 1].0 <= PathCost(dist, t)
  {
    OpenTour(dist, t, n);
    var k := t[n - 1];
    var e := C[(Others(n), k)];
    assert OptimalEntry(dist, Others(n), k, e);
    assert e.0 <= PathCost(dist, t[..n]);
  }

  /** The first cheapest closing option is a closed tour, and no closed tour is cheaper. */
  lemma BestClosing(dist: seq<seq<int>>, C: Memo, n: nat, opts: seq<Entry>)
    requires n >= 2 && FullOptimal(dist, C, n)
    requires ClosingOptions(dist, C, n, opts)
    ensures |opts| > 0
    ensures var t := opts[FirstMin(opts)].1;
      IsClosedTour(t, n) && PathCost(dist, t) == opts[FirstMin(opts)].0
    ensures forall t :: IsClosedTour(t, n) ==> opts[FirstMin(opts)].0 <= PathCost(dist, t)
  {
    var r := FirstMin(opts);
    ClosingIsTour(dist, C, n, opts, r);
    forall t | IsClosedTour(t, n)
      ensures opts[r].0 <= PathCost(dist, t)
    {
      ClosingBound(dist, C, n, opts, t);
    }
  }

  /** The last loop of held_karp: for k = 1 .. n-1, the full state for k extended back to 0. */
  method CloseOptions(dist: seq<seq<int>>, C: Memo, n: nat) returns (opts: seq<Entry>)
    requires IsSquare(dist) && n == |dist| >= 2 && FullOptimal(dist, C, n)
    ensures ClosingOptions(dist, C, n, opts)
  {
    var bits := Others(n);
    opts := [];
    var k: nat := 1;
    while k < n
      invariant 1 <= k <= n
      invariant |opts| == k - 1
      invariant forall i :: 0 <= i < |opts| ==> opts[i] == Extend(dist, C[(bits, i + 1)], i + 1, 0)
    {
      var (cost, path) := C[(bits, k)];
      assert Edge(dist, k, 0) == dist[k][0];
      opts := opts + [(cost + dist[k][0], path + [0])];
      k := k + 1;
    }
  }

  /**
   * held_karp(dist): None where the source's final min() has no options
   * (fewer than two nodes); otherwise a closed tour from node 0 of least cost.
   */
  method HeldKarp(dist: seq<seq<int>>) returns (r: Option<seq<nat>>)
    requires IsSquare(dist)
    ensures r.None? <==> |dist| < 2
    ensures r.Some? ==> IsClosedTour(r.value, |dist|)
    ensures r.Some? ==> forall t :: IsClosedTour(t, |dist|) ==> PathCost(dist, r.value) <= PathCost(dist, t)
  {
    var n := |dist|;
    if n < 2 {
      return None;
    }
    var C: Memo := InitSingletons(dist);
    var m := 2;
    while m < n
      invariant 2 <= m <= n
      invariant MemoSound(dist, C, n) && MemoCovers(C, n, m - 1)
    {
      C := FillStage(dist, C, m);
      m := m + 1;
    }
    FullStates(dist, C, n);
    var opts := CloseOptions(dist, C, n);
    BestClosing(dist, C, n, opts);
    r := Some(opts[FirstMin(opts)].1);
  }
}
