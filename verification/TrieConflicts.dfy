/** What findBase, findAccepts, relocate and createTransition promise each other, stated on cells. */
module TrieConflicts {
  import opened Basics
  import opened TrieCells
  import opened TrieRelocation
  import opened TrieUpdates

  /** Cells after forceNext(s, ch): it grows the array when s + key2state(ch) is outside it. */
  function NumAfter(num: nat, s: nat, ch: nat): nat {
    if s + Key2State(ch) >= num then Aligned(num, Key2State(ch)) else num
  }

  ghost predicate AllBelow(labels: seq<int>, max: int) {
    forall i :: 0 <= i < |labels| ==> 0 <= labels[i] <= max
  }

  ghost predicate NothingAbove(C: Cells, h: int) {
    forall x :: x > h ==> At(C, x).check <= 0
  }

  /** Some cell that base b would need is occupied. */
  ghost predicate Clash(C: Cells, b: int, key: seq<int>) {
    exists j :: 0 <= j < |key| && At(C, b + Key2State(key[j])).check > 0
  }

  ghost predicate Increasing(labels: seq<int>) {
    forall i, j :: 0 <= i < j < |labels| ==> labels[i] < labels[j]
  }

  /** Every occupied cell lies at most 256 places after the last base handed out. */
  lemma BasesNearLast(C: Cells, P: map<int, Key>, last: int)
    requires Tree(C, P, last)
    ensures NothingAbove(C, last + 256)
  {
    forall x | At(C, x).check > 0 ensures x <= last + 256 { ChildOfCheck(C, P, last, x); }
  }

  /** The children of s and the base found for them meet the conditions of the move. */
  lemma RelocateReady(C0: Cells, C: Cells, P: map<int, Key>, last: int, s: int, neo: int, K: set<int>, key: seq<int>)
    requires Tree(C0, P, last) && Tree(C, P, last) && SameAt(C0, C) && s in P && NulFree(P[s]) && last < neo
    requires K == set x | 0 <= x < |C| && C[x].check == s
    requires forall ch {:trigger Listed(C0, s, key, ch)} :: Listed(C0, s, key, ch)
    requires forall j {:trigger OpenAt(C, neo, key, j)} :: 0 <= j < |key| ==> OpenAt(C, neo, key, j)
    ensures Movable(C, P, last, s, neo - At(C, s).base, K)
    ensures forall x {:trigger Covered(key, At(C, s).base, x)} :: x in K ==> Covered(key, At(C, s).base, x)
    ensures forall x :: x in K ==> x + (neo - At(C, s).base) < |C|
  {
    var was := At(C, s).base;
    forall x | x in K
      ensures Covered(key, was, x) && At(C, x + (neo - was)).check <= 0 && x + (neo - was) < |C|
    {
      var ch := x - was - 1;
      ChildOfCheck(C, P, last, x);
      StepSame(C0, C, s, ch);
      assert Listed(C0, s, key, ch);
      var j :| 0 <= j < |key| && key[j] == ch;
      assert OpenAt(C, neo, key, j);
    }
    assert Kids(C, s, K);
  }

  lemma NoBaseNoKids(C: Cells, P: map<int, Key>, last: int, s: int, d: int, K: set<int>)
    requires Movable(C, P, last, s, d, K)
    ensures At(C, s).base == 0 ==> forall x :: x !in K
  {
    forall x | x in K ensures At(C, s).base != 0 { KidFacts(C, P, last, s, d, K, x); }
  }

  /** The loop's test picks out exactly the children still to be moved. */
  lemma RelocateTurn(C: Cells, D: Cells, P: map<int, Key>, last: int, s: int, d: int, K: set<int>, done: set<int>,
                     x0: int, stand: int)
    requires Movable(C, P, last, s, d, K) && done <= K && Moved(C, D, s, d, done) && stand in P
    requires (forall x :: x !in K) || At(C, x0).check > 0
    ensures At(D, x0).check == s <==> x0 in K - done
    ensures x0 in K ==> (Ren(done, d, stand) == x0 <==> x0 !in done && stand == x0)
    ensures x0 in K ==> 0 < x0
  {
    assert At(D, x0) == MovedCell(C, s, d, done, x0);
    if x0 in K { KidFacts(C, P, last, s, d, K, x0); }
    if x0 in K && stand in done { KidFacts(C, P, last, s, d, K, stand); }
    if x0 in K - done { MidMoveKid(C, D, P, last, s, d, K, done, x0); }
    if x0 - d in done { KidFacts(C, P, last, s, d, K, x0 - d); }
    if At(C, x0).check in done { KidFacts(C, P, last, s, d, K, At(C, x0).check); NotTarget(C, P, last, s, d, K, s); }
  }

  /** The label of cell x relative to base `was` is one of the labels of `key`. */
  predicate Covered(key: seq<int>, was: int, x: int) { x - was - 1 in key }

  /** The cell of label key[i] under base `was` is in the array, and taken unless `was` is unset. */
  predicate FitsAt(C: Cells, was: int, key: seq<int>, i: int)
    requires 0 <= i < |key|
  {
    0 <= key[i] && was + Key2State(key[i]) < |C| && (was == 0 || At(C, was + Key2State(key[i])).check > 0)
  }

  /** FindBase's promise about the cell of label key[i] under base neo. */
  predicate OpenAt(C: Cells, neo: int, key: seq<int>, i: int)
    requires 0 <= i < |key|
  {
    At(C, neo + Key2State(key[i])).check <= 0 && neo + Key2State(key[i]) < |C|
  }

  /** The cell of label key[i] under base neo is a free cell of the array. */
  ghost predicate SpareAt(C: Cells, P: map<int, Key>, neo: int, key: seq<int>, i: int)
    requires 0 <= i < |key|
  {
    neo + Key2State(key[i]) !in P && neo + Key2State(key[i]) < |C|
  }

  /** A transition on ch, if there is one, is listed in `key`. */
  predicate Listed(C: Cells, s: int, key: seq<int>, ch: int) {
    Step(C, s, ch) != 0 ==> ch in key
  }

  /** The children already handled once the labels in `seen` have had their turn. */
  function Handled(K: set<int>, was: int, seen: seq<int>): (r: set<int>)
    ensures r <= K
  {
    set x | x in K && x - was - 1 in seen
  }

  lemma HandledStep(K: set<int>, was: int, key: seq<int>, i: nat)
    requires i < |key|
    ensures Handled(K, was, key[..i + 1]) ==
            Handled(K, was, key[..i]) + (if was + Key2State(key[i]) in K then {was + Key2State(key[i])} else {})
  {
    assert key[..i + 1] == key[..i] + [key[i]];
  }

  lemma HandledAll(K: set<int>, was: int, key: seq<int>)
    requires forall x {:trigger Covered(key, was, x)} :: x in K ==> Covered(key, was, x)
    ensures Handled(K, was, key[..|key|]) == K && Handled(K, was, key[..0]) == {}
  {
    assert key[..|key|] == key;
    forall x | x in K ensures x in Handled(K, was, key) { assert Covered(key, was, x); }
  }

  lemma MovedNone(C: Cells, s: int, d: int)
    ensures Moved(C, C, s, d, {})
  {
  }

  lemma FinishCells(C: Cells, D: Cells, E: Cells, P: map<int, Key>, last: int, s: int, d: int, K: set<int>)
    requires Movable(C, P, last, s, d, K) && Moved(C, D, s, d, K)
    requires E == D[s := D[s].(base := At(C, s).base + d)]
    ensures Relocated(C, E, s, d, K)
  {
    forall x ensures At(E, x) == RelocatedCell(C, s, d, K, x) {
      assert At(D, x) == MovedCell(C, s, d, K, x);
      assert At(E, x) == if x == s then At(D, s).(base := At(C, s).base + d) else At(D, x);
    }
  }

  /** What a finished relocation leaves behind: the same keys, s rebased, the old cells vacated,
      and the cells for the labels still to come free. */
  lemma FinishRelocate(C0: Cells, C: Cells, E: Cells, P: map<int, Key>, last: int, s: int, d: int, K: set<int>)
    requires Movable(C, P, last, s, d, K) && Relocated(C, E, s, d, K) && SameAt(C0, C)
    requires last <= At(C, s).base + d < |C| && forall x :: x in K ==> x + d < |C|
    ensures K <= P.Keys && Tree(E, RenPaths(P, K, d), At(C, s).base + d) && KeysPlus(C0, E, {})
    ensures forall x :: At(C0, x).check == s ==> x !in RenPaths(P, K, d)
  {
    MoveFacts(C, P, last, s, d, K);
    RelocateTree(C, E, P, last, s, d, K);
    RelocateKeys(C, E, P, last, s, d, K);
    forall q: Key ensures KeptAt(C0, E, {}, q) {
      WalkSame(C0, C, q);
      assert KeptAt(C, E, {}, q);
      assert At(C0, Walk(C, q)) == At(C, Walk(C, q));
    }
    forall x | At(C0, x).check == s ensures x !in RenPaths(P, K, d) { assert At(C, x).check == s; }
  }

  lemma StandMoved(C0: Cells, C: Cells, E: Cells, P: map<int, Key>, last: int, s: int, d: int, K: set<int>, x: int)
    requires Movable(C, P, last, s, d, K) && Relocated(C, E, s, d, K) && SameAt(C0, C) && x in P && K <= P.Keys
    ensures var Q := RenPaths(P, K, d);
      && Ren(K, d, x) in Q && Q[Ren(K, d, x)] == P[x]
      && (x == s ==> Ren(K, d, x) == s && At(E, s).base == At(C, s).base + d)
      && (x != s ==> At(E, Ren(K, d, x)).base == At(C0, x).base)
  {
    MoveFacts(C, P, last, s, d, K);
    RenPathsAt(C, P, last, s, d, K, x);
    RenCell(C, E, P, last, s, d, K, x);
    assert At(C, x) == At(C0, x);
  }

  lemma NewLabelFree(C0: Cells, C: Cells, P: map<int, Key>, last: int, s: int, d: int, K: set<int>, ch: int)
    requires Movable(C, P, last, s, d, K) && SameAt(C0, C) && K <= P.Keys && Step(C0, s, ch) == 0 && ch >= 0
    requires At(C, At(C, s).base + d + Key2State(ch)).check <= 0
    ensures At(C, s).base + d + Key2State(ch) !in RenPaths(P, K, d)
  {
    var y := At(C, s).base + d + Key2State(ch);
    StepSame(C0, C, s, ch);
    if y in RenPaths(P, K, d) {
      var x := RenPathsFrom(C, P, last, s, d, K, y);
      if x in K {
        ChildOfCheck(C, P, last, x);
      } else {
        OccupiedCheck(C, P, last, x);
      }
    }
  }

  lemma SparesLeft(C0: Cells, C: Cells, E: Cells, P: map<int, Key>, last: int, s: int, d: int, K: set<int>,
                   key: seq<int>)
    requires Movable(C, P, last, s, d, K) && SameAt(C0, C) && K <= P.Keys && |C| <= |E|
    requires forall j :: 0 <= j < |key| ==> key[j] >= 0
    requires forall j {:trigger OpenAt(C, At(C, s).base + d, key, j)} :: 0 <= j < |key| ==>
               OpenAt(C, At(C, s).base + d, key, j)
    ensures forall i {:trigger SpareAt(E, RenPaths(P, K, d), At(C, s).base + d, key, i)} ::
              0 <= i < |key| && Step(C0, s, key[i]) == 0 ==> SpareAt(E, RenPaths(P, K, d), At(C, s).base + d, key, i)
  {
    forall i | 0 <= i < |key| && Step(C0, s, key[i]) == 0
      ensures SpareAt(E, RenPaths(P, K, d), At(C, s).base + d, key, i)
    {
      assert OpenAt(C, At(C, s).base + d, key, i);
      NewLabelFree(C0, C, P, last, s, d, K, key[i]);
    }
  }

  /** The labelling after a relocation, with everything the caller relies on. */
  lemma NewLabelling(C0: Cells, C: Cells, E: Cells, P: map<int, Key>, last: int, s: int, d: int, K: set<int>,
                     key: seq<int>, stand: int) returns (Q: map<int, Key>)
    requires Movable(C, P, last, s, d, K) && Relocated(C, E, s, d, K) && SameAt(C0, C) && stand in P
    requires last <= At(C, s).base + d < |C| && forall x :: x in K ==> x + d < |C|
    requires forall j :: 0 <= j < |key| ==> key[j] >= 0
    requires forall j {:trigger OpenAt(C, At(C, s).base + d, key, j)} :: 0 <= j < |key| ==>
               OpenAt(C, At(C, s).base + d, key, j)
    ensures Tree(E, Q, At(C, s).base + d) && KeysPlus(C0, E, {})
    ensures forall x :: At(C0, x).check == s ==> x !in Q
    ensures s in Q && Q[s] == P[s] && At(E, s).base == At(C, s).base + d && Ren(K, d, s) == s
    ensures Ren(K, d, stand) in Q && Q[Ren(K, d, stand)] == P[stand]
    ensures stand != s ==> At(E, Ren(K, d, stand)).base == At(C0, stand).base
    ensures forall i {:trigger SpareAt(E, Q, At(C, s).base + d, key, i)} ::
              0 <= i < |key| && Step(C0, s, key[i]) == 0 ==> SpareAt(E, Q, At(C, s).base + d, key, i)
  {
    FinishRelocate(C0, C, E, P, last, s, d, K);
    Q := RenPaths(P, K, d);
    StandMoved(C0, C, E, P, last, s, d, K, s);
    StandMoved(C0, C, E, P, last, s, d, K, stand);
    SparesLeft(C0, C, E, P, last, s, d, K, key);
  }

  /** The children of s after the base search, with all that moving them requires. */
  lemma PrepareMove(C0: Cells, C: Cells, P: map<int, Key>, last: int, s: int, neo: int, key: seq<int>)
    returns (K: set<int>)
    requires Tree(C0, P, last) && SameAt(C0, C) && s in P && NulFree(P[s]) && last < neo
    requires forall ch {:trigger Listed(C0, s, key, ch)} :: Listed(C0, s, key, ch)
    requires forall j {:trigger OpenAt(C, neo, key, j)} :: 0 <= j < |key| ==> OpenAt(C, neo, key, j)
    requires forall i {:trigger FitsAt(C0, At(C0, s).base, key, i)} :: 0 <= i < |key| ==>
               FitsAt(C0, At(C0, s).base, key, i)
    ensures At(C, s).base == At(C0, s).base && Movable(C, P, last, s, neo - At(C, s).base, K)
    ensures forall x {:trigger Covered(key, At(C, s).base, x)} :: x in K ==> Covered(key, At(C, s).base, x)
    ensures forall x :: x in K ==> x + (neo - At(C, s).base) < |C|
    ensures forall i {:trigger FitsAt(C, At(C, s).base, key, i)} :: 0 <= i < |key| ==> FitsAt(C, At(C, s).base, key, i)
  {
    K := set x | 0 <= x < |C| && C[x].check == s;
    assert At(C, s) == At(C0, s);
    TreeGrow(C0, C, P, last, last);
    RelocateReady(C0, C, P, last, s, neo, K, key);
    StillFits(C0, C, At(C, s).base, key);
  }

  lemma StillFits(C: Cells, D: Cells, was: int, key: seq<int>)
    requires SameAt(C, D)
    requires forall i {:trigger FitsAt(C, was, key, i)} :: 0 <= i < |key| ==> FitsAt(C, was, key, i)
    ensures forall i {:trigger FitsAt(D, was, key, i)} :: 0 <= i < |key| ==> FitsAt(D, was, key, i)
  {
    forall i | 0 <= i < |key| ensures FitsAt(D, was, key, i) {
      assert FitsAt(C, was, key, i);
      assert At(D, was + Key2State(key[i])) == At(C, was + Key2State(key[i]));
    }
  }

  /** How many labels below n lead from s to a child. */
  function CountTo(C: Cells, s: int, n: nat): nat {
    if n == 0 then 0 else CountTo(C, s, n - 1) + (if Step(C, s, n - 1) != 0 then 1 else 0)
  }

  function ChildCount(C: Cells, s: int): nat { CountTo(C, s, ALPHABET_SIZE) }

  lemma {:induction false} CountSame(C: Cells, D: Cells, s: int, n: nat)
    requires SameAt(C, D) && s > 0
    ensures CountTo(D, s, n) == CountTo(C, s, n)
  {
    if n > 0 {
      StepSame(C, D, s, n - 1);
      CountSame(C, D, s, n - 1);
    }
  }

  /** createTransition moves the owner of the contested cell when it has fewer children than s
      will have. */
  predicate OwnerMoves(C: Cells, s: int, t: int) {
    var p := At(C, t).check;
    p != 0 && 0 < ChildCount(C, p) < ChildCount(C, s) + 1
  }

  lemma OwnerMovesSame(C: Cells, D: Cells, s: int, t: int)
    requires SameAt(C, D) && s > 0 && At(C, t).check >= 0
    ensures OwnerMoves(D, s, t) == OwnerMoves(C, s, t)
  {
    assert At(D, t) == At(C, t);
    CountSame(C, D, s, ALPHABET_SIZE);
    if At(C, t).check > 0 { CountSame(C, D, At(C, t).check, ALPHABET_SIZE); }
  }

  /** The list made by findAccepts: all child labels of s, in order, with its two bounds. */
  ghost predicate Accepts(C: Cells, s: int, inputs: seq<int>, max: int, min: int) {
    && (forall ch {:trigger Listed(C, s, inputs, ch)} :: Listed(C, s, inputs, ch))
    && (forall i :: 0 <= i < |inputs| ==> 0 <= inputs[i] < ALPHABET_SIZE && Step(C, s, inputs[i]) != 0)
    && Increasing(inputs)
    && max == (if inputs == [] then 0 else inputs[|inputs| - 1])
    && (min == 0 || min in inputs)
    && (forall i :: 0 <= i < |inputs| && inputs[i] != 0 ==> 0 < min <= inputs[i])
  }

  /** The same list in the middle of findAccepts, the labels below n having been tried. */
  ghost predicate AcceptsTo(C: Cells, s: int, inputs: seq<int>, max: int, min: int, n: nat) {
    && (forall ch {:trigger ch in inputs} :: ch in inputs <==> 0 <= ch < n && Step(C, s, ch) != 0)
    && Increasing(inputs)
    && max == (if inputs == [] then 0 else inputs[|inputs| - 1])
    && (min == 0 || min in inputs)
    && (forall i :: 0 <= i < |inputs| && inputs[i] != 0 ==> 0 < min <= inputs[i])
  }

  lemma AcceptsNext(C: Cells, s: int, inputs: seq<int>, max: int, min: int, n: nat)
    requires AcceptsTo(C, s, inputs, max, min, n)
    ensures Step(C, s, n) == 0 ==> AcceptsTo(C, s, inputs, max, min, n + 1)
    ensures Step(C, s, n) != 0 ==> AcceptsTo(C, s, inputs + [n], if n > max || max == 0 then n else max,
                                             if n < min || min == 0 then n else min, n + 1)
  {
    forall i | 0 <= i < |inputs| ensures 0 <= inputs[i] < n { assert inputs[i] in inputs; }
    if Step(C, s, n) != 0 {
      forall ch ensures ch in inputs + [n] <==> 0 <= ch < n + 1 && Step(C, s, ch) != 0 {
        assert ch in inputs + [n] <==> ch in inputs || ch == n;
      }
    }
  }

  lemma AcceptsFit(C: Cells, P: map<int, Key>, last: int, s: int, inputs: seq<int>, max: int, min: int)
    requires Tree(C, P, last) && s in P && Accepts(C, s, inputs, max, min)
    ensures AllBelow(inputs, max) && 0 <= min <= max < 256
    ensures forall i {:trigger FitsAt(C, At(C, s).base, inputs, i)} :: 0 <= i < |inputs| ==>
              FitsAt(C, At(C, s).base, inputs, i)
    ensures inputs != [] ==> At(C, s).base >= 2
  {
    forall i | 0 <= i < |inputs|
      ensures FitsAt(C, At(C, s).base, inputs, i) && 0 <= inputs[i] <= max && inputs[i] < 256 && At(C, s).base >= 2
    {
      StepLabel(C, P, last, s, inputs[i]);
    }
  }

  lemma FitsOneMore(C: Cells, was: int, ns: seq<int>, ch: int)
    requires forall i {:trigger FitsAt(C, was, ns, i)} :: 0 <= i < |ns| ==> FitsAt(C, was, ns, i)
    requires 0 <= ch && was + Key2State(ch) < |C| && (was == 0 || At(C, was + Key2State(ch)).check > 0)
    ensures forall i {:trigger FitsAt(C, was, ns + [ch], i)} :: 0 <= i < |ns + [ch]| ==> FitsAt(C, was, ns + [ch], i)
  {
    forall i | 0 <= i < |ns + [ch]| ensures FitsAt(C, was, ns + [ch], i) {
      if i < |ns| { assert FitsAt(C, was, ns, i); }
    }
  }

  lemma ListedMore(C: Cells, s: int, ns: seq<int>, ch: int)
    requires forall c {:trigger Listed(C, s, ns, c)} :: Listed(C, s, ns, c)
    ensures forall c {:trigger Listed(C, s, ns + [ch], c)} :: Listed(C, s, ns + [ch], c)
  {
    forall c ensures Listed(C, s, ns + [ch], c) { assert Listed(C, s, ns, c); }
  }

  lemma AcceptsSame(C: Cells, D: Cells, s: int, inputs: seq<int>, max: int, min: int)
    requires SameAt(C, D) && s > 0 && Accepts(C, s, inputs, max, min)
    ensures Accepts(D, s, inputs, max, min)
  {
    forall ch ensures Listed(D, s, inputs, ch) {
      assert Listed(C, s, inputs, ch);
      StepSame(C, D, s, ch);
    }
    forall i | 0 <= i < |inputs| ensures Step(D, s, inputs[i]) != 0 { StepSame(C, D, s, inputs[i]); }
  }

  lemma KeysPlusSame(C0: Cells, C: Cells, E: Cells, added: set<Key>)
    requires SameAt(C0, C) && KeysPlus(C, E, added)
    ensures KeysPlus(C0, E, added)
  {
    forall q: Key ensures KeptAt(C0, E, added, q) {
      WalkSame(C0, C, q);
      assert KeptAt(C, E, added, q);
      assert At(C0, Walk(C, q)) == At(C, Walk(C, q));
    }
  }

  lemma KeysPlusStill(C: Cells, D: Cells, E: Cells, added: set<Key>)
    requires KeysPlus(C, D, {}) && KeysPlus(D, E, added)
    ensures KeysPlus(C, E, added)
  {
    forall q: Key ensures KeptAt(C, E, added, q) {
      assert KeptAt(C, D, {}, q) && KeptAt(D, E, added, q);
    }
  }

  lemma KeysPlusNone(C: Cells, D: Cells)
    requires SameAt(C, D)
    ensures KeysPlus(C, D, {})
  {
    forall q: Key ensures KeptAt(C, D, {}, q) {
      WalkSame(C, D, q);
      assert At(D, Walk(C, q)) == At(C, Walk(C, q));
    }
  }

  /** A strictly increasing list of exactly the child labels below n is as long as their number. */
  lemma {:induction false} ListedCount(C: Cells, s: int, inputs: seq<int>, n: nat)
    requires Increasing(inputs) && forall ch :: ch in inputs <==> 0 <= ch < n && Step(C, s, ch) != 0
    ensures |inputs| == CountTo(C, s, n)
  {
    if inputs != [] { assert inputs[0] in inputs && inputs[|inputs| - 1] in inputs; }
    if n > 0 {
      if n - 1 in inputs {
        var last := |inputs| - 1;
        assert inputs[last] == n - 1;
        forall ch ensures ch in inputs[..last] <==> 0 <= ch < n - 1 && Step(C, s, ch) != 0 {
          assert ch in inputs <==> ch in inputs[..last] || ch == n - 1;
        }
        ListedCount(C, s, inputs[..last], n - 1);
      } else {
        ListedCount(C, s, inputs, n - 1);
      }
    }
  }

  lemma FoundAccepts(C: Cells, P: map<int, Key>, last: int, s: int, inputs: seq<int>, max: int, min: int)
    requires Tree(C, P, last) && s in P && AcceptsTo(C, s, inputs, max, min, ALPHABET_SIZE)
    ensures Accepts(C, s, inputs, max, min) && |inputs| == ChildCount(C, s)
  {
    ListedCount(C, s, inputs, ALPHABET_SIZE);
    forall ch ensures Listed(C, s, inputs, ch) {
      if Step(C, s, ch) != 0 { StepLabel(C, P, last, s, ch); }
    }
    forall i | 0 <= i < |inputs| ensures 0 <= inputs[i] < ALPHABET_SIZE && Step(C, s, inputs[i]) != 0 {
      assert inputs[i] in inputs;
    }
  }

  /** The owner of a contested cell is another inner state. */
  lemma OwnerFacts(C: Cells, P: map<int, Key>, last: int, s: int, ch: int, t: int)
    requires Tree(C, P, last) && s in P && t == Target(C, s, ch) && t > 0 && Step(C, s, ch) == 0 && At(C, t).check != 0
    ensures var p := At(C, t).check; p > 0 && p in P && NulFree(P[p]) && p != s
  {
    assert t !in P ==> At(C, t) == State(0, 0);
    assert t != INIT_STATE;
    assert Linked(C, P, t);
  }

  /** A cell without a positive check is free, unless it is the root, which no base reaches. */
  lemma FreeHasNoOwner(C: Cells, P: map<int, Key>, last: int, s: int, t: int)
    requires Tree(C, P, last) && s in P && NulFree(P[s])
    ensures At(C, s).base > 0 ==> At(C, s).base >= 2
    ensures t > 2 && At(C, t).check <= 0 ==> t !in P
  {
    if t in P && t > 2 { OccupiedCheck(C, P, last, t); }
  }

  lemma GrownForNext(C: Cells, D: Cells, P: map<int, Key>, last: int, s: int, ch: Byte, t: int)
    requires Tree(C, P, last) && SameAt(C, D) && s in P && NulFree(P[s]) && t == Target(C, s, ch)
    ensures Tree(D, P, last) && KeysPlus(C, D, {}) && Step(D, s, ch) == Step(C, s, ch) && At(D, s) == At(C, s)
    ensures At(D, s).base > 0 ==> At(D, s).base >= 2
    ensures At(D, s).base > 0 && At(D, t).check <= 0 ==> t !in P
  {
    TreeGrow(C, D, P, last, last);
    KeysPlusNone(C, D);
    StepSame(C, D, s, ch);
    FreeHasNoOwner(D, P, last, s, t);
  }

  /** Growing the array decides nothing about a conflict. */
  lemma ContestSame(C: Cells, D: Cells, P: map<int, Key>, last: int, s: int, ch: int, t: int)
    requires Tree(C, P, last) && SameAt(C, D) && s in P
    ensures At(D, t) == At(C, t) && At(C, t).check >= 0 && At(D, s) == At(C, s) && Step(D, s, ch) == Step(C, s, ch)
    ensures OwnerMoves(D, s, t) == OwnerMoves(C, s, t) && ChildCount(D, s) == ChildCount(C, s)
  {
    StepSame(C, D, s, ch);
    CountSame(C, D, s, ALPHABET_SIZE);
    if t in P && t != INIT_STATE { OccupiedCheck(C, P, last, t); }
    OwnerMovesSame(C, D, s, t);
  }

  /** The cell for ch can be used as it is. */
  predicate TransitionIsFree(C: Cells, s: int, ch: int) {
    At(C, s).base > 0 && At(C, Target(C, s, ch)).check <= 0
  }

  /** The array access of createTransition stays inside the array. */
  predicate TransitionFits(C: Cells, s: nat, ch: nat) {
    At(C, s).base <= 0 || Target(C, s, ch) < NumAfter(|C|, s, ch)
  }

  /** Whether inserting the label string `full` from position p on stays inside the array: the walk
      may grow the array, and the first missing transition out of a based state must fit. */
  function InsertFits(C: Cells, num: nat, full: Key, p: nat): bool
    decreases |full| - p
  {
    if p >= |full| then true
    else
      var s := Walk(C, full[..p]);
      if s <= 0 then true
      else if Step(C, s, full[p]) == 0 then At(C, s).base <= 0 || Target(C, s, full[p]) < NumAfter(num, s, full[p])
      else InsertFits(C, NumAfter(num, s, full[p]), full, p + 1)
  }

  /** With 256 spare cells past the last base no insertion looks outside the array. */
  lemma {:induction false} RoomToInsert(C: Cells, P: map<int, Key>, last: int, num: nat, full: Key, p: nat)
    requires Tree(C, P, last) && last + 256 < num && forall i :: 0 <= i < |full| - 1 ==> full[i] != 0
    ensures InsertFits(C, num, full, p)
    decreases |full| - p
  {
    if p < |full| {
      var s := Walk(C, full[..p]);
      if s > 0 {
        WalkEnds(C, P, last, full[..p]);
        if Step(C, s, full[p]) != 0 {
          RoomToInsert(C, P, last, NumAfter(num, s, full[p]), full, p + 1);
        }
      }
    }
  }

  ghost predicate RepresentsBut(C: Cells, M: map<Key, int>, key: Key) {
    forall k: Key {:trigger StoredAt(C, M, k)} :: NulFree(k) && k != key ==> StoredAt(C, M, k)
  }

  lemma RepresentsGrow(C: Cells, D: Cells, M: map<Key, int>)
    requires Represents(C, M) && SameAt(C, D)
    ensures Represents(D, M)
  {
    KeysPlusNone(C, D);
    forall k: Key | NulFree(k) ensures StoredAt(D, M, k) {
      assert StoredAt(C, M, k);
      StoredKept(C, D, M, {}, k);
    }
  }

  lemma LeafOfPrefix(key: Key, p: nat, k: Key)
    requires NulFree(key) && p <= |key| && k + [0] == (key + [0])[..p + 1]
    ensures p == |key| && k == key
  {
    assert (k + [0])[|k|] == 0 && |k| == p;
    assert (key + [0])[..p + 1][p] == (key + [0])[p];
    assert k == (k + [0])[..p] == (key + [0])[..p + 1][..p] == (key + [0])[..p];
  }

  /** Growing the array changes neither the tree nor the map. */
  lemma GrownValid(C: Cells, D: Cells, P: map<int, Key>, last: int, M: map<Key, int>)
    requires Tree(C, P, last) && Represents(C, M) && SameAt(C, D)
    ensures Tree(D, P, last) && Represents(D, M)
  {
    TreeGrow(C, D, P, last, last);
    RepresentsGrow(C, D, M);
  }

  /** Going down one step along a label string. */
  lemma StepAlong(C: Cells, P: map<int, Key>, last: int, s: int, full: Key, p: nat)
    requires Tree(C, P, last) && s in P && p < |full| && P[s] == full[..p]
    ensures var t := Step(C, s, full[p]); t != 0 ==> t in P && P[t] == full[..p + 1]
  {
    if Step(C, s, full[p]) != 0 {
      StepLabel(C, P, last, s, full[p]);
      assert full[..p + 1] == full[..p] + [full[p]];
    }
  }

  lemma DescendStep(C: Cells, D: Cells, P: map<int, Key>, last: int, s: int, full: Key, p: nat)
    requires Tree(C, P, last) && SameAt(C, D) && s in P && p < |full| && P[s] == full[..p]
    ensures Walk(C, full[..p]) == s && 0 < s < |C| && Step(D, s, full[p]) == Step(C, s, full[p]) >= 0
    ensures var t := Step(C, s, full[p]); t != 0 ==> t in P && P[t] == full[..p + 1]
  {
    WalkPath(C, P, last, s);
    StepSame(C, D, s, full[p]);
    StepAlong(C, P, last, s, full, p);
  }

  /** One more transition of a new key: nothing changes for any other key, and nothing at all
      until the closing NUL. */
  lemma RepresentsStep(C: Cells, D: Cells, M: map<Key, int>, key: Key, p: nat)
    requires Represents(C, M) && p <= |key| && NulFree(key) && KeysPlus(C, D, {(key + [0])[..p + 1]})
    ensures if p == |key| then RepresentsBut(D, M, key) else Represents(D, M)
  {
    var added := (key + [0])[..p + 1];
    forall k: Key | NulFree(k) && (p < |key| || k != key) ensures StoredAt(D, M, k) {
      assert StoredAt(C, M, k);
      if k + [0] == added { LeafOfPrefix(key, p, k); }
      StoredKept(C, D, M, {added}, k);
    }
  }

  lemma PrefixNulFree(key: Key, p: nat)
    requires NulFree(key) && p <= |key|
    ensures NulFree((key + [0])[..p])
  {
  }

  lemma NoBaseNoStep(C: Cells, P: map<int, Key>, last: int, s: int, ch: int)
    requires Tree(C, P, last) && s in P
    ensures At(C, s).base == 0 ==> Step(C, s, ch) == 0
  {
    if Step(C, s, ch) != 0 { StepLabel(C, P, last, s, ch); }
  }
}
