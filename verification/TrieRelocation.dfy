/** Moving the children of one state to a new base: the cell-by-cell picture of the move, and
    the proof that it keeps the tree and every stored key and value. */
module TrieRelocation {
  import opened TrieCells

  /** K is the set of cells that are children of s. */
  ghost predicate Kids(C: Cells, s: int, K: set<int>) {
    forall x :: x in K <==> At(C, x).check == s
  }

  /** The cells d places after those of K are free. */
  ghost predicate Free(C: Cells, K: set<int>, d: int) {
    forall x {:trigger FreeAt(C, d, x)} :: x in K ==> FreeAt(C, d, x)
  }

  predicate FreeAt(C: Cells, d: int, x: int) { At(C, x + d).check <= 0 }

  /** Cell x after the children K of s moved by d places: vacated cells are zero, new cells hang
      below s, and children of moved cells point at the new place of their parent. */
  function MovedCell(C: Cells, s: int, d: int, K: set<int>, x: int): State {
    if x in K then State(0, 0)
    else if x - d in K then State(At(C, x - d).base, s)
    else if At(C, x).check in K then State(At(C, x).base, At(C, x).check + d)
    else At(C, x)
  }

  ghost predicate Moved(C: Cells, D: Cells, s: int, d: int, K: set<int>) {
    |C| <= |D| && forall x {:trigger MovedCell(C, s, d, K, x)} :: At(D, x) == MovedCell(C, s, d, K, x)
  }

  /** The cell picture of a whole relocation: all children moved, and s itself rebased. */
  function RelocatedCell(C: Cells, s: int, d: int, K: set<int>, x: int): State {
    if x == s then State(At(C, s).base + d, MovedCell(C, s, d, K, s).check) else MovedCell(C, s, d, K, x)
  }

  ghost predicate Relocated(C: Cells, D: Cells, s: int, d: int, K: set<int>) {
    |C| <= |D| && forall x {:trigger RelocatedCell(C, s, d, K, x)} :: At(D, x) == RelocatedCell(C, s, d, K, x)
  }

  /** Where a state ends up. */
  function Ren(K: set<int>, d: int, x: int): int {
    if x in K then x + d else x
  }

  ghost function RenPaths(P: map<int, Key>, K: set<int>, d: int): map<int, Key>
    requires K <= P.Keys
  {
    var shifted := set y | y in K :: y + d;
    map x | x in P.Keys + shifted && x !in K :: if x - d in K then P[x - d] else P[x]
  }

  /** When the move is sound: K are the children of the inner state s and the target is free. */
  ghost predicate Movable(C: Cells, P: map<int, Key>, last: int, s: int, d: int, K: set<int>) {
    && Tree(C, P, last) && s in P && NulFree(P[s])
    && Kids(C, s, K) && Free(C, K, d) && At(C, s).base + d >= 2
  }

  lemma KidFacts(C: Cells, P: map<int, Key>, last: int, s: int, d: int, K: set<int>, x: int)
    requires Movable(C, P, last, s, d, K) && x in K
    ensures x in P && x != INIT_STATE && x != s && P[x] != P[s] && At(C, x).check == s
    ensures 0 < x - At(C, s).base <= 256 && At(C, s).base >= 2
    ensures x + d !in P && x + d > 2 && x + d !in K
  {
    ChildOfCheck(C, P, last, x);
    StepLabel(C, P, last, s, x - At(C, s).base - 1);
    assert FreeAt(C, d, x);
    if x + d in P { OccupiedCheck(C, P, last, x + d); }
  }

  lemma OccupiedCheck(C: Cells, P: map<int, Key>, last: int, x: int)
    requires Tree(C, P, last) && x in P && x != INIT_STATE
    ensures At(C, x).check > 0
  {
    assert Linked(C, P, x);
  }

  lemma MoveFacts(C: Cells, P: map<int, Key>, last: int, s: int, d: int, K: set<int>)
    requires Movable(C, P, last, s, d, K)
    ensures K <= P.Keys && s !in K && INIT_STATE !in K && 0 !in K
  {
    forall x | x in K ensures x in P && x != s && x != INIT_STATE { KidFacts(C, P, last, s, d, K, x); }
  }

  /** No occupied cell is the target of a move. */
  lemma NotTarget(C: Cells, P: map<int, Key>, last: int, s: int, d: int, K: set<int>, x: int)
    requires Movable(C, P, last, s, d, K) && x in P
    ensures x - d !in K
  {
    if x - d in K { KidFacts(C, P, last, s, d, K, x - d); }
  }

  /** A moved child keeps its base, any other state but s its whole cell up to renaming. */
  lemma RenCell(C: Cells, D: Cells, P: map<int, Key>, last: int, s: int, d: int, K: set<int>, x: int)
    requires Movable(C, P, last, s, d, K) && Relocated(C, D, s, d, K) && x in P
    ensures At(D, Ren(K, d, x)) ==
            State(if x == s then At(C, s).base + d else At(C, x).base, Ren(K, d, At(C, x).check))
  {
    MoveFacts(C, P, last, s, d, K);
    NotTarget(C, P, last, s, d, K, x);
    NotTarget(C, P, last, s, d, K, s);
    assert At(D, Ren(K, d, x)) == RelocatedCell(C, s, d, K, Ren(K, d, x));
    if x in K { KidFacts(C, P, last, s, d, K, x); }
  }

  /** Each state's entry under its new name is its old path. */
  lemma RenPathsAt(C: Cells, P: map<int, Key>, last: int, s: int, d: int, K: set<int>, x: int)
    requires Movable(C, P, last, s, d, K) && x in P && K <= P.Keys
    ensures var Q := RenPaths(P, K, d); Ren(K, d, x) in Q && Q[Ren(K, d, x)] == P[x]
  {
    if x in K {
      KidFacts(C, P, last, s, d, K, x);
      assert x + d in (set y | y in K :: y + d);
    } else {
      NotTarget(C, P, last, s, d, K, x);
    }
  }

  /** ... and every entry of the new labelling comes from a state under its old name. */
  lemma RenPathsFrom(C: Cells, P: map<int, Key>, last: int, s: int, d: int, K: set<int>, y: int) returns (x: int)
    requires Movable(C, P, last, s, d, K) && K <= P.Keys && y in RenPaths(P, K, d)
    ensures x in P && Ren(K, d, x) == y
  {
    x := if y - d in K then y - d else y;
  }

  /** Every state but the root is linked to its parent after the move, under the new names. */
  lemma RelocateLink(C: Cells, D: Cells, P: map<int, Key>, last: int, s: int, d: int, K: set<int>, x: int)
    requires Movable(C, P, last, s, d, K) && Relocated(C, D, s, d, K)
    requires x in P && x != INIT_STATE && K <= P.Keys
    ensures var y := Ren(K, d, x); y in RenPaths(P, K, d) && Linked(D, RenPaths(P, K, d), y)
  {
    assert Linked(C, P, x);
    var p := At(C, x).check;
    RenCell(C, D, P, last, s, d, K, x);
    RenCell(C, D, P, last, s, d, K, p);
    RenPathsAt(C, P, last, s, d, K, x);
    RenPathsAt(C, P, last, s, d, K, p);
    MoveFacts(C, P, last, s, d, K);
    assert p == s <==> x in K;
  }

  lemma VacatedIsZero(C: Cells, D: Cells, P: map<int, Key>, last: int, s: int, d: int, K: set<int>, y: int)
    requires Movable(C, P, last, s, d, K) && Relocated(C, D, s, d, K) && K <= P.Keys
    requires y !in RenPaths(P, K, d)
    ensures At(D, y) == State(0, 0)
  {
    MoveFacts(C, P, last, s, d, K);
    assert At(D, y) == RelocatedCell(C, s, d, K, y);
    RenPathsAt(C, P, last, s, d, K, s);
    if y !in K {
      if y - d in K { RenPathsAt(C, P, last, s, d, K, y - d); }
      if y in P { RenPathsAt(C, P, last, s, d, K, y); }
    }
  }

  /** Relocation keeps the tree invariant, under the renamed labelling. */
  lemma RelocateTree(C: Cells, D: Cells, P: map<int, Key>, last: int, s: int, d: int, K: set<int>)
    requires Movable(C, P, last, s, d, K) && Relocated(C, D, s, d, K) && K <= P.Keys
    requires last <= At(C, s).base + d < |D|
    requires forall x :: x in K ==> x + d < |D|
    ensures Tree(D, RenPaths(P, K, d), At(C, s).base + d)
  {
    var Q := RenPaths(P, K, d);
    var neo := At(C, s).base + d;
    MoveFacts(C, P, last, s, d, K);
    forall y | y in Q
      ensures 0 < y < |D| && At(D, y).base >= 0
      ensures y != INIT_STATE ==> Linked(D, Q, y)
      ensures NulFree(Q[y]) ==> At(D, y).base == 0 || 2 <= At(D, y).base <= neo
    {
      var x := RenPathsFrom(C, P, last, s, d, K, y);
      RenCell(C, D, P, last, s, d, K, x);
      RenPathsAt(C, P, last, s, d, K, x);
      if x in K { KidFacts(C, P, last, s, d, K, x); }
      if x != INIT_STATE { RelocateLink(C, D, P, last, s, d, K, x); }
    }
    RenCell(C, D, P, last, s, d, K, INIT_STATE);
    RenPathsAt(C, P, last, s, d, K, INIT_STATE);
    forall y | y !in Q ensures At(D, y) == State(0, 0) { VacatedIsZero(C, D, P, last, s, d, K, y); }
  }

  /** Relocation keeps every label string and every stored value. */
  lemma RelocateKeys(C: Cells, D: Cells, P: map<int, Key>, last: int, s: int, d: int, K: set<int>)
    requires Movable(C, P, last, s, d, K) && Relocated(C, D, s, d, K) && K <= P.Keys
    requires Tree(D, RenPaths(P, K, d), At(C, s).base + d)
    ensures KeysPlus(C, D, {})
  {
    var Q := RenPaths(P, K, d);
    var neo := At(C, s).base + d;
    forall q: Key
      ensures KeptAt(C, D, {}, q)
    {
      if Walk(C, q) != 0 {
        WalkEnds(C, P, last, q);
        var x := Walk(C, q);
        RenPathsAt(C, P, last, s, d, K, x);
        WalkPath(D, Q, neo, Ren(K, d, x));
        RenCell(C, D, P, last, s, d, K, x);
      } else if Walk(D, q) != 0 {
        WalkEnds(D, Q, neo, q);
        var x := RenPathsFrom(C, P, last, s, d, K, Walk(D, q));
        RenPathsAt(C, P, last, s, d, K, x);
        WalkPath(C, P, last, x);
      }
    }
  }
}
