/** The remaining elementary updates of the double array: moving one child, hanging a new cell
    below a state, and storing a value in a leaf. */
module TrieUpdates {
  import opened Basics
  import opened TrieCells
  import opened TrieRelocation

  /** Cell y once the children of x0 have been re-parented to x1. */
  function ReparentedCell(C: Cells, x0: int, x1: int, y: int): State {
    if At(C, y).check == x0 then State(At(C, y).base, x1) else At(C, y)
  }

  /** Cell y after one child x0 of s moved to x0 + d. */
  function ChildMovedCell(C: Cells, x0: int, d: int, y: int): State {
    if y == x0 then State(0, 0)
    else if y == x0 + d then At(C, x0)
    else ReparentedCell(C, x0, x0 + d, y)
  }

  /** In the middle of a move, the children of a state not yet moved are where they always were. */
  lemma MidMoveChildren(C: Cells, D: Cells, P: map<int, Key>, last: int, s: int, d: int, K: set<int>, done: set<int>,
                        x0: int, y: int)
    requires Movable(C, P, last, s, d, K) && done <= K && x0 in K - done
    requires Moved(C, D, s, d, done) && At(D, y).check == x0
    ensures y in P && At(C, y).check == x0 && 0 < y - At(C, x0).base <= 256 && y != x0 + d
  {
    KidFacts(C, P, last, s, d, K, x0);
    NotTarget(C, P, last, s, d, K, x0);
    assert At(D, y) == MovedCell(C, s, d, done, y);
    ChildOfCheck(C, P, last, y);
  }

  lemma MidMoveKid(C: Cells, D: Cells, P: map<int, Key>, last: int, s: int, d: int, K: set<int>, done: set<int>,
                   x0: int)
    requires Movable(C, P, last, s, d, K) && done <= K && x0 in K - done
    requires Moved(C, D, s, d, done)
    ensures At(D, x0) == At(C, x0) && At(D, x0).check == s && At(D, x0 + d) == State(0, 0) && s != x0
  {
    KidFacts(C, P, last, s, d, K, x0);
    NotTarget(C, P, last, s, d, K, x0);
    MoveFacts(C, P, last, s, d, K);
    assert At(D, x0) == MovedCell(C, s, d, done, x0);
    assert At(D, x0 + d) == MovedCell(C, s, d, done, x0 + d);
    assert At(C, x0 + d) == State(0, 0);
  }

  /** One more child moved, in the order of the relocation loop. */
  lemma MoveOneMore(C: Cells, D: Cells, E: Cells, P: map<int, Key>, last: int, s: int, d: int, K: set<int>,
                    done: set<int>, x0: int)
    requires Movable(C, P, last, s, d, K) && done <= K && x0 in K - done
    requires Moved(C, D, s, d, done) && |D| <= |E|
    requires forall y :: At(E, y) == ChildMovedCell(D, x0, d, y)
    ensures Moved(C, E, s, d, done + {x0})
  {
    MidMoveKid(C, D, P, last, s, d, K, done, x0);
    KidFacts(C, P, last, s, d, K, x0);
    NotTarget(C, P, last, s, d, K, x0);
    forall y ensures At(E, y) == MovedCell(C, s, d, done + {x0}, y) {
      assert At(E, y) == ChildMovedCell(D, x0, d, y);
      assert At(D, y) == MovedCell(C, s, d, done, y);
      if y != x0 && y != x0 + d && At(D, y).check == x0 {
        MidMoveChildren(C, D, P, last, s, d, K, done, x0, y);
      }
    }
  }

  /** Hanging the free cell t below s adds exactly one label string. */
  lemma AddEdge(C: Cells, D: Cells, P: map<int, Key>, last: int, s: int, ch: Byte, t: int)
    requires Tree(C, P, last) && s in P && NulFree(P[s]) && At(C, s).base >= 2
    requires t == Target(C, s, ch) < |C| && t !in P && D == C[t := State(At(C, t).base, s)]
    ensures Tree(D, P[t := P[s] + [ch]], last) && At(D, t).base == 0
  {
    var Q := P[t := P[s] + [ch]];
    forall x ensures At(D, x) == if x == t then State(0, s) else At(C, x) {}
    forall x | x in Q && x != INIT_STATE ensures Linked(D, Q, x) {
      if x != t { assert Linked(C, P, x); }
    }
  }

  lemma AddEdgeKeys(C: Cells, D: Cells, P: map<int, Key>, last: int, s: int, ch: Byte, t: int)
    requires Tree(C, P, last) && s in P && t !in P && 0 < t < |C| && D == C[t := State(At(C, t).base, s)]
    requires Tree(D, P[t := P[s] + [ch]], last)
    ensures KeysPlus(C, D, {P[s] + [ch]})
  {
    var Q := P[t := P[s] + [ch]];
    forall q: Key
      ensures KeptAt(C, D, {P[s] + [ch]}, q)
    {
      if Walk(C, q) != 0 {
        WalkEnds(C, P, last, q);
        WalkPath(D, Q, last, Walk(C, q));
      } else if q == P[s] + [ch] {
        WalkPath(D, Q, last, t);
      } else if Walk(D, q) != 0 {
        WalkEnds(D, Q, last, q);
        WalkPath(C, P, last, Walk(D, q));
      }
    }
  }

  /** Storing a value in a leaf changes no transition. */
  lemma SetLeaf(C: Cells, D: Cells, P: map<int, Key>, last: int, x: int, val: nat)
    requires Tree(C, P, last) && x in P && !NulFree(P[x]) && D == C[x := State(val, At(C, x).check)]
    ensures Tree(D, P, last)
  {
    forall y ensures At(D, y) == if y == x then State(val, At(C, x).check) else At(C, y) {}
    forall y | y in P && y != INIT_STATE ensures Linked(D, P, y) { assert Linked(C, P, y); }
  }

  /** ... and makes the cells stand for the map with that key rebound. */
  lemma SetLeafRepresents(C: Cells, D: Cells, P: map<int, Key>, last: int, x: int, val: nat, M: map<Key, int>, k: Key)
    requires Tree(C, P, last) && x in P && NulFree(k) && P[x] == k + [0] && Tree(D, P, last)
    requires D == C[x := State(val, At(C, x).check)]
    requires forall j: Key {:trigger StoredAt(C, M, j)} :: NulFree(j) && j != k ==> StoredAt(C, M, j)
    ensures Represents(D, M[k := val])
  {
    forall j: Key | NulFree(j)
      ensures StoredAt(D, M[k := val], j)
    {
      if j == k {
        WalkPath(D, P, last, x);
      } else {
        assert StoredAt(C, M, j);
        if Walk(C, j + [0]) != 0 {
          WalkEnds(C, P, last, j + [0]);
          WalkPath(D, P, last, Walk(C, j + [0]));
          assert (j + [0])[..|j|] == j && (k + [0])[..|k|] == k;
        } else if Walk(D, j + [0]) != 0 {
          WalkEnds(D, P, last, j + [0]);
          WalkPath(C, P, last, Walk(D, j + [0]));
        }
      }
    }
  }

  /** Adding label strings other than k's leaf leaves what is stored for k alone. */
  lemma StoredKept(C: Cells, D: Cells, M: map<Key, int>, added: set<Key>, k: Key)
    requires NulFree(k) && StoredAt(C, M, k) && KeysPlus(C, D, added) && k + [0] !in added
    ensures StoredAt(D, M, k)
  {
    assert KeptAt(C, D, added, k + [0]);
    assert (k + [0])[|k|] == 0;
  }
}
