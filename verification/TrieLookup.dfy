/** What the read-only searches see. They give up at a transition whose state lies too close to the
    end of the array, so a stored key is found exactly when its whole path is visible. */
module TrieLookup {
  import opened Basics
  import opened TrieCells

  /** The walk of the const searches: forward instead of forceForward. */
  function ForwardWalk(C: Cells, q: Key): int {
    if q == [] then INIT_STATE
    else
      var s := ForwardWalk(C, q[..|q| - 1]);
      if s == 0 then 0 else Forward(C, s, q[|q| - 1])
  }

  /** The i-th transition of q starts low enough for the guard of `next`. */
  predicate VisibleAt(C: Cells, q: Key, i: int)
    requires 0 <= i < |q|
  {
    Walk(C, q[..i]) + Key2State(q[i]) < |C|
  }

  ghost predicate Visible(C: Cells, q: Key) {
    forall i {:trigger VisibleAt(C, q, i)} :: 0 <= i < |q| ==> VisibleAt(C, q, i)
  }

  /** The const walk gets exactly as far as the real one on visible paths, and nowhere on others. */
  lemma {:induction false} ForwardWalkIff(C: Cells, q: Key)
    ensures ForwardWalk(C, q) == if Visible(C, q) then Walk(C, q) else 0
    decreases |q|
  {
    if q != [] {
      var r := q[..|q| - 1];
      ForwardWalkIff(C, r);
      forall i | 0 <= i < |r| ensures VisibleAt(C, r, i) == VisibleAt(C, q, i) {
        assert r[..i] == q[..i];
      }
      if Visible(C, q) {
        assert VisibleAt(C, q, |q| - 1);
        forall i | 0 <= i < |r| ensures VisibleAt(C, r, i) { assert VisibleAt(C, q, i); }
      } else if Visible(C, r) {
        forall i | 0 <= i < |q| ensures i == |q| - 1 || VisibleAt(C, q, i) {
          if i < |r| { assert VisibleAt(C, r, i); }
        }
      }
    }
  }

  lemma ForwardWalkSnoc(C: Cells, q: Key, ch: Byte)
    ensures ForwardWalk(C, q + [ch]) == if ForwardWalk(C, q) == 0 then 0 else Forward(C, ForwardWalk(C, q), ch)
  {
    assert (q + [ch])[..|q + [ch]| - 1] == q;
  }

  lemma ForwardWalkNext(C: Cells, q: Key, i: nat)
    requires i < |q|
    ensures ForwardWalk(C, q[..i + 1]) ==
            if ForwardWalk(C, q[..i]) == 0 then 0 else Forward(C, ForwardWalk(C, q[..i]), q[i])
  {
    assert q[..i + 1] == q[..i] + [q[i]];
    ForwardWalkSnoc(C, q[..i], q[i]);
  }

  lemma {:induction false} ForwardWalkPrefix(C: Cells, q: Key, n: nat)
    requires n <= |q| && ForwardWalk(C, q) != 0
    ensures ForwardWalk(C, q[..n]) != 0
    decreases |q|
  {
    if n < |q| {
      ForwardWalkPrefix(C, q[..|q| - 1], n);
      assert q[..|q| - 1][..n] == q[..n];
    } else {
      assert q[..n] == q;
    }
  }

  /** The searches can find key k. */
  ghost predicate Sees(C: Cells, M: map<Key, int>, k: Key) {
    k in M && Visible(C, k + [0])
  }

  ghost predicate KeysNulFree(M: map<Key, int>) { forall k :: k in M ==> NulFree(k) }

  /** Reaching the leaf of k by const walking means exactly that k is seen; its base is the value. */
  lemma LeafSeen(C: Cells, P: map<int, Key>, last: int, M: map<Key, int>, k: Key)
    requires Tree(C, P, last) && Represents(C, M) && KeysNulFree(M)
    ensures ForwardWalk(C, k + [0]) != 0 <==> Sees(C, M, k)
    ensures ForwardWalk(C, k + [0]) != 0 ==> ForwardWalk(C, k + [0]) in P && At(C, ForwardWalk(C, k + [0])).base == M[k]
  {
    ForwardWalkIff(C, k + [0]);
    if NulFree(k) {
      assert StoredAt(C, M, k);
    } else if Walk(C, k + [0]) != 0 {
      WalkSnoc(C, k, 0);
      WalkEnds(C, P, last, k);
      StepLabel(C, P, last, Walk(C, k), 0);
    }
    if Walk(C, k + [0]) != 0 { WalkEnds(C, P, last, k + [0]); }
  }

  /** A trie that keeps 512 cells free past its last base hides nothing. */
  lemma RoomySeesAll(C: Cells, P: map<int, Key>, last: int, M: map<Key, int>, k: Key)
    requires Tree(C, P, last) && Represents(C, M) && KeysNulFree(M) && last + 512 < |C|
    ensures Sees(C, M, k) <==> k in M
  {
    if k in M {
      assert StoredAt(C, M, k);
      forall i | 0 <= i < |k + [0]| ensures VisibleAt(C, k + [0], i) {
        WalkPrefix(C, k + [0], i);
        WalkEnds(C, P, last, (k + [0])[..i]);
        var s := Walk(C, (k + [0])[..i]);
        if s != INIT_STATE { assert Linked(C, P, s); }
      }
    }
  }
}
