/** The cells of the double-array trie as values: one transition, whole walks,
    the tree invariant, and the key/value map the cells stand for. */
module TrieCells {
  import opened Basics

  type Key = seq<Byte>

  const INIT_STATE: int := 1
  const ALPHABET_SIZE: int := 257
  const PAGE: int := 4096

  datatype State = State(base: int, check: int)
  type Cells = seq<State>

  /** Cell lookup made total: everything outside the array reads as a free cell, so growing
      the array by zeroed cells is invisible to it. */
  function At(C: Cells, x: int): State {
    if 0 <= x < |C| then C[x] else State(0, 0)
  }

  ghost predicate SameAt(C: Cells, D: Cells) {
    |C| <= |D| && forall x :: At(D, x) == At(C, x)
  }

  function Key2State(ch: int): int { ch + 1 }

  /** Number of cells after `resizeState(n)` on an array of `num` cells. */
  function Aligned(num: nat, n: nat): (r: int)
    ensures r > num + n
  {
    ((num + n) / PAGE + 1) * PAGE
  }

  /** That is the first page boundary past num + n. */
  lemma AlignedIs(num: nat, n: nat)
    ensures Aligned(num, n) % 4096 == 0 && num + n < Aligned(num, n) <= num + n + 4096
  {
  }

  function Target(C: Cells, s: int, ch: int): int {
    At(C, s).base + Key2State(ch)
  }

  /** The cell reached from s on ch, or 0: the test of forceForward. */
  function Step(C: Cells, s: int, ch: int): int {
    var t := Target(C, s, ch);
    if 0 < t < |C| && C[t].check == s then t else 0
  }

  /** The test of forward, which also gives up when s + key2state(ch) is outside the array. */
  function Forward(C: Cells, s: int, ch: int): int {
    if s + Key2State(ch) >= |C| then 0 else Step(C, s, ch)
  }

  /** Follows a whole label string from the root; 0 when it leaves the trie. */
  function Walk(C: Cells, q: Key): int {
    if q == [] then INIT_STATE
    else
      var s := Walk(C, q[..|q| - 1]);
      if s == 0 then 0 else Step(C, s, q[|q| - 1])
  }

  predicate NulFree(q: Key) { forall i :: 0 <= i < |q| ==> q[i] != 0 }

  /** x hangs below its check cell by exactly one label, and that parent is an inner state. */
  ghost predicate Linked(C: Cells, P: map<int, Key>, x: int)
    requires x in P
  {
    var p := At(C, x).check;
    var ch := x - At(C, p).base - 1;
    && p in P && NulFree(P[p]) && At(C, p).base >= 2
    && 0 <= ch < 256 && P[x] == P[p] + [ch]
  }

  /** The representation invariant: P labels every occupied cell with its path from the root,
      free cells are zero, inner bases lie in 2..last. A path that ends in NUL is a leaf, whose
      base is the stored value. */
  ghost predicate Tree(C: Cells, P: map<int, Key>, last: int) {
    && PAGE <= |C| && 1 <= last < |C|
    && INIT_STATE in P && P[INIT_STATE] == [] && At(C, INIT_STATE).check == 0
    && (forall x :: x in P ==> 0 < x < |C| && At(C, x).base >= 0)
    && (forall x {:trigger Linked(C, P, x)} :: x in P && x != INIT_STATE ==> Linked(C, P, x))
    && (forall x :: x in P && NulFree(P[x]) ==> At(C, x).base == 0 || 2 <= At(C, x).base <= last)
    && (forall x :: x !in P ==> At(C, x) == State(0, 0))
  }

  lemma StepSame(C: Cells, D: Cells, s: int, ch: int)
    requires SameAt(C, D) && s > 0
    ensures Step(C, s, ch) == Step(D, s, ch)
  {
    assert At(D, s) == At(C, s);
    var t := Target(C, s, ch);
    assert At(D, t) == At(C, t);
  }

  lemma {:induction false} WalkSame(C: Cells, D: Cells, q: Key)
    requires SameAt(C, D)
    ensures Walk(C, q) == Walk(D, q) >= 0
  {
    if q != [] {
      WalkSame(C, D, q[..|q| - 1]);
      var s := Walk(C, q[..|q| - 1]);
      if s != 0 { StepSame(C, D, s, q[|q| - 1]); }
    }
  }

  lemma TreeGrow(C: Cells, D: Cells, P: map<int, Key>, last: int, last': int)
    requires Tree(C, P, last) && SameAt(C, D) && last <= last' < |D|
    ensures Tree(D, P, last')
  {
    forall x | x in P && x != INIT_STATE ensures Linked(D, P, x) {
      assert Linked(C, P, x);
      assert At(D, x) == At(C, x);
      assert At(D, At(C, x).check) == At(C, At(C, x).check);
    }
    forall x ensures At(D, x) == At(C, x) {}
  }

  /** A transition out of a tree state exists exactly as a labelled child. */
  lemma StepLabel(C: Cells, P: map<int, Key>, last: int, s: int, ch: int)
    requires Tree(C, P, last) && s in P && Step(C, s, ch) != 0
    ensures Step(C, s, ch) in P && 0 <= ch < 256 && NulFree(P[s]) && P[Step(C, s, ch)] == P[s] + [ch]
    ensures Step(C, s, ch) != s && At(C, Step(C, s, ch)).check == s && At(C, s).base >= 2
  {
    var t := Step(C, s, ch);
    assert At(C, t).check == s;
    assert Linked(C, P, t);
    assert |P[t]| == |P[s]| + 1;
  }

  /** Every occupied cell other than the root is the child of its check cell. */
  lemma ChildOfCheck(C: Cells, P: map<int, Key>, last: int, x: int)
    requires Tree(C, P, last) && At(C, x).check > 0
    ensures x in P && x != INIT_STATE && Linked(C, P, x)
    ensures var p := At(C, x).check; p in P && Step(C, p, x - At(C, p).base - 1) == x
  {
    assert x in P;
    assert Linked(C, P, x);
  }

  lemma NonRootPath(C: Cells, P: map<int, Key>, last: int, x: int)
    requires Tree(C, P, last) && x in P && x != INIT_STATE
    ensures P[x] != [] && x >= 3
  {
    assert Linked(C, P, x);
  }

  /** No two occupied cells have the same path. */
  lemma {:induction false} PathsInjective(C: Cells, P: map<int, Key>, last: int, x: int, y: int)
    requires Tree(C, P, last) && x in P && y in P && P[x] == P[y]
    ensures x == y
    decreases |P[x]|
  {
    if x == INIT_STATE {
      if y != INIT_STATE { NonRootPath(C, P, last, y); }
    } else {
      assert Linked(C, P, x);
      if y != INIT_STATE {
        assert Linked(C, P, y);
        var p, r := At(C, x).check, At(C, y).check;
        var q := P[x];
        assert P[p] == q[..|q| - 1] == P[r];
        PathsInjective(C, P, last, p, r);
        assert q[|q| - 1] == x - At(C, p).base - 1 == y - At(C, r).base - 1;
      }
    }
  }

  /** Walking the path of an occupied cell arrives at that cell ... */
  lemma {:induction false} WalkPath(C: Cells, P: map<int, Key>, last: int, x: int)
    requires Tree(C, P, last) && x in P
    ensures Walk(C, P[x]) == x
    decreases |P[x]|
  {
    if x != INIT_STATE {
      assert Linked(C, P, x);
      var p := At(C, x).check;
      assert P[x][..|P[x]| - 1] == P[p];
      WalkPath(C, P, last, p);
    } else {
      assert P[x] == [];
    }
  }

  /** ... and every walk that stays in the trie ends at the cell with that path. */
  lemma {:induction false} WalkEnds(C: Cells, P: map<int, Key>, last: int, q: Key)
    requires Tree(C, P, last) && Walk(C, q) != 0
    ensures Walk(C, q) in P && P[Walk(C, q)] == q
  {
    if q != [] {
      var r := q[..|q| - 1];
      WalkEnds(C, P, last, r);
      StepLabel(C, P, last, Walk(C, r), q[|q| - 1]);
      assert q == r + [q[|q| - 1]];
    }
  }

  /** Walks are closed under prefixes. */
  lemma {:induction false} WalkPrefix(C: Cells, q: Key, n: nat)
    requires n <= |q| && Walk(C, q) != 0
    ensures Walk(C, q[..n]) != 0
    decreases |q|
  {
    if n < |q| {
      WalkPrefix(C, q[..|q| - 1], n);
      assert q[..|q| - 1][..n] == q[..n];
    } else {
      assert q[..n] == q;
    }
  }

  lemma WalkSnoc(C: Cells, q: Key, ch: Byte)
    ensures Walk(C, q + [ch]) == if Walk(C, q) == 0 then 0 else Step(C, Walk(C, q), ch)
  {
    assert (q + [ch])[..|q + [ch]| - 1] == q;
  }

  /** Key k is in M exactly if the trie has a leaf for it, with the same value. */
  predicate StoredAt(C: Cells, M: map<Key, int>, k: Key) {
    && (k in M <==> Walk(C, k + [0]) != 0)
    && (k in M ==> M[k] == At(C, Walk(C, k + [0])).base)
  }

  /** The cells stand for the map M from NUL-free keys to values. */
  ghost predicate Represents(C: Cells, M: map<Key, int>) {
    forall k: Key {:trigger StoredAt(C, M, k)} :: NulFree(k) ==> StoredAt(C, M, k)
  }

  /** Label string q leads somewhere in D exactly if it does in C or is `added`, and a leaf that
      was there keeps its value. */
  predicate KeptAt(C: Cells, D: Cells, added: set<Key>, q: Key) {
    && (Walk(D, q) != 0 <==> (Walk(C, q) != 0 || q in added))
    && (Walk(C, q) != 0 && !NulFree(q) ==> At(D, Walk(D, q)).base == At(C, Walk(C, q)).base)
  }

  /** D has the label strings of C and those of `added`, with the leaf values of C kept. */
  ghost predicate KeysPlus(C: Cells, D: Cells, added: set<Key>) {
    forall q: Key {:trigger KeptAt(C, D, added, q)} :: KeptAt(C, D, added, q)
  }
}
