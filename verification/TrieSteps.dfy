/** What one createTransition does to the cells, exactly: which side of a conflict moves, to which
    base, and when the array keeps its size. */
module TrieSteps {
  import opened TrieCells
  import opened TrieRelocation
  import opened TrieUpdates
  import opened TrieConflicts

  /** The cells that are children of s. */
  ghost function KidsOf(C: Cells, s: int): set<int> { set x | 0 <= x < |C| && C[x].check == s }

  /** No child of s is so close to the end of the array that listing its children grows it. */
  ghost predicate LowKids(C: Cells, s: int) {
    forall x {:trigger At(C, x)} :: At(C, x).check == s ==> x + ALPHABET_SIZE < |C|
  }

  /** Some cell that a base for the labels of `key` would need is taken, for every base from last
      up to neo. */
  ghost predicate AllClash(C: Cells, key: seq<int>, last: int, neo: int) {
    forall b {:trigger Clash(C, b, key)} :: last < b < neo ==> Clash(C, b, key)
  }

  /** What relocate has done to the cells: s is rebased to neo, exactly its children have moved. */
  ghost predicate Rebased(C: Cells, D: Cells, s: int, neo: int) {
    Relocated(C, D, s, neo - At(C, s).base, KidsOf(C, s))
  }

  lemma KidsAre(C: Cells, s: int, K: set<int>)
    requires Kids(C, s, K) && s > 0
    ensures K == KidsOf(C, s)
  {
    forall x ensures x in K <==> x in KidsOf(C, s) { assert x in K <==> At(C, x).check == s; }
  }

  lemma KidsSame(C: Cells, D: Cells, s: int)
    requires SameAt(C, D) && s > 0
    ensures KidsOf(C, s) == KidsOf(D, s)
  {
    forall x ensures x in KidsOf(C, s) <==> x in KidsOf(D, s) { assert At(D, x) == At(C, x); }
  }

  /** Growth before or after a relocation does not show. */
  lemma RebasedSame(C0: Cells, C: Cells, D: Cells, E: Cells, s: int, neo: int)
    requires SameAt(C0, C) && Rebased(C, D, s, neo) && SameAt(D, E) && s > 0
    ensures Rebased(C0, E, s, neo)
  {
    KidsSame(C0, C, s);
    var d, K := neo - At(C, s).base, KidsOf(C, s);
    assert At(C0, s) == At(C, s);
    forall x ensures At(E, x) == RelocatedCell(C0, s, d, K, x) {
      assert At(D, x) == RelocatedCell(C, s, d, K, x);
      assert At(C0, x) == At(C, x) && At(C0, x - d) == At(C, x - d);
    }
  }

  lemma RebasedBy(C0: Cells, C: Cells, E: Cells, s: int, neo: int, K: set<int>)
    requires SameAt(C0, C) && Kids(C, s, K) && s > 0 && Relocated(C, E, s, neo - At(C, s).base, K)
    ensures Rebased(C0, E, s, neo) && K == KidsOf(C0, s)
  {
    KidsAre(C, s, K);
    KidsSame(C0, C, s);
    assert Rebased(C, E, s, neo);
    RebasedSame(C0, C, E, E, s, neo);
  }

  /** The side that createTransition(s, ch) moves in a conflict. */
  function Mover(C: Cells, s: int, ch: int): int {
    var t := Target(C, s, ch);
    if OwnerMoves(C, s, t) then At(C, t).check else s
  }

  /** Label c needs a cell under the new base of p: p has a child there, or is to get one. */
  predicate Uses(C: Cells, p: int, s: int, ch: int, c: int) {
    0 <= c < ALPHABET_SIZE && (Step(C, p, c) != 0 || (p == s && c == ch))
  }

  /** Base b will not do for p. */
  ghost predicate Blocked(C: Cells, p: int, s: int, ch: int, b: int) {
    exists c {:trigger Uses(C, p, s, ch, c)} :: Uses(C, p, s, ch, c) && At(C, b + Key2State(c)).check > 0
  }

  ghost predicate LeastBase(C: Cells, p: int, s: int, ch: int, last: int, neo: int) {
    && last < neo && !Blocked(C, p, s, ch, neo)
    && forall b {:trigger Blocked(C, p, s, ch, b)} :: last < b < neo ==> Blocked(C, p, s, ch, b)
  }

  /** Every cell needed under base neo is in the array as it is. */
  ghost predicate FitsNow(C: Cells, p: int, s: int, ch: int, neo: int) {
    forall c {:trigger Uses(C, p, s, ch, c)} :: Uses(C, p, s, ch, c) ==> neo + Key2State(c) < |C|
  }

  /** The conflict branch, up to the second forceNext: the mover has the least base that suits it,
      and s has become r. */
  ghost predicate Roomed(C: Cells, s: int, ch: int, last: int, D: Cells, neo: int, r: int) {
    var p := Mover(C, s, ch);
    && Rebased(C, D, p, neo) && LeastBase(C, p, s, ch, last, neo)
    && r == Ren(KidsOf(C, p), neo - At(C, p).base, s)
  }

  /** Nothing that the conflict branch looks at makes the array grow. */
  ghost predicate Still(C: Cells, s: int, ch: int, neo: int) {
    var p, owner := Mover(C, s, ch), At(C, Target(C, s, ch)).check;
    && s + ALPHABET_SIZE < |C| && (owner != 0 ==> owner + ALPHABET_SIZE < |C|)
    && FitsNow(C, p, s, ch, neo) && LowKids(C, p)
  }

  lemma BlockedSame(C: Cells, D: Cells, p: int, s: int, ch: int, b: int)
    requires SameAt(C, D) && p > 0 && Blocked(C, p, s, ch, b)
    ensures Blocked(D, p, s, ch, b)
  {
    var c :| Uses(C, p, s, ch, c) && At(C, b + Key2State(c)).check > 0;
    StepSame(C, D, p, c);
    assert Uses(D, p, s, ch, c) && At(D, b + Key2State(c)) == At(C, b + Key2State(c));
  }

  lemma BlockedBack(C: Cells, D: Cells, p: int, s: int, ch: int, b: int)
    requires SameAt(C, D) && p > 0 && Blocked(D, p, s, ch, b)
    ensures Blocked(C, p, s, ch, b)
  {
    var c :| Uses(D, p, s, ch, c) && At(D, b + Key2State(c)).check > 0;
    StepSame(C, D, p, c);
    assert Uses(C, p, s, ch, c) && At(D, b + Key2State(c)) == At(C, b + Key2State(c));
  }

  lemma LeastBaseSame(C: Cells, D: Cells, p: int, s: int, ch: int, last: int, neo: int)
    requires SameAt(C, D) && p > 0 && LeastBase(D, p, s, ch, last, neo)
    ensures LeastBase(C, p, s, ch, last, neo)
  {
    if Blocked(C, p, s, ch, neo) { BlockedSame(C, D, p, s, ch, neo); }
    forall b | last < b < neo ensures Blocked(C, p, s, ch, b) {
      assert Blocked(D, p, s, ch, b);
      BlockedBack(C, D, p, s, ch, b);
    }
  }

  /** The list given to relocate names exactly the labels in use. */
  ghost predicate ListsUses(C: Cells, p: int, s: int, ch: int, key: seq<int>) {
    forall c {:trigger Uses(C, p, s, ch, c)} {:trigger c in key} :: c in key <==> Uses(C, p, s, ch, c)
  }

  lemma FoundLeast(C: Cells, p: int, s: int, ch: int, key: seq<int>, last: int, neo: int)
    requires ListsUses(C, p, s, ch, key) && last < neo && AllClash(C, key, last, neo) && !Clash(C, neo, key)
    ensures LeastBase(C, p, s, ch, last, neo)
  {
    forall b | last < b < neo ensures Blocked(C, p, s, ch, b) {
      assert Clash(C, b, key);
      var j :| 0 <= j < |key| && At(C, b + Key2State(key[j])).check > 0;
      assert key[j] in key;
      assert Uses(C, p, s, ch, key[j]);
    }
  }

  /** findAccepts lists the labels in use of an owner that moves ... */
  lemma OwnerList(C: Cells, p: int, s: int, ch: int, ms: seq<int>, max: int, min: int)
    requires Accepts(C, p, ms, max, min) && p != s && ms != []
    ensures ListsUses(C, p, s, ch, ms) && max in ms && min in ms
  {
    forall c ensures c in ms <==> Uses(C, p, s, ch, c) { assert Listed(C, p, ms, c); }
    assert ms[0] in ms;
  }

  /** ... and, with the new label, those of s itself. */
  lemma SelfList(C: Cells, s: int, ch: int, ns: seq<int>, max: int, min: int)
    requires Accepts(C, s, ns, max, min) && 0 <= ch < 256
    ensures ListsUses(C, s, s, ch, ns + [ch])
    ensures (if ch > max || max == 0 then ch else max) in ns + [ch]
    ensures (if ch < min || min == 0 then ch else min) in ns + [ch]
  {
    forall c ensures c in ns + [ch] <==> Uses(C, s, s, ch, c) { assert Listed(C, s, ns, c); }
    assert ns != [] ==> ns[|ns| - 1] in ns;
  }

  /** What a relocation called from createTransition amounts to. */
  lemma RoomedBy(C: Cells, p: int, s: int, ch: int, key: seq<int>, last: int, D: Cells, neo: int, r: int)
    requires p == Mover(C, s, ch) && ListsUses(C, p, s, ch, key) && last < neo
    requires AllClash(C, key, last, neo) && !Clash(C, neo, key) && Rebased(C, D, p, neo)
    requires r == Ren(KidsOf(C, p), neo - At(C, p).base, s)
    ensures Roomed(C, s, ch, last, D, neo, r)
  {
    FoundLeast(C, p, s, ch, key, last, neo);
  }

  /** The list for relocating s itself, with room for ch. */
  lemma SelfReady(C: Cells, s: nat, ch: int, ns: seq<int>, max: int, min: int) returns (max': int, min': int)
    requires Accepts(C, s, ns, max, min) && AllBelow(ns, max) && 0 <= min <= max < 256 && 0 <= ch < 256
    requires forall i {:trigger FitsAt(C, At(C, s).base, ns, i)} :: 0 <= i < |ns| ==> FitsAt(C, At(C, s).base, ns, i)
    requires Target(C, s, ch) < |C| && (At(C, s).base == 0 || At(C, Target(C, s, ch)).check > 0)
    ensures max' == (if ch > max || max == 0 then ch else max) && min' == (if ch < min || min == 0 then ch else min)
    ensures AllBelow(ns + [ch], max') && 0 <= min' <= max' < 256 && max' in ns + [ch] && min' in ns + [ch]
    ensures forall c {:trigger Listed(C, s, ns + [ch], c)} :: Listed(C, s, ns + [ch], c)
    ensures forall i {:trigger FitsAt(C, At(C, s).base, ns + [ch], i)} ::
              0 <= i < |ns + [ch]| ==> FitsAt(C, At(C, s).base, ns + [ch], i)
    ensures ListsUses(C, s, s, ch, ns + [ch])
  {
    max', min' := if ch > max || max == 0 then ch else max, if ch < min || min == 0 then ch else min;
    SelfList(C, s, ch, ns, max, min);
    FitsOneMore(C, At(C, s).base, ns, ch);
    ListedMore(C, s, ns, ch);
  }

  lemma SelfRoomed(C: Cells, s: int, ch: int, key: seq<int>, max: int, last: int, D: Cells, neo: int, r: int)
    requires ListsUses(C, s, s, ch, key) && max in key && last < neo
    requires AllClash(C, key, last, neo) && !Clash(C, neo, key) && Rebased(C, D, s, neo)
    requires r == Ren(KidsOf(C, s), neo - At(C, s).base, s)
    ensures Mover(C, s, ch) == s ==> Roomed(C, s, ch, last, D, neo, r)
    ensures FitsNow(C, s, s, ch, neo) ==> neo + Key2State(max) < |C|
  {
    if Mover(C, s, ch) == s { RoomedBy(C, s, s, ch, key, last, D, neo, r); }
    assert Uses(C, s, s, ch, max);
  }

  lemma NoClash(C: Cells, D: Cells, key: seq<int>, neo: int)
    requires SameAt(C, D) && forall j {:trigger OpenAt(D, neo, key, j)} :: 0 <= j < |key| ==> OpenAt(D, neo, key, j)
    ensures !Clash(C, neo, key)
  {
    forall j | 0 <= j < |key| ensures At(C, neo + Key2State(key[j])).check <= 0 {
      var y := neo + Key2State(key[j]);
      assert At(D, y) == At(C, y);
      assert OpenAt(D, neo, key, j);
    }
  }

  lemma RoomedSame(C0: Cells, C: Cells, s: int, ch: int, last: int, D: Cells, E: Cells, neo: int, r: int)
    requires SameAt(C0, C) && s > 0 && At(C0, Target(C0, s, ch)).check >= 0
    requires Roomed(C, s, ch, last, D, neo, r) && SameAt(D, E)
    ensures Roomed(C0, s, ch, last, E, neo, r)
  {
    var t := Target(C0, s, ch);
    assert At(C, s) == At(C0, s) && At(C, t) == At(C0, t);
    OwnerMovesSame(C0, C, s, t);
    var p := Mover(C, s, ch);
    assert At(C, p) == At(C0, p);
    RebasedSame(C0, C, D, E, p, neo);
    LeastBaseSame(C0, C, p, s, ch, last, neo);
    KidsSame(C0, C, p);
  }

  lemma NoNegativeCheck(C: Cells, P: map<int, Key>, last: int, x: int)
    requires Tree(C, P, last)
    ensures At(C, x).check >= 0
  {
    if x in P && x != INIT_STATE { OccupiedCheck(C, P, last, x); }
  }

  /** The children of s under the labels below n. */
  ghost function KidsBelow(C: Cells, s: int, n: int): set<int> {
    set x | x in KidsOf(C, s) && x < At(C, s).base + 1 + n
  }

  lemma {:induction false} CountIsKids(C: Cells, P: map<int, Key>, last: int, s: int, n: nat)
    requires Tree(C, P, last) && s in P
    ensures CountTo(C, s, n) == |KidsBelow(C, s, n)|
  {
    if n == 0 {
      forall x ensures x !in KidsBelow(C, s, 0) {
        if x in KidsOf(C, s) { ChildOfCheck(C, P, last, x); }
      }
      assert KidsBelow(C, s, 0) == {};
    } else {
      CountIsKids(C, P, last, s, n - 1);
      var t := Target(C, s, n - 1);
      if Step(C, s, n - 1) != 0 {
        assert KidsBelow(C, s, n) == KidsBelow(C, s, n - 1) + {t};
      } else {
        assert t !in KidsOf(C, s);
        assert KidsBelow(C, s, n) == KidsBelow(C, s, n - 1);
      }
    }
  }

  /** The number of labels findAccepts lists is the number of children. */
  lemma ChildCountIsKids(C: Cells, P: map<int, Key>, last: int, s: int)
    requires Tree(C, P, last) && s in P
    ensures ChildCount(C, s) == |KidsOf(C, s)|
  {
    CountIsKids(C, P, last, s, ALPHABET_SIZE);
    forall x | x in KidsOf(C, s) ensures x in KidsBelow(C, s, ALPHABET_SIZE) { ChildOfCheck(C, P, last, x); }
    assert KidsBelow(C, s, ALPHABET_SIZE) == KidsOf(C, s);
  }

  /** Of the two contenders for a cell, its owner moves exactly if it has children, and no more of
      them than s has. */
  lemma FewerMove(C: Cells, P: map<int, Key>, last: int, s: int, ch: int)
    requires Tree(C, P, last) && s in P && Step(C, s, ch) == 0 && Target(C, s, ch) > 0
    requires At(C, Target(C, s, ch)).check != 0
    ensures var owner := At(C, Target(C, s, ch)).check;
      Mover(C, s, ch) == if 0 < |KidsOf(C, owner)| <= |KidsOf(C, s)| then owner else s
  {
    OwnerFacts(C, P, last, s, ch, Target(C, s, ch));
    ChildCountIsKids(C, P, last, s);
    ChildCountIsKids(C, P, last, At(C, Target(C, s, ch)).check);
  }

  /** The side chosen by the two counts. */
  lemma MoverIs(C1: Cells, C: Cells, s: int, ch: int, n: nat, m: nat)
    requires SameAt(C1, C) && s > 0 && At(C1, Target(C1, s, ch)).check > 0
    requires n == ChildCount(C1, s) && m == ChildCount(C, At(C1, Target(C1, s, ch)).check)
    ensures Mover(C, s, ch) == Mover(C1, s, ch) == if m > 0 && n + 1 > m then At(C1, Target(C1, s, ch)).check else s
  {
    var t := Target(C1, s, ch);
    assert At(C, s) == At(C1, s) && At(C, t) == At(C1, t);
    CountSame(C1, C, s, ALPHABET_SIZE);
    CountSame(C1, C, At(C1, t).check, ALPHABET_SIZE);
  }

  lemma OwnerRoomed(C1: Cells, C: Cells, s: int, ch: int, ms: seq<int>, max: int, min: int, last: int, D: Cells,
                    neo: int, r: int)
    requires SameAt(C1, C) && s > 0 && At(C1, Target(C1, s, ch)).check > 0
    requires Mover(C, s, ch) != s && Accepts(C, Mover(C, s, ch), ms, max, min) && ms != [] && last < neo
    requires (max in ms && min in ms ==> AllClash(C, ms, last, neo)) && !Clash(C, neo, ms)
    requires Rebased(C, D, Mover(C, s, ch), neo)
    requires r == Ren(KidsOf(C, Mover(C, s, ch)), neo - At(C, Mover(C, s, ch)).base, s)
    ensures Roomed(C1, s, ch, last, D, neo, r)
    ensures FitsNow(C, Mover(C, s, ch), s, ch, neo) ==> neo + Key2State(max) < |C|
  {
    var p := Mover(C, s, ch);
    OwnerList(C, p, s, ch, ms, max, min);
    RoomedBy(C, p, s, ch, ms, last, D, neo, r);
    RoomedSame(C1, C, s, ch, last, D, D, neo, r);
    assert Uses(C, p, s, ch, max);
  }

  /** The trie between two calls of createTransition, at a state. */
  datatype Snap = Snap(cells: Cells, last: int, at: int)

  /** createTransition, exactly: cell b.at hangs below s, or below what s has become, and before
      that the array was as it is, or one side of the conflict had moved. */
  ghost predicate Created(a: Snap, b: Snap, ch: int) {
    && 0 <= b.at < |b.cells| && b.cells[b.at].base == 0
    && var D, r := b.cells[b.at := State(0, 0)], b.cells[b.at].check;
       && b.at == Target(D, r, ch)
       && (if TransitionIsFree(a.cells, a.at, ch) then SameAt(a.cells, D) && b.last == a.last && r == a.at
           else Roomed(a.cells, a.at, ch, a.last, D, b.last, r))
  }

  /** createTransition leaves the size of the array alone. */
  ghost predicate Calm(C: Cells, s: int, ch: int, neo: int) {
    var p := Mover(C, s, ch);
    && s + Key2State(ch) < |C|
    && (TransitionIsFree(C, s, ch)
        || (Still(C, s, ch, neo) && Ren(KidsOf(C, p), neo - At(C, p).base, s) + Key2State(ch) < |C|))
  }

  lemma CreatedBy(a: Snap, D: Cells, E: Cells, ch: int, last: int, r: int, t: int)
    requires 0 <= t < |D| && At(D, t) == State(0, 0) && E == D[t := State(0, r)] && t == Target(D, r, ch)
    requires if TransitionIsFree(a.cells, a.at, ch) then SameAt(a.cells, D) && last == a.last && r == a.at
             else Roomed(a.cells, a.at, ch, a.last, D, last, r)
    ensures Created(a, Snap(E, last, t), ch)
  {
    assert E[t := State(0, 0)] == D;
  }

  /** One step of a trail is a createTransition, on the label at that place. */
  ghost predicate TrailStep(trail: seq<Snap>, full: Key, p: nat, i: nat)
    requires i + 1 < |trail| && p + i < |full|
  {
    && Created(trail[i], trail[i + 1], full[p + i])
    && (Calm(trail[i].cells, trail[i].at, full[p + i], trail[i + 1].last) ==> |trail[i + 1].cells| == |trail[i].cells|)
  }

  /** The inner loop of insert has created the transitions for full[p..q]. */
  ghost predicate Trail(trail: seq<Snap>, full: Key, p: nat, q: nat) {
    && p <= q <= |full| && |trail| == q - p + 1
    && forall i {:trigger TrailStep(trail, full, p, i)} :: 0 <= i < q - p ==> TrailStep(trail, full, p, i)
  }

  lemma TrailMore(trail: seq<Snap>, full: Key, p: nat, q: nat, next: Snap)
    requires Trail(trail, full, p, q) && q < |full|
    requires var last := trail[q - p];
      && Created(last, next, full[q])
      && (Calm(last.cells, last.at, full[q], next.last) ==> |next.cells| == |last.cells|)
    ensures Trail(trail + [next], full, p, q + 1)
  {
    var longer := trail + [next];
    forall i | 0 <= i < q + 1 - p ensures TrailStep(longer, full, p, i) {
      if i < q - p { assert TrailStep(trail, full, p, i); }
    }
  }

  /** The cells of the array after forceForward has been tried on full[0..n], in an array of num. */
  function NumAlong(C: Cells, num: nat, full: Key, n: nat): nat
    requires n <= |full|
  {
    if n == 0 then num
    else
      var s := Walk(C, full[..n - 1]);
      if s <= 0 then NumAlong(C, num, full, n - 1) else NumAfter(NumAlong(C, num, full, n - 1), s, full[n - 1])
  }

  /** The last step of insert: the value goes into the base of the leaf. */
  ghost predicate Stored(end: Snap, val: int, D: Cells, last: int) {
    && 0 <= end.at < |end.cells| && D == end.cells[end.at := State(val, end.cells[end.at].check)] && last == end.last
  }

  /** insert, exactly: it follows full as far as it goes, to place p, creates the rest along the
      trail and stores the value at its end. */
  ghost predicate Inserted(C: Cells, last: int, full: Key, val: int, D: Cells, last': int, trail: seq<Snap>, p: nat) {
    && Trail(trail, full, p, |full|)
    && SameAt(C, trail[0].cells) && trail[0].last == last && trail[0].at == Walk(C, full[..p]) > 0
    && (p < |full| ==> Step(C, trail[0].at, full[p]) == 0)
    && |trail[0].cells| == NumAlong(C, |C|, full, if p < |full| then p + 1 else p)
    && Stored(trail[|full| - p], val, D, last')
  }

  lemma InsertedBy(C: Cells, full: Key, val: int, trail: seq<Snap>, p: nat, first: Snap, D: Cells, last': int)
    requires p <= |full| && Trail(trail, full, p, |full|) && trail[0] == first
             && Stored(trail[|full| - p], val, D, last')
    requires SameAt(C, first.cells) && first.at == Walk(C, full[..p]) > 0
    requires p < |full| ==> Step(C, first.at, full[p]) == 0
    requires |first.cells| == NumAlong(C, |C|, full, if p < |full| then p + 1 else p)
    ensures Inserted(C, first.last, full, val, D, last', trail, p)
  {
  }
}
