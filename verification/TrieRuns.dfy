/** Two runs of insertions on a fresh trie, followed cell by cell: in one a stored key becomes
    invisible to the searches, in the other an insertion looks outside the array. */
module TrieRuns {
  import opened Basics
  import opened TrieCells
  import opened TrieRelocation
  import opened TrieConflicts
  import opened TrieLookup
  import opened TrieSteps
  import opened DoubleArrayTries

  predicate Taken(C: Cells, ch: int, y: int) { At(C, y + Key2State(ch)).check > 0 }

  /** createTransition(s, ch) for a state without base and children, when the cell the code peeks
      at has no owner: s gets the least base that fits ch, nothing else moves. */
  lemma BareStep(a: Snap, b: Snap, ch: Byte)
    requires Created(a, b, ch) && 0 < a.at && a.at + ALPHABET_SIZE < |a.cells|
    requires At(a.cells, a.at).base == 0 && At(a.cells, Key2State(ch)).check == 0
    requires forall x {:trigger At(a.cells, x)} :: At(a.cells, x).check != a.at
    ensures a.last < b.last && b.at == b.last + Key2State(ch) && !Taken(a.cells, ch, b.last)
    ensures forall y {:trigger Taken(a.cells, ch, y)} :: a.last < y < b.last ==> Taken(a.cells, ch, y)
    ensures forall x {:trigger At(b.cells, x)} :: At(b.cells, x) ==
              if x == b.at then State(0, a.at)
              else if x == a.at then State(b.last, At(a.cells, x).check) else At(a.cells, x)
    ensures b.at < |a.cells| ==> Calm(a.cells, a.at, ch, b.last)
  {
    var C, s := a.cells, a.at;
    assert Mover(C, s, ch) == s;
    forall c ensures Uses(C, s, s, ch, c) <==> c == ch { assert At(C, Target(C, s, c)).check != s; }
    forall y ensures Blocked(C, s, s, ch, y) <==> Taken(C, ch, y) {
      assert Uses(C, s, s, ch, ch);
    }
    forall x ensures x !in KidsOf(C, s) { assert At(C, x).check != s; }
    forall y | a.last < y < b.last ensures Taken(C, ch, y) { assert Blocked(C, s, s, ch, y); }
    var D := b.cells[b.at := State(0, 0)];
    assert At(D, s) == RelocatedCell(C, s, b.last, KidsOf(C, s), s);
    forall x ensures At(b.cells, x) ==
        if x == b.at then State(0, s) else if x == s then State(b.last, At(C, x).check) else At(C, x)
    {
      assert At(D, x) == RelocatedCell(C, s, b.last, KidsOf(C, s), x);
    }
  }

  /** createTransition(s, ch) when the cell is free. */
  lemma FreeStep(a: Snap, b: Snap, ch: Byte)
    requires Created(a, b, ch) && TransitionIsFree(a.cells, a.at, ch)
             && At(a.cells, Target(a.cells, a.at, ch)).base == 0
    ensures b.last == a.last && b.at == Target(a.cells, a.at, ch)
    ensures forall x {:trigger At(b.cells, x)} :: At(b.cells, x) == if x == b.at then State(0, a.at) else At(a.cells, x)
    ensures a.at + Key2State(ch) < |a.cells| ==> Calm(a.cells, a.at, ch, b.last)
  {
    var D := b.cells[b.at := State(0, 0)];
    assert At(D, a.at) == At(a.cells, a.at);
    forall x ensures At(b.cells, x) == if x == b.at then State(0, a.at) else At(a.cells, x) {
      assert At(D, x) == At(a.cells, x);
    }
  }

  /** Where a walk gets stuck. */
  lemma StuckAt(C: Cells, full: Key, p: nat, j: nat)
    requires j < |full| && p <= |full| && Walk(C, full[..j]) > 0 && Step(C, Walk(C, full[..j]), full[j]) == 0
    requires Walk(C, full[..p]) > 0 && (p < |full| ==> Step(C, Walk(C, full[..p]), full[p]) == 0)
    ensures p == j
  {
    if p > j {
      WalkPrefix(C, full[..p], j + 1);
      assert full[..p][..j + 1] == full[..j + 1] == full[..j] + [full[j]];
      WalkSnoc(C, full[..j], full[j]);
    } else if p < j {
      WalkPrefix(C, full[..j], p + 1);
      assert full[..j][..p + 1] == full[..p + 1] == full[..p] + [full[p]];
      WalkSnoc(C, full[..p], full[p]);
    }
  }

  /** An insertion whose first transition is missing starts at the root, in the array as it is. */
  lemma StartsAtRoot(C: Cells, last: int, full: Key, val: int, D: Cells, last': int, trail: seq<Snap>, p: nat)
    requires Inserted(C, last, full, val, D, last', trail, p) && full != []
    requires Step(C, INIT_STATE, full[0]) == 0 && INIT_STATE + ALPHABET_SIZE < |C|
    ensures p == 0 && trail[0] == Snap(C, last, INIT_STATE)
  {
    assert full[..0] == [];
    StuckAt(C, full, p, 0);
    assert NumAlong(C, |C|, full, 0) == |C|;
    assert full[..1 - 1] == [];
    assert NumAlong(C, |C|, full, 1) == |C|;
    assert trail[0].cells == C by {
      forall i | 0 <= i < |C| ensures trail[0].cells[i] == C[i] { assert At(trail[0].cells, i) == At(C, i); }
    }
  }

  const LABEL: Byte := 200

  /** [200, 200, ...], n times. */
  function Repeat(n: nat): (k: Key)
    ensures |k| == n && forall i :: 0 <= i < n ==> k[i] == LABEL
  {
    seq(n, _ => LABEL)
  }

  /** Cell x once k labels 200 hang in a chain below the root: states 203, 204, ... with the bases
      3, 4, ..., except that the last has none yet. */
  function ChainCell(k: nat, x: int): State {
    if x == 1 then State(if k == 0 then 0 else 2, 0)
    else if 203 <= x < 203 + k then State(if x == 202 + k then 0 else x - 200, if x == 203 then 1 else x - 1)
    else State(0, 0)
  }

  ghost predicate IsChain(C: Cells, k: nat) {
    forall x {:trigger At(C, x)} :: At(C, x) == ChainCell(k, x)
  }

  /** A snapshot of the chain after k labels. */
  ghost predicate ChainSnap(a: Snap, k: nat) {
    IsChain(a.cells, k) && a.last == k + 1 && a.at == (if k == 0 then 1 else 202 + k) && |a.cells| == PAGE
  }

  /** One more label. */
  lemma ChainStep(a: Snap, b: Snap, k: nat)
    requires ChainSnap(a, k) && 202 + k + ALPHABET_SIZE < PAGE && Created(a, b, LABEL)
    requires Calm(a.cells, a.at, LABEL, b.last) ==> |b.cells| == |a.cells|
    ensures ChainSnap(b, k + 1)
  {
    BareStep(a, b, LABEL);
    assert !Taken(a.cells, LABEL, k + 2);
    assert b.last == k + 2;
    forall x ensures At(b.cells, x) == ChainCell(k + 1, x) { assert At(a.cells, x) == ChainCell(k, x); }
  }

  lemma {:induction false} ChainTrail(trail: seq<Snap>, n: nat, k: nat)
    requires k <= n && 201 + n + ALPHABET_SIZE < PAGE
    requires Trail(trail, Repeat(n) + [0], 0, n + 1) && ChainSnap(trail[0], 0)
    ensures ChainSnap(trail[k], k)
  {
    if k > 0 {
      ChainTrail(trail, n, k - 1);
      assert TrailStep(trail, Repeat(n) + [0], 0, k - 1);
      assert (Repeat(n) + [0])[k - 1] == LABEL;
      ChainStep(trail[k - 1], trail[k], k - 1);
    }
  }

  /** Cell x of the trie that holds [200] * n and then [1], [2], ..., [m], all with value v. */
  function LexiconCell(n: nat, m: nat, v: int, x: int): State {
    if x == 1 then State(2, 0)
    else if 3 < x <= 3 + m then State(199 + n + x, 1)
    else if 203 <= x <= 202 + n then State(if x == 202 + n then x else x - 200, if x == 203 then 1 else x - 1)
    else if x == 203 + n then State(v, 202 + n)
    else if 203 + n < x <= 203 + n + m then State(v, x - 200 - n)
    else State(0, 0)
  }

  ghost predicate IsLexicon(C: Cells, last: int, n: nat, m: nat, v: int) {
    && |C| == PAGE && last == 202 + n + m
    && forall x {:trigger At(C, x)} :: At(C, x) == LexiconCell(n, m, v, x)
  }

  /** Inserting [200] * n into a fresh trie of one page, exactly. */
  lemma ChainInserted(C: Cells, n: nat, v: int, D: Cells, last: int, trail: seq<Snap>, p: nat)
    requires |C| == PAGE && forall x {:trigger At(C, x)} :: At(C, x) == State(0, 0)
    requires 200 <= n && 202 + n + ALPHABET_SIZE < PAGE
    requires Inserted(C, INIT_STATE, Repeat(n) + [0], v, D, last, trail, p)
    ensures IsLexicon(D, last, n, 0, v)
  {
    var full := Repeat(n) + [0];
    StartsAtRoot(C, INIT_STATE, full, v, D, last, trail, p);
    forall x ensures At(C, x) == ChainCell(0, x) {}
    ChainTrail(trail, n, n);
    var a, b := trail[n], trail[n + 1];
    assert TrailStep(trail, full, 0, n) && full[n] == 0;
    BareStep(a, b, 0);
    ClosingBase(a, b, n);
    forall x ensures At(D, x) == LexiconCell(n, 0, v, x) {
      assert At(D, x) == if x == b.at then State(v, At(b.cells, x).check) else At(b.cells, x);
      assert At(a.cells, x) == ChainCell(n, x);
    }
  }

  /** The closing NUL of the chain: every base up to 201 + n clashes with the chain itself. */
  lemma ClosingBase(a: Snap, b: Snap, n: nat)
    requires ChainSnap(a, n) && n >= 200 && a.last < b.last && !Taken(a.cells, 0, b.last)
    requires forall y {:trigger Taken(a.cells, 0, y)} :: a.last < y < b.last ==> Taken(a.cells, 0, y)
    ensures b.last == 202 + n
  {
    assert !Taken(a.cells, 0, 202 + n);
    assert At(a.cells, b.last + 1) == ChainCell(n, b.last + 1);
  }

  /** Inserting the one-byte key [m + 1], exactly: a free cell below the root, and a new base. */
  lemma ShortInserted(C: Cells, last: int, n: nat, m: nat, v: int, D: Cells, last': int, trail: seq<Snap>, p: nat)
    requires IsLexicon(C, last, n, m, v) && 200 <= n && m < 190 && 204 + n + m < PAGE
    requires Inserted(C, last, [m + 1, 0], v, D, last', trail, p)
    ensures IsLexicon(D, last', n, m + 1, v)
  {
    var full: Key := [m + 1, 0];
    assert At(C, 4 + m) == State(0, 0) && At(C, 1) == State(2, 0);
    assert Step(C, INIT_STATE, m + 1) == 0;
    StartsAtRoot(C, last, full, v, D, last', trail, p);
    assert TrailStep(trail, full, 0, 0) && TrailStep(trail, full, 0, 1);
    var a, b, c := trail[0], trail[1], trail[2];
    FreeStep(a, b, m + 1);
    ShortClosing(C, n, m, v, b, c);
    ShortCells(C, n, m, v, b.cells, c.cells, D);
  }

  lemma ShortClosing(C: Cells, n: nat, m: nat, v: int, b: Snap, c: Snap)
    requires IsLexicon(C, b.last, n, m, v) && 200 <= n && m < 190 && 204 + n + m < PAGE
    requires forall x {:trigger At(b.cells, x)} :: At(b.cells, x) == if x == 4 + m then State(0, 1) else At(C, x)
    requires b.at == 4 + m && |b.cells| == PAGE && Created(b, c, 0)
    ensures c.last == 203 + n + m && c.at == 204 + n + m && Calm(b.cells, b.at, 0, c.last)
    ensures forall x {:trigger At(c.cells, x)} :: At(c.cells, x) ==
              if x == 204 + n + m then State(0, 4 + m) else if x == 4 + m then State(203 + n + m, 1) else At(b.cells, x)
  {
    assert At(b.cells, 4 + m) == State(0, 1);
    assert At(C, 1) == LexiconCell(n, m, v, 1);
    forall x ensures At(b.cells, x).check != 4 + m { assert At(C, x) == LexiconCell(n, m, v, x); }
    BareStep(b, c, 0);
    assert At(C, 204 + n + m) == State(0, 0) && !Taken(b.cells, 0, 203 + n + m);
    assert c.last == 203 + n + m;
  }

  lemma ShortCells(C: Cells, n: nat, m: nat, v: int, B: Cells, E: Cells, D: Cells)
    requires 200 <= n && m < 190 && forall x {:trigger At(C, x)} :: At(C, x) == LexiconCell(n, m, v, x)
    requires forall x {:trigger At(B, x)} :: At(B, x) == if x == 4 + m then State(0, 1) else At(C, x)
    requires forall x {:trigger At(E, x)} :: At(E, x) ==
               if x == 204 + n + m then State(0, 4 + m) else if x == 4 + m then State(203 + n + m, 1) else At(B, x)
    requires 204 + n + m < |E| && D == E[204 + n + m := State(v, E[204 + n + m].check)]
    ensures forall x {:trigger At(D, x)} :: At(D, x) == LexiconCell(n, m + 1, v, x)
  {
    forall x ensures At(D, x) == LexiconCell(n, m + 1, v, x) {
      assert At(D, x) == if x == 204 + n + m then State(v, At(E, x).check) else At(E, x);
      assert At(C, x) == LexiconCell(n, m, v, x);
    }
  }

  /** A state whose only child hangs on label c. */
  ghost predicate OnlyChild(C: Cells, s: int, c: int) {
    0 <= c < ALPHABET_SIZE && Step(C, s, c) != 0
    && forall d {:trigger Step(C, s, d)} :: 0 <= d < ALPHABET_SIZE && d != c ==> Step(C, s, d) == 0
  }

  lemma {:induction false} OnlyChildCounts(C: Cells, s: int, c: int, n: nat)
    requires OnlyChild(C, s, c) && n <= ALPHABET_SIZE
    ensures CountTo(C, s, n) == if n > c then 1 else 0
  {
    if n > 0 { OnlyChildCounts(C, s, c, n - 1); }
  }

  /** The conflict over cell 204 between the root and state 203, which the chain put there: 203 has
      as few children, so its child moves away, to the next base. */
  lemma OwnerStep(a: Snap, b: Snap, n: nat, v: int)
    requires IsLexicon(a.cells, a.last, n, 0, v) && a.at == INIT_STATE && 200 <= n && 404 + n < PAGE
    requires Created(a, b, 201)
    ensures b.last == 203 + n && b.at == 204 && Calm(a.cells, a.at, 201, b.last)
    ensures forall x {:trigger At(b.cells, x)} :: At(b.cells, x) ==
              if x == 204 then State(0, 1)
              else if x == 203 then State(203 + n, 1)
              else if x == 404 + n then State(4, 203)
              else if x == 205 then State(At(a.cells, x).base, 404 + n)
              else At(a.cells, x)
  {
    var C := a.cells;
    assert At(C, 1) == State(2, 0) && At(C, 203) == State(3, 1) && At(C, 204) == State(4, 203)
      && At(C, 205).check == 204;
    forall x ensures At(C, x).check == 203 <==> x == 204 { assert At(C, x) == LexiconCell(n, 0, v, x); }
    forall x ensures At(C, x).check == 204 <==> x == 205 { assert At(C, x) == LexiconCell(n, 0, v, x); }
    forall x ensures At(C, x).check == 1 <==> x == 203 { assert At(C, x) == LexiconCell(n, 0, v, x); }
    MoverIsOwner(C);
    assert KidsOf(C, 203) == {204} by {
      forall x ensures x in KidsOf(C, 203) <==> x in {204} { assert At(C, x).check == 203 <==> x == 204; }
    }
    forall c ensures Uses(C, 203, 1, 201, c) <==> c == 200 {
      assert At(C, Target(C, 203, c)).check == 203 <==> c == 200;
    }
    assert Uses(C, 203, 1, 201, 200) && !Blocked(C, 203, 1, 201, 203 + n) by {
      assert At(C, 203 + n + 201) == State(0, 0);
    }
    assert b.last == 203 + n;
    var D := b.cells[b.at := State(0, 0)];
    assert At(D, 1) == RelocatedCell(C, 203, 200 + n, {204}, 1);
    forall x ensures At(b.cells, x) ==
        if x == 204 then State(0, 1) else if x == 203 then State(203 + n, 1)
        else if x == 404 + n then State(4, 203)
        else if x == 205 then State(At(C, x).base, 404 + n) else At(C, x)
    {
      assert At(D, x) == RelocatedCell(C, 203, 200 + n, {204}, x);
      assert At(C, x).check == 204 <==> x == 205;
    }
  }

  lemma MoverIsOwner(C: Cells)
    requires 462 < |C| && At(C, 1) == State(2, 0) && At(C, 203) == State(3, 1) && At(C, 204) == State(4, 203)
    requires forall x {:trigger At(C, x)} :: At(C, x).check == 203 <==> x == 204
    requires forall x {:trigger At(C, x)} :: At(C, x).check == 1 <==> x == 203
    ensures Mover(C, 1, 201) == 203
  {
    forall d | 0 <= d < ALPHABET_SIZE && d != 200 ensures Step(C, 203, d) == 0 && Step(C, 1, d) == 0 {
      assert At(C, Target(C, 203, d)).check != 203 && At(C, Target(C, 1, d)).check != 1;
    }
    OnlyChildCounts(C, 203, 200, ALPHABET_SIZE);
    OnlyChildCounts(C, 1, 200, ALPHABET_SIZE);
  }

  /** Inserting [201] after [200] * n leaves the state of [200, 200] at cell 404 + n. */
  lemma ConflictInserted(C: Cells, last: int, n: nat, v: int, w: int, D: Cells, last': int, trail: seq<Snap>, p: nat)
    requires IsLexicon(C, last, n, 0, v) && 200 <= n && 404 + n < PAGE
    requires Inserted(C, last, [201, 0], w, D, last', trail, p)
    ensures |D| == PAGE && At(D, 1) == State(2, 0) && At(D, 203) == State(203 + n, 1) && At(D, 404 + n) == State(4, 203)
  {
    var full: Key := [201, 0];
    assert At(C, 1) == State(2, 0) && At(C, 204) == State(4, 203);
    assert Step(C, INIT_STATE, 201) == 0;
    StartsAtRoot(C, last, full, w, D, last', trail, p);
    assert TrailStep(trail, full, 0, 0) && TrailStep(trail, full, 0, 1);
    var a, b, c := trail[0], trail[1], trail[2];
    OwnerStep(a, b, n, v);
    forall x ensures At(b.cells, x).check != 204 { assert At(C, x) == LexiconCell(n, 0, v, x); }
    BareStep(b, c, 0);
    assert At(C, 205 + n) == State(0, 0) && !Taken(b.cells, 0, 204 + n);
    assert c.last == 204 + n;
    forall x | x == 1 || x == 203 || x == 404 + n ensures At(D, x) == At(b.cells, x) {
      assert At(c.cells, x) == At(b.cells, x);
    }
  }

  /** There the guard of `next` hides the rest of the first key. */
  lemma FirstKeyHidden(D: Cells, n: nat, M: map<Key, int>)
    requires |D| == PAGE && At(D, 1) == State(2, 0) && At(D, 203) == State(203 + n, 1)
             && At(D, 404 + n) == State(4, 203)
    requires 3 <= n && 404 + n < PAGE <= 605 + n
    ensures !Sees(D, M, Repeat(n))
  {
    var q := Repeat(n) + [0];
    assert q[..0] == [] && q[..1] == q[..0] + [LABEL] && q[..2] == q[..1] + [LABEL];
    WalkSnoc(D, q[..0], LABEL);
    WalkSnoc(D, q[..1], LABEL);
    assert Walk(D, q[..2]) == 404 + n;
    assert !VisibleAt(D, q, 2);
  }

  /** A fresh trie of one page with [200] * n inserted. */
  method FreshChain(n: nat, v: nat) returns (trie: DoubleArrayTrie, ok: bool)
    requires 200 <= n && 202 + n + ALPHABET_SIZE < PAGE
    ensures fresh(trie) && fresh(trie.states) && trie.Valid() && ok && trie.dict == map[Repeat(n) := v]
    ensures IsLexicon(trie.states[..], trie.lastState, n, 0, v)
  {
    trie := new DoubleArrayTrie(0);
    ghost var C := trie.states[..];
    RoomToInsert(C, trie.path, trie.lastState, PAGE, Repeat(n) + [0], 0);
    ghost var trail, p;
    ok, trail, p := trie.Insert(Repeat(n), v);
    ChainInserted(C, n, v, trie.states[..], trie.lastState, trail, p);
  }

  /** Two insertions into a fresh trie, and then a search for the first key: it was inserted with
      value v, the insertions succeed, and the search answers 0. */
  method SearchMissesStoredKey(n: nat, v: nat, w: nat) returns (ok: bool, found: int)
    requires PAGE - 605 <= n && 202 + n + ALPHABET_SIZE < PAGE
    ensures ok && found == 0
    ensures var M := LastWins(map[], [(Repeat(n), v), ([201], w)]); Repeat(n) in M && M[Repeat(n)] == v
  {
    var trie, ok1 := FreshChain(n, v);
    ghost var C, last := trie.states[..], trie.lastState;
    RoomToInsert(C, trie.path, last, PAGE, [201, 0], 0);
    assert [201] + [0] == [201, 0 as Byte];
    var ok2;
    ghost var trail, p;
    ok2, trail, p := trie.Insert([201], w);
    ConflictInserted(C, last, n, v, w, trie.states[..], trie.lastState, trail, p);
    FirstKeyHidden(trie.states[..], n, trie.dict);
    ok := ok1 && ok2;
    found := trie.Search(Repeat(n));
    LastOfTwo(Repeat(n), v, [201], w);
  }

  lemma LastOfTwo(k: Key, v: nat, l: Key, w: nat)
    requires k != l
    ensures var M := LastWins(map[], [(k, v), (l, w)]); k in M && M[k] == v
  {
    assert [(k, v), (l, w)][..1] == [(k, v)];
  }

  /** One more one-byte key. */
  method AddShort(trie: DoubleArrayTrie, n: nat, m: nat, v: nat) returns (ok: bool)
    requires trie.Valid() && IsLexicon(trie.states[..], trie.lastState, n, m, v)
    requires 200 <= n && m < 190 && 202 + n + m + 256 < PAGE
    modifies trie, trie.states
    ensures trie.states == old(trie.states) || fresh(trie.states)
    ensures ok && trie.Valid() && IsLexicon(trie.states[..], trie.lastState, n, m + 1, v)
  {
    ghost var C, last := trie.states[..], trie.lastState;
    RoomToInsert(C, trie.path, last, PAGE, [m + 1, 0], 0);
    assert [m + 1] + [0] == [m + 1, 0 as Byte];
    ghost var trail, p;
    ok, trail, p := trie.Insert([m + 1], v);
    ShortInserted(C, last, n, m, v, trie.states[..], trie.lastState, trail, p);
  }

  /** Three insertions into a fresh trie, and then one more: createTransition inspects cell 4096 of
      4096, and the insertion does not get through. */
  method InsertLooksOutside(v: nat) returns (before: bool, ok: bool)
    ensures before && !ok
  {
    var trie, ok0 := FreshChain(3636, v);
    var ok1 := AddShort(trie, 3636, 0, v);
    var ok2 := AddShort(trie, 3636, 1, v);
    before := ok0 && ok1 && ok2;
    Overrun(trie.states[..], trie.lastState, v);
    assert [2, 255] + [0] == [2, 255, 0 as Byte];
    ghost var trail, p;
    ok, trail, p := trie.Insert([2, 255], v);
  }

  lemma Overrun(C: Cells, last: int, v: int)
    requires IsLexicon(C, last, 3636, 2, v)
    ensures !InsertFits(C, PAGE, [2, 255, 0], 0)
  {
    var full: Key := [2, 255, 0];
    assert At(C, 1) == State(2, 0) && At(C, 5) == State(3840, 1);
    assert full[..0] == [] && full[..1] == full[..0] + [2];
    WalkSnoc(C, full[..0], 2);
    assert InsertFits(C, PAGE, full, 0) == InsertFits(C, PAGE, full, 1);
  }
}
