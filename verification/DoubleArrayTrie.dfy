/** The double-array trie as a mutable object: growable cells, relocation, insertion and the
    searches. */
module DoubleArrayTries {
  import opened Basics
  import opened TrieCells
  import opened TrieRelocation
  import opened TrieUpdates
  import opened TrieConflicts
  import opened TrieLookup
  import opened TrieSteps

  class DoubleArrayTrie {
    var states: array<State>
    var lastState: int
    ghost var path: map<int, Key>
    ghost var dict: map<Key, int>

    ghost predicate Valid()
      reads this, states
    {
      Tree(states[..], path, lastState) && Represents(states[..], dict) && KeysNulFree(dict)
    }

    /** An empty trie with room for at least nNumElems cells. */
    constructor (nNumElems: nat)
      ensures Valid() && fresh(states) && dict == map[]
      ensures lastState == INIT_STATE && states.Length == Aligned(0, nNumElems)
      ensures forall x {:trigger At(states[..], x)} :: At(states[..], x) == State(0, 0)
    {
      states := new State[Aligned(0, nNumElems)](_ => State(0, 0));
      lastState := INIT_STATE;
      path := map[INIT_STATE := []];
      dict := map[];
      new;
      EmptyTree(states[..]);
    }

    method ResizeState(n: nat)
      modifies this`states
      ensures fresh(states) && SameAt(old(states[..]), states[..])
      ensures states.Length == Aligned(old(states.Length), n)
    {
      var grown := new State[Aligned(states.Length, n)](_ => State(0, 0));
      forall i | 0 <= i < states.Length { grown[i] := states[i]; }
      states := grown;
      assert forall x :: At(states[..], x) == At(old(states[..]), x);
    }

    /** forceNext: the cell a transition would lead to, after growing for s + key2state(ch). */
    method ForceNext(s: nat, ch: nat) returns (t: int)
      requires 0 < s < states.Length
      modifies this`states
      ensures states == old(states) || fresh(states)
      ensures SameAt(old(states[..]), states[..])
      ensures states.Length == NumAfter(old(states.Length), s, ch) > s + Key2State(ch)
      ensures s + Key2State(ch) < old(states.Length) ==> states == old(states)
      ensures t == Target(old(states[..]), s, ch) == Target(states[..], s, ch)
    {
      var input := Key2State(ch);
      if s + input >= states.Length { ResizeState(input); }
      t := states[s].base + input;
      assert At(states[..], s) == At(old(states[..]), s);
    }

    method ForceForward(s: nat, ch: nat) returns (t: int)
      requires 0 < s < states.Length
      modifies this`states
      ensures states == old(states) || fresh(states)
      ensures SameAt(old(states[..]), states[..])
      ensures states.Length == NumAfter(old(states.Length), s, ch) > s + Key2State(ch)
      ensures s + Key2State(ch) < old(states.Length) ==> states == old(states)
      ensures t == Step(old(states[..]), s, ch) == Step(states[..], s, ch)
    {
      t := ForceNext(s, ch);
      if !(t > 0 && t < states.Length && states[t].check == s) { t := 0; }
      StepSame(old(states[..]), states[..], s, ch);
    }

    /** The smallest base after lastState at which every cell asked for is free. Terminates and
        stays inside the array whatever the cells hold; `min` is only a first guess. */
    method FindBase(key: seq<int>, max: int, min: int) returns (i: int)
      requires AllBelow(key, max) && 0 <= min <= max < ALPHABET_SIZE && 0 <= lastState < states.Length
      modifies this
      ensures states == old(states) || fresh(states)
      ensures SameAt(old(states[..]), states[..]) && path == old(path) && dict == old(dict)
      ensures old(lastState) < i == lastState && i + Key2State(max) < states.Length
      ensures i + Key2State(max) < old(states.Length) ==> states == old(states)
      ensures forall j {:trigger OpenAt(states[..], i, key, j)} :: 0 <= j < |key| ==> OpenAt(states[..], i, key, j)
      ensures forall h {:trigger NothingAbove(old(states[..]), h)} ::
                NothingAbove(old(states[..]), h) ==> i <= old(lastState) + 1 || i <= h
      ensures max in key && min in key ==>
                forall b :: old(lastState) < b < i ==> Clash(old(states[..]), b, key)
    {
      var found := false;
      i := lastState;
      ghost var C := states[..];
      while !found
        invariant states == old(states) || fresh(states)
        invariant SameAt(C, states[..]) && lastState == old(lastState) <= i < states.Length
        invariant i + Key2State(max) < |C| ==> states == old(states)
        invariant path == old(path) && dict == old(dict)
        invariant found ==> i > lastState && i + Key2State(max) < states.Length
        invariant found ==> forall j :: 0 <= j < |key| ==> At(states[..], i + Key2State(key[j])).check <= 0
        invariant i <= lastState + 1 || exists x :: x >= i && At(C, x).check > 0
        invariant max in key && min in key ==>
          forall b :: lastState < b && (b < i || (b == i && !found)) ==> Clash(C, b, key)
        invariant !found && i > lastState ==> exists x :: x > i && At(C, x).check > 0
        decreases if found then 0 else |C| - i + 1, !found
      {
        i := i + 1;
        if i + Key2State(max) >= states.Length { ResizeState(Key2State(max)); }
        ghost var D := states[..];
        if states[i + Key2State(min)].check <= 0 && states[i + Key2State(max)].check <= 0 {
          found := true;
          var p := 0;
          while p < |key| && found
            invariant 0 <= p <= |key| && states[..] == D
            invariant found ==> forall j :: 0 <= j < p ==> At(D, i + Key2State(key[j])).check <= 0
            invariant !found ==> Clash(C, i, key) && exists x :: x > i && At(C, x).check > 0
          {
            if states[i + Key2State(key[p])].check > 0 {
              assert At(C, i + Key2State(key[p])) == At(D, i + Key2State(key[p]));
              found := false;
            }
            p := p + 1;
          }
        } else {
          assert At(C, i + Key2State(min)) == At(D, i + Key2State(min));
          assert At(C, i + Key2State(max)) == At(D, i + Key2State(max));
        }
      }
      lastState := i;
    }

    /** Lists the labels under which s has children, in increasing order, with the largest one
        and the smallest non-NUL one (0 when there is none). */
    method FindAccepts(s: nat) returns (inputs: seq<int>, max: int, min: int)
      requires 0 < s < states.Length
      modifies this`states
      ensures states == old(states) || fresh(states)
      ensures SameAt(old(states[..]), states[..])
      ensures s + ALPHABET_SIZE < old(states.Length) ==> states == old(states)
      ensures AcceptsTo(old(states[..]), s, inputs, max, min, ALPHABET_SIZE)
    {
      inputs, max, min := [], 0, 0;
      ghost var C := states[..];
      var ch := 0;
      while ch < ALPHABET_SIZE
        invariant 0 <= ch <= ALPHABET_SIZE && 0 < s < states.Length
        invariant states == old(states) || fresh(states)
        invariant SameAt(C, states[..]) && (s + ALPHABET_SIZE < |C| ==> states == old(states))
        invariant AcceptsTo(C, s, inputs, max, min, ch)
      {
        StepSame(C, states[..], s, ch);
        AcceptsNext(C, s, inputs, max, min, ch);
        var t := ForceForward(s, ch);
        if t != 0 {
          inputs := inputs + [ch];
          if ch > max || max == 0 { max := ch; }
          if ch < min || min == 0 { min := ch; }
        }
        ch := ch + 1;
      }
    }

    /** One turn of the relocation loop: the child x0 of s goes to x1, its children follow. */
    method MoveChild(s: nat, x0: nat, x1: nat, ghost C: Cells, ghost P: map<int, Key>, ghost last: int,
                     ghost K: set<int>, ghost done: set<int>)
      requires Movable(C, P, last, s, x1 - x0, K) && done <= K && x0 in K - done
      requires Moved(C, states[..], s, x1 - x0, done) && 0 < x1 < states.Length
      modifies this`states, states
      ensures states == old(states) || fresh(states)
      ensures old(states.Length) <= states.Length && Moved(C, states[..], s, x1 - x0, done + {x0})
      ensures x0 + ALPHABET_SIZE < old(states.Length) ==> states == old(states)
    {
      ghost var D := states[..];
      MidMoveKid(C, D, P, last, s, x1 - x0, K, done, x0);
      states[x1] := states[x1].(base := states[x0].base);
      states[x1] := states[x1].(check := states[x0].check);
      ghost var E := states[..];
      assert forall y :: At(E, y) == if y == x1 then At(D, x0) else At(D, y);
      var ancestor, _, _ := FindAccepts(x0);
      Reparent(x0, x1, ancestor, C, P, last, s, K, done, D, E);
      ghost var F := states[..];
      states[x0] := states[x0].(base := 0);
      states[x0] := states[x0].(check := 0);
      ghost var G := states[..];
      assert forall y :: At(G, y) == if y == x0 then State(0, 0) else At(F, y);
      forall y ensures At(G, y) == ChildMovedCell(D, x0, x1 - x0, y) {
        assert At(F, y) == ReparentedCell(E, x0, x1, y);
      }
      MoveOneMore(C, D, G, P, last, s, x1 - x0, K, done, x0);
    }

    /** The inner loop of the relocation: every child of x0 gets x1 for a parent. */
    method Reparent(x0: nat, x1: nat, ancestor: seq<int>, ghost C: Cells, ghost P: map<int, Key>, ghost last: int,
                    ghost s: int, ghost K: set<int>, ghost done: set<int>, ghost D: Cells, ghost E: Cells)
      requires Movable(C, P, last, s, x1 - x0, K) && done <= K && x0 in K - done
      requires Moved(C, D, s, x1 - x0, done)
      requires forall y :: At(E, y) == if y == x1 then At(D, x0) else At(D, y)
      requires SameAt(E, states[..]) && 0 < x0 < states.Length
      requires forall ch :: ch in ancestor <==> 0 <= ch < ALPHABET_SIZE && Step(E, x0, ch) != 0
      modifies states
      ensures forall y :: At(states[..], y) == ReparentedCell(E, x0, x1, y)
    {
      MidMoveKid(C, D, P, last, s, x1 - x0, K, done, x0);
      var b := states[x0].base;
      var p := 0;
      while p < |ancestor|
        invariant 0 <= p <= |ancestor|
        invariant forall y :: At(states[..], y) ==
                    if y - b - 1 in ancestor[..p] then State(At(E, y).base, x1) else At(E, y)
      {
        assert ancestor[p] in ancestor && Step(E, x0, ancestor[p]) != 0;
        assert At(E, x0).base == b;
        var y := b + Key2State(ancestor[p]);
        assert ancestor[..p + 1] == ancestor[..p] + [ancestor[p]];
        states[y] := states[y].(check := x1);
        p := p + 1;
      }
      forall y ensures At(states[..], y) == ReparentedCell(E, x0, x1, y) {
        assert ancestor[..p] == ancestor;
        assert y - b - 1 in ancestor ==> Step(E, x0, y - b - 1) != 0;
        if At(E, y).check == x0 { MidMoveChildren(C, D, P, last, s, x1 - x0, K, done, x0, y); }
      }
    }

    /** Gives s a base that also fits the labels of `key` and moves its children there. `stand` is
        followed in case it is one of the moved children. */
    method Relocate(stand: nat, s: nat, key: seq<int>, max: int, min: int) returns (r: nat)
      requires Tree(states[..], path, lastState) && s in path && NulFree(path[s]) && stand in path
      requires AllBelow(key, max) && 0 <= min <= max < ALPHABET_SIZE
      requires forall ch {:trigger Listed(states[..], s, key, ch)} :: Listed(states[..], s, key, ch)
      requires forall i {:trigger FitsAt(states[..], states[s].base, key, i)} ::
                 0 <= i < |key| ==> FitsAt(states[..], states[s].base, key, i)
      modifies this, states
      ensures states == old(states) || fresh(states)
      ensures Tree(states[..], path, lastState)
      ensures dict == old(dict) && old(lastState) < lastState <= old(lastState) + 256
      ensures old(states.Length) <= states.Length
      ensures s in path && path[s] == old(path[s]) && At(states[..], s).base == lastState
      ensures r in path && path[r] == old(path[stand])
      ensures stand == s ==> r == s
      ensures stand != s ==> At(states[..], r).base == old(states[..])[stand].base
      ensures forall x :: At(old(states[..]), x).check == s ==> x !in path
      ensures forall i {:trigger SpareAt(states[..], path, lastState, key, i)} ::
                0 <= i < |key| && Step(old(states[..]), s, key[i]) == 0 ==> SpareAt(states[..], path, lastState, key, i)
      ensures KeysPlus(old(states[..]), states[..], {})
      ensures Rebased(old(states[..]), states[..], s, lastState)
      ensures r == Ren(KidsOf(old(states[..]), s), lastState - old(states[s].base), stand)
      ensures max in key && min in key ==> AllClash(old(states[..]), key, old(lastState), lastState)
      ensures !Clash(old(states[..]), lastState, key)
      ensures lastState + Key2State(max) < old(states.Length) && LowKids(old(states[..]), s) ==> states == old(states)
    {
      var was := states[s].base;
      ghost var C0 := states[..];
      BasesNearLast(C0, path, lastState);
      var neo := FindBase(key, max, min);
      ghost var C := states[..];
      NoClash(C0, C, key, neo);
      ghost var K := PrepareMove(C0, C, path, old(lastState), s, neo, key);
      r := MoveChildren(stand, s, was, neo, key, C, path, old(lastState), K);
      Rebase(s, was, neo, C0, C, old(lastState), K, key, stand, r);
    }

    /** The end of relocate: s gets the new base; the labelling follows the move. */
    method Rebase(s: nat, was: nat, neo: nat, ghost C0: Cells, ghost C: Cells, ghost last: int, ghost K: set<int>,
                  ghost key: seq<int>, ghost stand: nat, ghost r: nat)
      requires Movable(C, path, last, s, neo - was, K) && Moved(C, states[..], s, neo - was, K) && SameAt(C0, C)
      requires was == At(C, s).base && last < neo < |C| && forall x :: x in K ==> x + (neo - was) < |C|
      requires forall j :: 0 <= j < |key| ==> key[j] >= 0
      requires forall j {:trigger OpenAt(C, neo, key, j)} :: 0 <= j < |key| ==> OpenAt(C, neo, key, j)
      requires stand in path && r == Ren(K, neo - was, stand)
      modifies this`path, states
      ensures Tree(states[..], path, neo)
      ensures s in path && path[s] == old(path[s]) && At(states[..], s).base == neo
      ensures r in path && path[r] == old(path[stand])
      ensures stand == s ==> r == s
      ensures stand != s ==> At(states[..], r).base == At(C0, stand).base
      ensures forall x :: At(C0, x).check == s ==> x !in path
      ensures forall i {:trigger SpareAt(states[..], path, neo, key, i)} ::
                0 <= i < |key| && Step(C0, s, key[i]) == 0 ==> SpareAt(states[..], path, neo, key, i)
      ensures KeysPlus(C0, states[..], {}) && Rebased(C0, states[..], s, neo) && K == KidsOf(C0, s)
    {
      ghost var D := states[..];
      states[s] := states[s].(base := neo);
      ghost var E := states[..];
      FinishCells(C, D, E, path, last, s, neo - was, K);
      RebasedBy(C0, C, E, s, neo, K);
      path := NewLabelling(C0, C, E, path, last, s, neo - was, K, key, stand);
      assert states[..] == E;
    }

    /** The loop of relocate over the labels of `key`. */
    method MoveChildren(stand: nat, s: nat, was: nat, neo: nat, key: seq<int>, ghost C: Cells, ghost P: map<int, Key>,
                        ghost last: int, ghost K: set<int>) returns (r: nat)
      requires Movable(C, P, last, s, neo - was, K) && states[..] == C && stand in P && was == At(C, s).base
      requires forall x {:trigger Covered(key, was, x)} :: x in K ==> Covered(key, was, x)
      requires forall x :: x in K ==> x + (neo - was) < |C|
      requires forall i {:trigger FitsAt(C, was, key, i)} :: 0 <= i < |key| ==> FitsAt(C, was, key, i)
      modifies this`states, states
      ensures states == old(states) || fresh(states)
      ensures Moved(C, states[..], s, neo - was, K) && r == Ren(K, neo - was, stand)
      ensures LowKids(C, s) ==> states == old(states)
    {
      r := stand;
      NoBaseNoKids(C, P, last, s, neo - was, K);
      HandledAll(K, was, key);
      MovedNone(C, s, neo - was);
      var i := 0;
      while i < |key|
        invariant 0 <= i <= |key|
        invariant states == old(states) || (fresh(states) && !LowKids(C, s))
        invariant Moved(C, states[..], s, neo - was, Handled(K, was, key[..i]))
        invariant r == Ren(Handled(K, was, key[..i]), neo - was, stand)
      {
        HandledStep(K, was, key, i);
        assert FitsAt(C, was, key, i);
        r := MoveTurn(stand, r, s, was, neo, key[i], C, P, last, K, Handled(K, was, key[..i]));
        i := i + 1;
      }
    }

    /** One turn of that loop: moves the child under label ch if there is one still in place. */
    method MoveTurn(ghost stand: nat, r0: nat, s: nat, was: nat, neo: nat, ch: nat, ghost C: Cells,
                    ghost P: map<int, Key>, ghost last: int, ghost K: set<int>, ghost done: set<int>) returns (r: nat)
      requires Movable(C, P, last, s, neo - was, K) && done <= K && Moved(C, states[..], s, neo - was, done)
      requires was == At(C, s).base && was + Key2State(ch) < |C| && stand in P && r0 == Ren(done, neo - was, stand)
      requires (forall x :: x !in K) || At(C, was + Key2State(ch)).check > 0
      requires was + Key2State(ch) in K ==> neo + Key2State(ch) < |C|
      modifies this`states, states
      ensures states == old(states) || fresh(states)
      ensures var done' := done + (if was + Key2State(ch) in K then {was + Key2State(ch)} else {});
        Moved(C, states[..], s, neo - was, done') && r == Ren(done', neo - was, stand)
      ensures LowKids(C, s) ==> states == old(states)
    {
      var t := Key2State(ch);
      r := r0;
      RelocateTurn(C, states[..], P, last, s, neo - was, K, done, was + t, stand);
      assert was + t !in K - done ==> done + (if was + t in K then {was + t} else {}) == done;
      if states[was + t].check == s {
        MoveChild(s, was + t, neo + t, C, P, last, K, done);
        if r == was + t { r := neo + t; }
      }
    }

    /** findAccepts on a trie state, with what a relocation needs to know about the result. */
    method Children(s: nat) returns (inputs: seq<int>, max: int, min: int)
      requires Tree(states[..], path, lastState) && s in path
      modifies this`states
      ensures states == old(states) || fresh(states)
      ensures SameAt(old(states[..]), states[..]) && Tree(states[..], path, lastState)
      ensures s + ALPHABET_SIZE < old(states.Length) ==> states == old(states)
      ensures Accepts(states[..], s, inputs, max, min) && |inputs| == ChildCount(states[..], s)
      ensures AllBelow(inputs, max) && 0 <= min <= max < 256
      ensures forall i {:trigger FitsAt(states[..], states[s].base, inputs, i)} ::
                0 <= i < |inputs| ==> FitsAt(states[..], states[s].base, inputs, i)
      ensures inputs != [] ==> states[s].base >= 2
    {
      inputs, max, min := FindAccepts(s);
      FoundAccepts(old(states[..]), path, lastState, s, inputs, max, min);
      TreeGrow(old(states[..]), states[..], path, lastState, lastState);
      AcceptsSame(old(states[..]), states[..], s, inputs, max, min);
      AcceptsFit(states[..], path, lastState, s, inputs, max, min);
      CountSame(old(states[..]), states[..], s, ALPHABET_SIZE);
    }

    /** The conflict branch of createTransition: relocates the children of s, or those of the
        owner of cell t when they are fewer, so that the cell for ch becomes free. */
    method MakeRoom(s: nat, ch: Byte, t: nat) returns (r: nat)
      requires Tree(states[..], path, lastState) && s in path && NulFree(path[s])
      requires t == Target(states[..], s, ch) < states.Length && Step(states[..], s, ch) == 0
      requires states[s].base == 0 || states[t].check > 0
      modifies this, states
      ensures states == old(states) || fresh(states)
      ensures Tree(states[..], path, lastState) && dict == old(dict)
      ensures old(lastState) < lastState <= old(lastState) + 256 && old(states.Length) <= states.Length
      ensures r in path && path[r] == old(path[s]) && At(states[..], r).base >= 2
      ensures if OwnerMoves(old(states[..]), s, t) then At(states[..], r).base == old(states[s].base)
              else r == s && At(states[..], r).base == lastState
      ensures Target(states[..], r, ch) !in path && Target(states[..], r, ch) < states.Length
      ensures KeysPlus(old(states[..]), states[..], {})
      ensures Roomed(old(states[..]), s, ch, old(lastState), states[..], lastState, r)
      ensures Still(old(states[..]), s, ch, lastState) ==> states == old(states)
    {
      ghost var C0 := states[..];
      var ns, max0, min0 := Children(s);
      ghost var C1 := states[..];
      ContestSame(C0, C1, path, lastState, s, ch, t);
      if states[t].check == 0 {
        r := RelocateSelf(s, ch, ns, max0, min0);
      } else {
        r := Contest(s, ch, t, ns, max0, min0);
      }
      KeysPlusSame(C0, C1, states[..], {});
      RoomedSame(C0, C1, s, ch, old(lastState), states[..], states[..], lastState, r);
    }

    /** Both sides of a conflict counted, and the smaller one moved. */
    method Contest(s: nat, ch: Byte, t: nat, ns: seq<int>, max0: int, min0: int) returns (r: nat)
      requires Tree(states[..], path, lastState) && s in path && NulFree(path[s])
      requires Accepts(states[..], s, ns, max0, min0) && |ns| == ChildCount(states[..], s)
      requires t == Target(states[..], s, ch) < states.Length && Step(states[..], s, ch) == 0 && states[t].check > 0
      modifies this, states
      ensures states == old(states) || fresh(states)
      ensures Tree(states[..], path, lastState) && dict == old(dict)
      ensures old(lastState) < lastState <= old(lastState) + 256 && old(states.Length) <= states.Length
      ensures r in path && path[r] == old(path[s]) && At(states[..], r).base >= 2
      ensures if OwnerMoves(old(states[..]), s, t) then At(states[..], r).base == old(states[s].base)
              else r == s && At(states[..], r).base == lastState
      ensures Target(states[..], r, ch) !in path && Target(states[..], r, ch) < states.Length
      ensures KeysPlus(old(states[..]), states[..], {})
      ensures Roomed(old(states[..]), s, ch, old(lastState), states[..], lastState, r)
      ensures Still(old(states[..]), s, ch, lastState) ==> states == old(states)
    {
      ghost var C1 := states[..];
      var p := states[t].check;
      OwnerFacts(C1, path, lastState, s, ch, t);
      AcceptsFit(C1, path, lastState, s, ns, max0, min0);
      var ms, max1, min1 := Children(p);
      ghost var C := states[..];
      ContestSame(C1, C, path, lastState, s, ch, t);
      MoverIs(C1, C, s, ch, |ns|, |ms|);
      if |ms| > 0 && |ns| + 1 > |ms| {
        r := MoveOwner(s, ch, p, ms, max1, min1, C1);
      } else {
        r := MoveSelf(s, ch, ns, max0, min0, C1);
      }
      KeysPlusSame(C1, C, states[..], {});
    }

    /** Relocates the children of s after the owner's have been counted. */
    method MoveSelf(s: nat, ch: Byte, ns: seq<int>, max: int, min: int, ghost C1: Cells) returns (r: nat)
      requires Tree(states[..], path, lastState) && s in path && NulFree(path[s])
      requires SameAt(C1, states[..]) && Accepts(C1, s, ns, max, min) && Mover(states[..], s, ch) == s
      requires Target(states[..], s, ch) < states.Length && Step(states[..], s, ch) == 0
      requires At(states[..], Target(states[..], s, ch)).check > 0
      modifies this, states
      ensures states == old(states) || fresh(states)
      ensures Tree(states[..], path, lastState) && dict == old(dict)
      ensures old(lastState) < lastState <= old(lastState) + 256 && old(states.Length) <= states.Length
      ensures r == s && r in path && path[r] == old(path[s]) && At(states[..], r).base == lastState
      ensures Target(states[..], r, ch) !in path && Target(states[..], r, ch) < states.Length
      ensures KeysPlus(old(states[..]), states[..], {})
      ensures Roomed(C1, s, ch, old(lastState), states[..], lastState, r)
      ensures FitsNow(old(states[..]), s, s, ch, lastState) && LowKids(old(states[..]), s) ==> states == old(states)
    {
      ghost var C := states[..];
      ghost var t := Target(C, s, ch);
      assert At(C, t) == At(C1, t) && At(C, s) == At(C1, s);
      AcceptsSame(C1, C, s, ns, max, min);
      AcceptsFit(C, path, lastState, s, ns, max, min);
      r := RelocateSelf(s, ch, ns, max, min);
      ghost var E := states[..];
      assert KeysPlus(C, E, {});
      RoomedSame(C1, C, s, ch, old(lastState), E, E, lastState, r);
    }

    /** Relocates the children of the cell's owner; s may be one of them. */
    method MoveOwner(s: nat, ch: Byte, p: nat, ms: seq<int>, max: int, min: int, ghost C1: Cells) returns (r: nat)
      requires Tree(states[..], path, lastState) && s in path && NulFree(path[s]) && p in path && NulFree(path[p])
      requires SameAt(C1, states[..]) && At(C1, Target(C1, s, ch)).check == p == Mover(states[..], s, ch) != s
      requires Step(states[..], s, ch) == 0 && Target(states[..], s, ch) < states.Length
      requires Accepts(states[..], p, ms, max, min) && AllBelow(ms, max) && 0 <= min <= max < 256 && ms != []
      requires forall i {:trigger FitsAt(states[..], states[p].base, ms, i)} ::
                 0 <= i < |ms| ==> FitsAt(states[..], states[p].base, ms, i)
      modifies this, states
      ensures states == old(states) || fresh(states)
      ensures Tree(states[..], path, lastState) && dict == old(dict)
      ensures old(lastState) < lastState <= old(lastState) + 256 && old(states.Length) <= states.Length
      ensures r in path && path[r] == old(path[s]) && At(states[..], r).base == old(states[s].base)
      ensures old(Target(states[..], s, ch)) !in path
      ensures KeysPlus(old(states[..]), states[..], {})
      ensures Roomed(C1, s, ch, old(lastState), states[..], lastState, r)
      ensures FitsNow(old(states[..]), p, s, ch, lastState) && LowKids(old(states[..]), p) ==> states == old(states)
    {
      ghost var C := states[..];
      ghost var t := Target(C, s, ch);
      assert At(C, t) == At(C1, t) && At(C, s) == At(C1, s);
      r := Relocate(s, p, ms, max, min);
      ghost var E := states[..];
      assert KeysPlus(C, E, {});
      OwnerRoomed(C1, C, s, ch, ms, max, min, old(lastState), E, lastState, r);
    }

    /** Relocates the children of s itself, to a base that also has room for ch. */
    method RelocateSelf(s: nat, ch: Byte, labels: seq<int>, max: int, min: int) returns (r: nat)
      requires Tree(states[..], path, lastState) && s in path && NulFree(path[s])
      requires Accepts(states[..], s, labels, max, min) && AllBelow(labels, max) && 0 <= min <= max < 256
      requires forall i {:trigger FitsAt(states[..], states[s].base, labels, i)} ::
                 0 <= i < |labels| ==> FitsAt(states[..], states[s].base, labels, i)
      requires Step(states[..], s, ch) == 0 && Target(states[..], s, ch) < states.Length
      requires states[s].base == 0 || At(states[..], Target(states[..], s, ch)).check > 0
      modifies this, states
      ensures states == old(states) || fresh(states)
      ensures Tree(states[..], path, lastState) && dict == old(dict)
      ensures old(lastState) < lastState <= old(lastState) + 256 && old(states.Length) <= states.Length
      ensures r == s && r in path && path[r] == old(path[s]) && At(states[..], r).base == lastState
      ensures Target(states[..], r, ch) !in path && Target(states[..], r, ch) < states.Length
      ensures KeysPlus(old(states[..]), states[..], {})
      ensures Mover(old(states[..]), s, ch) == s ==>
                Roomed(old(states[..]), s, ch, old(lastState), states[..], lastState, r)
      ensures FitsNow(old(states[..]), s, s, ch, lastState) && LowKids(old(states[..]), s) ==> states == old(states)
    {
      ghost var C := states[..];
      ghost var max', min' := SelfReady(C, s, ch, labels, max, min);
      var ns, max0, min0 := labels + [ch], max, min;
      if ch > max0 || max0 == 0 { max0 := ch; }
      if ch < min0 || min0 == 0 { min0 := ch; }
      r := RelocateFor(s, ch, ns, max0, min0);
    }

    /** That relocation, its list of labels made. */
    method RelocateFor(s: nat, ch: Byte, key: seq<int>, max: int, min: int) returns (r: nat)
      requires Tree(states[..], path, lastState) && s in path && NulFree(path[s])
      requires AllBelow(key, max) && 0 <= min <= max < 256 && max in key && min in key
      requires key != [] && key[|key| - 1] == ch && ListsUses(states[..], s, s, ch, key)
      requires forall c {:trigger Listed(states[..], s, key, c)} :: Listed(states[..], s, key, c)
      requires forall i {:trigger FitsAt(states[..], states[s].base, key, i)} ::
                 0 <= i < |key| ==> FitsAt(states[..], states[s].base, key, i)
      requires Step(states[..], s, ch) == 0
      modifies this, states
      ensures states == old(states) || fresh(states)
      ensures Tree(states[..], path, lastState) && dict == old(dict)
      ensures old(lastState) < lastState <= old(lastState) + 256 && old(states.Length) <= states.Length
      ensures r == s && r in path && path[r] == old(path[s]) && At(states[..], r).base == lastState
      ensures Target(states[..], r, ch) !in path && Target(states[..], r, ch) < states.Length
      ensures KeysPlus(old(states[..]), states[..], {})
      ensures Mover(old(states[..]), s, ch) == s ==>
                Roomed(old(states[..]), s, ch, old(lastState), states[..], lastState, r)
      ensures FitsNow(old(states[..]), s, s, ch, lastState) && LowKids(old(states[..]), s) ==> states == old(states)
    {
      ghost var C := states[..];
      r := Relocate(s, s, key, max, min);
      assert SpareAt(states[..], path, lastState, key, |key| - 1);
      SelfRoomed(C, s, ch, key, max, old(lastState), states[..], lastState, r);
    }

    /** createTransition: hangs a new cell for ch below s. `ok` is false exactly when the code
        inspects the check of a cell outside the array, which its assertion rejects. */
    method CreateTransition(s: nat, ch: Byte) returns (ok: bool, t: nat)
      requires Tree(states[..], path, lastState) && s in path && NulFree(path[s])
      requires Step(states[..], s, ch) == 0
      modifies this, states
      ensures states == old(states) || fresh(states)
      ensures Tree(states[..], path, lastState) && dict == old(dict)
      ensures old(lastState) <= lastState <= old(lastState) + 256 && old(states.Length) <= states.Length
      ensures ok <==> TransitionFits(old(states[..]), s, ch)
      ensures !ok ==> path == old(path) && SameAt(old(states[..]), states[..])
      ensures !ok ==> old(states[s].base) > 0 && old(states[s].base) + ch + 1 >= states.Length
      ensures ok ==> t in path && path[t] == old(path[s]) + [ch] && At(states[..], t).base == 0
      ensures ok ==> KeysPlus(old(states[..]), states[..], {old(path[s]) + [ch]})
      ensures ok ==> Created(Snap(old(states[..]), old(lastState), s), Snap(states[..], lastState, t), ch)
      ensures ok && Calm(old(states[..]), s, ch, lastState) ==> states == old(states)
    {
      ghost var C0 := states[..];
      t := ForceNext(s, ch);
      if states[s].base > 0 && t >= states.Length {
        TreeGrow(C0, states[..], path, lastState, lastState);
        return false, t;
      }
      GrownForNext(C0, states[..], path, lastState, s, ch, t);
      var r := s;
      ghost var C1 := states[..];
      NoNegativeCheck(C0, path, lastState, t);
      if !(states[s].base > 0 && states[t].check <= 0) {
        r, t := RoomAndNext(s, ch, t, C0);
        RoomedSame(C0, C1, s, ch, old(lastState), states[..], states[..], lastState, r);
      }
      ghost var D := states[..];
      Attach(r, ch, t, C0);
      CreatedBy(Snap(C0, old(lastState), s), D, states[..], ch, lastState, r, t);
      ok := true;
    }

    /** The two calls of createTransition's conflict branch. */
    method RoomAndNext(s: nat, ch: Byte, t0: nat, ghost C0: Cells) returns (r: nat, t: nat)
      requires Tree(states[..], path, lastState) && s in path && NulFree(path[s]) && KeysPlus(C0, states[..], {})
      requires t0 == Target(states[..], s, ch) < states.Length && Step(states[..], s, ch) == 0
      requires states[s].base == 0 || states[t0].check > 0
      modifies this, states
      ensures states == old(states) || fresh(states)
      ensures Tree(states[..], path, lastState) && dict == old(dict)
      ensures old(lastState) < lastState <= old(lastState) + 256 && old(states.Length) <= states.Length
      ensures r in path && path[r] == old(path[s]) && At(states[..], r).base >= 2
      ensures t == Target(states[..], r, ch) < states.Length && t !in path
      ensures KeysPlus(C0, states[..], {})
      ensures Roomed(old(states[..]), s, ch, old(lastState), states[..], lastState, r)
      ensures Still(old(states[..]), s, ch, lastState) && r + Key2State(ch) < old(states.Length) ==>
                states == old(states)
    {
      ghost var C1 := states[..];
      NoNegativeCheck(C1, path, lastState, t0);
      r := MakeRoom(s, ch, t0);
      ghost var D := states[..];
      KeysPlusStill(C0, C1, D, {});
      t := NextAfterMove(r, ch, C0);
      RoomedSame(C1, C1, s, ch, old(lastState), D, states[..], lastState, r);
    }

    /** The second forceNext of createTransition, once the cell is known to be free. */
    method NextAfterMove(r: nat, ch: Byte, ghost C0: Cells) returns (t: nat)
      requires Tree(states[..], path, lastState) && r in path && KeysPlus(C0, states[..], {})
      modifies this`states
      ensures states == old(states) || fresh(states)
      ensures SameAt(old(states[..]), states[..]) && Tree(states[..], path, lastState)
      ensures t == Target(states[..], r, ch) == Target(old(states[..]), r, ch)
      ensures At(states[..], r) == At(old(states[..]), r) && KeysPlus(C0, states[..], {})
      ensures r + Key2State(ch) < old(states.Length) ==> states == old(states)
    {
      ghost var C := states[..];
      t := ForceNext(r, ch);
      TreeGrow(C, states[..], path, lastState, lastState);
      KeysPlusNone(C, states[..]);
      KeysPlusStill(C0, C, states[..], {});
    }

    /** The last step of createTransition: cell t becomes the child of r for ch. */
    method Attach(r: nat, ch: Byte, t: nat, ghost C0: Cells)
      requires Tree(states[..], path, lastState) && r in path && NulFree(path[r]) && At(states[..], r).base >= 2
      requires t == Target(states[..], r, ch) < states.Length && t !in path && KeysPlus(C0, states[..], {})
      modifies this`path, states
      ensures Tree(states[..], path, lastState)
      ensures t in path && path[t] == old(path[r]) + [ch] && At(states[..], t).base == 0
      ensures KeysPlus(C0, states[..], {old(path[r]) + [ch]})
      ensures At(old(states[..]), t) == State(0, 0) && states[..] == old(states[..])[t := State(0, r)]
    {
      ghost var D := states[..];
      states[t] := states[t].(check := r);
      ghost var E := states[..];
      AddEdge(D, E, path, lastState, r, ch, t);
      AddEdgeKeys(D, E, path, lastState, r, ch, t);
      KeysPlusStill(C0, D, E, {path[r] + [ch]});
      path := path[t := path[r] + [ch]];
      assert states[..] == E;
    }

    /** insert: walks as far as the key goes, creates the rest, stores the value. `ok` is false
        exactly when creating the first missing transition looks outside the array; the map is
        then what it was. */
    method Insert(key: Key, val: nat) returns (ok: bool, ghost trail: seq<Snap>, ghost from: nat)
      requires Valid() && NulFree(key)
      modifies this, states
      ensures states == old(states) || fresh(states)
      ensures Valid() && old(states.Length) <= states.Length
      ensures ok <==> InsertFits(old(states[..]), old(states.Length), key + [0], 0)
      ensures dict == if ok then old(dict)[key := val] else old(dict)
      ensures old(lastState) <= lastState <= old(lastState) + 256 * (|key| + 1)
      ensures ok ==> Inserted(old(states[..]), old(lastState), key + [0], val, states[..], lastState, trail, from)
    {
      ghost var C0 := states[..];
      var s, p := FollowKey(key);
      ghost var first := Snap(states[..], lastState, s);
      if p == |key| + 1 {
        StoreValue(key, s, val);
        ok, trail := true, [first];
      } else {
        ok, trail := InsertRest(key, val, s, p);
      }
      from := p;
      if ok { InsertedBy(C0, key + [0], val, trail, p, first, states[..], lastState); }
    }

    /** The walk of insert: p is the place of the first missing transition, if there is one. */
    method FollowKey(key: Key) returns (s: nat, p: nat)
      requires Valid() && NulFree(key)
      modifies this`states
      ensures states == old(states) || fresh(states)
      ensures Valid() && SameAt(old(states[..]), states[..])
      ensures p <= |key| + 1 && s in path && path[s] == (key + [0])[..p]
      ensures s == Walk(old(states[..]), (key + [0])[..p]) > 0
      ensures p <= |key| ==> Step(states[..], s, (key + [0])[p]) == 0 == Step(old(states[..]), s, (key + [0])[p])
      ensures states.Length == NumAlong(old(states[..]), old(states.Length), key + [0], if p <= |key| then p + 1 else p)
      ensures InsertFits(old(states[..]), old(states.Length), key + [0], 0) ==
              (p == |key| + 1 || TransitionFits(states[..], s, (key + [0])[p]))
    {
      ghost var C0 := states[..];
      var full := key + [0];
      s, p := INIT_STATE, 0;
      while p < |full|
        invariant 0 <= p <= |full|
        invariant states == old(states) || fresh(states)
        invariant SameAt(C0, states[..]) && s in path && path[s] == full[..p]
        invariant InsertFits(C0, old(states.Length), full, 0) == InsertFits(C0, states.Length, full, p)
        invariant states.Length == NumAlong(C0, |C0|, full, p)
      {
        DescendStep(C0, states[..], path, lastState, s, full, p);
        var t := ForceForward(s, full[p]);
        if t == 0 {
          GrownValid(C0, states[..], path, lastState, dict);
          DescendStep(C0, states[..], path, lastState, s, full, p);
          return;
        }
        s := t;
        p := p + 1;
      }
      assert full[..p] == full;
      GrownValid(C0, states[..], path, lastState, dict);
      WalkPath(C0, path, lastState, s);
    }

    /** The part of insert after the walk has failed at place p. */
    method InsertRest(key: Key, val: nat, s0: nat, p: nat) returns (ok: bool, ghost trail: seq<Snap>)
      requires Valid() && NulFree(key) && s0 in path && p <= |key| && path[s0] == (key + [0])[..p]
      requires Step(states[..], s0, (key + [0])[p]) == 0
      modifies this, states
      ensures states == old(states) || fresh(states)
      ensures Valid() && old(states.Length) <= states.Length
      ensures ok <==> TransitionFits(old(states[..]), s0, (key + [0])[p])
      ensures dict == if ok then old(dict)[key := val] else old(dict)
      ensures old(lastState) <= lastState <= old(lastState) + 256 * (|key| + 1 - p)
      ensures ok ==> Trail(trail, key + [0], p, |key| + 1) && trail[0] == Snap(old(states[..]), old(lastState), s0)
      ensures ok ==> Stored(trail[|key| + 1 - p], val, states[..], lastState)
    {
      var s;
      ok, s, trail := CreateTail(key, s0, p);
      if ok { StoreValue(key, s, val); }
    }

    /** The inner loop of insert: creates the transitions for key[p..] and the final NUL. */
    method CreateTail(key: Key, s0: nat, p0: nat) returns (ok: bool, s: nat, ghost trail: seq<Snap>)
      requires Valid() && NulFree(key) && s0 in path && p0 <= |key| && path[s0] == (key + [0])[..p0]
      requires Step(states[..], s0, (key + [0])[p0]) == 0
      modifies this, states
      ensures states == old(states) || fresh(states)
      ensures Tree(states[..], path, lastState) && dict == old(dict) && old(states.Length) <= states.Length
      ensures old(lastState) <= lastState <= old(lastState) + 256 * (|key| + 1 - p0)
      ensures ok <==> TransitionFits(old(states[..]), s0, (key + [0])[p0])
      ensures !ok ==> Represents(states[..], dict)
      ensures ok ==> s in path && path[s] == key + [0] && RepresentsBut(states[..], dict, key)
      ensures ok ==> Trail(trail, key + [0], p0, |key| + 1) && trail[0] == Snap(old(states[..]), old(lastState), s0)
      ensures ok ==> trail[|key| + 1 - p0] == Snap(states[..], lastState, s)
    {
      var full := key + [0];
      trail := [Snap(states[..], lastState, s0)];
      s, ok := s0, true;
      var p := p0;
      while p < |full|
        invariant p0 <= p <= |full| && ok
        invariant states == old(states) || fresh(states)
        invariant Tree(states[..], path, lastState) && dict == old(dict) && old(states.Length) <= states.Length
        invariant old(lastState) <= lastState <= old(lastState) + 256 * (p - p0)
        invariant s in path && path[s] == full[..p]
        invariant p == p0 ==> s == s0 && states[..] == old(states[..]) && path == old(path)
        invariant p > p0 ==> At(states[..], s).base == 0 && TransitionFits(old(states[..]), s0, full[p0])
        invariant p < |full| ==> Represents(states[..], dict)
        invariant p == |full| ==> RepresentsBut(states[..], dict, key)
        invariant Trail(trail, full, p0, p) && trail[0] == Snap(old(states[..]), old(lastState), s0)
        invariant trail[p - p0] == Snap(states[..], lastState, s)
      {
        NoBaseNoStep(states[..], path, lastState, s, full[p]);
        ok, s, trail := TailStep(key, s, p, p0, trail);
        if !ok { return; }
        p := p + 1;
      }
      assert full[..p] == full;
    }

    /** One turn of that loop: the transition on byte p. */
    method TailStep(key: Key, s: nat, p: nat, ghost p0: nat, ghost trail0: seq<Snap>)
      returns (ok: bool, t: nat, ghost trail: seq<Snap>)
      requires Valid() && NulFree(key) && p <= |key| && s in path && path[s] == (key + [0])[..p]
      requires Step(states[..], s, (key + [0])[p]) == 0
      requires Trail(trail0, key + [0], p0, p) && trail0[p - p0] == Snap(states[..], lastState, s)
      modifies this, states
      ensures states == old(states) || fresh(states)
      ensures Tree(states[..], path, lastState) && dict == old(dict) && old(states.Length) <= states.Length
      ensures old(lastState) <= lastState <= old(lastState) + 256
      ensures ok <==> TransitionFits(old(states[..]), s, (key + [0])[p])
      ensures !ok || p < |key| ==> Represents(states[..], dict)
      ensures ok ==> t in path && path[t] == (key + [0])[..p + 1] && At(states[..], t).base == 0
      ensures ok && p == |key| ==> RepresentsBut(states[..], dict, key)
      ensures ok ==> trail == trail0 + [Snap(states[..], lastState, t)] && Trail(trail, key + [0], p0, p + 1)
    {
      var full := key + [0];
      ghost var C := states[..];
      PrefixNulFree(key, p);
      ok, t := CreateTransition(s, full[p]);
      if !ok {
        RepresentsGrow(C, states[..], dict);
        trail := trail0;
        return;
      }
      assert full[..p + 1] == full[..p] + [full[p]];
      RepresentsStep(C, states[..], dict, key, p);
      ghost var next := Snap(states[..], lastState, t);
      TrailMore(trail0, full, p0, p, next);
      trail := trail0 + [next];
    }

    /** The end of insert: the leaf's base cell takes the value. */
    method StoreValue(key: Key, s: nat, val: nat)
      requires Tree(states[..], path, lastState) && RepresentsBut(states[..], dict, key) && NulFree(key)
               && KeysNulFree(dict)
      requires s in path && path[s] == key + [0]
      modifies this`dict, states
      ensures Valid() && dict == old(dict)[key := val]
      ensures states[..] == old(states[..])[s := State(val, old(states[..])[s].check)]
    {
      ghost var C := states[..];
      states[s] := states[s].(base := val);
      ghost var D := states[..];
      assert path[s][|key|] == 0;
      SetLeaf(C, D, path, lastState, s, val);
      SetLeafRepresents(C, D, path, lastState, s, val, dict, key);
      dict := dict[key := val];
      assert states[..] == D;
    }

    /** buildFromFile: inserts the lexicon's lines in order; n of them go in before the first
        rejected one. */
    method BuildFromFile(words: seq<(Key, nat)>) returns (ok: bool, n: nat)
      requires Valid() && forall i :: 0 <= i < |words| ==> NulFree(words[i].0)
      modifies this, states
      ensures states == old(states) || fresh(states)
      ensures Valid() && old(states.Length) <= states.Length
      ensures n <= |words| && (ok <==> n == |words|) && dict == LastWins(old(dict), words[..n])
      ensures forall key, i {:trigger LastFor(words, n, key, i)} ::
                0 <= i && LastFor(words, n, key, i) ==> key in dict && dict[key] == words[i].1
      ensures forall key {:trigger NoneFor(words, n, key)} :: NoneFor(words, n, key) ==>
                (key in dict <==> key in old(dict)) && (key in dict ==> dict[key] == old(dict)[key])
      ensures old(lastState) + 256 * Cost(words) < old(states.Length) ==> ok
      ensures lastState <= old(lastState) + 256 * Cost(words)
    {
      ghost var M := dict;
      ok, n := InsertLines(words);
      forall key, i | 0 <= i && LastFor(words, n, key, i) ensures key in dict && dict[key] == words[i].1 {
        LastLineWins(M, words, n, key, i);
      }
      forall key | NoneFor(words, n, key)
        ensures (key in dict <==> key in M) && (key in dict ==> dict[key] == M[key])
      {
        NoLineKeeps(M, words, n, key);
      }
    }

    /** The loop of buildFromFile. */
    method InsertLines(words: seq<(Key, nat)>) returns (ok: bool, n: nat)
      requires Valid() && forall i :: 0 <= i < |words| ==> NulFree(words[i].0)
      modifies this, states
      ensures states == old(states) || fresh(states)
      ensures Valid() && old(states.Length) <= states.Length
      ensures n <= |words| && (ok <==> n == |words|) && dict == LastWins(old(dict), words[..n])
      ensures old(lastState) + 256 * Cost(words) < old(states.Length) ==> ok
      ensures lastState <= old(lastState) + 256 * Cost(words)
    {
      ok, n := true, 0;
      while n < |words|
        invariant 0 <= n <= |words| && ok
        invariant states == old(states) || fresh(states)
        invariant Valid() && old(states.Length) <= states.Length
        invariant dict == LastWins(old(dict), words[..n])
        invariant lastState <= old(lastState) + 256 * Cost(words[..n])
      {
        CostStep(words, n);
        ghost var C := states[..];
        if lastState + 256 < states.Length {
          RoomToInsert(C, path, lastState, states.Length, words[n].0 + [0], 0);
        }
        ghost var trail, from;
        ok, trail, from := Insert(words[n].0, words[n].1);
        if !ok { return; }
        assert words[..n + 1][..n] == words[..n];
        n := n + 1;
      }
      assert words[..n] == words;
    }

    /** search(szKey): the value of a visible stored key, 0 for anything else. */
    method Search(key: Key) returns (v: int)
      requires Valid() && NulFree(key)
      ensures v == if Sees(states[..], dict, key) then dict[key] else 0
    {
      var full := key + [0];
      var state, p := INIT_STATE, 0;
      while p < |full|
        invariant 0 <= p <= |full| && state == ForwardWalk(states[..], full[..p]) && state in path
      {
        var target := ForwardAt(state, full[p]);
        ForwardWalkNext(states[..], full, p);
        if target == 0 {
          NotSeen(states[..], path, lastState, dict, full, p + 1, key);
          return 0;
        }
        state := target;
        p := p + 1;
      }
      assert full[..p] == full;
      LeafSeen(states[..], path, lastState, dict, key);
      v := states[state].base;
    }

    /** search(szKey, length): the same for a key given by its length, whatever bytes it holds. */
    method SearchLength(text: Key) returns (v: int)
      requires Valid() && |text| >= 1
      ensures v == if Sees(states[..], dict, text) then dict[text] else 0
    {
      var state, p := INIT_STATE, 0;
      while p < |text|
        invariant 0 <= p <= |text| && state == ForwardWalk(states[..], text[..p]) && state in path
      {
        var target := ForwardAt(state, text[p]);
        ForwardWalkNext(states[..], text, p);
        if target == 0 {
          assert (text + [0])[..p + 1] == text[..p + 1];
          NotSeen(states[..], path, lastState, dict, text + [0], p + 1, text);
          return 0;
        }
        state := target;
        p := p + 1;
      }
      assert text[..p] == text;
      state := ForwardAt(state, 0);
      ForwardWalkSnoc(states[..], text, 0);
      LeafSeen(states[..], path, lastState, dict, text);
      v := if state != 0 then states[state].base else 0;
    }

    /** forward(s, ch) on a trie state. */
    method ForwardAt(s: nat, ch: Byte) returns (t: nat)
      requires Tree(states[..], path, lastState) && s in path
      ensures t == Forward(states[..], s, ch) && (t != 0 ==> t in path)
    {
      if s + Key2State(ch) >= states.Length { return 0; }
      var u := states[s].base + Key2State(ch);
      t := if u > 0 && u < states.Length && states[u].check == s then u else 0;
      if t != 0 { StepLabel(states[..], path, lastState, s, ch); }
    }

    /** search(szKey, length, keyEnd): when the walk leaves the trie inside the text, the longest
        seen key that is a prefix of it (its length in `end`); when the walk uses up the text, the
        text itself or nothing. The stack has 128 places; `ok` is false exactly when the walk goes
        on for more bytes, which the code does not check before it writes past them. */
    method SearchPrefix(text: Key) returns (ok: bool, v: int, end: nat)
      requires Valid() && |text| >= 1
      ensures ok <==> |text| <= STACK_SIZE || ForwardWalk(states[..], text[..STACK_SIZE + 1]) == 0
      ensures ok ==> LongestMatch(states[..], dict, text, v, end)
    {
      var stack := new int[STACK_SIZE];
      var stackTail := 0;
      var state, p := INIT_STATE, 0;
      ok := true;
      while p < |text|
        invariant 0 <= p <= |text| && stackTail == p <= STACK_SIZE && state in path && ok
        invariant state == ForwardWalk(states[..], text[..p])
        invariant forall j :: 0 <= j < p ==> stack[j] == ForwardWalk(states[..], text[..j]) && stack[j] in path
      {
        var target := ForwardAt(state, text[p]);
        ForwardWalkNext(states[..], text, p);
        if target == 0 {
          if |text| > STACK_SIZE { PrefixStuck(states[..], text, p + 1, STACK_SIZE + 1); }
          v, end := Backtrack(text, p, state, stack);
          return;
        }
        if stackTail == STACK_SIZE { return false, 0, 0; }
        stack[stackTail] := state;
        stackTail := stackTail + 1;
        state := target;
        p := p + 1;
      }
      assert text[..p] == text;
      var target := ForwardAt(state, 0);
      LeafUnder(states[..], path, lastState, dict, text, state);
      v, end := if target == 0 then 0 else states[target].base, if target == 0 then 0 else p;
    }

    /** The backtracking of the prefix search: the walk failed after n bytes. */
    method Backtrack(text: Key, n: nat, state: nat, stack: array<int>) returns (v: int, end: nat)
      requires Valid() && n < |text| && n <= stack.Length && state in path
      requires state == ForwardWalk(states[..], text[..n]) && ForwardWalk(states[..], text[..n + 1]) == 0
      requires forall j :: 0 <= j < n ==> stack[j] == ForwardWalk(states[..], text[..j]) && stack[j] in path
      ensures LongestMatch(states[..], dict, text, v, end)
    {
      var stackTail, p := n, n;
      ghost var C := states[..];
      NothingSeenBeyond(C, path, lastState, dict, text, n);
      var target := ForwardAt(state, 0);
      LeafUnder(C, path, lastState, dict, text[..n], state);
      while target == 0 && stackTail > 0
        invariant 0 <= stackTail == p <= n
        invariant target != 0 <==> Sees(C, dict, text[..p])
        invariant target != 0 ==> 0 < target < |C| && At(C, target).base == dict[text[..p]]
        invariant forall j :: p < j <= |text| ==> !Sees(C, dict, text[..j])
      {
        stackTail := stackTail - 1;
        target := ForwardAt(stack[stackTail], 0);
        LeafUnder(C, path, lastState, dict, text[..stackTail], stack[stackTail]);
        p := p - 1;
      }
      v, end := if target == 0 then 0 else states[target].base, if target == 0 then 0 else p;
    }
  }

  const STACK_SIZE: nat := 128

  function LastWins(M: map<Key, int>, words: seq<(Key, nat)>): map<Key, int> {
    if words == [] then M
    else LastWins(M, words[..|words| - 1])[words[|words| - 1].0 := words[|words| - 1].1]
  }

  /** Line i is the last of the first n lines for this key. */
  predicate LastFor(words: seq<(Key, nat)>, n: nat, key: Key, i: nat)
    requires n <= |words|
  {
    i < n && words[i].0 == key && forall j :: i < j < n ==> words[j].0 != key
  }

  /** No line among the first n is for this key. */
  predicate NoneFor(words: seq<(Key, nat)>, n: nat, key: Key)
    requires n <= |words|
  {
    forall i :: 0 <= i < n ==> words[i].0 != key
  }

  /** A key that occurs again takes the value of its last line ... */
  lemma {:induction false} LastLineWins(M: map<Key, int>, words: seq<(Key, nat)>, n: nat, key: Key, i: nat)
    requires n <= |words| && LastFor(words, n, key, i)
    ensures key in LastWins(M, words[..n]) && LastWins(M, words[..n])[key] == words[i].1
  {
    assert words[..n][..n - 1] == words[..n - 1];
    if i < n - 1 { LastLineWins(M, words, n - 1, key, i); }
  }

  /** ... and a key without a line keeps what it had. */
  lemma {:induction false} NoLineKeeps(M: map<Key, int>, words: seq<(Key, nat)>, n: nat, key: Key)
    requires n <= |words| && NoneFor(words, n, key)
    ensures key in LastWins(M, words[..n]) <==> key in M
    ensures key in M ==> LastWins(M, words[..n])[key] == M[key]
  {
    if n > 0 {
      assert words[..n][..n - 1] == words[..n - 1];
      NoLineKeeps(M, words, n - 1, key);
    }
  }

  /** Bytes read by insert, the closing NULs included. */
  function Cost(words: seq<(Key, nat)>): nat {
    if words == [] then 0 else Cost(words[..|words| - 1]) + |words[|words| - 1].0| + 1
  }

  lemma CostStep(words: seq<(Key, nat)>, i: nat)
    requires i < |words|
    ensures Cost(words[..i + 1]) == Cost(words[..i]) + |words[i].0| + 1 <= Cost(words)
    decreases |words|
  {
    assert words[..i + 1][..i] == words[..i];
    if i + 1 < |words| {
      var front := words[..|words| - 1];
      CostStep(front, i);
      assert front[..i + 1] == words[..i + 1] && front[..i] == words[..i];
    } else {
      assert words[..i + 1] == words;
    }
  }

  /** For words of one length that is length plus one for each. */
  lemma {:induction false} CostOfEqual(words: seq<(Key, nat)>, length: nat)
    requires forall i :: 0 <= i < |words| ==> |words[i].0| == length
    ensures Cost(words) == |words| * (length + 1)
  {
    if words != [] {
      var n := |words| - 1;
      CostOfEqual(words[..n], length);
      assert (n + 1) * (length + 1) == n * (length + 1) + length + 1;
    }
  }

  /** What the longest-prefix search answers. */
  ghost predicate LongestMatch(C: Cells, M: map<Key, int>, text: Key, v: int, end: nat) {
    if ForwardWalk(C, text) == 0 then
      if exists j :: 0 <= j <= |text| && Sees(C, M, text[..j]) then
        end <= |text| && Sees(C, M, text[..end]) && v == M[text[..end]]
        && forall j :: end < j <= |text| ==> !Sees(C, M, text[..j])
      else v == 0 && end == 0
    else if Sees(C, M, text) then v == M[text] && end == |text|
    else v == 0 && end == 0
  }

  /** An answer is the value of a seen word at the front of the text; no seen word there is longer
      when the walk leaves the trie inside the text, and none but the whole text counts otherwise. */
  lemma LongestMatchMeans(C: Cells, M: map<Key, int>, text: Key, v: int, end: nat, j: nat)
    requires LongestMatch(C, M, text, v, end) && j <= |text| && Sees(C, M, text[..j])
    requires ForwardWalk(C, text) == 0 || j == |text|
    ensures j <= end <= |text| && Sees(C, M, text[..end]) && v == M[text[..end]]
  {
    assert text[..|text|] == text;
  }

  lemma EmptyTree(C: Cells)
    requires PAGE <= |C| && forall x :: 0 <= x < |C| ==> C[x] == State(0, 0)
    ensures Tree(C, map[INIT_STATE := []], INIT_STATE) && Represents(C, map[])
  {
    var P: map<int, Key> := map[INIT_STATE := []];
    forall x ensures At(C, x) == State(0, 0) {}
    assert Tree(C, P, INIT_STATE);
    forall k: Key | NulFree(k) ensures StoredAt(C, map[], k) {
      var q := k + [0];
      if Walk(C, q) != 0 { WalkEnds(C, P, INIT_STATE, q); }
    }
  }

  /** A walk that has failed stays failed. */
  lemma WalkLeaves(C: Cells, q: Key, n: nat)
    requires n <= |q| && ForwardWalk(C, q[..n]) == 0
    ensures ForwardWalk(C, q) == 0
  {
    if ForwardWalk(C, q) != 0 { ForwardWalkPrefix(C, q, n); }
  }

  lemma PrefixStuck(C: Cells, q: Key, m: nat, n: nat)
    requires m <= n <= |q| && ForwardWalk(C, q[..m]) == 0
    ensures ForwardWalk(C, q[..n]) == 0
  {
    assert q[..n][..m] == q[..m];
    WalkLeaves(C, q[..n], m);
  }

  /** In a trie whose label strings fit the stack the prefix search always answers. */
  lemma ShallowFits(C: Cells, P: map<int, Key>, last: int, text: Key)
    requires Tree(C, P, last) && forall s :: s in P ==> |P[s]| <= STACK_SIZE
    ensures |text| <= STACK_SIZE || ForwardWalk(C, text[..STACK_SIZE + 1]) == 0
  {
    if |text| > STACK_SIZE {
      ForwardWalkIff(C, text[..STACK_SIZE + 1]);
      if Walk(C, text[..STACK_SIZE + 1]) != 0 { WalkEnds(C, P, last, text[..STACK_SIZE + 1]); }
    }
  }

  lemma NotSeen(C: Cells, P: map<int, Key>, last: int, M: map<Key, int>, full: Key, n: nat, k: Key)
    requires Tree(C, P, last) && Represents(C, M) && KeysNulFree(M)
    requires full == k + [0] && n <= |full| && ForwardWalk(C, full[..n]) == 0
    ensures !Sees(C, M, k)
  {
    WalkLeaves(C, full, n);
    LeafSeen(C, P, last, M, k);
  }

  /** The closing transition out of the state of k leads to k's leaf, if k is seen. */
  lemma LeafUnder(C: Cells, P: map<int, Key>, last: int, M: map<Key, int>, k: Key, s: int)
    requires Tree(C, P, last) && Represents(C, M) && KeysNulFree(M) && s == ForwardWalk(C, k) != 0
    ensures Forward(C, s, 0) != 0 <==> Sees(C, M, k)
    ensures Forward(C, s, 0) != 0 ==> Forward(C, s, 0) in P && At(C, Forward(C, s, 0)).base == M[k]
  {
    ForwardWalkSnoc(C, k, 0);
    LeafSeen(C, P, last, M, k);
  }

  /** Once the walk has failed at text[n] nothing longer than n bytes is seen. */
  lemma NothingSeenBeyond(C: Cells, P: map<int, Key>, last: int, M: map<Key, int>, text: Key, n: nat)
    requires Tree(C, P, last) && Represents(C, M) && KeysNulFree(M)
    requires n < |text| && ForwardWalk(C, text[..n + 1]) == 0
    ensures ForwardWalk(C, text) == 0 && forall j :: n < j <= |text| ==> !Sees(C, M, text[..j])
  {
    WalkLeaves(C, text, n + 1);
    forall j | n < j <= |text| ensures !Sees(C, M, text[..j]) {
      NotSeenBeyond(C, P, last, M, text, n + 1, j);
    }
  }

  lemma NotSeenBeyond(C: Cells, P: map<int, Key>, last: int, M: map<Key, int>, text: Key, n: nat, j: nat)
    requires Tree(C, P, last) && Represents(C, M) && KeysNulFree(M)
    requires n <= j <= |text| && ForwardWalk(C, text[..n]) == 0
    ensures !Sees(C, M, text[..j])
  {
    assert (text[..j] + [0])[..n] == text[..n];
    NotSeen(C, P, last, M, text[..j] + [0], n, text[..j]);
  }

  /** The whole life of a lexicon, in an array of any size: n of the lines go in, and whenever 512
      cells are left past the last base (`roomy`) a search answers the value of the key's last line,
      and always 0 for a key without one. An array of 256 cells per byte and 513 more is enough for
      all lines and for that. */
  method BuildThenSearch(nNumElems: nat, words: seq<(Key, nat)>, key: Key) returns (n: nat, roomy: bool, v: int)
    requires NulFree(key) && forall i :: 0 <= i < |words| ==> NulFree(words[i].0)
    ensures n <= |words|
    ensures forall i {:trigger LastFor(words, n, key, i)} ::
              0 <= i && LastFor(words, n, key, i) ==> (roomy ==> v == words[i].1) && (v == 0 || v == words[i].1)
    ensures NoneFor(words, n, key) ==> v == 0
    ensures 256 * Cost(words) + 513 <= nNumElems ==> n == |words| && roomy
  {
    var trie := new DoubleArrayTrie(nNumElems);
    var ok;
    ok, n := trie.BuildFromFile(words);
    v := trie.Search(key);
    roomy := trie.lastState + 512 < trie.states.Length;
    if roomy { RoomySeesAll(trie.states[..], trie.path, trie.lastState, trie.dict, key); }
  }
}
