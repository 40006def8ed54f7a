/** A shard's search with failover: replicas are tried in round-robin order until one answers. */
module Failover {
  import opened RoundRobin

  datatype ErrorCode = EC_OK | EC_TIMEOUT | EC_ERROR

  /** How many of these places fail before the first that answers. */
  function Failures(places: seq<nat>, ids: seq<nat>, answer: nat -> ErrorCode): (c: nat)
    requires forall i :: 0 <= i < |places| ==> places[i] < |ids|
    ensures c <= |places|
    ensures forall i :: 0 <= i < c ==> answer(ids[places[i]]) != EC_OK
    ensures c < |places| ==> answer(ids[places[c]]) == EC_OK
  {
    if places == [] || answer(ids[places[0]]) == EC_OK then 0 else 1 + Failures(places[1..], ids, answer)
  }

  /** These places marked unavailable. */
  function Down(avail: seq<bool>, places: seq<nat>): (r: seq<bool>)
    ensures |r| == |avail| && forall i :: 0 <= i < |avail| ==> (r[i] <==> avail[i] && i !in places)
  {
    seq(|avail|, i requires 0 <= i < |avail| => avail[i] && i !in places)
  }

  function IdsAt(ids: seq<nat>, places: seq<nat>): seq<nat>
    requires forall i :: 0 <= i < |places| ==> places[i] < |ids|
  {
    seq(|places|, i requires 0 <= i < |places| => ids[places[i]])
  }

  predicate Distinct(ids: seq<nat>) { forall i, j :: 0 <= i < j < |ids| ==> ids[i] != ids[j] }

  lemma FirstIndexDistinct(ids: seq<nat>, p: nat)
    requires Distinct(ids) && p < |ids|
    ensures ids[p] in ids && FirstIndex(ids, ids[p]) == p
  {
  }

  /** Marking a place the scan does not meet leaves the scan alone. */
  lemma {:induction false} ScanUnaffected(avail: seq<bool>, k: nat, x: nat, y: nat)
    requires x <= y <= 2 * |avail| && k < |avail| && forall z :: x <= z < y ==> Ring(z, |avail|) != k
    ensures Scan(avail[k := false], x, y) == Scan(avail, x, y)
    decreases y - x
  {
    if x < y { ScanUnaffected(avail, k, x + 1, y); }
  }

  /** The state of a search that has tried places[..c]: these are down, the rest is still ahead. */
  ghost predicate Tried(avail0: seq<bool>, avail: seq<bool>, s: nat, x: nat, places: seq<nat>, c: nat) {
    && |avail| == |avail0| && s <= x <= s + |avail| && c <= |places|
    && (if avail == [] then places == [] else s < |avail|)
    && avail == Down(avail0, places[..c])
    && (avail != [] ==> NoneIn(avail, s, x) && Scan(avail, x, s + |avail|) == places[c..])
  }

  /** The available replicas in the order in which run comes to them. */
  function Turns(avail: seq<bool>, active: nat): (s: seq<nat>)
    ensures forall i :: 0 <= i < |s| ==> s[i] < |avail| && avail[s[i]]
  {
    if avail == [] then []
    else
      ScanSound(avail, NextStart(active, |avail|), NextStart(active, |avail|) + |avail|);
      Scan(avail, NextStart(active, |avail|), NextStart(active, |avail|) + |avail|)
  }

  /** Where the round-robin cursor stands after a search: on the replica that answered, else on the
      last one tried. */
  function EndsAt(active: nat, n: nat, places: seq<nat>, c: nat): nat
    requires c <= |places|
  {
    if c < |places| then places[c]
    else AfterRound(if c == 0 then active else places[c - 1], n)
  }

  /** A search that tried somebody ends on the last replica tried. */
  lemma EndsOnLastTried(active: nat, n: nat, places: seq<nat>, c: nat)
    requires c <= |places| && places != [] && forall i :: 0 <= i < |places| ==> places[i] < n
    ensures EndsAt(active, n, places, c) == places[if c < |places| then c else |places| - 1]
  {
  }

  /** So the next search begins with the replica after the one that answered, and comes back to that
      one last: two searches in a row compose. */
  lemma NextSearchStarts(avail: seq<bool>, active: nat, c: nat)
    requires c < |Turns(avail, active)|
    ensures var places := Turns(avail, active);
      var next := Turns(Down(avail, places[..c]), EndsAt(active, |avail|, places, c));
      next != [] && next[|next| - 1] == places[c]
  {
    var places := Turns(avail, active);
    var k, n, left := places[c], |avail|, Down(avail, places[..c]);
    assert left[k] by { TriedOnce(avail, active); }
    var s := NextStart(k, n);
    ScanSplit(left, s, s + n - 1, s + n);
    assert Ring(s + n - 1, n) == k;
    assert Scan(left, s + n - 1, s + n) == [k] + Scan(left, s + n, s + n);
  }

  lemma TriedNone(avail0: seq<bool>, active: nat) returns (s: nat)
    ensures avail0 != [] ==> s == NextStart(active, |avail0|)
    ensures Tried(avail0, avail0, s, s, Turns(avail0, active), 0)
  {
    s := if avail0 == [] then 0 else NextStart(active, |avail0|);
    var places := Turns(avail0, active);
    assert avail0 == Down(avail0, places[..0]);
    assert places[0..] == places;
  }

  /** While places are left somebody is available, and nobody once they are used up. */
  lemma TriedAll(avail0: seq<bool>, avail: seq<bool>, s: nat, x: nat, places: seq<nat>, c: nat)
    requires Tried(avail0, avail, s, x, places, c)
    ensures c == |places| <==> forall i :: 0 <= i < |avail| ==> !avail[i]
  {
    var n := |avail|;
    if n > 0 { ScanNone(avail, x, s + n); }
    if n > 0 && c == |places| {
      forall i | 0 <= i < n ensures !avail[i] {
        var z := if i >= s then i else i + n;
        assert Ring(z, n) == i;
      }
    } else if n > 0 {
      SomeAvailable(avail, x, s + n);
    }
  }

  lemma TriedOneMore(avail0: seq<bool>, avail: seq<bool>, s: nat, x: nat, places: seq<nat>, c: nat, q: nat)
    returns (next: nat)
    requires Tried(avail0, avail, s, x, places, c) && c < |places|
    requires Ring(x, |avail|) <= q < 2 * |avail| && NoneIn(avail, Ring(x, |avail|), q) && avail[Ring(q, |avail|)]
    ensures Ring(q, |avail|) == places[c] < |avail| && avail[places[c]]
    ensures x < next <= s + |avail| && Ring(next - 1, |avail|) == places[c]
    ensures Tried(avail0, avail[places[c] := false], s, next, places, c + 1)
  {
    var n, y := |avail|, s + |avail|;
    next := RoundStep(avail, x, y, q, places, c);
    NoneUpTo(avail, s, x, y, next - 1, places, c);
    DownOneMore(avail0, avail, places, c);
    MarkedOff(avail, s, next, places[c]);
  }

  lemma DownOneMore(avail0: seq<bool>, avail: seq<bool>, places: seq<nat>, c: nat)
    requires c < |places| && places[c] < |avail| && avail == Down(avail0, places[..c])
    ensures avail[places[c] := false] == Down(avail0, places[..c + 1])
  {
    assert places[..c + 1] == places[..c] + [places[c]];
  }

  /** Marking the place just tried keeps the rest of the round as it was. */
  lemma MarkedOff(avail: seq<bool>, s: nat, next: nat, k: nat)
    requires s < next <= s + |avail| <= 2 * |avail| && Ring(next - 1, |avail|) == k && NoneIn(avail, s, next - 1)
    ensures NoneIn(avail[k := false], s, next)
    ensures Scan(avail[k := false], next, s + |avail|) == Scan(avail, next, s + |avail|)
  {
    ScanUnaffected(avail, k, next, s + |avail|);
  }

  lemma NoneUpTo(avail: seq<bool>, s: nat, x: nat, y: nat, p: nat, places: seq<nat>, c: nat)
    requires s <= x <= p < y <= 2 * |avail| && NoneIn(avail, s, x) && c < |places|
    requires Scan(avail, x, y) == places[c..] && Scan(avail, p + 1, y) == places[c + 1..] && avail[Ring(p, |avail|)]
    ensures NoneIn(avail, s, p)
  {
    ScanSplit(avail, x, p, y);
    ScanNone(avail, x, p);
  }

  lemma {:induction false} ScanSplit(avail: seq<bool>, x: nat, p: nat, y: nat)
    requires x <= p <= y <= 2 * |avail|
    ensures Scan(avail, x, y) == Scan(avail, x, p) + Scan(avail, p, y)
    decreases p - x
  {
    if x < p { ScanSplit(avail, x + 1, p, y); }
  }

  class SearchShard {
    const policy: RoundRobinPolicy
    var status: ErrorCode
    var activeReplica: Option<nat>
    var unavailable: seq<nat>

    constructor (p: RoundRobinPolicy)
      ensures policy == p && status == EC_ERROR && activeReplica == None && unavailable == []
    {
      policy, status, activeReplica, unavailable := p, EC_ERROR, None, [];
    }

    ghost predicate Valid()
      reads this, policy
    {
      policy.Valid() && Distinct(policy.ids)
    }

    /** run: tries the available replicas in ring order up to the first that answers EC_OK. Every
        replica tried before it is marked unavailable and listed, no other is touched. */
    method Run(answer: nat -> ErrorCode)
      requires Valid()
      modifies this, policy
      ensures Valid() && policy.ids == old(policy.ids)
      ensures var places := Turns(old(policy.avail), old(policy.active));
        var c := Failures(places, policy.ids, answer);
        && policy.avail == Down(old(policy.avail), places[..c])
        && unavailable == old(unavailable) + IdsAt(policy.ids, places[..c])
        && status == (if c < |places| then EC_OK else EC_ERROR)
        && activeReplica == (if c < |places| then Some(policy.ids[places[c]]) else None)
        && policy.active == EndsAt(old(policy.active), |policy.ids|, places, c)
    {
      ghost var listed, active0, places := unavailable, policy.active, Turns(policy.avail, policy.active);
      ghost var s := TriedNone(policy.avail, policy.active);
      assert IdsAt(policy.ids, places[..0]) == [];
      ghost var c := TryAll(answer, policy.avail, listed, active0, s, places);
    }

    /** The loop of run. */
    method TryAll(answer: nat -> ErrorCode, ghost avail0: seq<bool>, ghost listed: seq<nat>, ghost active0: nat,
                  ghost s: nat, ghost places: seq<nat>) returns (ghost c: nat)
      requires GoingOn(answer, avail0, listed, active0, s, s, places, 0)
      modifies this, policy
      ensures policy.ids == old(policy.ids) && c <= |places| && Finished(answer, avail0, listed, active0, places, c)
    {
      ghost var x := s;
      c := 0;
      var stop := false;
      while !stop
        invariant policy.ids == old(policy.ids) && c <= |places|
        invariant if stop then Finished(answer, avail0, listed, active0, places, c)
                  else GoingOn(answer, avail0, listed, active0, s, x, places, c)
        decreases !stop, |places| - c
      {
        stop, x := Step(answer, avail0, listed, active0, s, x, places, c);
        if !stop { c := c + 1; }
      }
    }

    /** The loop's invariant: c replicas have failed, the others are still to come. */
    ghost predicate GoingOn(answer: nat -> ErrorCode, avail0: seq<bool>, listed: seq<nat>, active0: nat, s: nat, x: nat,
                            places: seq<nat>, c: nat)
      reads this, policy
    {
      && Valid() && Ahead(avail0, s, x, places, c) && InRange(places)
      && unavailable == listed + IdsAt(policy.ids, places[..c])
      && policy.active == (if c == 0 then active0 else places[c - 1])
      && forall i :: 0 <= i < c ==> answer(policy.ids[places[i]]) != EC_OK
    }

    ghost predicate InRange(places: seq<nat>)
      reads policy
    {
      forall i :: 0 <= i < |places| ==> places[i] < |policy.ids|
    }

    /** What a finished search has done: exactly the first c replicas failed. */
    ghost predicate Finished(answer: nat -> ErrorCode, avail0: seq<bool>, listed: seq<nat>, active0: nat,
                             places: seq<nat>,
                             c: nat)
      reads this, policy
    {
      && Valid() && InRange(places) && c == Failures(places, policy.ids, answer)
      && policy.avail == Down(avail0, places[..c])
      && unavailable == listed + IdsAt(policy.ids, places[..c])
      && status == (if c < |places| then EC_OK else EC_ERROR)
      && activeReplica == (if c < |places| then Some(policy.ids[places[c]]) else None)
      && policy.active == EndsAt(active0, |policy.ids|, places, c)
    }

    /** One turn of run's loop keeps the invariant or finishes. */
    method Step(answer: nat -> ErrorCode, ghost avail0: seq<bool>, ghost listed: seq<nat>, ghost active0: nat,
                ghost s: nat,
                ghost x0: nat, ghost places: seq<nat>, ghost c: nat) returns (stop: bool, ghost x: nat)
      requires GoingOn(answer, avail0, listed, active0, s, x0, places, c)
      modifies this, policy
      ensures policy.ids == old(policy.ids) && (!stop ==> c < |places|)
      ensures if stop then Finished(answer, avail0, listed, active0, places, c)
              else GoingOn(answer, avail0, listed, active0, s, x, places, c + 1)
    {
      stop, x := Turn(answer, avail0, s, x0, places, c);
      if stop {
        FailuresAre(places, policy.ids, answer, c);
      } else {
        assert places[..c + 1] == places[..c] + [places[c]];
      }
    }

    /** The loop's state before a turn, c replicas having failed. */
    ghost predicate Ahead(avail0: seq<bool>, s: nat, x: nat, places: seq<nat>, c: nat)
      reads policy
    {
      && |policy.ids| == |policy.avail| && Tried(avail0, policy.avail, s, x, places, c)
      && (policy.ids != [] ==> x < 2 * |policy.ids| && Ring(x, |policy.ids|) == NextStart(policy.active, |policy.ids|))
    }

    /** One turn of run's loop; `stop` tells whether it breaks out. */
    method Turn(answer: nat -> ErrorCode, ghost avail0: seq<bool>, ghost s: nat, ghost x0: nat,
                ghost places: seq<nat>, ghost c: nat)
      returns (stop: bool, ghost x: nat)
      requires Valid() && Ahead(avail0, s, x0, places, c)
      requires forall i :: 0 <= i < |places| ==> places[i] < |policy.ids|
      modifies this, policy
      ensures Valid() && policy.ids == old(policy.ids)
      ensures stop <==> c == |places| || answer(policy.ids[places[c]]) == EC_OK
      ensures stop ==> policy.avail == old(policy.avail) && unavailable == old(unavailable)
      ensures stop ==> status == (if c < |places| then EC_OK else EC_ERROR)
      ensures stop ==> activeReplica == (if c < |places| then Some(policy.ids[places[c]]) else None)
      ensures policy.active == if c < |places| then places[c] else AfterRound(old(policy.active), |policy.ids|)
      ensures !stop ==> Ahead(avail0, s, x, places, c + 1) && unavailable == old(unavailable) + [policy.ids[places[c]]]
    {
      x := x0;
      TriedAll(avail0, policy.avail, s, x, places, c);
      var r, q := policy.Select();
      if r.None? {
        activeReplica := None;
        status := EC_ERROR;
        return true, x;
      }
      x := TriedOneMore(avail0, policy.avail, s, x, places, c, q);
      activeReplica := r;
      status := answer(r.value);
      stop := status == EC_OK;
      if !stop {
        unavailable := unavailable + [r.value];
        FirstIndexDistinct(policy.ids, places[c]);
        policy.MarkState(r.value, false);
      }
    }
  }

  lemma {:induction false} FailuresAre(places: seq<nat>, ids: seq<nat>, answer: nat -> ErrorCode, c: nat)
    requires forall i :: 0 <= i < |places| ==> places[i] < |ids|
    requires c <= |places| && forall i :: 0 <= i < c ==> answer(ids[places[i]]) != EC_OK
    requires c < |places| ==> answer(ids[places[c]]) == EC_OK
    ensures Failures(places, ids, answer) == c
  {
    if c > 0 { FailuresAre(places[1..], ids, answer, c - 1); }
  }

  /** The shard answers exactly if some replica that was available would. */
  lemma AnswersIff(avail: seq<bool>, active: nat, ids: seq<nat>, answer: nat -> ErrorCode)
    requires |avail| == |ids|
    ensures Failures(Turns(avail, active), ids, answer) < |Turns(avail, active)| <==>
            exists i :: 0 <= i < |ids| && avail[i] && answer(ids[i]) == EC_OK
  {
    var places := Turns(avail, active);
    if i :| 0 <= i < |ids| && avail[i] && answer(ids[i]) == EC_OK {
      var s := NextStart(active, |avail|);
      ScanMember(avail, s, s + |avail|, i);
      var j :| 0 <= j < |places| && places[j] == i;
    }
  }

  /** No replica is tried twice. */
  lemma TriedOnce(avail: seq<bool>, active: nat)
    ensures forall i, j :: 0 <= i < j < |Turns(avail, active)| ==> Turns(avail, active)[i] != Turns(avail, active)[j]
  {
    if avail != [] { ScanDistinct(avail, NextStart(active, |avail|), NextStart(active, |avail|) + |avail|); }
  }
}
