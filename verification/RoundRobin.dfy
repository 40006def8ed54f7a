/** Round-robin choice among the replicas of a shard. */
module RoundRobin {
  datatype Option<T> = None | Some(value: T)

  /** size_t arithmetic wraps at 2^64; the policy starts at (size_t)-1. */
  const SIZE_MOD: nat := 0x1_0000_0000_0000_0000

  /** The replica a choice looks at first: the next one, or the first after the last. */
  function NextStart(active: nat, n: nat): (r: nat)
    requires n > 0
    ensures r < n
  {
    if active + 1 < n then active + 1 else 0
  }

  /** The cursor after a choice that found nobody: all the way round, and out of its first state. */
  function AfterRound(active: nat, n: nat): nat {
    if n == 0 || active < n then active else n - 1
  }

  /** The size_t expression of select goes there. */
  lemma NextStartIs(active: nat, n: nat)
    requires 0 < n < SIZE_MOD && (active < n || active == SIZE_MOD - 1)
    ensures (active + 1) % SIZE_MOD % n == NextStart(active, n)
  {
    if active + 1 < n {
      ModSmall(active + 1, n);
    } else if active < n {
      ModSelf(n);
    } else {
      ModSmall(0, n);
    }
  }

  /** A fruitless round ends one place before the place where it began, and the next choice begins
      there again. */
  lemma AfterRoundIs(active: nat, n: nat)
    requires 0 < n && (active < n || active == SIZE_MOD - 1) && n < SIZE_MOD
    ensures AfterRound(active, n) < n
    ensures (AfterRound(active, n) + 1) % n == (active + 1) % SIZE_MOD % n
  {
    NextStartIs(active, n);
    NextStartIs(AfterRound(active, n), n);
  }

  /** Places counted on round the ring are places modulo its size. */
  lemma RingIs(x: nat, n: nat)
    requires x < 2 * n
    ensures Ring(x, n) == x % n
  {
    if x < n { ModSmall(x, n); } else { assert x % n == (x - n) % n == x - n; }
  }

  lemma ModSmall(a: nat, n: nat)
    requires a < n
    ensures a % n == a
  {
  }

  lemma ModSelf(n: nat)
    requires n > 0
    ensures n % n == 0
  {
  }

  /** Places x .. x + n - 1 counted on, as places on a ring of n replicas. */
  function Ring(x: nat, n: nat): (r: nat)
    requires x < 2 * n
    ensures r < n
  {
    if x < n then x else x - n
  }

  /** No replica is available from place x up to, but not including, place y. */
  predicate NoneIn(avail: seq<bool>, x: nat, y: nat)
    requires x <= y <= 2 * |avail|
  {
    forall z :: x <= z < y ==> !avail[Ring(z, |avail|)]
  }

  /** The available places from x up to y, in order. */
  function Scan(avail: seq<bool>, x: nat, y: nat): (s: seq<nat>)
    requires x <= y <= 2 * |avail|
    decreases y - x
  {
    if x == y then []
    else (if avail[Ring(x, |avail|)] then [Ring(x, |avail|)] else []) + Scan(avail, x + 1, y)
  }

  /** A scan names available replicas. */
  lemma {:induction false} ScanSound(avail: seq<bool>, x: nat, y: nat)
    requires x <= y <= 2 * |avail|
    ensures forall i :: 0 <= i < |Scan(avail, x, y)| ==> Scan(avail, x, y)[i] < |avail| && avail[Scan(avail, x, y)[i]]
    decreases y - x
  {
    if x < y { ScanSound(avail, x + 1, y); }
  }

  lemma {:induction false} ScanSkips(avail: seq<bool>, x: nat, m: nat, y: nat)
    requires x <= m <= y <= 2 * |avail| && NoneIn(avail, x, m)
    ensures Scan(avail, x, y) == Scan(avail, m, y)
    decreases m - x
  {
    if x < m { ScanSkips(avail, x + 1, m, y); }
  }

  lemma {:induction false} ScanNone(avail: seq<bool>, x: nat, y: nat)
    requires x <= y <= 2 * |avail|
    ensures Scan(avail, x, y) == [] <==> NoneIn(avail, x, y)
    decreases y - x
  {
    if x < y { ScanNone(avail, x + 1, y); }
  }

  /** A scan once round the ring holds every available replica, and only those, exactly once. */
  lemma {:induction false} ScanMember(avail: seq<bool>, x: nat, y: nat, i: nat)
    requires x <= y <= 2 * |avail| && y <= x + |avail| && i < |avail|
    ensures i in Scan(avail, x, y) <==> avail[i] && (x <= i < y || x <= i + |avail| < y)
    decreases y - x
  {
    if x < y { ScanMember(avail, x + 1, y, i); }
  }

  lemma {:induction false} ScanDistinct(avail: seq<bool>, x: nat, y: nat)
    requires x <= y <= 2 * |avail| && y <= x + |avail|
    ensures forall i, j :: 0 <= i < j < |Scan(avail, x, y)| ==> Scan(avail, x, y)[i] != Scan(avail, x, y)[j]
    decreases y - x
  {
    if x < y {
      ScanDistinct(avail, x + 1, y);
      ScanMember(avail, x + 1, y, Ring(x, |avail|));
    }
  }

  /** The place of the first replica with this identity; the number of replicas if there is none. */
  function FirstIndex(ids: seq<nat>, id: nat): (k: nat)
    ensures k <= |ids| && (k < |ids| <==> id in ids) && (k < |ids| ==> ids[k] == id) && id !in ids[..k]
  {
    if ids == [] then 0 else if ids[0] == id then 0 else 1 + FirstIndex(ids[1..], id)
  }

  class RoundRobinPolicy {
    var ids: seq<nat>
    var avail: seq<bool>
    var active: nat

    constructor ()
      ensures Valid() && ids == [] && avail == [] && active == SIZE_MOD - 1
    {
      ids, avail, active := [], [], SIZE_MOD - 1;
    }

    ghost predicate Valid()
      reads this
    {
      |ids| == |avail| < SIZE_MOD && (active < |ids| || active == SIZE_MOD - 1)
    }

    /** init: appends the replicas, all of them available. */
    method Init(replicas: seq<nat>)
      requires Valid() && |ids| + |replicas| < SIZE_MOD
      modifies this
      ensures Valid() && ids == old(ids) + replicas && active == old(active)
      ensures avail == old(avail) + seq(|replicas|, _ => true)
    {
      var i := 0;
      while i < |replicas|
        invariant 0 <= i <= |replicas| && active == old(active) && |ids| == |avail|
        invariant ids == old(ids) + replicas[..i] && avail == old(avail) + seq(i, _ => true)
      {
        ids := ids + [replicas[i]];
        avail := avail + [true];
        i := i + 1;
      }
      assert replicas[..i] == replicas;
    }

    /** select: the first available replica after the last one chosen, going round. Null exactly
        when none is available; the next search then starts where this one did. */
    method Select() returns (r: Option<nat>, ghost x: nat)
      requires Valid()
      modifies this`active
      ensures Valid()
      ensures r.None? <==> forall i :: 0 <= i < |avail| ==> !avail[i]
      ensures r.None? ==> active == AfterRound(old(active), |ids|)
      ensures r.Some? ==> |ids| > 0 && var s := NextStart(old(active), |ids|);
        s <= x < s + |ids| && NoneIn(avail, s, x) && active == Ring(x, |ids|) && avail[active] && r.value == ids[active]
    {
      x := 0;
      if |ids| == 0 { return None, 0; }
      var n := |ids|;
      ghost var start := NextStart(active, n);
      x := start;
      var tryCount := 0;
      while tryCount < n
        invariant 0 <= tryCount <= n && x == start + tryCount && NoneIn(avail, start, x)
        invariant active == if tryCount == 0 then old(active) else Ring(x - 1, n)
      {
        NextStartIs(active, n);
        active := (active + 1) % SIZE_MOD % n;
        if avail[active] { return Some(ids[active]), x; }
        tryCount := tryCount + 1;
        x := x + 1;
      }
      forall i | 0 <= i < n ensures !avail[i] {
        assert Ring(if i >= start then i else i + n, n) == i;
      }
      r := None;
    }

    /** markState: the first replica with this identity. */
    method MarkState(id: nat, s: bool)
      requires Valid()
      modifies this`avail
      ensures Valid()
      ensures avail == if id in ids then old(avail)[FirstIndex(ids, id) := s] else old(avail)
    {
      var k := 0;
      while k < |ids|
        invariant 0 <= k <= |ids| && avail == old(avail) && id !in ids[..k]
        invariant FirstIndex(ids, id) == k + FirstIndex(ids[k..], id)
      {
        if ids[k] == id {
          avail := avail[k := s];
          break;
        }
        assert ids[k..][1..] == ids[k + 1..];
        k := k + 1;
      }
    }
  }

  /** The replicas chosen by k selects in a row, with no change of state in between. */
  function Picks(avail: seq<bool>, x: nat, y: nat, k: nat): seq<nat>
    requires x <= y <= 2 * |avail|
    decreases k
  {
    if k == 0 || Scan(avail, x, y) == [] then []
    else
      var p := NextPlace(avail, x, y);
      [Ring(p, |avail|)] + Picks(avail, p + 1, y, k - 1)
  }

  /** The first available place from x on. */
  function NextPlace(avail: seq<bool>, x: nat, y: nat): (p: nat)
    requires x <= y <= 2 * |avail| && Scan(avail, x, y) != []
    ensures x <= p < y && NoneIn(avail, x, p) && avail[Ring(p, |avail|)]
    decreases y - x
  {
    if avail[Ring(x, |avail|)] then x else NextPlace(avail, x + 1, y)
  }

  /** k selects choose the first k available places of a scan ... */
  lemma {:induction false} PicksFollowScan(avail: seq<bool>, x: nat, y: nat, k: nat)
    requires x <= y <= 2 * |avail| && k <= |Scan(avail, x, y)|
    ensures Picks(avail, x, y, k) == Scan(avail, x, y)[..k]
    decreases k
  {
    if k > 0 {
      var p := NextPlace(avail, x, y);
      ScanSkips(avail, x, p, y);
      PicksFollowScan(avail, p + 1, y, k - 1);
    }
  }

  /** ... so k selects among k available replicas choose each of them exactly once, in ring order. */
  lemma RoundRobinIsFair(avail: seq<bool>, start: nat)
    requires start < |avail|
    ensures var round := Picks(avail, start, start + |avail|, |Scan(avail, start, start + |avail|)|);
      && round == Scan(avail, start, start + |avail|)
      && (forall i :: 0 <= i < |avail| ==> (i in round <==> avail[i]))
      && (forall i, j :: 0 <= i < j < |round| ==> round[i] != round[j])
  {
    var y := start + |avail|;
    PicksFollowScan(avail, start, y, |Scan(avail, start, y)|);
    forall i | 0 <= i < |avail| ensures i in Scan(avail, start, y) <==> avail[i] { ScanMember(avail, start, y, i); }
    ScanDistinct(avail, start, y);
  }

  /** There is one first available place. */
  lemma FirstPlaceUnique(avail: seq<bool>, x: nat, p: nat, q: nat)
    requires x <= p < 2 * |avail| && x <= q < 2 * |avail|
    requires NoneIn(avail, x, p) && avail[Ring(p, |avail|)] && NoneIn(avail, x, q) && avail[Ring(q, |avail|)]
    ensures p == q
  {
  }

  /** What select finds from the ring place of x is the next place from x on. */
  lemma SelectedPlace(avail: seq<bool>, x: nat, y: nat, q: nat)
    requires x <= y < 2 * |avail| && y <= x + |avail| && Scan(avail, x, y) != []
    requires Ring(x, |avail|) <= q < 2 * |avail| && NoneIn(avail, Ring(x, |avail|), q) && avail[Ring(q, |avail|)]
    ensures Ring(q, |avail|) == Ring(NextPlace(avail, x, y), |avail|)
  {
    var n, p := |avail|, NextPlace(avail, x, y);
    if x < n {
      FirstPlaceUnique(avail, x, p, q);
    } else {
      forall z | x - n <= z < p - n ensures !avail[Ring(z, n)] { assert !avail[Ring(z + n, n)]; }
      FirstPlaceUnique(avail, x - n, p - n, q);
    }
  }

  lemma RoundStep(avail: seq<bool>, x: nat, y: nat, q: nat, places: seq<nat>, c: nat) returns (next: nat)
    requires x <= y < 2 * |avail| && y <= x + |avail| && c < |places|
    requires Scan(avail, x, y) == places[c..]
    requires Ring(x, |avail|) <= q < 2 * |avail| && NoneIn(avail, Ring(x, |avail|), q) && avail[Ring(q, |avail|)]
    ensures x < next <= y && Ring(next - 1, |avail|) == Ring(q, |avail|) == places[c]
    ensures Scan(avail, next, y) == places[c + 1..]
  {
    var p := NextPlace(avail, x, y);
    next := p + 1;
    SelectedPlace(avail, x, y, q);
    ScanSkips(avail, x, p, y);
    assert places[c..][0] == places[c] && places[c..][1..] == places[c + 1..];
  }

  /** Calls select once for every available replica: the places chosen are one round of the ring. */
  method OneRound(policy: RoundRobinPolicy) returns (chosen: seq<nat>)
    requires policy.Valid() && |policy.ids| > 0
    modifies policy`active
    ensures policy.Valid()
    ensures var start := NextStart(old(policy.active), |policy.ids|);
      chosen == Scan(policy.avail, start, start + |policy.ids|)
  {
    ghost var avail := policy.avail;
    var n := |policy.ids|;
    var start := NextStart(policy.active, n);
    ghost var x, y := start, start + n;
    ghost var places := Scan(avail, start, y);
    assert places == places[0..];
    var left := |Scan(policy.avail, start, start + n)|;
    chosen := [];
    ghost var c := 0;
    while left > 0
      invariant policy.Valid() && start <= x <= y && Ring(x, n) == NextStart(policy.active, n)
      invariant left >= 0 && c + left == |places| && chosen == places[..c]
      invariant Scan(avail, x, y) == places[c..]
    {
      x := NextSelect(policy, x, y, places, c);
      chosen := chosen + [policy.active];
      left, c := left - 1, c + 1;
    }
  }

  /** One of these calls: it chooses places[c]. */
  method NextSelect(policy: RoundRobinPolicy, ghost x: nat, ghost y: nat, ghost places: seq<nat>,
                    ghost c: nat) returns (ghost next: nat)
    requires policy.Valid() && |policy.ids| > 0 && x <= y < 2 * |policy.ids| && y <= x + |policy.ids|
    requires Ring(x, |policy.ids|) == NextStart(policy.active, |policy.ids|)
    requires c < |places| && Scan(policy.avail, x, y) == places[c..]
    modifies policy`active
    ensures policy.Valid() && policy.active == places[c] && x < next <= y
    ensures Ring(next, |policy.ids|) == NextStart(policy.active, |policy.ids|)
            && Scan(policy.avail, next, y) == places[c + 1..]
  {
    SomeAvailable(policy.avail, x, y);
    var r, q := policy.Select();
    next := RoundStep(policy.avail, x, y, q, places, c);
  }

  lemma SomeAvailable(avail: seq<bool>, x: nat, y: nat)
    requires x <= y <= 2 * |avail| && Scan(avail, x, y) != []
    ensures exists i :: 0 <= i < |avail| && avail[i]
  {
    ScanSound(avail, x, y);
    assert avail[Scan(avail, x, y)[0]];
  }
}
