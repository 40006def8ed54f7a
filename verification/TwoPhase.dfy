/** The second phase of a distributed search: documents are requested from the shards that own
    them, and the answers are merged back into the order of phase one. */
module TwoPhase {
  /** A hit of phase one. */
  datatype Hit = Hit(shard: nat, docId: nat, score: int)

  /** A document as a shard returns it. */
  datatype Doc = Doc(docId: nat, score: int, fields: string)

  /** A shard's answer: the transport status, a query error, or documents. */
  datatype Response = Response(ok: bool, hasError: bool, docs: seq<Doc>)

  /** What the merge leaves behind. OutOfRange stands for reading past a shard's documents. */
  datatype Outcome =
    | Merged(docs: seq<Doc>) | ShardFailed(shard: nat) | QueryError(shard: nat, docs: seq<Doc>) | OutOfRange

  /** The documents asked of shard s, in the order of the hits. */
  function Wanted(hits: seq<Hit>, s: nat): seq<nat> {
    if hits == [] then []
    else
      var front, last := hits[..|hits| - 1], hits[|hits| - 1];
      Wanted(front, s) + if last.shard == s then [last.docId] else []
  }

  predicate InShards(hits: seq<Hit>, n: nat) { forall i :: 0 <= i < |hits| ==> hits[i].shard < n }

  lemma {:induction false} WantedPrefix(hits: seq<Hit>, s: nat, k: nat)
    requires k <= |hits|
    ensures Wanted(hits[..k], s) <= Wanted(hits, s)
    decreases |hits|
  {
    if k < |hits| {
      WantedPrefix(hits[..|hits| - 1], s, k);
      assert hits[..|hits| - 1][..k] == hits[..k];
    } else {
      assert hits[..k] == hits;
    }
  }

  /** Hit k is number |Wanted(hits[..k], s)| among those of its shard s. */
  lemma WantedAt(hits: seq<Hit>, k: nat)
    requires k < |hits|
    ensures var s := hits[k].shard;
      |Wanted(hits[..k], s)| < |Wanted(hits, s)| && Wanted(hits, s)[|Wanted(hits[..k], s)|] == hits[k].docId
  {
    var s := hits[k].shard;
    assert hits[..k + 1][..k] == hits[..k];
    WantedPrefix(hits, s, k + 1);
    assert Wanted(hits[..k + 1], s) == Wanted(hits[..k], s) + [hits[k].docId];
  }

  /** Everything is asked of exactly one shard: the requests' lengths add up to the hits. */
  function TotalWanted(hits: seq<Hit>, n: nat): nat {
    if n == 0 then 0 else TotalWanted(hits, n - 1) + |Wanted(hits, n - 1)|
  }

  lemma {:induction false} NothingLost(hits: seq<Hit>, n: nat)
    requires InShards(hits, n)
    ensures TotalWanted(hits, n) == |hits|
  {
    if hits == [] {
      NoHits(n);
    } else {
      var m := |hits| - 1;
      assert InShards(hits[..m], n);
      NothingLost(hits[..m], n);
      OneMoreWanted(hits, n);
    }
  }

  lemma {:induction false} NoHits(n: nat)
    ensures TotalWanted([], n) == 0
  {
    if n > 0 { NoHits(n - 1); }
  }

  lemma {:induction false} OneMoreWanted(hits: seq<Hit>, n: nat)
    requires hits != []
    ensures TotalWanted(hits, n) == TotalWanted(hits[..|hits| - 1], n) + (if hits[|hits| - 1].shard < n then 1 else 0)
  {
    if n > 0 { OneMoreWanted(hits, n - 1); }
  }

  /** The document merged for hit k: the next one of its shard, with the score of phase one. */
  function MergedDoc(hits: seq<Hit>, answers: seq<Response>, k: nat): Doc
    requires k < |hits| && hits[k].shard < |answers|
    requires |Wanted(hits[..k], hits[k].shard)| < |answers[hits[k].shard].docs|
  {
    answers[hits[k].shard].docs[|Wanted(hits[..k], hits[k].shard)|].(score := hits[k].score)
  }

  /** Hit k can be merged: its shard reports no error and has a document left. */
  predicate Mergeable(hits: seq<Hit>, answers: seq<Response>, k: nat)
    requires k < |hits| && hits[k].shard < |answers|
  {
    !answers[hits[k].shard].hasError && |Wanted(hits[..k], hits[k].shard)| < |answers[hits[k].shard].docs|
  }

  ghost predicate MergedUpTo(hits: seq<Hit>, answers: seq<Response>, docs: seq<Doc>, k: nat)
    requires InShards(hits, |answers|) && k <= |hits|
  {
    |docs| == k && forall i :: 0 <= i < k ==> Mergeable(hits, answers, i) && docs[i] == MergedDoc(hits, answers, i)
  }

  /** The first hit that cannot be merged, for want of a document. */
  ghost predicate Overruns(hits: seq<Hit>, answers: seq<Response>, k: nat)
    requires InShards(hits, |answers|) && k < |hits|
  {
    && !answers[hits[k].shard].hasError && !Mergeable(hits, answers, k)
    && forall i :: 0 <= i < k ==> Mergeable(hits, answers, i)
  }

  ghost predicate FirstFailure(answers: seq<Response>, requested: seq<nat>, i: nat)
    requires i < |requested| && forall j :: 0 <= j < |requested| ==> requested[j] < |answers|
  {
    !answers[requested[i]].ok && forall j :: 0 <= j < i ==> answers[requested[j]].ok
  }

  /** The outcome of the collection, case by case. */
  ghost predicate Collected(hits: seq<Hit>, answers: seq<Response>, requested: seq<nat>, o: Outcome)
    requires InShards(hits, |answers|) && forall i :: 0 <= i < |requested| ==> requested[i] < |answers|
  {
    if exists i :: 0 <= i < |requested| && !answers[requested[i]].ok then
      && o.ShardFailed?
      && exists i :: 0 <= i < |requested| && requested[i] == o.shard && FirstFailure(answers, requested, i)
    else
      match o
      case Merged(docs) => MergedUpTo(hits, answers, docs, |hits|)
      case QueryError(s, docs) =>
        |docs| < |hits| && MergedUpTo(hits, answers, docs, |docs|) && hits[|docs|].shard == s && answers[s].hasError
      case OutOfRange => exists k :: 0 <= k < |hits| && Overruns(hits, answers, k)
      case ShardFailed(_) => false
  }

  class SearchShards {
    const shards: nat
    var requests: seq<seq<nat>>
    var requestedShards: seq<nat>
    var cursors: seq<nat>

    constructor (n: nat)
      ensures shards == n && Sized()
    {
      shards := n;
      requests, requestedShards, cursors := seq(n, _ => []), [], seq(n, _ => 0);
    }

    ghost predicate Sized()
      reads this
    {
      |requests| == shards && |cursors| == shards
    }

    /** doPhaseTwoSearch: every hit is asked of its shard, in order; a shard is asked at all exactly
        if it owns a hit, and the shards asked are in ascending order. */
    method BuildRequests(hits: seq<Hit>)
      requires Sized() && InShards(hits, shards)
      modifies this`requests, this`requestedShards
      ensures Sized()
      ensures forall s :: 0 <= s < shards ==> requests[s] == Wanted(hits, s)
      ensures forall s :: s in requestedShards <==> 0 <= s < shards && Wanted(hits, s) != []
      ensures forall i, j :: 0 <= i < j < |requestedShards| ==> requestedShards[i] < requestedShards[j]
    {
      var i := 0;
      while i < |requests|
        invariant 0 <= i <= |requests| == shards
        invariant forall s :: 0 <= s < i ==> requests[s] == []
      {
        requests := requests[i := []];
        i := i + 1;
      }
      var it := 0;
      while it < |hits|
        invariant 0 <= it <= |hits| && |requests| == shards
        invariant forall s :: 0 <= s < shards ==> requests[s] == Wanted(hits[..it], s)
      {
        var hit := hits[it];
        assert hits[..it + 1][..it] == hits[..it];
        requests := requests[hit.shard := requests[hit.shard] + [hit.docId]];
        it := it + 1;
      }
      assert hits[..it] == hits;
      requestedShards := [];
      i := 0;
      while i < |requests|
        invariant 0 <= i <= |requests| == shards
        invariant forall s :: 0 <= s < shards ==> requests[s] == Wanted(hits, s)
        invariant forall s :: s in requestedShards <==> 0 <= s < i && requests[s] != []
        invariant forall i, j :: 0 <= i < j < |requestedShards| ==> requestedShards[i] < requestedShards[j]
      {
        if requests[i] != [] {
          assert forall j :: 0 <= j < |requestedShards| ==> requestedShards[j] in requestedShards;
          requestedShards := requestedShards + [i];
        }
        i := i + 1;
      }
    }

    /** collectPhaseTwoResult: gives up at the first failed shard, else merges hit by hit. */
    method Collect(hits: seq<Hit>, answers: seq<Response>) returns (o: Outcome)
      requires Sized() && |answers| == shards && InShards(hits, shards)
      requires forall i :: 0 <= i < |requestedShards| ==> requestedShards[i] < shards
      modifies this`cursors
      ensures Sized() && Collected(hits, answers, requestedShards, o)
      ensures o.Merged? ==> forall s :: 0 <= s < shards ==> cursors[s] == |Wanted(hits, s)|
      ensures forall i :: 0 <= i < |requestedShards| ==>
                !answers[requestedShards[i]].ok && (forall j :: 0 <= j < i ==> answers[requestedShards[j]].ok) ==>
                  o == ShardFailed(requestedShards[i])
    {
      cursors := seq(shards, _ => 0);
      var i := 0;
      while i < |requestedShards|
        invariant 0 <= i <= |requestedShards|
        invariant forall j :: 0 <= j < i ==> answers[requestedShards[j]].ok
      {
        if !answers[requestedShards[i]].ok {
          assert FirstFailure(answers, requestedShards, i);
          return ShardFailed(requestedShards[i]);
        }
        i := i + 1;
      }
      o := Merge(hits, answers);
    }

    /** The merge loop: one cursor per shard. */
    method Merge(hits: seq<Hit>, answers: seq<Response>) returns (o: Outcome)
      requires Sized() && |answers| == shards && InShards(hits, shards)
      requires forall s :: 0 <= s < shards ==> cursors[s] == 0
      requires forall i :: 0 <= i < |requestedShards| ==> requestedShards[i] < shards && answers[requestedShards[i]].ok
      modifies this`cursors
      ensures Sized() && Collected(hits, answers, requestedShards, o)
      ensures o.Merged? ==> forall s :: 0 <= s < shards ==> cursors[s] == |Wanted(hits, s)|
    {
      var docs: seq<Doc> := [];
      var it := 0;
      while it < |hits|
        invariant 0 <= it <= |hits| && |cursors| == shards
        invariant forall s :: 0 <= s < shards ==> cursors[s] == |Wanted(hits[..it], s)|
        invariant MergedUpTo(hits, answers, docs, it)
      {
        var hit := hits[it];
        var answer := answers[hit.shard];
        if answer.hasError { return QueryError(hit.shard, docs); }
        var cursor := cursors[hit.shard];
        if cursor >= |answer.docs| {
          assert Overruns(hits, answers, it);
          return OutOfRange;
        }
        assert hits[..it + 1][..it] == hits[..it];
        docs := docs + [answer.docs[cursor].(score := hit.score)];
        cursors := cursors[hit.shard := cursor + 1];
        it := it + 1;
      }
      assert hits[..it] == hits;
      o := Merged(docs);
    }
  }

  /** A shard that answers with the documents asked of it, in the order asked. */
  predicate Faithful(hits: seq<Hit>, answers: seq<Response>, s: nat)
    requires s < |answers|
  {
    && answers[s].ok && !answers[s].hasError && |answers[s].docs| == |Wanted(hits, s)|
    && forall i :: 0 <= i < |answers[s].docs| ==> answers[s].docs[i].docId == Wanted(hits, s)[i]
  }

  ghost predicate AllFaithful(hits: seq<Hit>, answers: seq<Response>) {
    forall s {:trigger Faithful(hits, answers, s)} :: 0 <= s < |answers| && Wanted(hits, s) != [] ==>
        Faithful(hits, answers, s)
  }

  lemma FaithfulMerges(hits: seq<Hit>, answers: seq<Response>, k: nat)
    requires InShards(hits, |answers|) && AllFaithful(hits, answers) && k < |hits|
    ensures Mergeable(hits, answers, k) && MergedDoc(hits, answers, k).docId == hits[k].docId
    ensures exists d :: d in answers[hits[k].shard].docs && MergedDoc(hits, answers, k) == d.(score := hits[k].score)
  {
    WantedAt(hits, k);
    assert Faithful(hits, answers, hits[k].shard);
    assert answers[hits[k].shard].docs[|Wanted(hits[..k], hits[k].shard)|] in answers[hits[k].shard].docs;
  }

  /** With faithful shards the collection succeeds ... */
  lemma {:induction false} FaithfulSucceeds(hits: seq<Hit>, answers: seq<Response>, requested: seq<nat>, o: Outcome)
    requires InShards(hits, |answers|) && forall i :: 0 <= i < |requested| ==> requested[i] < |answers|
    requires AllFaithful(hits, answers) && forall i :: 0 <= i < |requested| ==> Wanted(hits, requested[i]) != []
    requires Collected(hits, answers, requested, o)
    ensures o.Merged? && |o.docs| == |hits|
  {
    forall i | 0 <= i < |requested| ensures answers[requested[i]].ok { assert Faithful(hits, answers, requested[i]); }
    forall k | 0 <= k < |hits| ensures Mergeable(hits, answers, k) { FaithfulMerges(hits, answers, k); }
    if o.QueryError? { FaithfulMerges(hits, answers, |o.docs|); }
  }

  /** ... and restores phase one: the same documents from the same shards in the same order, with
      the scores of phase one. */
  lemma {:induction false} MergeInvertsPartition(hits: seq<Hit>, answers: seq<Response>, requested: seq<nat>,
                                        o: Outcome, k: nat)
    requires InShards(hits, |answers|) && forall i :: 0 <= i < |requested| ==> requested[i] < |answers|
    requires AllFaithful(hits, answers) && forall i :: 0 <= i < |requested| ==> Wanted(hits, requested[i]) != []
    requires Collected(hits, answers, requested, o) && k < |hits|
    ensures o.Merged? && |o.docs| == |hits|
    ensures o.docs[k].docId == hits[k].docId && o.docs[k].score == hits[k].score
    ensures exists d :: d in answers[hits[k].shard].docs && o.docs[k] == d.(score := hits[k].score)
  {
    FaithfulSucceeds(hits, answers, requested, o);
    FaithfulMerges(hits, answers, k);
  }

  /** The merged documents that belong to hits of shard s. */
  function FromShard(hits: seq<Hit>, docs: seq<Doc>, s: nat): seq<Doc>
    requires |docs| == |hits|
  {
    if hits == [] then []
    else
      var n := |hits| - 1;
      FromShard(hits[..n], docs[..n], s) + if hits[n].shard == s then [docs[n]] else []
  }

  /** Nothing is lost, duplicated or reordered: the documents merged for shard s are the first of
      its answer, as many as were asked of it, each once and in the shard's order. */
  lemma {:induction false} EachReadOnce(hits: seq<Hit>, answers: seq<Response>, docs: seq<Doc>, s: nat, k: nat)
    requires InShards(hits, |answers|) && s < |answers| && k <= |hits| && MergedUpTo(hits, answers, docs, |hits|)
    ensures var own := FromShard(hits[..k], docs[..k], s);
      |own| == |Wanted(hits[..k], s)| && (own != [] ==> |own| <= |answers[s].docs|)
      && forall i :: 0 <= i < |own| && i < |answers[s].docs| ==> own[i].(score := 0) == answers[s].docs[i].(score := 0)
  {
    if k > 0 {
      EachReadOnce(hits, answers, docs, s, k - 1);
      assert hits[..k][..k - 1] == hits[..k - 1] && docs[..k][..k - 1] == docs[..k - 1];
      assert Mergeable(hits, answers, k - 1) && docs[k - 1] == MergedDoc(hits, answers, k - 1);
    }
  }

  /** A shard that returns too few documents, without saying so, always drives a cursor out of
      range; enough documents from error-free shards never do. */
  lemma OutOfRangeIff(hits: seq<Hit>, answers: seq<Response>, requested: seq<nat>, o: Outcome)
    requires InShards(hits, |answers|) && forall i :: 0 <= i < |requested| ==>
               requested[i] < |answers| && answers[requested[i]].ok
    requires forall s :: 0 <= s < |answers| ==> !answers[s].hasError
    requires Collected(hits, answers, requested, o)
    ensures o.OutOfRange? <==> exists s :: 0 <= s < |answers| && |answers[s].docs| < |Wanted(hits, s)|
  {
    if o.OutOfRange? {
      var k :| 0 <= k < |hits| && Overruns(hits, answers, k);
      WantedAt(hits, k);
    }
    forall s | 0 <= s < |answers| && |answers[s].docs| < |Wanted(hits, s)|
      ensures exists k :: 0 <= k < |hits| && !Mergeable(hits, answers, k)
    {
      var k := HitOf(hits, s, |answers[s].docs|);
      assert !Mergeable(hits, answers, k);
    }
  }

  /** With enough documents everywhere, a query error is that of the first hit whose shard reports
      one, after the documents of the hits before it. */
  lemma FirstErrorWins(hits: seq<Hit>, answers: seq<Response>, requested: seq<nat>, o: Outcome, k: nat)
    requires InShards(hits, |answers|)
    requires forall i :: 0 <= i < |requested| ==> requested[i] < |answers| && answers[requested[i]].ok
    requires forall s :: 0 <= s < |answers| && !answers[s].hasError ==> |Wanted(hits, s)| <= |answers[s].docs|
    requires k < |hits| && answers[hits[k].shard].hasError
    requires forall i :: 0 <= i < k ==> !answers[hits[i].shard].hasError
    requires Collected(hits, answers, requested, o)
    ensures o.QueryError? && o.shard == hits[k].shard && |o.docs| == k
  {
    assert !Mergeable(hits, answers, k);
    if o.OutOfRange? {
      var i :| 0 <= i < |hits| && Overruns(hits, answers, i);
      WantedAt(hits, i);
    }
  }

  /** The hit that is number c of its shard. */
  lemma {:induction false} HitOf(hits: seq<Hit>, s: nat, c: nat) returns (k: nat)
    requires c < |Wanted(hits, s)|
    ensures k < |hits| && hits[k].shard == s && |Wanted(hits[..k], s)| == c
  {
    var m := |hits| - 1;
    if c < |Wanted(hits[..m], s)| {
      k := HitOf(hits[..m], s, c);
      assert hits[..m][..k] == hits[..k];
    } else {
      k := m;
    }
  }
}
