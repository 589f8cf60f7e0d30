/**
 * The ranked result set at the boundary the merge callback sees: a hit
 * record, and a bounded best-of-K queue that exposes "full", "minimum score"
 * and "add or replace". Its heap layout is not modelled, only its contents.
 */
module RankedResults {
  import opened SearchTypes

  /** `struct rank_hit`: a document, its score and its saved occurrence positions. */
  class RankHit {
    const docID: DocId
    const score: Score
    const nOccurs: U32
    const occurs: array<Position>

    /** The allocation half of `new_hit`: a buffer of `nOccurs` positions. */
    constructor (docID: DocId, score: Score, nOccurs: U32)
      ensures this.docID == docID && this.score == score && this.nOccurs == nOccurs
      ensures fresh(occurs) && occurs.Length == nOccurs
    {
      this.docID := docID;
      this.score := score;
      this.nOccurs := nOccurs;
      this.occurs := new Position[nOccurs];
    }
  }

  function Scores(hits: seq<RankHit>): (s: seq<Score>)
    ensures |s| == |hits|
    ensures forall i :: 0 <= i < |hits| ==> s[i] == hits[i].score
  {
    seq(|hits|, i requires 0 <= i < |hits| => hits[i].score)
  }

  /** The index of the first lowest-scoring hit. */
  function MinIndex(hits: seq<RankHit>): (k: nat)
    requires hits != []
    ensures k < |hits|
    ensures forall i :: 0 <= i < |hits| ==> hits[k].score <= hits[i].score
  {
    if |hits| == 1 then 0
    else
      var k := MinIndex(hits[1..]);
      if hits[0].score <= hits[k + 1].score then 0 else k + 1
  }

  /**
   * The best-of-K invariant over scores: `held` fits the capacity, nothing
   * was refused before the set filled up, every refused score is at most
   * every held one, and held plus refused is exactly what was offered.
   */
  ghost predicate BestOfK(capacity: nat, held: seq<Score>, dropped: seq<Score>, seen: seq<Score>)
  {
    && 0 < capacity
    && |held| <= capacity
    && (dropped != [] ==> |held| == capacity)
    && (forall i, j :: 0 <= i < |dropped| && 0 <= j < |held| ==> dropped[i] <= held[j])
    && multiset(seen) == multiset(held) + multiset(dropped)
  }

  lemma BestOfKAdd(capacity: nat, held: seq<Score>, dropped: seq<Score>, seen: seq<Score>, x: Score)
    requires BestOfK(capacity, held, dropped, seen) && |held| < capacity
    ensures BestOfK(capacity, held + [x], dropped, seen + [x])
  {
  }

  lemma BestOfKReplace(capacity: nat, held: seq<Score>, dropped: seq<Score>, seen: seq<Score>, k: nat, x: Score)
    requires BestOfK(capacity, held, dropped, seen) && |held| == capacity
    requires k < |held| && forall i :: 0 <= i < |held| ==> held[k] <= held[i]
    requires held[k] < x
    ensures BestOfK(capacity, held[k := x], dropped + [held[k]], seen + [x])
  {
    MultisetUpdate(held, k, x);
    var held', dropped' := held[k := x], dropped + [held[k]];
    forall i, j | 0 <= i < |dropped'| && 0 <= j < |held'|
      ensures dropped'[i] <= held'[j]
    {
      if i < |dropped| {
        assert dropped[i] <= held[k];
      }
    }
  }

  lemma BestOfKRefuse(capacity: nat, held: seq<Score>, dropped: seq<Score>, seen: seq<Score>, x: Score)
    requires BestOfK(capacity, held, dropped, seen) && |held| == capacity
    requires forall i :: 0 <= i < |held| ==> x <= held[i]
    ensures BestOfK(capacity, held, dropped + [x], seen + [x])
  {
  }

  /**
   * Under the invariant, the held scores number min(capacity, offered) and
   * every offered score that is not held is at most every held score.
   */
  lemma BestOfKHeldAreBest(capacity: nat, held: seq<Score>, dropped: seq<Score>, seen: seq<Score>)
    requires BestOfK(capacity, held, dropped, seen)
    ensures |held| == Min(capacity, |seen|)
    ensures forall s, j :: s in multiset(seen) - multiset(held) && 0 <= j < |held| ==> s <= held[j]
  {
    assert |multiset(seen)| == |multiset(held)| + |multiset(dropped)|;
    forall s, j | s in multiset(seen) - multiset(held) && 0 <= j < |held|
      ensures s <= held[j]
    {
      assert s in multiset(dropped);
      var i :| 0 <= i < |dropped| && dropped[i] == s;
    }
  }

  lemma MultisetUpdate(s: seq<Score>, k: nat, v: Score)
    requires k < |s|
    ensures multiset(s[k := v]) == multiset(s) - multiset{s[k]} + multiset{v}
  {
    assert s == s[..k] + [s[k]] + s[k + 1..];
    assert s[k := v] == s[..k] + [v] + s[k + 1..];
  }

  /**
   * `ranked_results_t` used as a priority queue of capacity `capacity`.
   * `seen` lists every score offered to the set and `dropped` every score
   * that was refused or evicted; `Valid` states the best-of-K invariant.
   */
  class RankQueue {
    const capacity: nat
    var hits: seq<RankHit>
    ghost var seen: seq<Score>
    ghost var dropped: seq<Score>

    ghost predicate Valid()
      reads this
    {
      BestOfK(capacity, Scores(hits), dropped, seen)
    }

    /** `priority_Q_init`. */
    constructor (capacity: nat)
      requires 0 < capacity
      ensures Valid() && this.capacity == capacity
      ensures hits == [] && seen == [] && dropped == []
    {
      this.capacity := capacity;
      hits := [];
      seen := [];
      dropped := [];
    }

    /** `priority_Q_full`: the set holds at least its capacity of hits. */
    predicate Full()
      reads this
      ensures Full() <==> |hits| >= capacity
    {
      |hits| >= capacity
    }

    /** `priority_Q_min_score`: the lowest score held. */
    function MinScore(): (m: Score)
      reads this
      requires hits != []
      ensures exists k :: 0 <= k < |hits| && hits[k].score == m
      ensures forall k :: 0 <= k < |hits| ==> m <= hits[k].score
    {
      hits[MinIndex(hits)].score
    }

    /**
     * `priority_Q_add_or_replace`: below capacity the hit is added; at
     * capacity it replaces a lowest-scoring hit when it scores strictly
     * higher, and is discarded otherwise.
     */
    method AddOrReplace(hit: RankHit)
      requires Valid()
      modifies this
      ensures Valid()
      ensures seen == old(seen) + [hit.score]
      ensures !old(Full()) ==> hits == old(hits) + [hit]
      ensures old(Full()) && hit.score > old(MinScore()) ==>
        exists k :: 0 <= k < |old(hits)| && old(hits)[k].score == old(MinScore()) && hits == old(hits)[k := hit]
      ensures old(Full()) && hit.score <= old(MinScore()) ==> hits == old(hits)
    {
      if |hits| < capacity {
        BestOfKAdd(capacity, Scores(hits), dropped, seen, hit.score);
        assert Scores(hits + [hit]) == Scores(hits) + [hit.score];
        hits := hits + [hit];
      } else {
        var k := MinIndex(hits);
        var low := hits[k].score;
        if hit.score > low {
          BestOfKReplace(capacity, Scores(hits), dropped, seen, k, hit.score);
          assert Scores(hits[k := hit]) == Scores(hits)[k := hit.score];
          hits := hits[k := hit];
          dropped := dropped + [low];
        } else {
          BestOfKRefuse(capacity, Scores(hits), dropped, seen, hit.score);
          dropped := dropped + [hit.score];
        }
      }
      seen := seen + [hit.score];
    }

    /**
     * Ghost bookkeeping for a candidate the caller turned away without
     * building a hit because the set is full and it does not beat the minimum.
     */
    ghost method NoteRefused(score: Score)
      requires Valid() && Full() && score <= MinScore()
      modifies this
      ensures Valid()
      ensures hits == old(hits) && seen == old(seen) + [score]
    {
      BestOfKRefuse(capacity, Scores(hits), dropped, seen, score);
      seen := seen + [score];
      dropped := dropped + [score];
    }

    /**
     * What is held is the best of what was offered: as many hits as the
     * capacity allows, and every score not held is at most every held one.
     */
    lemma HeldAreBest()
      requires Valid()
      ensures |hits| == Min(capacity, |seen|)
      ensures forall s, j :: s in multiset(seen) - multiset(Scores(hits)) && 0 <= j < |hits| ==> s <= hits[j].score
    {
      BestOfKHeldAreBest(capacity, Scores(hits), dropped, seen);
    }
  }
}
