/**
 * Occurrence capture: which postings match a merge candidate, how many
 * occurrences they hold together, and `new_hit`, which copies them into a
 * fixed-size buffer.
 */
module Occurrences {
  import opened SearchTypes
  import opened RankedResults

  /**
   * `struct postmerge` as the merge callback sees it: `nPostings` postings,
   * the current 64-bit id of each, and each one's current item.
   */
  datatype PostMerge = PostMerge(nPostings: nat, curIDs: seq<U64>, curPosItem: seq<PostingItem>)
  {
    ghost predicate Valid()
    {
      && nPostings <= |curIDs|
      && nPostings <= |curPosItem|
      && forall i :: 0 <= i < nPostings ==> curPosItem[i].Valid()
    }
  }

  /**
   * The positions of the postings among the first `k` whose current id is
   * `id`, concatenated in posting order.
   */
  function MatchingOccurrences(pm: PostMerge, id: nat, k: nat): (occs: seq<Position>)
    requires pm.Valid() && k <= pm.nPostings
  {
    if k == 0 then []
    else
      MatchingOccurrences(pm, id, k - 1)
        + (if pm.curIDs[k - 1] == id then pm.curPosItem[k - 1].positions else [])
  }

  /** The sum of `tf` over the postings among the first `k` whose current id is `id`. */
  function TotalTf(pm: PostMerge, id: nat, k: nat): (total: nat)
    requires pm.Valid() && k <= pm.nPostings
  {
    if k == 0 then 0
    else TotalTf(pm, id, k - 1) + (if pm.curIDs[k - 1] == id then pm.curPosItem[k - 1].Tf() else 0)
  }

  /** The concatenated occurrences number exactly the summed term frequencies. */
  lemma {:induction false} MatchingOccurrencesLength(pm: PostMerge, id: nat, k: nat)
    requires pm.Valid() && k <= pm.nPostings
    ensures |MatchingOccurrences(pm, id, k)| == TotalTf(pm, id, k)
  {
    if k > 0 {
      MatchingOccurrencesLength(pm, id, k - 1);
    }
  }

  /** Taking more postings only extends the concatenation. */
  lemma {:induction false} MatchingOccurrencesPrefix(pm: PostMerge, id: nat, k: nat, m: nat)
    requires pm.Valid() && k <= m <= pm.nPostings
    ensures |MatchingOccurrences(pm, id, k)| <= |MatchingOccurrences(pm, id, m)|
    ensures MatchingOccurrences(pm, id, k) == MatchingOccurrences(pm, id, m)[..|MatchingOccurrences(pm, id, k)|]
    decreases m - k
  {
    if k < m {
      MatchingOccurrencesPrefix(pm, id, k, m - 1);
    }
  }

  /**
   * A position is captured exactly when it belongs to a posting whose
   * current id is the candidate: nothing from a non-matching posting leaks in.
   */
  lemma {:induction false} MatchingOccurrencesMembers(pm: PostMerge, id: nat, k: nat, p: Position)
    requires pm.Valid() && k <= pm.nPostings
    ensures p in MatchingOccurrences(pm, id, k) <==>
      exists i :: 0 <= i < k && pm.curIDs[i] == id && p in pm.curPosItem[i].positions
  {
    if k > 0 {
      MatchingOccurrencesMembers(pm, id, k - 1, p);
      var last := if pm.curIDs[k - 1] == id then pm.curPosItem[k - 1].positions else [];
      assert MatchingOccurrences(pm, id, k) == MatchingOccurrences(pm, id, k - 1) + last;
      if p in MatchingOccurrences(pm, id, k) && p !in MatchingOccurrences(pm, id, k - 1) {
        assert p in last;
        assert pm.curIDs[k - 1] == id && p in pm.curPosItem[k - 1].positions;
      }
    }
  }

  /** `memcpy` of the first `count` positions of `src` to `dst[at..]`. */
  method CopyPositions(dst: array<Position>, at: nat, src: seq<Position>, count: nat)
    requires count <= |src| && at + count <= dst.Length
    modifies dst
    ensures dst[..at + count] == old(dst[..at]) + src[..count]
    ensures dst[at + count..] == old(dst[at + count..])
  {
    forall t | 0 <= t < count {
      dst[at + t] := src[t];
    }
  }

  /**
   * `new_hit`: allocates a buffer of `nSaveOccurs` positions and copies into
   * it, posting by posting, the positions of the postings whose current id
   * is `docID`, stopping when the buffer is full. The buffer's first
   * min(nSaveOccurs, total) entries are the concatenation's first ones; any
   * entries past the total are left as allocated.
   */
  method NewHit(pm: PostMerge, docID: DocId, score: Score, nSaveOccurs: U32) returns (hit: RankHit)
    requires pm.Valid()
    ensures fresh(hit) && fresh(hit.occurs)
    ensures hit.docID == docID && hit.score == score && hit.nOccurs == nSaveOccurs
    ensures hit.occurs.Length == nSaveOccurs
    ensures var all := MatchingOccurrences(pm, docID, pm.nPostings);
      var n := Min(nSaveOccurs, |all|);
      hit.occurs[..n] == all[..n]
  {
    hit := new RankHit(docID, score, nSaveOccurs);
    var occurs := hit.occurs;
    var w: nat := 0;                    // how far the `occurs` pointer has advanced
    var remaining: nat := nSaveOccurs;  // `n_save_occurs` as it is decremented
    var i := 0;
    while i < pm.nPostings
      invariant i <= pm.nPostings
      invariant w + remaining == nSaveOccurs
      invariant w == |MatchingOccurrences(pm, docID, i)|
      invariant occurs[..w] == MatchingOccurrences(pm, docID, i)
    {
      if pm.curIDs[i] == docID {
        var pos := pm.curPosItem[i].positions;
        assert MatchingOccurrences(pm, docID, i + 1) == MatchingOccurrences(pm, docID, i) + pos;
        if remaining >= |pos| {
          CopyPositions(occurs, w, pos, |pos|);
          assert pos[..|pos|] == pos;
          w, remaining := w + |pos|, remaining - |pos|;
        } else {
          CopyPositions(occurs, w, pos, remaining);
          MatchingOccurrencesPrefix(pm, docID, i + 1, pm.nPostings);
          assert occurs[..] == MatchingOccurrences(pm, docID, i + 1)[..nSaveOccurs];
          break;
        }
      }
      i := i + 1;
    }
  }
}
