/**
 * `term_posting_on_merge`, the callback the merge engine invokes once per
 * candidate document: it totals the matching term frequencies, decides
 * admission into the ranked set and builds the hit. The BM25 and proximity
 * arithmetic is not modelled; the total score arrives as a parameter.
 */
module MergeCallback {
  import opened SearchTypes
  import opened RankedResults
  import opened Occurrences

  /** Wrapping never grows a count, and leaves one below 2^32 alone. */
  lemma Mod32Bounds(x: nat)
    ensures x % Pow32 <= x
    ensures x < Pow32 ==> x % Pow32 == x
  {
  }

  /** Accumulating into a wrapping 32-bit counter wraps the true sum. */
  lemma AddMod32(a: nat, b: nat)
    ensures (a % Pow32 + b) % Pow32 == (a + b) % Pow32
  {
  }

  /**
   * The counting loop of `term_posting_on_merge`: `n_tot_occurs` summed
   * over the postings whose current id is `curMin`, in a `uint32_t`.
   */
  method SumMatchingTf(curMin: U64, pm: PostMerge) returns (nTotOccurs: U32)
    requires pm.Valid()
    ensures nTotOccurs == TotalTf(pm, curMin, pm.nPostings) % Pow32
  {
    nTotOccurs := 0;
    var i := 0;
    while i < pm.nPostings
      invariant i <= pm.nPostings
      invariant nTotOccurs == TotalTf(pm, curMin, i) % Pow32
    {
      if pm.curIDs[i] == curMin {
        AddMod32(TotalTf(pm, curMin, i), pm.curPosItem[i].Tf());
        nTotOccurs := (nTotOccurs + pm.curPosItem[i].Tf()) % Pow32;
      }
      i := i + 1;
    }
  }

  /**
   * One merge event for candidate `curMin` with total score `totScore`.
   * Returns the wrapped occurrence total and the hit it built, or null when
   * the ranked set was full and the score did not beat its minimum.
   */
  method TermPostingOnMerge(curMin: U64, pm: PostMerge, totScore: Score, rk: RankQueue,
                            maxHighlightOccurs: U32)
    returns (nTotOccurs: U32, hit: RankHit?)
    requires pm.Valid() && rk.Valid()
    modifies rk
    ensures rk.Valid()
    // the total is the sum of tf over exactly the postings sitting on cur_min, as a uint32_t
    ensures nTotOccurs == TotalTf(pm, curMin, pm.nPostings) % Pow32
    // admission rule
    ensures hit != null <==> !old(rk.Full()) || totScore > old(rk.MinScore())
    ensures hit == null ==> rk.hits == old(rk.hits)
    ensures hit != null ==> !old(rk.Full()) ==> rk.hits == old(rk.hits) + [hit]
    ensures hit != null ==> old(rk.Full()) ==>
      exists k :: 0 <= k < |old(rk.hits)| && old(rk.hits)[k].score == old(rk.MinScore())
                  && rk.hits == old(rk.hits)[k := hit]
    ensures rk.seen == old(rk.seen) + [totScore]
    // the hit: narrowed id, score, and a capped occurrence count
    ensures hit != null ==> fresh(hit) && hit.docID == curMin % Pow32 && hit.score == totScore
    ensures hit != null ==> hit.nOccurs == Min(maxHighlightOccurs, nTotOccurs) <= maxHighlightOccurs
    ensures hit != null ==> fresh(hit.occurs) && hit.occurs.Length == hit.nOccurs
    ensures hit != null && TotalTf(pm, curMin, pm.nPostings) < Pow32 ==>
      hit.nOccurs == Min(maxHighlightOccurs, TotalTf(pm, curMin, pm.nPostings))
    // for an id of the document-id domain the buffer is filled completely
    ensures hit != null && curMin < Pow32 ==>
      && hit.nOccurs <= |MatchingOccurrences(pm, curMin, pm.nPostings)|
      && hit.occurs[..] == MatchingOccurrences(pm, curMin, pm.nPostings)[..hit.nOccurs]
  {
    var docID: DocId := curMin % Pow32;  // `doc_id_t docID = cur_min`
    nTotOccurs := SumMatchingTf(curMin, pm);
    ghost var total := TotalTf(pm, curMin, pm.nPostings);
    Mod32Bounds(total);

    if !rk.Full() || totScore > rk.MinScore() {
      var nSave: U32 := Min(maxHighlightOccurs, nTotOccurs);
      hit := NewHit(pm, docID, totScore, nSave);
      if curMin < Pow32 {
        ghost var all := MatchingOccurrences(pm, curMin, pm.nPostings);
        MatchingOccurrencesLength(pm, curMin, pm.nPostings);
        assert docID == curMin;
        assert nSave <= |all|;
        assert hit.occurs[..] == all[..nSave];
      }
      rk.AddOrReplace(hit);
    } else {
      hit := null;
      rk.NoteRefused(totScore);
    }
  }
}
