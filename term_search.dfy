/**
 * The query set-up of `test_term_search` and `main`: choosing one posting
 * and one set of cursor callbacks per query term, and reading the merge
 * mode from the `-o` argument. The term dictionary is a parameter.
 */
module TermSearch {
  import opened SearchTypes

  /** The term id `test_term_search` forks into an in-memory posting. */
  const ForkedTermId: nat := 1

  /** Which posting a merge slot iterates. */
  datatype PostingSource =
    | NullPosting            // term absent from the dictionary
    | ForkedPosting          // the cached copy of term `ForkedTermId`
    | DiskPosting(termId: nat)

  /** Which callback table drives the slot: none, `mem_calls` or `disk_calls`. */
  datatype Callbacks = NoCalls | MemCalls | DiskCalls

  /** One `postmerge_posts_add`: the posting, its callbacks, and the term's df. */
  datatype PostingSlot = PostingSlot(source: PostingSource, calls: Callbacks, df: nat)

  /**
   * The per-term loop of `test_term_search`: each term is looked up (id 0
   * means absent) and exactly one slot is added for it, in query order.
   * Also returns `bm25args.n_postings`, the loop counter at exit.
   */
  method SetupTermPostings(terms: seq<string>, lookup: string -> nat, dfOf: nat -> nat)
    returns (slots: seq<PostingSlot>, nPostings: nat)
    ensures nPostings == |terms| == |slots|
    ensures forall i :: 0 <= i < |terms| && lookup(terms[i]) == 0 ==>
      slots[i] == PostingSlot(NullPosting, NoCalls, 0)
    ensures forall i :: 0 <= i < |terms| && lookup(terms[i]) == ForkedTermId ==>
      slots[i] == PostingSlot(ForkedPosting, MemCalls, dfOf(ForkedTermId))
    ensures forall i :: 0 <= i < |terms| && lookup(terms[i]) != 0 && lookup(terms[i]) != ForkedTermId ==>
      slots[i] == PostingSlot(DiskPosting(lookup(terms[i])), DiskCalls, dfOf(lookup(terms[i])))
  {
    slots := [];
    var i := 0;
    while i < |terms|
      invariant i <= |terms| && |slots| == i
      invariant forall k :: 0 <= k < i ==> slots[k] == SlotFor(lookup(terms[k]), dfOf)
    {
      var termId := lookup(terms[i]);
      var source: PostingSource;
      var calls: Callbacks;
      var df: nat;
      if termId != 0 {
        df := dfOf(termId);
        if ForkedTermId == termId {
          source, calls := ForkedPosting, MemCalls;
        } else {
          source, calls := DiskPosting(termId), DiskCalls;
        }
      } else {
        source, calls, df := NullPosting, NoCalls, 0;
      }
      slots := slots + [PostingSlot(source, calls, df)];
      i := i + 1;
    }
    nPostings := i;
  }

  /** The slot the set-up loop adds for a term with id `termId`. */
  function SlotFor(termId: nat, dfOf: nat -> nat): (slot: PostingSlot)
  {
    if termId == 0 then PostingSlot(NullPosting, NoCalls, 0)
    else if termId == ForkedTermId then PostingSlot(ForkedPosting, MemCalls, dfOf(termId))
    else PostingSlot(DiskPosting(termId), DiskCalls, dfOf(termId))
  }

  /** The `-o` argument: "AND" and "OR" name their modes, anything else is undefined. */
  function ParseOp(arg: string): (op: MergeOp)
    ensures op == OpAnd <==> arg == "AND"
    ensures op == OpOr <==> arg == "OR"
    ensures op == OpUndef <==> arg != "AND" && arg != "OR"
  {
    if arg == "AND" then OpAnd
    else if arg == "OR" then OpOr
    else OpUndef
  }

  /**
   * The option loop of `main` restricted to `-o`: the mode starts as AND and
   * each `-o` argument, in command-line order, replaces it.
   */
  method MergeOpFromArgs(opArgs: seq<string>) returns (op: MergeOp)
    ensures opArgs == [] ==> op == OpAnd
    ensures opArgs != [] ==> op == ParseOp(opArgs[|opArgs| - 1])
  {
    op := OpAnd;
    var k := 0;
    while k < |opArgs|
      invariant k <= |opArgs|
      invariant k == 0 ==> op == OpAnd
      invariant k > 0 ==> op == ParseOp(opArgs[k - 1])
    {
      op := ParseOp(opArgs[k]);
      k := k + 1;
    }
  }
}
