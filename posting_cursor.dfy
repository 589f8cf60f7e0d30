/**
 * The on-disk term posting cursor seen through the callbacks the driver
 * registers for it: the current-id widening and the guarded jump.
 */
module PostingCursor {
  import opened SearchTypes

  /**
   * A disk posting list reduced to what the callbacks observe: its items,
   * in strictly increasing document-id order, and the index of the current
   * one. `cur == |items|` means the cursor is exhausted.
   */
  datatype TermPosting = TermPosting(items: seq<PostingItem>, cur: nat)
  {
    ghost predicate Valid()
    {
      && cur <= |items|
      && forall i, j :: 0 <= i < j < |items| ==> items[i].docId < items[j].docId
    }

    predicate Exhausted() { cur >= |items| }
  }

  /** What a jump reports, and the cursor it leaves behind. */
  datatype JumpResult = JumpResult(ok: bool, posting: TermPosting)

  /**
   * `term_posting_jump`: moves forward to the first item whose id is at
   * least `target`; reports false, exhausted, when there is none.
   */
  function Jump(p: TermPosting, target: DocId): (r: JumpResult)
    requires p.Valid()
    ensures r.posting.Valid() && r.posting.items == p.items
    ensures p.cur <= r.posting.cur <= |p.items|
    ensures r.ok <==> r.posting.cur < |p.items|
    ensures r.ok ==> p.items[r.posting.cur].docId >= target
    ensures forall k :: p.cur <= k < r.posting.cur ==> p.items[k].docId < target
    decreases |p.items| - p.cur
  {
    if p.cur == |p.items| then JumpResult(false, p)
    else if p.items[p.cur].docId >= target then JumpResult(true, p)
    else Jump(p.(cur := p.cur + 1), target)
  }

  /**
   * `term_posting_jump_wrap`: a 64-bit target at or above UINT_MAX is
   * refused before it is narrowed, without touching the cursor; any other
   * target is handed on unchanged.
   */
  function JumpWrap(p: TermPosting, toId: U64): (r: JumpResult)
    requires p.Valid()
    ensures toId >= UintMax ==> !r.ok && r.posting == p
    ensures toId < UintMax ==> r == Jump(p, toId)
  {
    if toId >= UintMax then JumpResult(false, p)
    else Jump(p, toId as DocId)
  }

  /**
   * `term_posting_cur_item_wrap`: the item under the cursor (undefined when
   * exhausted); its id exceeds every id before it and is below every id after.
   */
  function CurItem(p: TermPosting): (item: PostingItem)
    requires p.Valid() && !p.Exhausted()
    ensures item == p.items[p.cur]
    ensures forall k :: 0 <= k < p.cur ==> p.items[k].docId < item.docId
    ensures forall k :: p.cur < k < |p.items| ==> item.docId < p.items[k].docId
  {
    p.items[p.cur]
  }

  /** `term_posting_cur_item_id_wrap`: widens the item's 32-bit id to 64 bits. */
  function CurItemIdWrap(item: PostingItem): (id: U64)
    ensures id as int == item.docId
    ensures id <= UintMax
  {
    item.docId as U64
  }

  /**
   * The widening loses nothing: the 64-bit id is the document id, below
   * 2^32, and a jump to it through the guard is exactly the underlying jump
   * to that id, unless the id is UINT_MAX itself, which the guard refuses.
   */
  lemma CurIdThenJumpWrap(p: TermPosting, item: PostingItem)
    requires p.Valid()
    ensures CurItemIdWrap(item) as int == item.docId < Pow32
    ensures item.docId < UintMax ==> JumpWrap(p, CurItemIdWrap(item)) == Jump(p, item.docId)
    ensures item.docId == UintMax ==> JumpWrap(p, CurItemIdWrap(item)) == JumpResult(false, p)
  {
  }

  /**
   * `k` is the first index at or after `from` whose item's id reaches
   * `target`: every item in between is below it.
   */
  ghost predicate IsFirstAtLeast(items: seq<PostingItem>, from: nat, target: DocId, k: nat)
  {
    && from <= k < |items|
    && items[k].docId >= target
    && forall i :: from <= i < k ==> items[i].docId < target
  }

  /** There is at most one first index reaching the target. */
  lemma FirstAtLeastUnique(items: seq<PostingItem>, from: nat, target: DocId, k1: nat, k2: nat)
    requires IsFirstAtLeast(items, from, target, k1)
    requires IsFirstAtLeast(items, from, target, k2)
    ensures k1 == k2
  {
  }

  /**
   * A jump succeeds iff some item at or after the cursor reaches the target,
   * and a successful one lands on the first such item and on no other index.
   */
  lemma JumpFindsFirst(p: TermPosting, target: DocId)
    requires p.Valid()
    ensures var r := Jump(p, target);
      && (r.ok <==> exists k :: p.cur <= k < |p.items| && p.items[k].docId >= target)
      && (r.ok ==> forall k :: IsFirstAtLeast(p.items, p.cur, target, k) <==> k == r.posting.cur)
  {
    var r := Jump(p, target);
    if r.ok {
      assert IsFirstAtLeast(p.items, p.cur, target, r.posting.cur);
      forall k | IsFirstAtLeast(p.items, p.cur, target, k)
        ensures k == r.posting.cur
      {
        FirstAtLeastUnique(p.items, p.cur, target, k, r.posting.cur);
      }
    }
  }

  /**
   * Jumping to the id the cursor already sits on, or to any smaller id,
   * leaves the cursor where it is.
   */
  lemma JumpToCurrentIsNoOp(p: TermPosting, target: DocId)
    requires p.Valid() && !p.Exhausted()
    requires target <= CurItem(p).docId
    ensures Jump(p, target) == JumpResult(true, p)
  {
  }

  /**
   * Jumping is monotone: after a successful jump every id at or past the
   * new position is at least the target, since ids strictly increase.
   */
  lemma JumpSkipsOnlySmallerIds(p: TermPosting, target: DocId)
    requires p.Valid()
    ensures var r := Jump(p, target);
      forall k :: r.posting.cur <= k < |p.items| ==> p.items[k].docId >= target
  {
  }
}
