/**
 * The highlighter that `print_res_item` drives through the lexer: a cursor
 * into the hit's sorted occurrence array that is compared with the index of
 * each segment the tokenizer produces, printing the segments that match.
 * Segments are seen only through their index; printing a segment is
 * reported as a returned flag.
 */
module Highlighter {
  import opened SearchTypes
  import PositionSort

  /** The fields of `struct highlighter_arg` that `add_highlight_seg` changes. */
  datatype HiState = HiState(now: nat, lexPos: U32)

  /**
   * One call of `add_highlight_seg` against occurrence array `pos`
   * (`pos_arr[0..pos_arr_sz)`): the next state, and whether the segment is
   * printed as a highlight.
   */
  function Step(pos: seq<Position>, st: HiState): (r: (HiState, bool))
    requires st.now <= |pos|
  {
    if st.now == |pos| then (st, false)
    else if st.lexPos == pos[st.now] then (HiState(st.now + 1, Inc32(st.lexPos)), true)
    else (HiState(st.now, Inc32(st.lexPos)), false)
  }

  /** Trace of a run: the final state and the indices of the printed segments. */
  datatype Trace = Trace(state: HiState, printed: seq<nat>)

  /** Feeding `t` segments, numbered from `first`, starting from `st`. */
  function RunFrom(pos: seq<Position>, st: HiState, first: nat, t: nat): (r: Trace)
    requires st.now <= |pos|
    ensures r.state.now <= |pos|
    decreases t
  {
    if t == 0 then Trace(st, [])
    else
      var prev := RunFrom(pos, st, first, t - 1);
      var next := Step(pos, prev.state);
      Trace(next.0, prev.printed + (if next.1 then [first + t - 1] else []))
  }

  /** Feeding the first `t` segments of a document after the reset of `print_res_item`. */
  function Run(pos: seq<Position>, t: nat): (r: Trace)
  {
    RunFrom(pos, HiState(0, 0), 0, t)
  }

  ghost predicate StrictlyIncreasing(s: seq<Position>)
  {
    forall i, j :: 0 <= i < j < |s| ==> s[i] < s[j]
  }

  /** No position occurs twice. */
  ghost predicate NoRepeats(s: seq<Position>)
  {
    forall x :: multiset(s)[x] <= 1
  }

  /** Sorted occurrences without repeats are strictly increasing. */
  lemma SortedWithoutRepeatsIncreasing(s: seq<Position>)
    requires PositionSort.Sorted(s) && NoRepeats(s)
    ensures StrictlyIncreasing(s)
  {
    forall i, j | 0 <= i < j < |s|
      ensures s[i] < s[j]
    {
      if s[i] == s[j] {
        RepeatCounted(s, i, j);
      }
    }
  }

  /** Two equal entries make their value occur at least twice. */
  lemma RepeatCounted(s: seq<Position>, i: nat, j: nat)
    requires i < j < |s| && s[i] == s[j]
    ensures multiset(s)[s[i]] >= 2
  {
    assert s == s[..j] + s[j..];
    assert s[..j][i] == s[i] && s[j..][0] == s[j];
  }

  /** The index of the first position at or after `k` that is not below `t`. */
  function FirstNotBelow(pos: seq<Position>, t: nat, k: nat): (c: nat)
    requires k <= |pos|
    ensures k <= c <= |pos|
    ensures forall i :: k <= i < c ==> pos[i] < t
    ensures c < |pos| ==> pos[c] >= t
    decreases |pos| - k
  {
    if k == |pos| || pos[k] >= t then k else FirstNotBelow(pos, t, k + 1)
  }

  /** The number of leading positions below `t`. */
  function CountBelow(pos: seq<Position>, t: nat): (c: nat)
    ensures c <= |pos|
    ensures forall k :: 0 <= k < c ==> pos[k] < t
    ensures c < |pos| ==> pos[c] >= t
  {
    FirstNotBelow(pos, t, 0)
  }

  lemma {:induction false} FirstNotBelowUnique(pos: seq<Position>, t: nat, k: nat, c: nat)
    requires k <= c <= |pos|
    requires forall i :: k <= i < c ==> pos[i] < t
    requires c < |pos| ==> pos[c] >= t
    ensures FirstNotBelow(pos, t, k) == c
    decreases c - k
  {
    if k < c {
      FirstNotBelowUnique(pos, t, k + 1, c);
    }
  }

  lemma CountBelowUnique(pos: seq<Position>, t: nat, c: nat)
    requires c <= |pos|
    requires forall k :: 0 <= k < c ==> pos[k] < t
    requires c < |pos| ==> pos[c] >= t
    ensures CountBelow(pos, t) == c
  {
    FirstNotBelowUnique(pos, t, 0, c);
  }

  /**
   * One segment, in a state that has passed exactly the occurrences below
   * `t` and sits at lexical position `t`: the segment is printed exactly when
   * `t` is the next occurrence, and the state then has passed exactly the
   * occurrences below `t + 1`.
   */
  lemma StepInvariant(pos: seq<Position>, t: nat, st: HiState)
    requires StrictlyIncreasing(pos) && t + 1 < Pow32
    requires st.now == CountBelow(pos, t)
    requires st.now < |pos| ==> st.lexPos == t
    ensures Step(pos, st).1 <==> st.now < |pos| && pos[st.now] == t
    ensures Step(pos, st).0.now == CountBelow(pos, t + 1)
    ensures Step(pos, st).0.now < |pos| ==> Step(pos, st).0.lexPos == t + 1
  {
    var c := st.now;
    if c == |pos| {
      CountBelowUnique(pos, t + 1, c);
    } else if pos[c] == t {
      assert c + 1 < |pos| ==> pos[c + 1] > pos[c];
      CountBelowUnique(pos, t + 1, c + 1);
    } else {
      CountBelowUnique(pos, t + 1, c);
    }
  }

  /**
   * After `t` segments from the reset state, over strictly increasing
   * occurrences: the printed segments are exactly the occurrences below `t`,
   * in order, the cursor has passed exactly those, and while it has not
   * reached the end the lexical position is `t`.
   */
  lemma {:induction false} RunInvariant(pos: seq<Position>, t: nat)
    requires StrictlyIncreasing(pos) && t < Pow32
    ensures Run(pos, t).state.now == CountBelow(pos, t)
    ensures Run(pos, t).printed == pos[..CountBelow(pos, t)]
    ensures Run(pos, t).state.now < |pos| ==> Run(pos, t).state.lexPos == t
  {
    if t > 0 {
      RunInvariant(pos, t - 1);
      var prev := Run(pos, t - 1);
      var step := Step(pos, prev.state);
      assert Run(pos, t) == Trace(step.0, prev.printed + (if step.1 then [t - 1] else []));
      StepInvariant(pos, t - 1, prev.state);
      var c := prev.state.now;
      if step.1 {
        assert pos[c] == t - 1 && step.0.now == c + 1;
        calc {
          Run(pos, t).printed;
          pos[..c] + [pos[c]];
          pos[..c + 1];
        }
      } else {
        assert step.0.now == c;
        assert Run(pos, t).printed == pos[..c];
      }
    }
  }

  /**
   * The highlighter's meaning: over strictly increasing occurrences, of the
   * first `t` segments exactly those whose index is an occurrence are
   * printed, in increasing order.
   */
  lemma HighlightsExactlyOccurrences(pos: seq<Position>, t: nat)
    requires StrictlyIncreasing(pos) && t < Pow32
    ensures forall s :: s in Run(pos, t).printed <==> s in pos && s < t
    ensures forall i, j :: 0 <= i < j < |Run(pos, t).printed| ==> Run(pos, t).printed[i] < Run(pos, t).printed[j]
  {
    RunInvariant(pos, t);
    var c := CountBelow(pos, t);
    forall s | s in pos && s < t
      ensures s in pos[..c]
    {
      var k :| 0 <= k < |pos| && pos[k] == s;
    }
  }

  /**
   * With a repeated occurrence the cursor stops advancing: occurrences
   * [0, 0, 1] over three segments print segment 0 only, although segment 1
   * is an occurrence too, and the cursor stays on the repeated entry.
   */
  lemma RepeatedOccurrenceStalls()
    ensures Run([0, 0, 1], 3).printed == [0]
    ensures Run([0, 0, 1], 3).state.now == 1
  {
    var pos: seq<Position> := [0, 0, 1];
    assert Run(pos, 1) == Trace(HiState(1, 1), [0]);
    assert Run(pos, 2) == Trace(HiState(1, 2), [0]);
    assert Run(pos, 3) == Trace(HiState(1, 3), [0]);
  }

  /** `struct highlighter_arg`, the state shared between the lexer callbacks. */
  class HighlighterArg {
    var posArr: array<Position>
    var posArrNow: nat
    var posArrSz: U32
    var curLexPos: U32

    ghost predicate Valid()
      reads this
    {
      posArrNow <= posArrSz <= posArr.Length
    }

    /** The occurrence array the highlighter walks. */
    ghost function Occurrences(): seq<Position>
      reads this, posArr
      requires Valid()
    {
      posArr[..posArrSz]
    }

    ghost function State(): HiState
      reads this
    {
      HiState(posArrNow, curLexPos)
    }

    constructor (occurs: array<Position>)
      ensures Valid() && posArr == occurs && State() == HiState(0, 0) && posArrSz == 0
    {
      posArr := occurs;
      posArrNow, posArrSz, curLexPos := 0, 0, 0;
    }

    /** The reset before each result is highlighted: point at the hit's occurrences. */
    method Prepare(occurs: array<Position>, nOccurs: U32)
      requires nOccurs <= occurs.Length
      modifies this
      ensures Valid() && posArr == occurs && posArrSz == nOccurs
      ensures posArrNow == 0 && curLexPos == 0
    {
      posArr := occurs;
      posArrNow := 0;
      posArrSz := nOccurs;
      curLexPos := 0;
    }

    /**
     * `add_highlight_seg`: once every occurrence has been matched nothing
     * changes; otherwise the lexical position advances by one, and the
     * occurrence cursor with it exactly when the segment's index is the
     * current occurrence, in which case the segment is printed.
     */
    method AddHighlightSeg() returns (printed: bool)
      requires Valid()
      modifies this
      ensures Valid() && posArr == old(posArr) && posArrSz == old(posArrSz)
      ensures old(posArrNow) == posArrSz ==> !printed && State() == old(State())
      ensures old(posArrNow) < posArrSz ==>
        && curLexPos == Inc32(old(curLexPos))
        && printed == (old(curLexPos) == posArr[old(posArrNow)])
        && posArrNow == old(posArrNow) + (if printed then 1 else 0)
      ensures (State(), printed) == Step(Occurrences(), old(State()))
    {
      printed := false;
      if posArrNow == posArrSz {
        return;
      } else if curLexPos == posArr[posArrNow] {
        printed := true;
        posArrNow := posArrNow + 1;
      }
      curLexPos := Inc32(curLexPos);
    }

    /**
     * The lexer's side of the protocol, reduced to a segment count: each of
     * `nSegs` segments is handed to `AddHighlightSeg` in order. The indices
     * of the printed segments are those the specification `RunFrom` gives.
     */
    method FeedSegments(nSegs: nat) returns (printed: seq<nat>)
      requires Valid()
      modifies this
      ensures Valid() && posArr == old(posArr) && posArrSz == old(posArrSz)
      ensures Trace(State(), printed) == RunFrom(Occurrences(), old(State()), 0, nSegs)
    {
      printed := [];
      var t := 0;
      while t < nSegs
        invariant t <= nSegs
        invariant Valid() && posArr == old(posArr) && posArrSz == old(posArrSz)
        invariant Trace(State(), printed) == RunFrom(Occurrences(), old(State()), 0, t)
      {
        var hit := AddHighlightSeg();
        if hit {
          printed := printed + [t];
        }
        t := t + 1;
      }
    }
  }

  /**
   * The highlighting half of `print_res_item`: the hit's occurrences are
   * sorted in place, the highlighter is reset onto them, and the lexer
   * hands it the document's `nSegs` segments. The printed segments are the
   * run over the sorted occurrences; when the hit has no repeated
   * occurrence, they are exactly the segments whose index is one of the
   * hit's occurrences, in increasing order.
   */
  method HighlightResult(hi: HighlighterArg, occurs: array<Position>, nOccurs: U32, nSegs: nat)
    returns (printed: seq<nat>)
    requires nOccurs <= occurs.Length
    modifies hi, occurs
    ensures PositionSort.Sorted(occurs[..nOccurs])
    ensures multiset(occurs[..nOccurs]) == multiset(old(occurs[..nOccurs]))
    ensures occurs[nOccurs..] == old(occurs[nOccurs..])
    ensures hi.Valid() && hi.posArr == occurs && hi.Occurrences() == occurs[..nOccurs]
    ensures Trace(hi.State(), printed) == Run(occurs[..nOccurs], nSegs)
    ensures NoRepeats(old(occurs[..nOccurs])) && nSegs < Pow32 ==>
      && (forall s :: s in printed <==> s in old(occurs[..nOccurs]) && s < nSegs)
      && (forall i, j :: 0 <= i < j < |printed| ==> printed[i] < printed[j])
  {
    ghost var before := occurs[..nOccurs];
    PositionSort.BubbleSort(occurs, nOccurs);
    hi.Prepare(occurs, nOccurs);
    printed := hi.FeedSegments(nSegs);
    ghost var pos := occurs[..nOccurs];
    assert hi.Occurrences() == pos;
    if NoRepeats(before) && nSegs < Pow32 {
      assert multiset(pos) == multiset(before);
      SortedWithoutRepeatsIncreasing(pos);
      HighlightsExactlyOccurrences(pos, nSegs);
      forall s ensures s in pos <==> s in before {
        assert s in pos <==> s in multiset(pos);
        assert s in before <==> s in multiset(before);
      }
    }
  }
}
