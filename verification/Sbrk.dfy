/**
 The break allocator behind the C library's heap: one pointer, set to the end of the
 static data on the first call, that moves up until the reserved stack begins.
 */
module Sbrk {
  import opened Bits

  datatype Outcome = Granted(start: Word) | OutOfMemory

  /** `ptrdiff_t`. */
  type Increment = i: int | -0x8000_0000 <= i < 0x8000_0000

  /** The address `_end` and the address below which the heap must stay. */
  datatype Layout = Layout(end: Word, limit: Word)

  /** Pointer arithmetic on a 32-bit address. */
  function Moved(p: Word, incr: Increment): (m: Word)
    ensures m == (p + incr) % 0x1_0000_0000
  {
    var q: int := p + incr;
    if q < 0 then q + 0x1_0000_0000 else if q >= 0x1_0000_0000 then q - 0x1_0000_0000 else q
  }

  /** The break that a value of `__sbrk_heap_end` stands for; null means not yet initialised. */
  function BreakOf(l: Layout, heapEnd: Word): Word {
    if heapEnd == 0 then l.end else heapEnd
  }

  class Heap {
    /** The linker symbols `_end`, `_estack` and `_Min_Stack_Size`. */
    const end: Word
    const estack: Word
    const minStackSize: Word
    /** `__sbrk_heap_end`. */
    var heapEnd: Word

    constructor (end: Word, estack: Word, minStackSize: Word)
      ensures this.end == end && this.estack == estack && this.minStackSize == minStackSize && heapEnd == 0
    {
      this.end := end;
      this.estack := estack;
      this.minStackSize := minStackSize;
      heapEnd := 0;
    }

    function Map(): Layout {
      Layout(end, Sub(estack, minStackSize))
    }

    /**
     `_sbrk`. A request from a break between the static data and the reserved stack that
     takes back no more than there is gets the block at the break exactly when the block
     ends below the reserved stack.
     */
    method Sbrk(incr: Increment) returns (r: Outcome)
      modifies this
      ensures heapEnd == HeapEndAfter(Map(), old(heapEnd), incr)
      ensures r == Answer(Map(), old(heapEnd), incr)
      ensures var brk := if old(heapEnd) == 0 then end else old(heapEnd);
        end <= brk && brk + minStackSize <= estack <= 0x8000_0000 + minStackSize && brk + incr >= end ==>
          && r == (if brk + incr <= estack - minStackSize then Granted(brk) else OutOfMemory)
          && heapEnd == (if brk + incr <= estack - minStackSize then brk + incr else brk)
          && end <= heapEnd && heapEnd + minStackSize <= estack
    {
      if heapEnd == 0 {
        heapEnd := end;
      }
      if Moved(heapEnd, incr) > Sub(estack, minStackSize) {
        return OutOfMemory;
      }
      var prevHeapEnd := heapEnd;
      heapEnd := Moved(heapEnd, incr);
      return Granted(prevHeapEnd);
    }

    /** Any run of requests from reset. */
    method Serve(requests: seq<Increment>) returns (answers: seq<Outcome>)
      requires heapEnd == 0
      modifies this
      ensures heapEnd == HeapEnd(Map(), requests) && Answered(Map(), requests, answers)
    {
      answers := [];
      var i := 0;
      while i < |requests|
        invariant |answers| == i <= |requests|
        invariant heapEnd == HeapEnd(Map(), requests[..i]) && Answered(Map(), requests[..i], answers)
      {
        var r := Sbrk(requests[i]);
        AnsweredOneMore(Map(), requests, answers, r);
        answers := answers + [r];
        i := i + 1;
        assert requests[..i][..i - 1] == requests[..i - 1];
      }
      assert requests[..i] == requests;
    }

    /**
     If no request of a run takes back more than was granted before it, each is granted,
     where the blocks granted before it end, exactly when it fits below the reserved stack,
     and the break never passes into it.
     */
    method ServeBelowStack(requests: seq<Increment>) returns (answers: seq<Outcome>)
      requires 0 < end && end + minStackSize <= estack <= 0x8000_0000 + minStackSize && heapEnd == 0
      modifies this
      ensures |answers| == |requests|
      ensures GivesBackWhatItGot(requests, answers) ==>
        (forall i :: 0 <= i < |requests| ==>
           var brk := end + Taken(requests[..i], answers[..i]);
           && end <= brk <= estack - minStackSize
           && answers[i] == if brk + requests[i] <= estack - minStackSize then Granted(brk) else OutOfMemory)
      ensures GivesBackWhatItGot(requests, answers) && requests != [] ==>
        && end <= heapEnd == end + Taken(requests, answers)
        && heapEnd + minStackSize <= estack
      ensures Growing(requests) ==> GivesBackWhatItGot(requests, answers)
    {
      answers := Serve(requests);
      if Growing(requests) {
        GrowingGivesBack(requests, answers);
      }
      if GivesBackWhatItGot(requests, answers) {
        AnsweredByRoom(Map(), requests, answers);
      }
    }
  }

  /** The sum of the requests that were granted. */
  function Taken(requests: seq<Increment>, answers: seq<Outcome>): int
    requires |requests| == |answers|
  {
    if requests == [] then 0
    else
      var n := |requests| - 1;
      Taken(requests[..n], answers[..n]) + if answers[n].Granted? then requests[n] else 0
  }

  /** No request takes back more than was granted before it. */
  ghost predicate GivesBackWhatItGot(requests: seq<Increment>, answers: seq<Outcome>)
    requires |requests| == |answers|
  {
    forall i {:trigger requests[i]} :: 0 <= i < |requests| ==> requests[i] + Taken(requests[..i], answers[..i]) >= 0
  }

  predicate Accepts(l: Layout, heapEnd: Word, incr: Increment) {
    Moved(BreakOf(l, heapEnd), incr) <= l.limit
  }

  function HeapEndAfter(l: Layout, heapEnd: Word, incr: Increment): Word {
    if Accepts(l, heapEnd, incr) then Moved(BreakOf(l, heapEnd), incr) else BreakOf(l, heapEnd)
  }

  function Answer(l: Layout, heapEnd: Word, incr: Increment): Outcome {
    if Accepts(l, heapEnd, incr) then Granted(BreakOf(l, heapEnd)) else OutOfMemory
  }

  // ---------------------------------------------------------------- runs

  /** `__sbrk_heap_end` after a run of requests from reset. */
  function HeapEnd(l: Layout, requests: seq<Increment>): Word {
    if requests == [] then 0
    else
      var n := |requests| - 1;
      HeapEndAfter(l, HeapEnd(l, requests[..n]), requests[n])
  }

  function BreakAfter(l: Layout, requests: seq<Increment>): Word {
    BreakOf(l, HeapEnd(l, requests))
  }

  /** What request `i` of a run is answered with. */
  function AnswerTo(l: Layout, requests: seq<Increment>, i: nat): Outcome
    requires i < |requests|
  {
    Answer(l, HeapEnd(l, requests[..i]), requests[i])
  }

  /** The sum of the increments granted in a run. */
  function GrantedSum(l: Layout, requests: seq<Increment>): int {
    if requests == [] then 0
    else
      var n := |requests| - 1;
      GrantedSum(l, requests[..n]) + if AnswerTo(l, requests, n).Granted? then requests[n] else 0
  }

  /** No request takes back more than has been granted before it. */
  ghost predicate Disciplined(l: Layout, requests: seq<Increment>) {
    forall i {:trigger requests[i]} :: 0 <= i < |requests| ==> requests[i] + GrantedSum(l, requests[..i]) >= 0
  }

  /** The heap starts below its limit, and the limit lies in the lower half of the address space. */
  predicate Sound(l: Layout) {
    0 < l.end <= l.limit <= 0x8000_0000
  }

  lemma {:induction false} DisciplinedPrefix(l: Layout, requests: seq<Increment>, n: nat)
    requires Disciplined(l, requests) && n <= |requests|
    ensures Disciplined(l, requests[..n])
  {
    var earlier := requests[..n];
    forall i | 0 <= i < n ensures earlier[i] + GrantedSum(l, earlier[..i]) >= 0 {
      assert earlier[..i] == requests[..i];
      assert requests[i] + GrantedSum(l, requests[..i]) >= 0;
    }
  }

  /** One request, at the break `l.end + granted`, that takes back no more than was granted. */
  lemma {:induction false} BreakStep(l: Layout, heapEnd: Word, granted: nat, incr: Increment)
    requires Sound(l) && BreakOf(l, heapEnd) == l.end + granted <= l.limit && incr + granted >= 0
    ensures var b := BreakOf(l, HeapEndAfter(l, heapEnd, incr));
      var total := granted + if Answer(l, heapEnd, incr).Granted? then incr else 0;
      b == HeapEndAfter(l, heapEnd, incr) == l.end + total <= l.limit
    ensures Answer(l, heapEnd, incr)
         == if l.end + granted + incr <= l.limit then Granted(l.end + granted) else OutOfMemory
  {
  }

  /** The break is the start of the heap plus everything granted, and never passes the limit. */
  lemma {:induction false} BreakIsSum(l: Layout, requests: seq<Increment>)
    requires Sound(l) && Disciplined(l, requests)
    ensures BreakAfter(l, requests) == l.end + GrantedSum(l, requests) <= l.limit
    ensures GrantedSum(l, requests) >= 0
  {
    if requests != [] {
      var n := |requests| - 1;
      var earlier := requests[..n];
      DisciplinedPrefix(l, requests, n);
      BreakIsSum(l, earlier);
      assert requests[n] + GrantedSum(l, earlier) >= 0;
      BreakStep(l, HeapEnd(l, earlier), GrantedSum(l, earlier), requests[n]);
    }
  }

  /** A request fails exactly when it does not fit, and a granted block starts where the granted ones end. */
  lemma {:induction false} AnswersDecided(l: Layout, requests: seq<Increment>, i: nat)
    requires Sound(l) && Disciplined(l, requests) && i < |requests|
    ensures l.end <= l.end + GrantedSum(l, requests[..i]) <= l.limit
    ensures AnswerTo(l, requests, i)
         == if l.end + GrantedSum(l, requests[..i]) + requests[i] <= l.limit
            then Granted(l.end + GrantedSum(l, requests[..i])) else OutOfMemory
  {
    var earlier := requests[..i];
    DisciplinedPrefix(l, requests, i);
    BreakIsSum(l, earlier);
    assert requests[i] + GrantedSum(l, earlier) >= 0;
    BreakStep(l, HeapEnd(l, earlier), GrantedSum(l, earlier), requests[i]);
  }

  // ---------------------------------------------------------------- what the object answers

  ghost predicate Answered(l: Layout, requests: seq<Increment>, answers: seq<Outcome>) {
    |answers| == |requests| && forall i :: 0 <= i < |requests| ==> answers[i] == AnswerTo(l, requests, i)
  }

  lemma {:induction false} AnsweredOneMore(l: Layout, requests: seq<Increment>, answers: seq<Outcome>, r: Outcome)
    requires |answers| < |requests| && Answered(l, requests[..|answers|], answers)
    requires r == Answer(l, HeapEnd(l, requests[..|answers|]), requests[|answers|])
    ensures Answered(l, requests[..|answers| + 1], answers + [r])
  {
    var n := |answers|;
    var earlier, longer, more := requests[..n], requests[..n + 1], answers + [r];
    forall i | 0 <= i < n + 1 ensures more[i] == AnswerTo(l, longer, i) {
      assert longer[..i] == requests[..i];
      if i < n {
        assert earlier[..i] == requests[..i];
        assert answers[i] == AnswerTo(l, earlier, i);
      }
    }
  }

  lemma {:induction false} AnsweredPrefix(l: Layout, requests: seq<Increment>, answers: seq<Outcome>, n: nat)
    requires Answered(l, requests, answers) && n <= |requests|
    ensures Answered(l, requests[..n], answers[..n])
  {
    forall i | 0 <= i < n ensures answers[..n][i] == AnswerTo(l, requests[..n], i) {
      assert requests[..n][..i] == requests[..i];
      assert answers[i] == AnswerTo(l, requests, i);
    }
  }

  /** What is counted from the answers is what the run grants. */
  lemma {:induction false} TakenIsGranted(l: Layout, requests: seq<Increment>, answers: seq<Outcome>)
    requires Answered(l, requests, answers)
    ensures Taken(requests, answers) == GrantedSum(l, requests)
  {
    if requests != [] {
      var n := |requests| - 1;
      AnsweredPrefix(l, requests, answers, n);
      TakenIsGranted(l, requests[..n], answers[..n]);
      assert answers[n] == AnswerTo(l, requests, n);
    }
  }

  /** Every prefix of the answers counts what its run grants, so the run is disciplined. */
  lemma {:induction false} GivingBackIsDisciplined(l: Layout, requests: seq<Increment>, answers: seq<Outcome>)
    requires Answered(l, requests, answers) && GivesBackWhatItGot(requests, answers)
    ensures Disciplined(l, requests)
  {
    forall i | 0 <= i < |requests| ensures requests[i] + GrantedSum(l, requests[..i]) >= 0 {
      AnsweredPrefix(l, requests, answers, i);
      TakenIsGranted(l, requests[..i], answers[..i]);
      assert requests[i] + Taken(requests[..i], answers[..i]) >= 0;
    }
  }

  lemma {:induction false} AnsweredByRoom(l: Layout, requests: seq<Increment>, answers: seq<Outcome>)
    requires Sound(l) && Answered(l, requests, answers) && GivesBackWhatItGot(requests, answers)
    ensures requests != [] ==> l.end <= HeapEnd(l, requests) == l.end + Taken(requests, answers) <= l.limit
    ensures forall i :: 0 <= i < |requests| ==>
      var brk := l.end + Taken(requests[..i], answers[..i]);
      && l.end <= brk <= l.limit
      && answers[i] == if brk + requests[i] <= l.limit then Granted(brk) else OutOfMemory
  {
    GivingBackIsDisciplined(l, requests, answers);
    TakenIsGranted(l, requests, answers);
    BreakIsSum(l, requests);
    if requests != [] {
      HeapEndNotNull(l, requests);
    }
    forall i | 0 <= i < |requests|
      ensures var brk := l.end + Taken(requests[..i], answers[..i]);
        && l.end <= brk <= l.limit
        && answers[i] == if brk + requests[i] <= l.limit then Granted(brk) else OutOfMemory
    {
      AnsweredPrefix(l, requests, answers, i);
      TakenIsGranted(l, requests[..i], answers[..i]);
      AnswersDecided(l, requests, i);
    }
  }

  lemma {:induction false} HeapEndNotNull(l: Layout, requests: seq<Increment>)
    requires Sound(l) && Disciplined(l, requests) && requests != []
    ensures HeapEnd(l, requests) == BreakAfter(l, requests)
  {
    var n := |requests| - 1;
    var earlier := requests[..n];
    DisciplinedPrefix(l, requests, n);
    BreakIsSum(l, earlier);
    assert requests[n] + GrantedSum(l, earlier) >= 0;
    BreakStep(l, HeapEnd(l, earlier), GrantedSum(l, earlier), requests[n]);
  }

  predicate Growing(requests: seq<Increment>) {
    forall i :: 0 <= i < |requests| ==> requests[i] >= 0
  }

  lemma {:induction false} GrowingGivesBack(requests: seq<Increment>, answers: seq<Outcome>)
    requires |requests| == |answers| && Growing(requests)
    ensures GivesBackWhatItGot(requests, answers) && Taken(requests, answers) >= 0
  {
    forall i | 0 <= i < |requests| ensures requests[i] + Taken(requests[..i], answers[..i]) >= 0 {
      GrowingGivesBack(requests[..i], answers[..i]);
    }
    if requests != [] {
      GrowingGivesBack(requests[..|requests| - 1], answers[..|requests| - 1]);
    }
  }

  lemma {:induction false} GrowingIsDisciplined(l: Layout, requests: seq<Increment>)
    requires Growing(requests)
    ensures Disciplined(l, requests) && GrantedSum(l, requests) >= 0
  {
    forall i | 0 <= i <= |requests| ensures GrantedSum(l, requests[..i]) >= 0 {
      GrowingSum(l, requests, 0, i);
    }
    assert requests[..|requests|] == requests;
  }

  lemma {:induction false} GrowingSum(l: Layout, requests: seq<Increment>, i: nat, j: nat)
    requires Growing(requests) && i <= j <= |requests|
    ensures GrantedSum(l, requests[..i]) <= GrantedSum(l, requests[..j])
    decreases j
  {
    if i < j {
      assert requests[..j][..j - 1] == requests[..j - 1];
      GrowingSum(l, requests, i, j - 1);
    }
  }

  /**
   In a run of nonnegative requests the granted blocks follow one another without overlap
   and lie between the start of the heap and its limit.
   */
  lemma {:induction false} BlocksDisjoint(l: Layout, requests: seq<Increment>, i: nat, j: nat)
    requires Sound(l) && Growing(requests) && i < j < |requests|
    requires AnswerTo(l, requests, i).Granted? && AnswerTo(l, requests, j).Granted?
    ensures var a, b := AnswerTo(l, requests, i).start, AnswerTo(l, requests, j).start;
      && l.end <= a && a + requests[i] <= b && b + requests[j] <= l.limit
      && ((forall k :: i < k < j ==> AnswerTo(l, requests, k).OutOfMemory?) ==> a + requests[i] == b)
  {
    GrowingIsDisciplined(l, requests);
    AnswersDecided(l, requests, i);
    AnswersDecided(l, requests, j);
    GrowingSum(l, requests, 0, i);
    GrowingSum(l, requests, i + 1, j);
    SumStep(l, requests, i);
    if forall k :: i < k < j ==> AnswerTo(l, requests, k).OutOfMemory? {
      RefusalsAddNothing(l, requests, i + 1, j);
    }
  }

  lemma {:induction false} SumStep(l: Layout, requests: seq<Increment>, i: nat)
    requires i < |requests|
    ensures GrantedSum(l, requests[..i + 1])
         == GrantedSum(l, requests[..i]) + if AnswerTo(l, requests, i).Granted? then requests[i] else 0
  {
    assert requests[..i + 1][..i] == requests[..i];
  }

  lemma {:induction false} RefusalsAddNothing(l: Layout, requests: seq<Increment>, i: nat, j: nat)
    requires i <= j <= |requests| && forall k :: i <= k < j ==> AnswerTo(l, requests, k).OutOfMemory?
    ensures GrantedSum(l, requests[..i]) == GrantedSum(l, requests[..j])
    decreases j
  {
    if i < j {
      RefusalsAddNothing(l, requests, i, j - 1);
      SumStep(l, requests, j - 1);
    }
  }

  /** Giving a block back right after it was granted restores the break. */
  lemma {:induction false} ReleaseUndoesGrant(l: Layout, heapEnd: Word, incr: Increment)
    requires Sound(l) && l.end <= BreakOf(l, heapEnd) <= l.limit && incr >= 0 && Accepts(l, heapEnd, incr)
    ensures HeapEndAfter(l, HeapEndAfter(l, heapEnd, incr), -incr) == BreakOf(l, heapEnd)
  {
  }

  /** What a run of nonnegative requests is meant to keep. */
  ghost predicate Accounted(l: Layout, requests: seq<Increment>) {
    Growing(requests) ==> BreakAfter(l, requests) == l.end + GrantedSum(l, requests) <= l.limit
  }

  /**
   Every run keeps its account exactly when the limit lies in the lower half of the address
   space: above that a large request wraps around and is granted.
   */
  lemma {:induction false} AccountedExactly(l: Layout)
    requires 0 < l.end <= l.limit
    ensures (forall requests: seq<Increment> :: Accounted(l, requests)) <==> l.limit <= 0x8000_0000
  {
    if l.limit <= 0x8000_0000 {
      forall requests: seq<Increment> ensures Accounted(l, requests) {
        if Growing(requests) {
          GrowingIsDisciplined(l, requests);
          BreakIsSum(l, requests);
        }
      }
    } else {
      WrappingRun(l);
    }
  }

  lemma {:induction false} WrappingRun(l: Layout)
    requires 0 < l.end <= l.limit && l.limit > 0x8000_0000
    ensures exists requests: seq<Increment> :: !Accounted(l, requests)
  {
    var huge: Increment := 0x7FFF_FFFF;
    if l.end > 0x8000_0000 {
      OneMore(l, [], huge);
      assert [] + [huge] == [huge];
      assert !Accounted(l, [huge]);
    } else {
      var first: Increment := 0x8000_0000 - l.end;
      OneMore(l, [], first);
      OneMore(l, [first], 1);
      OneMore(l, [first, 1], huge);
      assert [] + [first] == [first] && [first] + [1] == [first, 1] && [first, 1] + [huge] == [first, 1, huge];
      assert HeapEnd(l, [first, 1]) == 0x8000_0001 && GrantedSum(l, [first, 1]) == 0x8000_0001 - l.end;
      assert !Accounted(l, [first, 1, huge]);
    }
  }

  lemma {:induction false} OneMore(l: Layout, requests: seq<Increment>, incr: Increment)
    ensures HeapEnd(l, requests + [incr]) == HeapEndAfter(l, HeapEnd(l, requests), incr)
    ensures GrantedSum(l, requests + [incr])
         == GrantedSum(l, requests) + if Accepts(l, HeapEnd(l, requests), incr) then incr else 0
  {
    assert (requests + [incr])[..|requests|] == requests;
  }
}
