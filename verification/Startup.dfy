/**
 The C startup loops that fill the data and bss sections: a table of word copies
 followed by a table of word fills. Memory is an array of words indexed by word
 address; the tables are read-only and lie outside it.
 */
module Startup {
  import opened Bits

  datatype CopyEntry = CopyEntry(src: nat, dest: nat, wlen: nat)

  datatype ZeroEntry = ZeroEntry(dest: nat, wlen: nat)

  predicate CopyFits(e: CopyEntry, size: nat) {
    e.src + e.wlen <= size && e.dest + e.wlen <= size
  }

  predicate ZeroFits(z: ZeroEntry, size: nat) {
    z.dest + z.wlen <= size
  }

  predicate TablesFit(copies: seq<CopyEntry>, zeros: seq<ZeroEntry>, size: nat) {
    && (forall e :: e in copies ==> CopyFits(e, size))
    && (forall z :: z in zeros ==> ZeroFits(z, size))
  }

  predicate CopyCovers(e: CopyEntry, a: int) {
    e.dest <= a < e.dest + e.wlen
  }

  predicate ZeroCovers(z: ZeroEntry, a: int) {
    z.dest <= a < z.dest + z.wlen
  }

  // ---------------------------------------------------------------- what one entry does

  /**
   The address whose original word stands at `a` once `e` has been copied. The loop
   ascends, so a destination that starts d words inside the source repeats the first
   d words of the source; every other destination receives the source as it was.
   */
  function Origin(e: CopyEntry, a: int): (o: int)
    ensures if CopyCovers(e, a) then e.src <= o <= e.src + (a - e.dest) else o == a
    decreases a - e.dest
  {
    if !CopyCovers(e, a) then a
    else if e.src < e.dest <= e.src + (a - e.dest) then Origin(e, a - (e.dest - e.src))
    else e.src + (a - e.dest)
  }

  ghost predicate Copied(m: seq<Word>, now: seq<Word>, e: CopyEntry)
    requires CopyFits(e, |m|)
  {
    && |now| == |m|
    && forall a {:trigger now[a]} :: 0 <= a < |m| ==> now[a] == m[Origin(e, a)]
  }

  /** The first `i` words of the copy are done. */
  ghost predicate PartlyCopied(m: seq<Word>, now: seq<Word>, e: CopyEntry, i: nat)
    requires CopyFits(e, |m|)
  {
    && i <= e.wlen
    && |now| == |m|
    && forall a {:trigger now[a]} :: 0 <= a < |m| ==> now[a] == if a < e.dest + i then m[Origin(e, a)] else m[a]
  }

  lemma {:induction false} CopyStep(m: seq<Word>, now: seq<Word>, e: CopyEntry, i: nat)
    requires CopyFits(e, |m|) && PartlyCopied(m, now, e, i) && i < e.wlen
    ensures PartlyCopied(m, now[e.dest + i := now[e.src + i]], e, i + 1)
  {
    assert now[e.src + i] == m[Origin(e, e.dest + i)];
  }

  /** The inner copy loop. */
  method CopyLoop(mem: array<Word>, e: CopyEntry)
    requires CopyFits(e, mem.Length)
    modifies mem
    ensures Copied(old(mem[..]), mem[..], e)
  {
    ghost var m := mem[..];
    var i := 0;
    while i < e.wlen
      invariant PartlyCopied(m, mem[..], e, i)
    {
      CopyStep(m, mem[..], e, i);
      ghost var before := mem[..];
      mem[e.dest + i] := mem[e.src + i];
      assert mem[..] == before[e.dest + i := before[e.src + i]];
      i := i + 1;
    }
  }

  /** A copy that overlaps upwards repeats its first words; their number is the distance it moves up. */
  lemma {:induction false} OriginPeriodic(e: CopyEntry, i: nat)
    requires e.src < e.dest && i < e.wlen
    ensures Origin(e, e.dest + i) == e.src + i % (e.dest - e.src)
    decreases i
  {
    var d := e.dest - e.src;
    if i < d {
      DivUnique(i, d, 0, i);
    } else {
      OriginPeriodic(e, i - d);
      DivUnique(i, d, (i - d) / d + 1, (i - d) % d);
    }
  }

  /** The destination starts inside the source. */
  predicate OverlapsUpwards(e: CopyEntry) {
    e.src < e.dest < e.src + e.wlen
  }

  /** The destination holds what the source held. */
  ghost predicate Delivered(m: seq<Word>, now: seq<Word>, e: CopyEntry)
    requires CopyFits(e, |m|) && |now| == |m|
  {
    now[e.dest..e.dest + e.wlen] == m[e.src..e.src + e.wlen]
  }

  /** One entry delivers its source intact from every memory exactly when it does not overlap upwards. */
  lemma {:induction false} DeliversExactly(e: CopyEntry, size: nat)
    requires CopyFits(e, size)
    ensures (forall m: seq<Word>, now: seq<Word> :: |m| == size && Copied(m, now, e) ==> Delivered(m, now, e))
       <==> !OverlapsUpwards(e)
  {
    if OverlapsUpwards(e) {
      var m: seq<Word> := seq(size, a => if a == e.src then 1 else 0);
      var now: seq<Word> := seq(size, a requires 0 <= a < size => m[Origin(e, a)]);
      var d := e.dest - e.src;
      assert Origin(e, e.dest + d) == Origin(e, e.dest) == e.src;
      assert now[e.dest..e.dest + e.wlen][d] == 1;
      assert m[e.src + d] == 0;
      assert m[e.src..e.src + e.wlen][d] == m[e.src + d];
      assert Copied(m, now, e) && !Delivered(m, now, e);
    }
  }

  // ---------------------------------------------------------------- what a whole table does

  /** The address whose original word stands at `a` after all entries have been copied in order. */
  function Trace(copies: seq<CopyEntry>, a: int): int {
    if copies == [] then
      a
    else
      var n := |copies| - 1;
      var e := copies[n];
      Trace(copies[..n], Origin(e, a))
  }

  lemma {:induction false} TraceFits(copies: seq<CopyEntry>, a: nat, size: nat)
    requires a < size && forall e :: e in copies ==> CopyFits(e, size)
    ensures 0 <= Trace(copies, a) < size
  {
    if copies != [] {
      var n := |copies| - 1;
      var e := copies[n];
      assert e in copies;
      TraceFits(copies[..n], Origin(e, a), size);
    }
  }

  predicate Zeroed(zeros: seq<ZeroEntry>, a: int) {
    exists z :: z in zeros && ZeroCovers(z, a)
  }

  /** Memory `now` is memory `m` after the given entries have been processed. */
  ghost predicate Processed(m: seq<Word>, now: seq<Word>, copies: seq<CopyEntry>, zeros: seq<ZeroEntry>) {
    && |now| == |m|
    && forall a :: 0 <= a < |m| ==>
         && 0 <= Trace(copies, a) < |m|
         && now[a] == if Zeroed(zeros, a) then 0 else m[Trace(copies, a)]
  }

  lemma {:induction false} ProcessedCopy(
      m: seq<Word>, now: seq<Word>, after: seq<Word>, copies: seq<CopyEntry>, e: CopyEntry)
    requires Processed(m, now, copies, []) && CopyFits(e, |m|) && Copied(now, after, e)
    ensures Processed(m, after, copies + [e], [])
  {
    assert (copies + [e])[..|copies|] == copies;
  }

  lemma {:induction false} ProcessedZero(
      m: seq<Word>, now: seq<Word>, after: seq<Word>, copies: seq<CopyEntry>, zeros: seq<ZeroEntry>, z: ZeroEntry)
    requires Processed(m, now, copies, zeros) && |after| == |m|
    requires forall a :: 0 <= a < |m| ==> after[a] == if ZeroCovers(z, a) then 0 else now[a]
    ensures Processed(m, after, copies, zeros + [z])
  {
    forall a | 0 <= a < |m| ensures Zeroed(zeros + [z], a) <==> Zeroed(zeros, a) || ZeroCovers(z, a) {
      if Zeroed(zeros, a) {
        var y :| y in zeros && ZeroCovers(y, a);
        assert y in zeros + [z];
      }
      if ZeroCovers(z, a) {
        assert z in zeros + [z];
      }
    }
  }

  /** The inner fill loop. */
  method ZeroLoop(mem: array<Word>, z: ZeroEntry)
    requires ZeroFits(z, mem.Length)
    modifies mem
    ensures forall a :: 0 <= a < mem.Length ==> mem[a] == if ZeroCovers(z, a) then 0 else old(mem[a])
    ensures mem[z.dest..z.dest + z.wlen] == seq(z.wlen, _ => 0)
    ensures mem[..z.dest] == old(mem[..z.dest]) && mem[z.dest + z.wlen..] == old(mem[z.dest + z.wlen..])
  {
    var i := 0;
    while i < z.wlen
      invariant i <= z.wlen
      invariant forall a :: 0 <= a < mem.Length ==> mem[a] == if z.dest <= a < z.dest + i then 0 else old(mem[a])
    {
      mem[z.dest + i] := 0;
      i := i + 1;
    }
  }

  /** The two outer loops: every copy entry in turn, and then every zero entry. */
  method ProcessTables(mem: array<Word>, copies: seq<CopyEntry>, zeros: seq<ZeroEntry>)
    requires TablesFit(copies, zeros, mem.Length)
    modifies mem
    ensures Processed(old(mem[..]), mem[..], copies, zeros)
  {
    ghost var m := mem[..];
    var j := 0;
    while j < |copies|
      invariant j <= |copies|
      invariant Processed(m, mem[..], copies[..j], [])
    {
      ghost var now := mem[..];
      CopyLoop(mem, copies[j]);
      ProcessedCopy(m, now, mem[..], copies[..j], copies[j]);
      assert copies[..j] + [copies[j]] == copies[..j + 1];
      j := j + 1;
    }
    assert copies[..j] == copies;
    j := 0;
    while j < |zeros|
      invariant j <= |zeros|
      invariant Processed(m, mem[..], copies, zeros[..j])
    {
      ghost var now := mem[..];
      ZeroLoop(mem, zeros[j]);
      ProcessedZero(m, now, mem[..], copies, zeros[..j], zeros[j]);
      assert zeros[..j] + [zeros[j]] == zeros[..j + 1];
      j := j + 1;
    }
    assert zeros[..j] == zeros;
  }

  // ---------------------------------------------------------------- what the tables are meant to do

  /** The last entry that covers `a`, or -1. */
  function LastCopy(copies: seq<CopyEntry>, a: int): int {
    LastWhere(copies, (e: CopyEntry) => CopyCovers(e, a))
  }

  /** Where the word at `a` is meant to come from: its last entry's source word, or itself. */
  function Intended(copies: seq<CopyEntry>, a: int): int {
    var j := LastCopy(copies, a);
    if j < 0 then a else copies[j].src + (a - copies[j].dest)
  }

  /** The sections are initialised as the linker script means them to be. */
  ghost predicate Initialised(m: seq<Word>, now: seq<Word>, copies: seq<CopyEntry>, zeros: seq<ZeroEntry>) {
    && |now| == |m|
    && forall a :: 0 <= a < |m| ==>
         && 0 <= Intended(copies, a) < |m|
         && now[a] == if Zeroed(zeros, a) then 0 else m[Intended(copies, a)]
  }

  lemma {:induction false} IntendedFits(copies: seq<CopyEntry>, a: nat, size: nat)
    requires a < size && forall e :: e in copies ==> CopyFits(e, size)
    ensures 0 <= Intended(copies, a) < size
  {
    var j := LastCopy(copies, a);
    if j >= 0 {
      assert copies[j] in copies;
    }
  }

  /** Every word that keeps its copy is traced to where it is meant to come from. */
  predicate TracedAsIntended(copies: seq<CopyEntry>, zeros: seq<ZeroEntry>, size: nat) {
    forall a: nat :: a < size && !Zeroed(zeros, a) ==> Trace(copies, a) == Intended(copies, a)
  }

  /** The loops initialise the sections from every memory exactly when the tables pass this check. */
  lemma {:induction false} InitialisedExactly(copies: seq<CopyEntry>, zeros: seq<ZeroEntry>, size: nat)
    requires TablesFit(copies, zeros, size)
    ensures (forall m: seq<Word>, now: seq<Word> ::
               |m| == size && Processed(m, now, copies, zeros) ==> Initialised(m, now, copies, zeros))
       <==> TracedAsIntended(copies, zeros, size)
  {
    forall a: nat | a < size ensures 0 <= Intended(copies, a) < size && 0 <= Trace(copies, a) < size {
      IntendedFits(copies, a, size);
      TraceFits(copies, a, size);
    }
    if !TracedAsIntended(copies, zeros, size) {
      var a: nat :| a < size && !Zeroed(zeros, a) && Trace(copies, a) != Intended(copies, a);
      var t := Trace(copies, a);
      var m: seq<Word> := seq(size, x => if x == t then 1 else 0);
      var now: seq<Word> := seq(size, x requires 0 <= x < size =>
        if Zeroed(zeros, x) then 0 else (TraceFits(copies, x, size); m[Trace(copies, x)]));
      assert Processed(m, now, copies, zeros);
      assert now[a] != m[Intended(copies, a)];
    }
  }

  /** The entry copies its words onto themselves. */
  predicate InPlace(e: CopyEntry) {
    e.src == e.dest
  }

  /** No entry overlaps itself upwards, and none reads what an earlier entry has changed. */
  ghost predicate ReadsOriginals(copies: seq<CopyEntry>) {
    && (forall e :: e in copies ==> !OverlapsUpwards(e))
    && forall i, j, x :: 0 <= i < j < |copies| && InSource(copies[j], x) && !InPlace(copies[i]) ==>
         !CopyCovers(copies[i], x)
  }

  /** Such tables pass the check. */
  lemma {:induction false} ReadsOriginalsSuffices(copies: seq<CopyEntry>, a: nat)
    requires ReadsOriginals(copies)
    ensures Trace(copies, a) == Intended(copies, a)
  {
    if copies != [] {
      var n := |copies| - 1;
      var e, rest := copies[n], copies[..n];
      assert ReadsOriginals(rest);
      if CopyCovers(e, a) {
        var x := e.src + (a - e.dest);
        assert e in copies;
        assert Origin(e, a) == x;
        ReadsOriginalsSuffices(rest, x);
        assert Intended(rest, x) == x;
      } else {
        ReadsOriginalsSuffices(rest, a);
      }
    }
  }

  predicate InSource(e: CopyEntry, x: int) {
    e.src <= x < e.src + e.wlen
  }

  /** No word is written by two entries. */
  ghost predicate DestinationsApart(copies: seq<CopyEntry>) {
    forall i, j, x :: 0 <= i < j < |copies| && CopyCovers(copies[j], x) ==> !CopyCovers(copies[i], x)
  }

  /** No word that is copied to is zeroed afterwards. */
  ghost predicate CopiesKept(copies: seq<CopyEntry>, zeros: seq<ZeroEntry>) {
    forall e, x :: e in copies && CopyCovers(e, x) ==> !Zeroed(zeros, x)
  }

  /** Entries from `k` on that do not cover `a` leave its trace alone. */
  lemma {:induction false} TraceUncovered(copies: seq<CopyEntry>, k: nat, a: int)
    requires k <= |copies| && forall i :: k <= i < |copies| ==> !CopyCovers(copies[i], a)
    ensures Trace(copies, a) == Trace(copies[..k], a)
  {
    var n := |copies|;
    if k == n {
      assert copies[..n] == copies;
    } else {
      TraceUncovered(copies[..n - 1], k, a);
      assert copies[..n - 1][..k] == copies[..k];
    }
  }

  /** A word that one entry alone writes is meant to come from it, and is traced through it. */
  lemma {:induction false} SoleWriter(copies: seq<CopyEntry>, j: nat, a: int)
    requires DestinationsApart(copies) && j < |copies| && CopyCovers(copies[j], a)
    ensures Intended(copies, a) == copies[j].src + (a - copies[j].dest)
    ensures Trace(copies, a) == Trace(copies[..j], Origin(copies[j], a))
  {
    TraceUncovered(copies, j + 1, a);
    assert copies[..j + 1][..j] == copies[..j];
  }

  lemma {:induction false} WrittenBefore(copies: seq<CopyEntry>, i: nat, j: nat, x: int)
    requires DestinationsApart(copies) && i < j < |copies| && CopyCovers(copies[i], x)
    ensures Trace(copies, x) == Trace(copies[..j], x)
  {
    TraceUncovered(copies, j, x);
  }

  lemma {:induction false} UpwardOrigins(e: CopyEntry)
    requires OverlapsUpwards(e)
    ensures Origin(e, e.dest) == Origin(e, e.dest + (e.dest - e.src)) == e.src
  {
    assert !(e.src < e.dest <= e.src + (e.dest - e.dest));
  }

  lemma {:induction false} DirectOrigin(e: CopyEntry, x: int)
    requires !OverlapsUpwards(e) && InSource(e, x)
    ensures Origin(e, e.dest + (x - e.src)) == x
  {
  }

  /** An entry that overlaps itself upwards brings the same word to two places. */
  lemma {:induction false} UpwardsIsNotIntended(copies: seq<CopyEntry>, j: nat)
    requires DestinationsApart(copies) && j < |copies| && OverlapsUpwards(copies[j])
    ensures var e := copies[j];
      var b := e.dest + (e.dest - e.src);
      && CopyCovers(e, e.dest) && CopyCovers(e, b)
      && (Trace(copies, e.dest) != Intended(copies, e.dest) || Trace(copies, b) != Intended(copies, b))
  {
    var e := copies[j];
    var b := e.dest + (e.dest - e.src);
    SoleWriter(copies, j, e.dest);
    SoleWriter(copies, j, b);
    assert Trace(copies, e.dest) == Trace(copies, b) by {
      UpwardOrigins(e);
    }
    assert Intended(copies, e.dest) != Intended(copies, b);
  }

  /** An entry that reads what an earlier one has changed brings the wrong word. */
  lemma {:induction false} ReadingCopiesIsNotIntended(copies: seq<CopyEntry>, i: nat, j: nat, x: int)
    requires DestinationsApart(copies) && i < j < |copies| && !OverlapsUpwards(copies[j])
    requires InSource(copies[j], x) && CopyCovers(copies[i], x) && !InPlace(copies[i])
    ensures var a := copies[j].dest + (x - copies[j].src);
      && CopyCovers(copies[j], a)
      && (Trace(copies, a) != Intended(copies, a) || Trace(copies, x) != Intended(copies, x))
  {
    var a := copies[j].dest + (x - copies[j].src);
    SoleWriter(copies, j, a);
    assert Trace(copies, a) == Trace(copies, x) by {
      DirectOrigin(copies[j], x);
      WrittenBefore(copies, i, j, x);
    }
    assert Intended(copies, a) == x;
    assert Intended(copies, x) != x by {
      SoleWriter(copies, i, x);
    }
  }

  /**
   For tables whose destinations are apart and are not zeroed, the loops initialise the
   sections from every memory exactly when every entry reads original words.
   */
  lemma {:induction false} ReadsOriginalsExactly(copies: seq<CopyEntry>, zeros: seq<ZeroEntry>, size: nat)
    requires TablesFit(copies, zeros, size) && DestinationsApart(copies) && CopiesKept(copies, zeros)
    ensures (forall m: seq<Word>, now: seq<Word> ::
               |m| == size && Processed(m, now, copies, zeros) ==> Initialised(m, now, copies, zeros))
       <==> ReadsOriginals(copies)
  {
    InitialisedExactly(copies, zeros, size);
    if ReadsOriginals(copies) {
      forall a: nat | a < size ensures Trace(copies, a) == Intended(copies, a) {
        ReadsOriginalsSuffices(copies, a);
      }
    } else {
      NotTraced(copies, zeros, size);
    }
  }

  lemma {:induction false} NotTraced(copies: seq<CopyEntry>, zeros: seq<ZeroEntry>, size: nat)
    requires TablesFit(copies, zeros, size) && DestinationsApart(copies) && CopiesKept(copies, zeros)
    requires !ReadsOriginals(copies)
    ensures !TracedAsIntended(copies, zeros, size)
  {
    if e :| e in copies && OverlapsUpwards(e) {
      var j :| 0 <= j < |copies| && copies[j] == e;
      UpwardsIsNotIntended(copies, j);
      assert CopyFits(e, size);
    } else {
      var i, j, x :| 0 <= i < j < |copies| && InSource(copies[j], x) && !InPlace(copies[i]) && CopyCovers(copies[i], x);
      assert copies[i] in copies && copies[j] in copies;
      ReadingCopiesIsNotIntended(copies, i, j, x);
    }
  }

  // ---------------------------------------------------------------- the whole startup

  /** No entry of either table writes to `a`. */
  ghost predicate Untouched(copies: seq<CopyEntry>, zeros: seq<ZeroEntry>, a: int) {
    && (forall e :: e in copies ==> !(e.dest <= a < e.dest + e.wlen))
    && forall z :: z in zeros ==> !(z.dest <= a < z.dest + z.wlen)
  }

  /** Nothing that comes after entry `j` writes to its destination. */
  ghost predicate StaysAsCopied(copies: seq<CopyEntry>, zeros: seq<ZeroEntry>, j: nat)
    requires j < |copies|
  {
    var e := copies[j];
    && (forall k :: j < k < |copies| ==>
          copies[k].dest + copies[k].wlen <= e.dest || e.dest + e.wlen <= copies[k].dest)
    && forall z :: z in zeros ==> z.dest + z.wlen <= e.dest || e.dest + e.wlen <= z.dest
  }

  lemma {:induction false} ZeroRegion(
      m: seq<Word>, now: seq<Word>, copies: seq<CopyEntry>, zeros: seq<ZeroEntry>, z: ZeroEntry)
    requires Processed(m, now, copies, zeros) && z in zeros && ZeroFits(z, |m|)
    ensures now[z.dest..z.dest + z.wlen] == seq(z.wlen, _ => 0)
  {
    var region := now[z.dest..z.dest + z.wlen];
    forall i | 0 <= i < z.wlen ensures region[i] == 0 {
      assert ZeroCovers(z, z.dest + i);
    }
  }

  lemma {:induction false} UntouchedTrace(copies: seq<CopyEntry>, zeros: seq<ZeroEntry>, a: int)
    requires Untouched(copies, zeros, a)
    ensures Trace(copies, a) == a && !Zeroed(zeros, a)
  {
    TraceUncovered(copies, 0, a);
  }

  /** An entry that stays as copied holds the original words of its source. */
  lemma {:induction false} SectionDelivered(
      m: seq<Word>, now: seq<Word>, copies: seq<CopyEntry>, zeros: seq<ZeroEntry>, j: nat)
    requires Processed(m, now, copies, zeros) && ReadsOriginals(copies)
    requires j < |copies| && StaysAsCopied(copies, zeros, j) && CopyFits(copies[j], |m|)
    ensures Delivered(m, now, copies[j])
  {
    var e := copies[j];
    var to, from := now[e.dest..e.dest + e.wlen], m[e.src..e.src + e.wlen];
    forall i | 0 <= i < e.wlen ensures to[i] == from[i] {
      var a := e.dest + i;
      ReadsOriginalsSuffices(copies, a);
      assert LastCopy(copies, a) == j;
      assert !Zeroed(zeros, a);
    }
  }

  lemma {:induction false} WhatIsLeft(m: seq<Word>, now: seq<Word>, copies: seq<CopyEntry>, zeros: seq<ZeroEntry>)
    requires TablesFit(copies, zeros, |m|) && Processed(m, now, copies, zeros)
    ensures forall z :: z in zeros ==> now[z.dest..z.dest + z.wlen] == seq(z.wlen, _ => 0)
    ensures forall a {:trigger now[a]} :: 0 <= a < |m| && Untouched(copies, zeros, a) ==> now[a] == m[a]
    ensures ReadsOriginals(copies) ==> forall j :: 0 <= j < |copies| && StaysAsCopied(copies, zeros, j) ==>
      CopyFits(copies[j], |m|) && Delivered(m, now, copies[j])
  {
    forall z | z in zeros ensures now[z.dest..z.dest + z.wlen] == seq(z.wlen, _ => 0) {
      ZeroRegion(m, now, copies, zeros, z);
    }
    forall a | 0 <= a < |m| && Untouched(copies, zeros, a) ensures now[a] == m[a] {
      UntouchedTrace(copies, zeros, a);
    }
    if ReadsOriginals(copies) {
      forall j | 0 <= j < |copies| && StaysAsCopied(copies, zeros, j)
        ensures CopyFits(copies[j], |m|) && Delivered(m, now, copies[j])
      {
        assert copies[j] in copies;
        SectionDelivered(m, now, copies, zeros, j);
      }
    }
  }

  /** `__cmsis_start` up to the call of `_start`. */
  method CmsisStart(mem: array<Word>, copies: seq<CopyEntry>, zeros: seq<ZeroEntry>)
    requires TablesFit(copies, zeros, mem.Length)
    modifies mem
    ensures Processed(old(mem[..]), mem[..], copies, zeros)
    ensures forall z :: z in zeros ==> mem[..][z.dest..z.dest + z.wlen] == seq(z.wlen, _ => 0)
    ensures forall a {:trigger mem[..][a]} :: 0 <= a < mem.Length && Untouched(copies, zeros, a) ==>
      mem[..][a] == old(mem[..])[a]
    ensures ReadsOriginals(copies) ==> forall j :: 0 <= j < |copies| && StaysAsCopied(copies, zeros, j) ==>
      var e := copies[j];
      CopyFits(e, mem.Length) && mem[..][e.dest..e.dest + e.wlen] == old(mem[..])[e.src..e.src + e.wlen]
  {
    ghost var m := mem[..];
    ProcessTables(mem, copies, zeros);
    WhatIsLeft(m, mem[..], copies, zeros);
  }

  /** No source word lies in any destination. */
  ghost predicate SourcesApart(copies: seq<CopyEntry>, zeros: seq<ZeroEntry>) {
    forall e, x :: e in copies && InSource(e, x) ==>
      && !Zeroed(zeros, x)
      && forall d :: d in copies ==> !CopyCovers(d, x)
  }

  /** Tables whose sources lie outside every destination initialise the sections, and a second run changes nothing. */
  lemma {:induction false} SecondRunChangesNothing(
      m: seq<Word>, once: seq<Word>, twice: seq<Word>, copies: seq<CopyEntry>, zeros: seq<ZeroEntry>)
    requires TablesFit(copies, zeros, |m|) && SourcesApart(copies, zeros)
    requires Processed(m, once, copies, zeros) && Processed(once, twice, copies, zeros)
    ensures Initialised(m, once, copies, zeros) && twice == once
  {
    SourcesApartReadsOriginals(copies, zeros);
    forall a: nat | a < |m|
      ensures 0 <= Intended(copies, a) < |m| && Trace(copies, a) == Intended(copies, a)
      ensures twice[a] == once[a]
    {
      IntendedFits(copies, a, |m|);
      ReadsOriginalsSuffices(copies, a);
      var x := Intended(copies, a);
      IntendedStays(copies, zeros, a);
      ReadsOriginalsSuffices(copies, x);
    }
  }

  lemma {:induction false} SourcesApartReadsOriginals(copies: seq<CopyEntry>, zeros: seq<ZeroEntry>)
    requires SourcesApart(copies, zeros)
    ensures ReadsOriginals(copies)
  {
    forall e | e in copies ensures !OverlapsUpwards(e) {
      if OverlapsUpwards(e) {
        assert InSource(e, e.dest);
      }
    }
    forall i, j, x | 0 <= i < j < |copies| && InSource(copies[j], x) ensures !CopyCovers(copies[i], x) {
      assert copies[j] in copies && copies[i] in copies;
    }
  }

  /** The word that `a` is copied from is itself neither copied to nor, unless it is `a`, zeroed. */
  lemma {:induction false} IntendedStays(copies: seq<CopyEntry>, zeros: seq<ZeroEntry>, a: int)
    requires SourcesApart(copies, zeros)
    ensures var x := Intended(copies, a); Intended(copies, x) == x && (x == a || !Zeroed(zeros, x))
  {
    var j := LastCopy(copies, a);
    if j >= 0 {
      assert copies[j] in copies;
      var x := Intended(copies, a);
      assert InSource(copies[j], x);
      var k := LastCopy(copies, x);
      assert forall d :: d in copies ==> !CopyCovers(d, x);
    }
  }
}
