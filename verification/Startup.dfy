/** The C start-up loader __cmsis_start: it walks the linker's copy table and zero
    table and initialises memory before main. Addresses are word indices. */
module Startup {
  import opened Bits

  datatype CopyEntry = CopyEntry(src: nat, dest: nat, wlen: nat)

  datatype ZeroEntry = ZeroEntry(dest: nat, wlen: nat)

  /** Every address of the tables is inside a memory of the given size. */
  predicate TablesInside(copies: seq<CopyEntry>, zeros: seq<ZeroEntry>, size: nat) {
    CopiesInside(copies, size) && ZerosInside(zeros, size)
  }

  predicate CopiesInside(copies: seq<CopyEntry>, size: nat) {
    forall i :: 0 <= i < |copies| ==>
      copies[i].src + copies[i].wlen <= size && copies[i].dest + copies[i].wlen <= size
  }

  predicate ZerosInside(zeros: seq<ZeroEntry>, size: nat) {
    forall i :: 0 <= i < |zeros| ==> zeros[i].dest + zeros[i].wlen <= size
  }

  // ----- what the loops do, in order -----

  /** The first n words of one copy, one word at a time. */
  function CopyWords(mem: seq<uint32>, e: CopyEntry, n: nat): (r: seq<uint32>)
    requires n <= e.wlen && e.src + e.wlen <= |mem| && e.dest + e.wlen <= |mem|
    ensures |r| == |mem|
  {
    if n == 0 then mem
    else
      var m := CopyWords(mem, e, n - 1);
      m[e.dest + n - 1 := m[e.src + n - 1]]
  }

  function CopyAll(mem: seq<uint32>, copies: seq<CopyEntry>): (r: seq<uint32>)
    requires CopiesInside(copies, |mem|)
    ensures |r| == |mem|
  {
    if copies == [] then mem
    else
      var n := |copies| - 1;
      CopyWords(CopyAll(mem, copies[..n]), copies[n], copies[n].wlen)
  }

  function ZeroWords(mem: seq<uint32>, e: ZeroEntry, n: nat): (r: seq<uint32>)
    requires n <= e.wlen && e.dest + e.wlen <= |mem|
    ensures |r| == |mem|
  {
    if n == 0 then mem else ZeroWords(mem, e, n - 1)[e.dest + n - 1 := 0]
  }

  function ZeroAll(mem: seq<uint32>, zeros: seq<ZeroEntry>): (r: seq<uint32>)
    requires ZerosInside(zeros, |mem|)
    ensures |r| == |mem|
  {
    if zeros == [] then mem
    else
      var n := |zeros| - 1;
      ZeroWords(ZeroAll(mem, zeros[..n]), zeros[n], zeros[n].wlen)
  }

  /** __cmsis_start up to the call of _start. */
  method CmsisStart(mem: array<uint32>, copies: seq<CopyEntry>, zeros: seq<ZeroEntry>)
    requires TablesInside(copies, zeros, mem.Length)
    modifies mem
    ensures mem[..] == ZeroAll(CopyAll(old(mem[..]), copies), zeros)
  {
    ghost var was := mem[..];
    var t := 0;
    while t < |copies|
      invariant 0 <= t <= |copies|
      invariant mem[..] == CopyAll(was, copies[..t])
    {
      assert copies[..t + 1][..t] == copies[..t];
      ghost var before := mem[..];
      var i := 0;
      while i < copies[t].wlen
        invariant 0 <= i <= copies[t].wlen
        invariant mem[..] == CopyWords(before, copies[t], i)
      {
        mem[copies[t].dest + i] := mem[copies[t].src + i];
        i := i + 1;
      }
      t := t + 1;
    }
    assert copies[..t] == copies;
    ghost var copied := mem[..];
    t := 0;
    while t < |zeros|
      invariant 0 <= t <= |zeros|
      invariant mem[..] == ZeroAll(copied, zeros[..t])
    {
      assert zeros[..t + 1][..t] == zeros[..t];
      ghost var before := mem[..];
      var i := 0;
      while i < zeros[t].wlen
        invariant 0 <= i <= zeros[t].wlen
        invariant mem[..] == ZeroWords(before, zeros[t], i)
      {
        mem[zeros[t].dest + i] := 0;
        i := i + 1;
      }
      t := t + 1;
    }
    assert zeros[..t] == zeros;
  }

  // ----- one region -----

  predicate InRegion(a: nat, start: nat, wlen: nat) {
    start <= a < start + wlen
  }

  predicate Disjoint(a: nat, la: nat, b: nat, lb: nat) {
    la == 0 || lb == 0 || a + la <= b || b + lb <= a
  }

  /** A forward copy reads every source word before it overwrites it exactly when
      the destination does not start inside the source. */
  predicate ForwardSafe(e: CopyEntry) {
    e.wlen == 0 || e.dest <= e.src || e.src + e.wlen <= e.dest
  }

  lemma {:induction false} CopyWordsElsewhere(mem: seq<uint32>, e: CopyEntry, n: nat, a: nat)
    requires n <= e.wlen && e.src + e.wlen <= |mem| && e.dest + e.wlen <= |mem|
    requires a < |mem| && !InRegion(a, e.dest, n)
    ensures CopyWords(mem, e, n)[a] == mem[a]
  {
    if n > 0 {
      CopyWordsElsewhere(mem, e, n - 1, a);
    }
  }

  lemma {:induction false} CopyWordsCopies(mem: seq<uint32>, e: CopyEntry, n: nat, k: nat)
    requires n <= e.wlen && e.src + e.wlen <= |mem| && e.dest + e.wlen <= |mem|
    requires k < n && ForwardSafe(e)
    ensures CopyWords(mem, e, n)[e.dest + k] == mem[e.src + k]
  {
    if k < n - 1 {
      CopyWordsCopies(mem, e, n - 1, k);
    } else {
      CopyWordsElsewhere(mem, e, n - 1, e.src + k);
    }
  }

  /** With the destination d words into the source, the copy repeats the first d
      words: from there on every word is a copy of a copy. */
  lemma {:induction false} OverlapRepeats(mem: seq<uint32>, e: CopyEntry, k: nat)
    requires e.src + e.wlen <= |mem| && e.dest + e.wlen <= |mem|
    requires e.src < e.dest < e.src + e.wlen && k < e.wlen
    ensures CopyWords(mem, e, e.wlen)[e.dest + k] == mem[e.src + k % (e.dest - e.src)]
    decreases k
  {
    hide CopyWords;
    var d := e.dest - e.src;
    OverlapStable(mem, e, k + 1, e.wlen, k);
    CopyNext(mem, e, k);
    if k < d {
      DivModUnique(k, d, 0, k);
      CopyWordsElsewhere(mem, e, k, e.src + k);
    } else {
      OverlapRepeats(mem, e, k - d);
      OverlapStable(mem, e, k - d + 1, k, k - d);
      OverlapStable(mem, e, k - d + 1, e.wlen, k - d);
      EuclidDivision(k - d, d);
      Distribute((k - d) / d, 1, d);
      DivModUnique(k, d, (k - d) / d + 1, (k - d) % d);
    }
  }

  lemma CopyNext(mem: seq<uint32>, e: CopyEntry, n: nat)
    requires n < e.wlen && e.src + e.wlen <= |mem| && e.dest + e.wlen <= |mem|
    ensures CopyWords(mem, e, n + 1)[e.dest + n] == CopyWords(mem, e, n)[e.src + n]
  {
  }

  /** A destination word is final once written. */
  lemma {:induction false} OverlapStable(mem: seq<uint32>, e: CopyEntry, m: nat, n: nat, k: nat)
    requires k < m <= n <= e.wlen && e.src + e.wlen <= |mem| && e.dest + e.wlen <= |mem|
    ensures CopyWords(mem, e, n)[e.dest + k] == CopyWords(mem, e, m)[e.dest + k]
    decreases n
  {
    if m < n {
      OverlapStable(mem, e, m, n - 1, k);
    }
  }

  /** Word k of the destination ends up as word k of the original source. */
  predicate WordArrives(mem: seq<uint32>, e: CopyEntry, k: nat)
    requires e.src + e.wlen <= |mem| && e.dest + e.wlen <= |mem| && k < e.wlen
  {
    CopyWords(mem, e, e.wlen)[e.dest + k] == mem[e.src + k]
  }

  /** Whether that holds for every word and every memory. */
  ghost predicate AlwaysCopies(e: CopyEntry, size: nat)
    requires e.src + e.wlen <= size && e.dest + e.wlen <= size
  {
    forall mem: seq<uint32>, k: nat :: |mem| == size && k < e.wlen ==> WordArrives(mem, e, k)
  }

  lemma ForwardCopyExactly(e: CopyEntry, size: nat)
    requires e.src + e.wlen <= size && e.dest + e.wlen <= size
    ensures AlwaysCopies(e, size) <==> ForwardSafe(e)
  {
    if ForwardSafe(e) {
      forall mem: seq<uint32>, k: nat | |mem| == size && k < e.wlen
        ensures WordArrives(mem, e, k)
      {
        CopyWordsCopies(mem, e, e.wlen, k);
      }
    } else {
      var mem := Marked(e.src, size);
      var d := e.dest - e.src;
      OverlapRepeats(mem, e, d);
      DivModUnique(d, d, 1, 0);
      assert !WordArrives(mem, e, e.dest - e.src);
    }
  }

  /** A memory with a single one, at address a. */
  function Marked(a: nat, size: nat): (mem: seq<uint32>)
    ensures |mem| == size && forall b :: 0 <= b < size ==> mem[b] == if a == b then 1 else 0
  {
    seq(size, (b: nat) => if a == b then 1 else 0)
  }

  lemma {:induction false} ZeroWordsAt(mem: seq<uint32>, e: ZeroEntry, n: nat, a: nat)
    requires n <= e.wlen && e.dest + e.wlen <= |mem| && a < |mem|
    ensures ZeroWords(mem, e, n)[a] == if InRegion(a, e.dest, n) then 0 else mem[a]
  {
    if n > 0 {
      ZeroWordsAt(mem, e, n - 1, a);
    }
  }

  // ----- whole tables -----

  /** Copy destinations do not meet each other, no entry destroys the source of a
      later one, and each copy is safe in itself. A destination may overlap the
      source of an earlier entry: it has been read by then. */
  predicate CopyTableOk(copies: seq<CopyEntry>) {
    (forall i :: 0 <= i < |copies| ==> ForwardSafe(copies[i]))
    && forall i, j :: 0 <= i < j < |copies| ==>
         Disjoint(copies[i].dest, copies[i].wlen, copies[j].dest, copies[j].wlen)
         && Disjoint(copies[i].dest, copies[i].wlen, copies[j].src, copies[j].wlen)
  }

  /** Zero regions keep away from copy destinations; they may meet each other and
      any source, which is no longer needed. */
  predicate ZeroTableOk(copies: seq<CopyEntry>, zeros: seq<ZeroEntry>) {
    forall i, j :: 0 <= i < |copies| && 0 <= j < |zeros| ==>
      Disjoint(copies[i].dest, copies[i].wlen, zeros[j].dest, zeros[j].wlen)
  }

  predicate Copied(a: nat, copies: seq<CopyEntry>) {
    exists i :: 0 <= i < |copies| && InRegion(a, copies[i].dest, copies[i].wlen)
  }

  predicate Zeroed(a: nat, zeros: seq<ZeroEntry>) {
    exists i :: 0 <= i < |zeros| && InRegion(a, zeros[i].dest, zeros[i].wlen)
  }

  lemma {:induction false} CopyAllElsewhere(mem: seq<uint32>, copies: seq<CopyEntry>, a: nat)
    requires CopiesInside(copies, |mem|) && a < |mem|
    requires !Copied(a, copies)
    ensures CopyAll(mem, copies)[a] == mem[a]
  {
    if copies != [] {
      var n := |copies| - 1;
      forall i | 0 <= i < n
        ensures !InRegion(a, copies[..n][i].dest, copies[..n][i].wlen)
      {
        assert copies[..n][i] == copies[i];
      }
      CopyAllElsewhere(mem, copies[..n], a);
      CopyWordsElsewhere(CopyAll(mem, copies[..n]), copies[n], copies[n].wlen, a);
    }
  }

  lemma {:induction false} CopyAllCopies(mem: seq<uint32>, copies: seq<CopyEntry>, i: nat, k: nat)
    requires CopiesInside(copies, |mem|) && CopyTableOk(copies)
    requires i < |copies| && k < copies[i].wlen
    ensures CopyAll(mem, copies)[copies[i].dest + k] == mem[copies[i].src + k]
    decreases |copies|
  {
    var n := |copies| - 1;
    PrefixOk(mem, copies, k);
    CopyAllLast(mem, copies);
    hide CopyAll, CopyWords, CopyTableOk, Copied;
    var m := CopyAll(mem, copies[..n]);
    if i < n {
      CopyAllCopies(mem, copies[..n], i, k);
      LaterElsewhere(copies, i, k);
      CopyWordsElsewhere(m, copies[n], copies[n].wlen, copies[i].dest + k);
    } else {
      CopyWordsCopies(m, copies[n], copies[n].wlen, k);
      CopyAllElsewhere(mem, copies[..n], copies[n].src + k);
    }
  }

  lemma CopyAllLast(mem: seq<uint32>, copies: seq<CopyEntry>)
    requires copies != [] && CopiesInside(copies, |mem|)
    ensures var n := |copies| - 1;
            CopiesInside(copies[..n], |mem|) && copies[n].dest + copies[n].wlen <= |mem|
            && copies[n].src + copies[n].wlen <= |mem|
            && CopyAll(mem, copies) == CopyWords(CopyAll(mem, copies[..n]), copies[n], copies[n].wlen)
  {
  }

  lemma PrefixOk(mem: seq<uint32>, copies: seq<CopyEntry>, k: nat)
    requires copies != [] && CopiesInside(copies, |mem|) && CopyTableOk(copies)
    ensures var n := |copies| - 1;
            CopiesInside(copies[..n], |mem|) && CopyTableOk(copies[..n]) && ForwardSafe(copies[n])
            && (k < copies[n].wlen ==> !Copied(copies[n].src + k, copies[..n]))
  {
  }

  lemma LaterElsewhere(copies: seq<CopyEntry>, i: nat, k: nat)
    requires i < |copies| - 1 && k < copies[i].wlen && CopyTableOk(copies)
    ensures var n := |copies| - 1; !InRegion(copies[i].dest + k, copies[n].dest, copies[n].wlen)
  {
    assert Disjoint(copies[i].dest, copies[i].wlen, copies[|copies| - 1].dest, copies[|copies| - 1].wlen);
  }

  /** Where destinations meet, the last copy wins: the entries after the last one that
      covers an address do not matter to it. */
  lemma {:induction false} LastCopyWins(mem: seq<uint32>, copies: seq<CopyEntry>, i: nat, a: nat)
    requires CopiesInside(copies, |mem|) && i < |copies| && a < |mem|
    requires forall j :: i < j < |copies| ==> !InRegion(a, copies[j].dest, copies[j].wlen)
    ensures CopiesInside(copies[..i], |mem|)
    ensures CopyAll(mem, copies)[a] == CopyWords(CopyAll(mem, copies[..i]), copies[i], copies[i].wlen)[a]
    decreases |copies|
  {
    var n := |copies| - 1;
    CopyAllLast(mem, copies);
    hide CopyAll, CopyWords;
    if i < n {
      LastCopyWins(mem, copies[..n], i, a);
      assert copies[..n][..i] == copies[..i];
      CopyWordsElsewhere(CopyAll(mem, copies[..n]), copies[n], copies[n].wlen, a);
    }
  }

  lemma {:induction false} ZeroAllAt(mem: seq<uint32>, zeros: seq<ZeroEntry>, a: nat)
    requires ZerosInside(zeros, |mem|) && a < |mem|
    ensures ZeroAll(mem, zeros)[a] == if Zeroed(a, zeros) then 0 else mem[a]
  {
    if zeros != [] {
      var n := |zeros| - 1;
      ZeroAllAt(mem, zeros[..n], a);
      ZeroWordsAt(ZeroAll(mem, zeros[..n]), zeros[n], zeros[n].wlen, a);
      ZeroedSplit(a, zeros);
    }
  }

  lemma ZeroedSplit(a: nat, zeros: seq<ZeroEntry>)
    requires zeros != []
    ensures var n := |zeros| - 1;
            Zeroed(a, zeros) <==> Zeroed(a, zeros[..n]) || InRegion(a, zeros[n].dest, zeros[n].wlen)
  {
    var n := |zeros| - 1;
    forall i | 0 <= i < n
      ensures zeros[..n][i] == zeros[i]
    {
    }
    if Zeroed(a, zeros[..n]) {
      var i :| 0 <= i < n && InRegion(a, zeros[..n][i].dest, zeros[..n][i].wlen);
      assert InRegion(a, zeros[i].dest, zeros[i].wlen);
    }
  }

  /** After start-up every zero region is zero and every word outside all
      destinations is unchanged, for any tables whatever. */
  lemma ZeroedOrUnchanged(mem: seq<uint32>, copies: seq<CopyEntry>, zeros: seq<ZeroEntry>, a: nat)
    requires TablesInside(copies, zeros, |mem|) && a < |mem|
    ensures Zeroed(a, zeros) ==> ZeroAll(CopyAll(mem, copies), zeros)[a] == 0
    ensures !Zeroed(a, zeros) && !Copied(a, copies) ==> ZeroAll(CopyAll(mem, copies), zeros)[a] == mem[a]
  {
    ZeroAllAt(CopyAll(mem, copies), zeros, a);
    if !Copied(a, copies) {
      CopyAllElsewhere(mem, copies, a);
    }
  }

  /** With well-formed tables every copy destination holds its original source. */
  lemma SourcesArrive(mem: seq<uint32>, copies: seq<CopyEntry>, zeros: seq<ZeroEntry>, i: nat, k: nat)
    requires TablesInside(copies, zeros, |mem|)
    requires CopyTableOk(copies) && ZeroTableOk(copies, zeros)
    requires i < |copies| && k < copies[i].wlen
    ensures ZeroAll(CopyAll(mem, copies), zeros)[copies[i].dest + k] == mem[copies[i].src + k]
  {
    var a := copies[i].dest + k;
    CopyAllCopies(mem, copies, i, k);
    ZeroAllAt(CopyAll(mem, copies), zeros, a);
  }
}
