/** Interrupt priorities. The baseline core packs four 8-bit priorities into each
    32-bit register and updates them by read-modify-write; the mainline core has
    one byte register per interrupt. Both sit behind the same two functions. */
module Nvic {
  import opened Bits
  import opened FixedPoint

  type byte = x: nat | x < 0x100

  /** Interrupt numbers the baseline core gives a priority to: device interrupts
      from 0 and the system handlers 8 to 15, numbered -8 to -1. */
  predicate ValidIrq(irq: int) {
    -8 <= irq < 496
  }

  /** The mainline core also has the system handlers 4 to 7. */
  predicate ValidMainlineIrq(irq: int) {
    -12 <= irq < 496
  }

  // ----- byte lanes of a word -----

  /** Byte j of a word, byte 0 the least significant. */
  function Lane(w: nat, j: nat): byte {
    DivBound(w, Pow2(8 * j));
    Shr(w, 8 * j) % 0x100
  }

  /** `(w & ~(0xFFUL << s)) | ((v & 0xFFUL) << s)` with s = 8 * j */
  function ReplaceLane(w: uint32, j: nat, v: nat): (r: uint32)
    requires j < 4
  {
    var s := 8 * j;
    Pow2Values();
    AndBound(w, Not32(Shl32(0xFF, s)));
    OrBound(And(w, Not32(Shl32(0xFF, s))), Shl32(And(v, 0xFF), s), 32);
    Or(And(w, Not32(Shl32(0xFF, s))), Shl32(And(v, 0xFF), s))
  }

  lemma LaneBit(w: nat, j: nat, i: nat)
    ensures Bit(Lane(w, j), i) == (i < 8 && Bit(w, i + 8 * j))
  {
    Pow2Values();
    BitMod(Shr(w, 8 * j), 8, i);
    BitShr(w, 8 * j, i);
  }

  /** The masked update of lane j replaces the bits of lane j and no others. */
  lemma ReplaceLaneBit(w: uint32, j: nat, v: nat, i: nat)
    requires j < 4 && i < 32
    ensures Bit(ReplaceLane(w, j, v), i)
         == if 8 * j <= i < 8 * j + 8 then Bit(v, i - 8 * j) else Bit(w, i)
  {
    var s := 8 * j;
    var mask := Shl32(0xFF, s);
    Pow2Values();
    BitOr(And(w, Not32(mask)), Shl32(And(v, 0xFF), s), i);
    BitAnd(w, Not32(mask), i);
    BitNot32(mask, i);
    BitShl32(0xFF, s, i);
    BitShl32(And(v, 0xFF), s, i);
    if s <= i {
      BitMask(8, i - s);
      BitAnd(v, 0xFF, i - s);
    }
  }

  lemma ReplaceLaneLanes(w: uint32, j: nat, v: nat, k: nat)
    requires j < 4 && k < 4
    ensures Lane(ReplaceLane(w, j, v), k) == if k == j then v % 0x100 else Lane(w, k)
  {
    Pow2Values();
    var left := Lane(ReplaceLane(w, j, v), k);
    var right := if k == j then v % 0x100 else Lane(w, k);
    forall i: nat | i < 8
      ensures Bit(left, i) == Bit(right, i)
    {
      LaneBit(ReplaceLane(w, j, v), k, i);
      ReplaceLaneBit(w, j, v, i + 8 * k);
      LaneBit(w, k, i);
      BitMod(v, 8, i);
    }
    BitExtensional(left, right, 8);
  }

  // ----- the stored byte of a priority -----

  /** `(priority << (8U - __NVIC_PRIO_BITS)) & 0xFFUL` */
  function Stored(priority: uint32, prioBits: nat): byte
    requires 1 <= prioBits <= 8
  {
    AndBound(Shl32(priority, 8 - prioBits), 0xFF);
    And(Shl32(priority, 8 - prioBits), 0xFF)
  }

  /** The stored byte holds the low prioBits of the priority at its top. */
  lemma StoredValue(priority: uint32, prioBits: nat)
    requires 1 <= prioBits <= 8
    ensures Shr(Stored(priority, prioBits), 8 - prioBits) == priority % Pow2(prioBits)
  {
    var s := 8 - prioBits;
    var left, right := Shr(Stored(priority, prioBits), s), priority % Pow2(prioBits);
    assert left < Pow2(8) && right < Pow2(8) by {
      Pow2Values();
      Pow2Monotone(prioBits, 8);
      DivBound(Stored(priority, prioBits), Pow2(s));
    }
    forall i: nat | i < 8
      ensures Bit(left, i) == Bit(right, i)
    {
      StoredBit(priority, prioBits, i);
      BitMod(priority, prioBits, i);
    }
    BitExtensional(left, right, 8);
  }

  lemma StoredBit(priority: uint32, prioBits: nat, i: nat)
    requires 1 <= prioBits <= 8
    ensures Bit(Shr(Stored(priority, prioBits), 8 - prioBits), i) == (i < prioBits && Bit(priority, i))
  {
    var s := 8 - prioBits;
    Pow2Values();
    hide Pow2;
    BitShr(Stored(priority, prioBits), s, i);
    BitAnd(Shl32(priority, s), 0xFF, i + s);
    BitMask(8, i + s);
    BitShl32(priority, s, i + s);
  }

  // ----- the two register files -----

  /** NVIC->IPR[124] and SCB->SHPR[2], words. */
  datatype WordRegs = WordRegs(ipr: seq<uint32>, shpr: seq<uint32>) {
    predicate Valid() { |ipr| == 124 && |shpr| == 2 }
  }

  /** NVIC->IPR[496] and SCB->SHPR[12], bytes. */
  datatype ByteRegs = ByteRegs(ipr: seq<byte>, shpr: seq<byte>) {
    predicate Valid() { |ipr| == 496 && |shpr| == 12 }
  }

  /** `_BIT_SHIFT(IRQn) / 8` */
  function LaneOf(irq: int): nat {
    And(Unsigned32(irq), 0x03)
  }

  /** `_IP_IDX(IRQn)` */
  function IpIndex(irq: int): int {
    Shr(Unsigned32(irq), 2)
  }

  /** `_SHP_IDX(IRQn)`, in uint32_t arithmetic. */
  function ShpIndex(irq: int): int {
    Shr(Unsigned32(And(Unsigned32(irq), 0x0F) - 8), 2)
  }

  /** The byte index of the mainline SHPR. */
  function ShpByte(irq: int): int {
    Unsigned32(And(Unsigned32(irq), 0x0F) - 4)
  }

  lemma Indices(irq: int)
    requires ValidMainlineIrq(irq)
    ensures LaneOf(irq) == irq % 4
    ensures irq >= 0 ==> IpIndex(irq) == irq / 4
    ensures irq < 0 ==> ShpByte(irq) == irq + 12
    ensures -8 <= irq < 0 ==> ShpIndex(irq) == (irq + 8) / 4
  {
    Pow2Values();
    assert Pow2(2) == 4;
    assert Pow2(4) == 16;
    AndMask(Unsigned32(irq), 2);
    AndMask(Unsigned32(irq), 4);
    hide And, Pow2;
    NegativeIndex(irq);
  }

  lemma NegativeIndex(irq: int)
    requires ValidMainlineIrq(irq)
    ensures Unsigned32(irq) % 4 == irq % 4
    ensures irq >= 0 ==> Unsigned32(irq) == irq
    ensures irq < 0 ==> Unsigned32(irq) % 16 == irq + 16 && Unsigned32(irq + 16 - 4) == irq + 12
    ensures -8 <= irq < 0 ==> Unsigned32(irq + 16 - 8) == irq + 8
  {
    if irq < 0 {
      assert Unsigned32(irq) == 0x1_0000_0000 + irq;
    }
  }

  function SetWord(regs: WordRegs, irq: int, priority: uint32, prioBits: nat): (r: WordRegs)
    requires regs.Valid() && ValidIrq(irq) && 1 <= prioBits <= 8
    ensures r.Valid()
  {
    Indices(irq);
    if irq >= 0 then
      var i := IpIndex(irq);
      regs.(ipr := regs.ipr[i := ReplaceLane(regs.ipr[i], LaneOf(irq), Shl32(priority, 8 - prioBits))])
    else
      var i := ShpIndex(irq);
      regs.(shpr := regs.shpr[i := ReplaceLane(regs.shpr[i], LaneOf(irq), Shl32(priority, 8 - prioBits))])
  }

  function GetWord(regs: WordRegs, irq: int, prioBits: nat): nat
    requires regs.Valid() && ValidIrq(irq) && 1 <= prioBits <= 8
  {
    Indices(irq);
    var w := if irq >= 0 then regs.ipr[IpIndex(irq)] else regs.shpr[ShpIndex(irq)];
    Shr(And(Shr(w, LaneOf(irq) * 8), 0xFF), 8 - prioBits)
  }

  function SetByte(regs: ByteRegs, irq: int, priority: uint32, prioBits: nat): (r: ByteRegs)
    requires regs.Valid() && ValidMainlineIrq(irq) && 1 <= prioBits <= 8
    ensures r.Valid()
  {
    Indices(irq);
    if irq >= 0 then
      regs.(ipr := regs.ipr[irq := Stored(priority, prioBits)])
    else
      regs.(shpr := regs.shpr[ShpByte(irq) := Stored(priority, prioBits)])
  }

  function GetByte(regs: ByteRegs, irq: int, prioBits: nat): nat
    requires regs.Valid() && ValidMainlineIrq(irq) && 1 <= prioBits <= 8
  {
    Indices(irq);
    Shr(if irq >= 0 then regs.ipr[irq] else regs.shpr[ShpByte(irq)], 8 - prioBits)
  }

  // ----- both are maps from interrupt to byte -----

  /** The priority byte of an interrupt in each register file. */
  function WordView(regs: WordRegs, irq: int): byte
    requires regs.Valid() && ValidIrq(irq)
  {
    if irq >= 0 then Lane(regs.ipr[irq / 4], irq % 4) else Lane(regs.shpr[(irq + 8) / 4], irq % 4)
  }

  function ByteView(regs: ByteRegs, irq: int): byte
    requires regs.Valid() && ValidMainlineIrq(irq)
  {
    if irq >= 0 then regs.ipr[irq] else regs.shpr[irq + 12]
  }

  lemma GetWordIsView(regs: WordRegs, irq: int, prioBits: nat)
    requires regs.Valid() && ValidIrq(irq) && 1 <= prioBits <= 8
    ensures GetWord(regs, irq, prioBits) == Shr(WordView(regs, irq), 8 - prioBits)
  {
    hide Shr, And, LaneOf, IpIndex, ShpIndex, Lane;
    Indices(irq);
    LaneByMask(if irq >= 0 then regs.ipr[irq / 4] else regs.shpr[(irq + 8) / 4], irq % 4);
  }

  lemma LaneByMask(w: uint32, j: nat)
    ensures And(Shr(w, j * 8), 0xFF) == Lane(w, j)
  {
    Pow2Values();
    hide Pow2, And, Shr;
    AndMask(Shr(w, j * 8), 8);
  }

  lemma GetByteIsView(regs: ByteRegs, irq: int, prioBits: nat)
    requires regs.Valid() && ValidMainlineIrq(irq) && 1 <= prioBits <= 8
    ensures GetByte(regs, irq, prioBits) == Shr(ByteView(regs, irq), 8 - prioBits)
  {
    Indices(irq);
  }

  /** A masked word write changes the byte of its own interrupt and of no other,
      the three that share its word included. */
  lemma SetWordView(regs: WordRegs, irq: int, priority: uint32, prioBits: nat, other: int)
    requires regs.Valid() && ValidIrq(irq) && ValidIrq(other) && 1 <= prioBits <= 8
    ensures WordView(SetWord(regs, irq, priority, prioBits), other)
         == if other == irq then Stored(priority, prioBits) else WordView(regs, other)
  {
    hide SetWord, WordView, Stored;
    if irq >= 0 {
      SetIprView(regs, irq, priority, prioBits, other);
    } else {
      SetShprView(regs, irq, priority, prioBits, other);
    }
  }

  lemma SetIprView(regs: WordRegs, irq: int, priority: uint32, prioBits: nat, other: int)
    requires regs.Valid() && ValidIrq(irq) && ValidIrq(other) && 1 <= prioBits <= 8 && irq >= 0
    ensures WordView(SetWord(regs, irq, priority, prioBits), other)
         == if other == irq then Stored(priority, prioBits) else WordView(regs, other)
  {
    hide ReplaceLane, Lane, Shl32, And, LaneOf, IpIndex, ShpIndex, Pow2, Stored;
    Indices(irq);
    StoredLow(priority, prioBits);
    ReplaceLaneLanes(regs.ipr[irq / 4], irq % 4, Shl32(priority, 8 - prioBits), other % 4);
  }

  lemma SetShprView(regs: WordRegs, irq: int, priority: uint32, prioBits: nat, other: int)
    requires regs.Valid() && ValidIrq(irq) && ValidIrq(other) && 1 <= prioBits <= 8 && irq < 0
    ensures WordView(SetWord(regs, irq, priority, prioBits), other)
         == if other == irq then Stored(priority, prioBits) else WordView(regs, other)
  {
    hide ReplaceLane, Lane, Shl32, And, LaneOf, IpIndex, ShpIndex, Pow2, Stored;
    Indices(irq);
    StoredLow(priority, prioBits);
    ReplaceLaneLanes(regs.shpr[(irq + 8) / 4], irq % 4, Shl32(priority, 8 - prioBits), other % 4);
  }

  lemma StoredLow(priority: uint32, prioBits: nat)
    requires 1 <= prioBits <= 8
    ensures Stored(priority, prioBits) == Shl32(priority, 8 - prioBits) % 0x100
  {
    Pow2Values();
    hide Pow2, Shl32, And;
    AndMask(Shl32(priority, 8 - prioBits), 8);
  }

  lemma SetByteView(regs: ByteRegs, irq: int, priority: uint32, prioBits: nat, other: int)
    requires regs.Valid() && ValidMainlineIrq(irq) && ValidMainlineIrq(other) && 1 <= prioBits <= 8
    ensures ByteView(SetByte(regs, irq, priority, prioBits), other)
         == if other == irq then Stored(priority, prioBits) else ByteView(regs, other)
  {
    Indices(irq);
  }

  // ----- runs -----

  datatype Write = Write(irq: int, priority: uint32)

  predicate ValidWrites(writes: seq<Write>) {
    forall k :: 0 <= k < |writes| ==> ValidIrq(writes[k].irq)
  }

  predicate ValidMainlineWrites(writes: seq<Write>) {
    forall k :: 0 <= k < |writes| ==> ValidMainlineIrq(writes[k].irq)
  }

  function RunWord(regs: WordRegs, writes: seq<Write>, prioBits: nat): (r: WordRegs)
    requires regs.Valid() && ValidWrites(writes) && 1 <= prioBits <= 8
    ensures r.Valid()
  {
    if writes == [] then regs
    else
      var n := |writes| - 1;
      SetWord(RunWord(regs, writes[..n], prioBits), writes[n].irq, writes[n].priority, prioBits)
  }

  function RunByte(regs: ByteRegs, writes: seq<Write>, prioBits: nat): (r: ByteRegs)
    requires regs.Valid() && ValidMainlineWrites(writes) && 1 <= prioBits <= 8
    ensures r.Valid()
  {
    if writes == [] then regs
    else
      var n := |writes| - 1;
      SetByte(RunByte(regs, writes[..n], prioBits), writes[n].irq, writes[n].priority, prioBits)
  }

  /** The map both register files stand for: the priority last written to irq,
      reduced to the implemented bits, or the initial one. */
  function LastWritten(writes: seq<Write>, irq: int, prioBits: nat, initial: nat): nat {
    if writes == [] then initial
    else
      var n := |writes| - 1;
      if writes[n].irq == irq then writes[n].priority % Pow2(prioBits)
      else LastWritten(writes[..n], irq, prioBits, initial)
  }

  lemma {:induction false} RunWordReads(regs: WordRegs, writes: seq<Write>, prioBits: nat, irq: int)
    requires regs.Valid() && ValidWrites(writes) && ValidIrq(irq) && 1 <= prioBits <= 8
    ensures GetWord(RunWord(regs, writes, prioBits), irq, prioBits)
         == LastWritten(writes, irq, prioBits, GetWord(regs, irq, prioBits))
    decreases |writes|
  {
    if writes != [] {
      var n := |writes| - 1;
      var before := RunWord(regs, writes[..n], prioBits);
      RunWordReads(regs, writes[..n], prioBits, irq);
      SetWordReads(before, writes[n].irq, writes[n].priority, prioBits, irq);
    }
  }

  lemma SetWordReads(regs: WordRegs, irq: int, priority: uint32, prioBits: nat, other: int)
    requires regs.Valid() && ValidIrq(irq) && ValidIrq(other) && 1 <= prioBits <= 8
    ensures GetWord(SetWord(regs, irq, priority, prioBits), other, prioBits)
         == if other == irq then priority % Pow2(prioBits) else GetWord(regs, other, prioBits)
  {
    hide SetWord, GetWord, WordView, Stored, Shr, Pow2;
    GetWordIsView(regs, other, prioBits);
    GetWordIsView(SetWord(regs, irq, priority, prioBits), other, prioBits);
    SetWordView(regs, irq, priority, prioBits, other);
    StoredValue(priority, prioBits);
  }

  lemma SetByteReads(regs: ByteRegs, irq: int, priority: uint32, prioBits: nat, other: int)
    requires regs.Valid() && ValidMainlineIrq(irq) && ValidMainlineIrq(other) && 1 <= prioBits <= 8
    ensures GetByte(SetByte(regs, irq, priority, prioBits), other, prioBits)
         == if other == irq then priority % Pow2(prioBits) else GetByte(regs, other, prioBits)
  {
    hide SetByte, GetByte, ByteView, Stored, Shr, Pow2;
    GetByteIsView(regs, other, prioBits);
    GetByteIsView(SetByte(regs, irq, priority, prioBits), other, prioBits);
    SetByteView(regs, irq, priority, prioBits, other);
    StoredValue(priority, prioBits);
  }

  /** What every later read returns. */
  lemma SetWordReadsAll(regs: WordRegs, irq: int, priority: uint32, prioBits: nat)
    requires regs.Valid() && ValidIrq(irq) && 1 <= prioBits <= 8
    ensures forall other :: ValidIrq(other) ==>
      GetWord(SetWord(regs, irq, priority, prioBits), other, prioBits)
      == if other == irq then priority % Pow2(prioBits) else GetWord(regs, other, prioBits)
  {
    hide SetWord, GetWord, Pow2;
    forall other | ValidIrq(other)
      ensures GetWord(SetWord(regs, irq, priority, prioBits), other, prioBits)
           == if other == irq then priority % Pow2(prioBits) else GetWord(regs, other, prioBits)
    {
      SetWordReads(regs, irq, priority, prioBits, other);
    }
  }

  /** What every later read returns. */
  lemma SetByteReadsAll(regs: ByteRegs, irq: int, priority: uint32, prioBits: nat)
    requires regs.Valid() && ValidMainlineIrq(irq) && 1 <= prioBits <= 8
    ensures forall other :: ValidMainlineIrq(other) ==>
      GetByte(SetByte(regs, irq, priority, prioBits), other, prioBits)
      == if other == irq then priority % Pow2(prioBits) else GetByte(regs, other, prioBits)
  {
    hide SetByte, GetByte, Pow2;
    forall other | ValidMainlineIrq(other)
      ensures GetByte(SetByte(regs, irq, priority, prioBits), other, prioBits)
           == if other == irq then priority % Pow2(prioBits) else GetByte(regs, other, prioBits)
    {
      SetByteReads(regs, irq, priority, prioBits, other);
    }
  }

  lemma {:induction false} RunByteReads(regs: ByteRegs, writes: seq<Write>, prioBits: nat, irq: int)
    requires regs.Valid() && ValidMainlineWrites(writes) && ValidMainlineIrq(irq) && 1 <= prioBits <= 8
    ensures GetByte(RunByte(regs, writes, prioBits), irq, prioBits)
         == LastWritten(writes, irq, prioBits, GetByte(regs, irq, prioBits))
    decreases |writes|
  {
    if writes != [] {
      var n := |writes| - 1;
      var before := RunByte(regs, writes[..n], prioBits);
      RunByteReads(regs, writes[..n], prioBits, irq);
      SetByteReads(before, writes[n].irq, writes[n].priority, prioBits, irq);
    }
  }

  /** After any sequence of writes the packed words and the byte registers answer
      every read alike, if they did at the start. */
  lemma WordsRefineBytes(words: WordRegs, bytes: ByteRegs, writes: seq<Write>, prioBits: nat, irq: int)
    requires words.Valid() && bytes.Valid() && ValidWrites(writes) && ValidIrq(irq) && 1 <= prioBits <= 8
    requires GetWord(words, irq, prioBits) == GetByte(bytes, irq, prioBits)
    ensures GetWord(RunWord(words, writes, prioBits), irq, prioBits)
         == GetByte(RunByte(bytes, writes, prioBits), irq, prioBits)
  {
    RunWordReads(words, writes, prioBits, irq);
    RunByteReads(bytes, writes, prioBits, irq);
  }

  // ----- the register accesses themselves -----

  class Baseline {
    const IPR: array<uint32>
    const SHPR: array<uint32>
    const prioBits: nat

    constructor (bits: nat)
      requires 1 <= bits <= 8
      ensures Valid() && prioBits == bits && fresh(IPR) && fresh(SHPR)
    {
      IPR := new uint32[124](_ => 0);
      SHPR := new uint32[2](_ => 0);
      prioBits := bits;
    }

    ghost predicate Valid() {
      IPR.Length == 124 && SHPR.Length == 2 && IPR != SHPR && 1 <= prioBits <= 8
    }

    ghost function Regs(): WordRegs
      reads IPR, SHPR
    {
      WordRegs(IPR[..], SHPR[..])
    }

    /** __NVIC_SetPriority, core_armv8mbl.h */
    method SetPriority(irq: int, priority: uint32)
      requires Valid() && ValidIrq(irq)
      modifies IPR, SHPR
      ensures Regs() == SetWord(old(Regs()), irq, priority, prioBits)
      ensures forall other :: ValidIrq(other) ==>
        GetWord(Regs(), other, prioBits)
        == if other == irq then priority % Pow2(prioBits) else GetWord(old(Regs()), other, prioBits)
    {
      hide ReplaceLane, Shl32, LaneOf, IpIndex, ShpIndex, GetWord, Pow2;
      Indices(irq);
      SetWordReadsAll(Regs(), irq, priority, prioBits);
      if irq >= 0 {
        var w := IPR[IpIndex(irq)];
        IPR[IpIndex(irq)] := ReplaceLane(w, LaneOf(irq), Shl32(priority, 8 - prioBits));
      } else {
        var w := SHPR[ShpIndex(irq)];
        SHPR[ShpIndex(irq)] := ReplaceLane(w, LaneOf(irq), Shl32(priority, 8 - prioBits));
      }
    }

    /** __NVIC_GetPriority, core_armv8mbl.h */
    method GetPriority(irq: int) returns (priority: nat)
      requires Valid() && ValidIrq(irq)
      ensures priority == GetWord(Regs(), irq, prioBits) == Shr(WordView(Regs(), irq), 8 - prioBits)
    {
      hide And, Shr, LaneOf, IpIndex, ShpIndex, WordView;
      Indices(irq);
      GetWordIsView(Regs(), irq, prioBits);
      if irq >= 0 {
        priority := Shr(And(Shr(IPR[IpIndex(irq)], LaneOf(irq) * 8), 0xFF), 8 - prioBits);
      } else {
        priority := Shr(And(Shr(SHPR[ShpIndex(irq)], LaneOf(irq) * 8), 0xFF), 8 - prioBits);
      }
    }
  }

  class Mainline {
    const IPR: array<byte>
    const SHPR: array<byte>
    const prioBits: nat

    constructor (bits: nat)
      requires 1 <= bits <= 8
      ensures Valid() && prioBits == bits && fresh(IPR) && fresh(SHPR)
    {
      IPR := new byte[496](_ => 0);
      SHPR := new byte[12](_ => 0);
      prioBits := bits;
    }

    ghost predicate Valid() {
      IPR.Length == 496 && SHPR.Length == 12 && IPR != SHPR && 1 <= prioBits <= 8
    }

    ghost function Regs(): ByteRegs
      reads IPR, SHPR
    {
      ByteRegs(IPR[..], SHPR[..])
    }

    /** __NVIC_SetPriority, core_armv81mml.h */
    method SetPriority(irq: int, priority: uint32)
      requires Valid() && ValidMainlineIrq(irq)
      modifies IPR, SHPR
      ensures Regs() == SetByte(old(Regs()), irq, priority, prioBits)
      ensures forall other :: ValidMainlineIrq(other) ==>
        GetByte(Regs(), other, prioBits)
        == if other == irq then priority % Pow2(prioBits) else GetByte(old(Regs()), other, prioBits)
    {
      hide Stored, ShpByte, GetByte, Pow2;
      Indices(irq);
      SetByteReadsAll(Regs(), irq, priority, prioBits);
      if irq >= 0 {
        IPR[irq] := Stored(priority, prioBits);
      } else {
        SHPR[ShpByte(irq)] := Stored(priority, prioBits);
      }
    }

    /** __NVIC_GetPriority, core_armv81mml.h */
    method GetPriority(irq: int) returns (priority: nat)
      requires Valid() && ValidMainlineIrq(irq)
      ensures priority == GetByte(Regs(), irq, prioBits) == Shr(ByteView(Regs(), irq), 8 - prioBits)
    {
      hide Shr, ShpByte, ByteView;
      Indices(irq);
      GetByteIsView(Regs(), irq, prioBits);
      if irq >= 0 {
        priority := Shr(IPR[irq], 8 - prioBits);
      } else {
        priority := Shr(SHPR[ShpByte(irq)], 8 - prioBits);
      }
    }
  }

  // ----- priority groups -----

  /** `PriorityGroup & 0x07UL` */
  function Group(priorityGroup: uint32): (g: nat)
    ensures g <= 7
  {
    AndBound(priorityGroup, 0x07);
    And(priorityGroup, 0x07)
  }

  function PreemptBits(g: nat, prioBits: nat): nat
    requires g <= 7
  {
    if 7 - g > prioBits then prioBits else 7 - g
  }

  function SubBits(g: nat, prioBits: nat): nat
    requires g <= 7
  {
    if g + prioBits < 7 then 0 else g - 7 + prioBits
  }

  /** `(1UL << n) - 1UL` */
  function FieldMask(n: nat): uint32
    requires n <= 8
  {
    FieldMaskValue(n);
    Shl32(1, n) - 1
  }

  lemma FieldMaskValue(n: nat)
    requires n <= 8
    ensures Shl32(1, n) == Pow2(n) <= 0x100
  {
    Pow2Monotone(n, 8);
    Pow2Values();
  }

  /** The two fields share the implemented bits, for every group and width. */
  lemma FieldsFillPriority(g: nat, prioBits: nat)
    requires g <= 7 && 1 <= prioBits <= 8
    ensures PreemptBits(g, prioBits) + SubBits(g, prioBits) == prioBits
  {
  }

  function EncodePriority(priorityGroup: uint32, preempt: uint32, sub: uint32, prioBits: nat): nat
    requires 1 <= prioBits <= 8
  {
    var g := Group(priorityGroup);
    var pb, sb := PreemptBits(g, prioBits), SubBits(g, prioBits);
    Or(Shl32(And(preempt, FieldMask(pb)), sb), And(sub, FieldMask(sb)))
  }

  function DecodePriority(priority: uint32, priorityGroup: uint32, prioBits: nat): (nat, nat)
    requires 1 <= prioBits <= 8
  {
    var g := Group(priorityGroup);
    var pb, sb := PreemptBits(g, prioBits), SubBits(g, prioBits);
    (And(Shr(priority, sb), FieldMask(pb)), And(priority, FieldMask(sb)))
  }

  /** Only values 0 to 7 of the group count, modulo 8. */
  lemma GroupValue(priorityGroup: uint32)
    ensures Group(priorityGroup) == priorityGroup % 8
  {
    assert Pow2(3) == 8;
    AndMask(priorityGroup, 3);
  }

  /** The encoding is positional: preempt field above, sub field below. */
  lemma EncodeValue(priorityGroup: uint32, preempt: uint32, sub: uint32, prioBits: nat)
    requires 1 <= prioBits <= 8
    ensures var g := Group(priorityGroup);
            var P, S := Pow2(PreemptBits(g, prioBits)), Pow2(SubBits(g, prioBits));
            EncodePriority(priorityGroup, preempt, sub, prioBits) == (preempt % P) * S + sub % S
            && P * S == Pow2(prioBits) <= 0x100
            && (preempt % P) * S + sub % S < P * S
  {
    hide Group, Pow2, FieldMask, And, Or;
    var g := Group(priorityGroup);
    var pb, sb := PreemptBits(g, prioBits), SubBits(g, prioBits);
    EncodeFields(preempt, sub, pb, sb);
    FieldsFillPriority(g, prioBits);
    FieldMaskValue(prioBits);
  }

  lemma EncodeFields(preempt: uint32, sub: uint32, pb: nat, sb: nat)
    requires pb + sb <= 8
    ensures var P, S := Pow2(pb), Pow2(sb);
            Or(Shl32(And(preempt, FieldMask(pb)), sb), And(sub, FieldMask(sb))) == (preempt % P) * S + sub % S
            && P * S == Pow2(pb + sb)
            && (preempt % P) * S + sub % S < P * S
  {
    hide Pow2, And, Or, Shl32;
    var P, S := Pow2(pb), Pow2(sb);
    FieldMaskValue(pb);
    FieldMaskValue(sb);
    FieldMaskValue(pb + sb);
    AndMask(preempt, pb);
    AndMask(sub, sb);
    Pow2Add(pb, sb);
    FieldBelow(preempt % P, sub % S, P, S);
    SmallShift(preempt % P, sb);
    OrDisjoint(preempt % P, sub % S, sb);
  }

  lemma FieldBelow(h: nat, l: nat, P: nat, S: nat)
    requires h < P && l < S
    ensures 0 <= h * S && h * S + l < P * S
  {
    MulMonotone(h + 1, P, S);
    MulMonotone(0, h, S);
  }

  lemma SmallShift(x: nat, n: nat)
    requires 0 <= x * Pow2(n) < 0x1_0000_0000
    ensures Shl32(x, n) == x * Pow2(n)
  {
    hide Pow2;
  }

  lemma DecodeValue(priority: uint32, priorityGroup: uint32, prioBits: nat)
    requires 1 <= prioBits <= 8
    ensures var g := Group(priorityGroup);
            var P, S := Pow2(PreemptBits(g, prioBits)), Pow2(SubBits(g, prioBits));
            DecodePriority(priority, priorityGroup, prioBits) == ((priority / S) % P, priority % S)
  {
    hide Group, And;
    var g := Group(priorityGroup);
    var pb, sb := PreemptBits(g, prioBits), SubBits(g, prioBits);
    FieldMaskValue(pb);
    FieldMaskValue(sb);
    hide Pow2;
    AndMask(Shr(priority, sb), pb);
    AndMask(priority, sb);
  }

  /** Decoding with the argument itself, for any priority value. */
  lemma DecodeFields(priority: uint32, priorityGroup: uint32, prioBits: nat)
    requires 1 <= prioBits <= 8
    ensures var g := priorityGroup % 8;
            var pb: nat, sb: nat := if g + prioBits < 7 then prioBits else 7 - g,
                                    if g + prioBits < 7 then 0 else g + prioBits - 7;
            DecodePriority(priority, priorityGroup, prioBits) == ((priority / Pow2(sb)) % Pow2(pb), priority % Pow2(sb))
  {
    hide DecodePriority, Pow2, Group;
    GroupValue(priorityGroup);
    DecodeValue(priority, priorityGroup, prioBits);
  }

  /** Decoding an encoded priority returns both fields, reduced to their widths. */
  lemma DecodeEncode(priorityGroup: uint32, preempt: uint32, sub: uint32, prioBits: nat)
    requires 1 <= prioBits <= 8
    ensures var g := Group(priorityGroup);
            var e := EncodePriority(priorityGroup, preempt, sub, prioBits);
            e < Pow2(prioBits) <= 0x100
            && DecodePriority(e, priorityGroup, prioBits)
               == (preempt % Pow2(PreemptBits(g, prioBits)), sub % Pow2(SubBits(g, prioBits)))
  {
    hide EncodePriority, DecodePriority, Pow2, Group;
    EncodeValue(priorityGroup, preempt, sub, prioBits);
    var g := Group(priorityGroup);
    var P, S := Pow2(PreemptBits(g, prioBits)), Pow2(SubBits(g, prioBits));
    var e := EncodePriority(priorityGroup, preempt, sub, prioBits);
    DecodeValue(e, priorityGroup, prioBits);
    DivModUnique(e, S, preempt % P, sub % S);
    DivModUnique(preempt % P, P, 0, preempt % P);
  }

  /** Encoding the decoded fields gives the priority back, modulo 2^prioBits. */
  lemma EncodeDecode(priorityGroup: uint32, priority: uint32, prioBits: nat)
    requires 1 <= prioBits <= 8
    ensures var (preempt, sub) := DecodePriority(priority, priorityGroup, prioBits);
            preempt < 0x100 && sub < 0x100
            && EncodePriority(priorityGroup, preempt, sub, prioBits) == priority % Pow2(prioBits)
  {
    hide EncodePriority, DecodePriority, Pow2, Group;
    var g := Group(priorityGroup);
    var pb, sb := PreemptBits(g, prioBits), SubBits(g, prioBits);
    var P, S := Pow2(pb), Pow2(sb);
    FieldMaskValue(pb);
    FieldMaskValue(sb);
    DecodeValue(priority, priorityGroup, prioBits);
    DivBound(priority, S);
    var h, l := (priority / S) % P, priority % S;
    EncodeValue(priorityGroup, h, l, prioBits);
    DivModUnique(h, P, 0, h);
    DivModUnique(l, S, 0, l);
    SplitModulo(priority, P, S);
  }

  lemma SplitModulo(x: nat, P: nat, S: nat)
    requires P > 0 && S > 0
    ensures P * S > 0 && x % (P * S) == ((x / S) % P) * S + x % S
  {
    var q := x / S;
    DivBound(x, S);
    MulMonotone(1, P, S);
    var a, h, l := q / P, q % P, x % S;
    assert x == (a * P + h) * S + l;
    assert (a * P + h) * S == a * (P * S) + h * S;
    FieldBelow(h, l, P, S);
    DivModUnique(x, P * S, a, h * S + l);
  }

  /** Encoded priorities compare as (preempt, sub) pairs: preempt decides first. */
  lemma EncodeOrder(priorityGroup: uint32, p: uint32, s: uint32, p': uint32, s': uint32, prioBits: nat)
    requires 1 <= prioBits <= 8
    requires var g := Group(priorityGroup);
             p < Pow2(PreemptBits(g, prioBits)) && p' < Pow2(PreemptBits(g, prioBits))
             && s < Pow2(SubBits(g, prioBits)) && s' < Pow2(SubBits(g, prioBits))
    ensures EncodePriority(priorityGroup, p, s, prioBits) < EncodePriority(priorityGroup, p', s', prioBits)
       <==> p < p' || (p == p' && s < s')
  {
    hide EncodePriority, Pow2, Group;
    EncodeValue(priorityGroup, p, s, prioBits);
    EncodeValue(priorityGroup, p', s', prioBits);
    var g := Group(priorityGroup);
    var P, S := Pow2(PreemptBits(g, prioBits)), Pow2(SubBits(g, prioBits));
    DivModUnique(p, P, 0, p);
    DivModUnique(p', P, 0, p');
    DivModUnique(s, S, 0, s);
    DivModUnique(s', S, 0, s');
    if p < p' {
      FieldBelow(p, s, p', S);
    } else if p' < p {
      FieldBelow(p', s', p, S);
    }
  }

  /** With the argument itself: fields within their widths are put side by side, the
      sub field being max(0, priorityGroup % 8 + prioBits - 7) bits wide. */
  lemma EncodeFitting(priorityGroup: uint32, preempt: uint32, sub: uint32, prioBits: nat)
    requires 1 <= prioBits <= 8
    ensures var g := priorityGroup % 8;
            var pb: nat, sb: nat := if g + prioBits < 7 then prioBits else 7 - g,
                                    if g + prioBits < 7 then 0 else g + prioBits - 7;
            (preempt < Pow2(pb) && sub < Pow2(sb) ==>
               EncodePriority(priorityGroup, preempt, sub, prioBits) == preempt * Pow2(sb) + sub)
            && (preempt % Pow2(pb)) * Pow2(sb) + sub % Pow2(sb)
               == EncodePriority(priorityGroup, preempt, sub, prioBits)
  {
    hide EncodePriority, Pow2, Group;
    GroupValue(priorityGroup);
    EncodeValue(priorityGroup, preempt, sub, prioBits);
    var g := priorityGroup % 8;
    var P, S := Pow2(PreemptBits(g, prioBits)), Pow2(SubBits(g, prioBits));
    if preempt < P && sub < S {
      DivModUnique(preempt, P, 0, preempt);
      DivModUnique(sub, S, 0, sub);
    }
  }

  /** The bits of a stored byte above the binary point of its group. */
  function AbovePoint(priorityGroup: uint32, stored: byte): nat {
    DivBound(stored, Pow2(priorityGroup % 8 + 1));
    stored / Pow2(priorityGroup % 8 + 1)
  }

  /** The architectural law of the grouping: the binary point of the stored byte is
      above bit priorityGroup % 8. What is above it is the preempt field, in the top
      bits of that part. */
  lemma BinaryPoint(priorityGroup: uint32, preempt: uint32, sub: uint32, prioBits: nat)
    requires 1 <= prioBits <= 8
    ensures EncodePriority(priorityGroup, preempt, sub, prioBits) < TWO32
    ensures var g := priorityGroup % 8;
            AbovePoint(priorityGroup, Stored(EncodePriority(priorityGroup, preempt, sub, prioBits), prioBits))
              == (preempt % Pow2(if g + prioBits < 7 then prioBits else 7 - g))
                 * Pow2(if g + prioBits < 7 then 7 - g - prioBits else 0)
  {
    hide EncodePriority, Pow2, Group, Stored;
    var g := priorityGroup % 8;
    EncodeFitting(priorityGroup, preempt, sub, prioBits);
    DecodeEncode(priorityGroup, preempt, sub, prioBits);
    var e := EncodePriority(priorityGroup, preempt, sub, prioBits);
    StoredFitting(e, prioBits);
    if g + prioBits < 7 {
      AllAbove(e, g, prioBits, preempt, sub);
    } else {
      SubBelow(e, g, prioBits, preempt % Pow2(7 - g), sub % Pow2(g + prioBits - 7));
    }
  }

  /** Two stored bytes agree above the binary point exactly when their preempt fields
      do. */
  lemma BytesAgreeExactly(priorityGroup: uint32, p: uint32, s: uint32, p': uint32, s': uint32, prioBits: nat)
    requires 1 <= prioBits <= 8
    ensures EncodePriority(priorityGroup, p, s, prioBits) < TWO32
    ensures EncodePriority(priorityGroup, p', s', prioBits) < TWO32
    ensures var P := Pow2(if priorityGroup % 8 + prioBits < 7 then prioBits else 7 - priorityGroup % 8);
            AbovePoint(priorityGroup, Stored(EncodePriority(priorityGroup, p, s, prioBits), prioBits))
              == AbovePoint(priorityGroup, Stored(EncodePriority(priorityGroup, p', s', prioBits), prioBits))
            <==> p % P == p' % P
  {
    hide EncodePriority, Pow2, Stored, AbovePoint;
    BinaryPoint(priorityGroup, p, s, prioBits);
    BinaryPoint(priorityGroup, p', s', prioBits);
    var g := priorityGroup % 8;
    var P := Pow2(if g + prioBits < 7 then prioBits else 7 - g);
    SameScaled(p % P, p' % P, Pow2(if g + prioBits < 7 then 7 - g - prioBits else 0));
  }

  lemma SameScaled(x: int, y: int, k: int)
    requires k > 0
    ensures x * k == y * k <==> x == y
  {
    if x < y {
      MulMonotone(x + 1, y, k);
    } else if x > y {
      MulMonotone(y + 1, x, k);
    }
  }

  lemma AllAbove(e: nat, g: nat, prioBits: nat, preempt: nat, sub: nat)
    requires 1 <= prioBits && g + prioBits < 7
    requires e == (preempt % Pow2(prioBits)) * Pow2(0) + sub % Pow2(0)
    ensures e * Pow2(8 - prioBits) / Pow2(g + 1) == (preempt % Pow2(prioBits)) * Pow2(7 - g - prioBits)
  {
    Pow2Zero();
    hide Pow2;
    DivModUnique(sub, 1, sub, 0);
    ShiftOut(e, 8 - prioBits, g + 1);
  }

  lemma SubBelow(e: nat, g: nat, prioBits: nat, p: nat, s: nat)
    requires 1 <= prioBits <= 8 && g <= 7 <= g + prioBits
    requires e == p * Pow2(g + prioBits - 7) + s && s < Pow2(g + prioBits - 7)
    ensures e * Pow2(8 - prioBits) / Pow2(g + 1) == p * Pow2(0)
  {
    Pow2Zero();
    hide Pow2;
    var sb := g + prioBits - 7;
    Pow2Add(8 - prioBits, sb);
    DivScaled(e, Pow2(sb), Pow2(8 - prioBits));
    DivModUnique(e, Pow2(sb), p, s);
  }

  lemma Pow2Zero()
    ensures Pow2(0) == 1
  {
  }

  /** A priority within its width is stored at the top of the byte. */
  lemma StoredFitting(e: uint32, prioBits: nat)
    requires 1 <= prioBits <= 8 && e < Pow2(prioBits)
    ensures Stored(e, prioBits) == e * Pow2(8 - prioBits)
  {
    hide Pow2, Shl32, And;
    StoredLow(e, prioBits);
    Pow2Add(prioBits, 8 - prioBits);
    Pow2Values();
    MulMonotone(e + 1, Pow2(prioBits), Pow2(8 - prioBits));
    Distribute(e, 1, Pow2(8 - prioBits));
    MulMonotone(0, e, Pow2(8 - prioBits));
    SmallShift(e, 8 - prioBits);
    DivModUnique(e * Pow2(8 - prioBits), 0x100, 0, e * Pow2(8 - prioBits));
  }

  lemma ShiftOut(e: nat, m: nat, n: nat)
    requires n <= m
    ensures e * Pow2(m) / Pow2(n) == e * Pow2(m - n)
  {
    Pow2Add(m - n, n);
    MulAssoc(e, Pow2(m - n), Pow2(n));
    DivModUnique(e * Pow2(m), Pow2(n), e * Pow2(m - n), 0);
  }

  lemma DivScaled(e: nat, S: nat, T: nat)
    requires S > 0 && T > 0
    ensures T * S > 0 && e * T / (T * S) == e / S
  {
    MulMonotone(1, T, S);
    var q, r := e / S, e % S;
    EuclidDivision(e, S);
    Distribute(S * q, r, T);
    MulMonotone(0, r, T);
    MulMonotone(r + 1, S, T);
    Distribute(r, 1, T);
    assert (S * q) * T == q * (T * S);
    DivModUnique(e * T, T * S, q, r * T);
  }

  /** Encode, store, read back, decode: nothing is lost beyond the field widths, on
      the packed registers as on the byte registers. */
  lemma PriorityChain(words: WordRegs, bytes: ByteRegs, irq: int, priorityGroup: uint32,
                      preempt: uint32, sub: uint32, prioBits: nat)
    requires words.Valid() && bytes.Valid() && ValidIrq(irq) && 1 <= prioBits <= 8
    ensures var g := Group(priorityGroup);
            var e := EncodePriority(priorityGroup, preempt, sub, prioBits);
            var fields := (preempt % Pow2(PreemptBits(g, prioBits)), sub % Pow2(SubBits(g, prioBits)));
            e < 0x100
            && GetWord(SetWord(words, irq, e, prioBits), irq, prioBits) == e
            && GetByte(SetByte(bytes, irq, e, prioBits), irq, prioBits) == e
            && DecodePriority(e, priorityGroup, prioBits) == fields
  {
    hide EncodePriority, DecodePriority, Pow2, Group, SetWord, GetWord, SetByte, GetByte;
    DecodeEncode(priorityGroup, preempt, sub, prioBits);
    var e := EncodePriority(priorityGroup, preempt, sub, prioBits);
    SetWordReads(words, irq, e, prioBits, irq);
    SetByteReads(bytes, irq, e, prioBits, irq);
    DivModUnique(e, Pow2(prioBits), 0, e);
  }
}
