/**
 * The bytes the driver computes before it writes them: read-modify-write merges,
 * the sync, packet, FIFO, LNA and bandwidth register values, the big-endian
 * splits of multi-byte registers, the IRQ flag tests and the DIO mapping word.
 */
module Encoding {
  import opened Wrappers
  import opened Registers

  function BoolBit(b: bool): byte
  {
    if b then 1 else 0
  }

  /** The value a read-modify-write stores: the bits of `prev` selected by `keep`, then `bits` OR-ed in. */
  function Merge(prev: byte, keep: byte, bits: byte): (r: byte)
    ensures r & keep & !bits == prev & keep & !bits
    ensures r & bits == bits
    ensures r & !(keep | bits) == 0
  {
    (prev & keep) | bits
  }

  /** RegOpMode after a mode change: bits 7, 6, 5, 1 and 0 kept, bits 4..2 hold the mode. */
  function ModeByte(prev: byte, m: Mode): (r: byte)
    ensures r & 0xE3 == prev & 0xE3
    ensures r & 0x1C == ModeCode(m)
  {
    Merge(prev, 0xE3, ModeCode(m))
  }

  /** The mode field is the only thing a mode change decides: the last change wins. */
  lemma ModeByteLastWins(prev: byte, m1: Mode, m2: Mode)
    ensures ModeByte(ModeByte(prev, m1), m2) == ModeByte(prev, m2)
  {
  }

  /** RegSyncConfig for a sync word of `len` bytes: SyncOn (bit 7) and SyncSize = len - 1 (bits 5..3). */
  function SyncConfigByte(len: nat): (r: byte)
    requires 1 <= len <= 8
    ensures r & 0x80 == 0x80
    ensures (((r >> 3) & 0x07) as nat) + 1 == len
    ensures r & 0x47 == 0
  {
    0x80 | (((len - 1) as byte) << 3)
  }

  /** RegSyncConfig with sync detection turned off: only bit 7 cleared. */
  function SyncOffByte(prev: byte): (r: byte)
    ensures r & 0x7F == prev & 0x7F
    ensures r & 0x80 == 0
  {
    Merge(prev, 0x7F, 0x00)
  }

  function FormatBit(f: PacketFormat): byte
  {
    if f.Variable? then 0x80 else 0x00
  }

  /** RegPacketConfig1 followed by RegPayloadLength. */
  function PacketConfig1Bytes(pc: PacketConfig): (r: seq<byte>)
    ensures |r| == 2 && r[1] == pc.format.size
    ensures (r[0] & 0x80 == 0x80) == pc.format.Variable?
    ensures r[0] & 0x60 == DcCode(pc.dc)
    ensures r[0] & 0x06 == FilteringCode(pc.filtering)
    ensures (r[0] & 0x10 == 0x10) == pc.crc
    ensures r[0] & 0x09 == 0
  {
    var reg := FormatBit(pc.format) | DcCode(pc.dc) | FilteringCode(pc.filtering) | (BoolBit(pc.crc) << 4);
    [reg, pc.format.size]
  }

  /** The bits of RegPacketConfig2 the packet setter decides. */
  function PacketConfig2Bits(pc: PacketConfig): byte
  {
    (pc.interpacketRxDelay << 4) | (BoolBit(pc.autoRxRestart) << 1)
  }

  /** RegPacketConfig2 after the packet setter: AesOn (bit 0) and reserved bits 3..2 kept. */
  function PacketConfig2Byte(prev: byte, pc: PacketConfig): (r: byte)
    ensures r & 0x0D == prev & 0x0D
    ensures r >> 4 == pc.interpacketRxDelay
    ensures (r & 0x02 == 0x02) == pc.autoRxRestart
  {
    Merge(prev, 0x0D, PacketConfig2Bits(pc))
  }

  /** RegPacketConfig2 with AES off: only bit 0 cleared. */
  function AesOffByte(prev: byte): (r: byte)
    ensures r & 0xFE == prev & 0xFE
    ensures r & 0x01 == 0
  {
    Merge(prev, 0xFE, 0x00)
  }

  /** RegPacketConfig2 with AES on: only bit 0 set. */
  function AesOnByte(prev: byte): (r: byte)
    ensures r & 0xFE == prev & 0xFE
    ensures r & 0x01 == 0x01
  {
    Merge(prev, 0xFF, 0x01)
  }

  /** RegFifoThresh for "start on first byte": bit 7 set, the threshold level kept. */
  function FifoNotEmptyByte(prev: byte): (r: byte)
    ensures r & 0x7F == prev & 0x7F
    ensures r & 0x80 == 0x80
  {
    Merge(prev, 0xFF, 0x80)
  }

  /** RegFifoThresh for "start at level": the level modulo 128, bit 7 clear. */
  function FifoLevelByte(level: byte): (r: byte)
    ensures r < 0x80
    ensures r as int == level as int % 128
  {
    level & 0x7F
  }

  function LnaBits(l: LnaConfig): byte
  {
    ZinCode(l.zin) | l.gainSelect
  }

  /** RegLna after the LNA setter: bits 6..3 kept, impedance in bit 7, gain selection in bits 2..0. */
  function LnaByte(prev: byte, l: LnaConfig): (r: byte)
    ensures r & 0x78 == prev & 0x78
    ensures r & 0x80 == ZinCode(l.zin)
    ensures r & 0x07 == l.gainSelect
  {
    Merge(prev, 0x78, LnaBits(l))
  }

  /** RegRxBw / RegAfcBw: the cut-off index in bits 7..5, the bandwidth value in bits 4..0. */
  function RxBwByte(c: RxBwConfig): (r: byte)
    ensures r >> 5 == c.dccCutoff
    ensures r & 0x1F == c.bw
  {
    (c.dccCutoff << 5) | c.bw
  }

  /** The 16-bit value a big-endian byte pair stands for. */
  function FromBe16(bs: seq<byte>): bv16
    requires |bs| == 2
  {
    ((bs[0] as bv16) << 8) | (bs[1] as bv16)
  }

  /** A 16-bit register value as two big-endian bytes (`to_be_bytes`). */
  function Be16(v: bv16): (r: seq<byte>)
    ensures |r| == 2 && FromBe16(r) == v
  {
    [(v >> 8) as byte, (v & 0xFF) as byte]
  }

  /** A 32-bit value as four big-endian bytes. */
  function Be32(v: bv32): seq<byte>
  {
    [(v >> 24) as byte, ((v >> 16) & 0xFF) as byte, ((v >> 8) & 0xFF) as byte, (v & 0xFF) as byte]
  }

  /** The 24-bit value a big-endian byte triple stands for. */
  function FromBe24(bs: seq<byte>): bv32
    requires |bs| == 3
  {
    ((bs[0] as bv32) << 16) | ((bs[1] as bv32) << 8) | (bs[2] as bv32)
  }

  /** The frequency register bytes: `to_be_bytes()[1..]`, the low 24 bits with the top byte dropped. */
  function Be24(v: bv32): (r: seq<byte>)
    ensures |r| == 3 && FromBe24(r) == v & 0xFF_FFFF
  {
    Be32(v)[1..]
  }

  /** The IRQ flag tests the driver makes. */
  datatype Flag = SyncAddressMatch | FifoEmpty | FifoFull | PacketReady | ModeReady | PacketSent

  function FlagReg(f: Flag): Reg
  {
    match f
    case SyncAddressMatch => IrqFlags1
    case ModeReady => IrqFlags1
    case _ => IrqFlags2
  }

  function FlagMask(f: Flag): byte
  {
    match f
    case SyncAddressMatch => 0x01
    case FifoEmpty => 0x40
    case FifoFull => 0x80
    case PacketReady => 0x04
    case ModeReady => 0x80
    case PacketSent => 0x08
  }

  /** Whether the flag holds in the value read from its register; "FIFO empty" is FifoNotEmpty clear. */
  predicate FlagHolds(f: Flag, v: byte)
  {
    if f == FifoEmpty then v & FlagMask(f) == 0 else v & FlagMask(f) != 0
  }

  /** What one mapping slot adds to the DIO word in mode `m`. */
  function Contribution(m: Mode, slot: Option<DioMapping>): bv16
  {
    match slot
    case None => 0
    case Some(d) => if ActiveIn(d.dioMode, m) then Place(TypeCode(d.kind), d.pin) else 0
  }

  /** The OR of the slots' contributions, taken in slot order. */
  function Contributions(m: Mode, slots: seq<Option<DioMapping>>): bv16
  {
    if |slots| == 0 then 0
    else Contributions(m, slots[..|slots| - 1]) | Contribution(m, slots[|slots| - 1])
  }

  /** RegDioMapping1/2 as one word: ClkOut off (0x07) and every mapping active in `m`. */
  function DioWord(m: Mode, slots: seq<Option<DioMapping>>): bv16
  {
    0x07 | Contributions(m, slots)
  }

  /** A 2-bit code moved to pin `p`'s field (`code << pin`). */
  function Place(code: bv16, p: DioPin): bv16
  {
    match p
    case Dio0 => code << 14
    case Dio1 => code << 12
    case Dio2 => code << 10
    case Dio3 => code << 8
    case Dio4 => code << 6
    case Dio5 => code << 4
  }

  /** The 2-bit field of pin `p` in a DIO word. */
  function Field(w: bv16, p: DioPin): bv16
  {
    match p
    case Dio0 => (w >> 14) & 0x03
    case Dio1 => (w >> 12) & 0x03
    case Dio2 => (w >> 10) & 0x03
    case Dio3 => (w >> 8) & 0x03
    case Dio4 => (w >> 6) & 0x03
    case Dio5 => (w >> 4) & 0x03
  }

  /** Slot i holds nothing or a mapping for pin i. */
  predicate WellFormed(slots: seq<Option<DioMapping>>)
  {
    |slots| == 6 && forall i :: 0 <= i < 6 && slots[i].Some? ==> PinIndex(slots[i].value.pin) == i
  }

  /** The field a pin should show: its mapping's type if it is active in `m`, else 0. */
  function Expected(m: Mode, slot: Option<DioMapping>): bv16
  {
    if slot.Some? && ActiveIn(slot.value.dioMode, m) then TypeCode(slot.value.kind) else 0
  }

  lemma ContributionFields(m: Mode, slot: Option<DioMapping>, k: nat, p: DioPin)
    requires k < 6 && (slot.Some? ==> PinIndex(slot.value.pin) == k)
    ensures Field(Contribution(m, slot), p) == if k == PinIndex(p) then Expected(m, slot) else 0
  {
    if slot.Some? && ActiveIn(slot.value.dioMode, m) {
      PlacedField(TypeCode(slot.value.kind), slot.value.pin, p);
    }
  }

  lemma ContributionNibble(m: Mode, slot: Option<DioMapping>, k: nat)
    requires k < 6 && (slot.Some? ==> PinIndex(slot.value.pin) == k)
    ensures Contribution(m, slot) & 0x0F == 0
  {
    if slot.Some? && ActiveIn(slot.value.dioMode, m) {
      PlacedField(TypeCode(slot.value.kind), slot.value.pin, slot.value.pin);
    }
  }

  lemma PlacedField(t: bv16, q: DioPin, p: DioPin)
    requires t < 4
    ensures Field(Place(t, q), p) == if q == p then t else 0
    ensures Place(t, q) & 0x0F == 0
  {
  }

  /** When one of two words has an empty field for `p`, their OR shows the other's field. */
  lemma OrDisjointField(x: bv16, y: bv16, p: DioPin)
    requires Field(x, p) == 0 || Field(y, p) == 0
    ensures Field(x | y, p) == if Field(x, p) == 0 then Field(y, p) else Field(x, p)
  {
    match p
    case Dio0 =>
    case Dio1 =>
    case Dio2 =>
    case Dio3 =>
    case Dio4 =>
    case Dio5 =>
  }

  lemma OrLowNibble(x: bv16, y: bv16)
    requires x & 0x0F == 0 && y & 0x0F == 0
    ensures (x | y) & 0x0F == 0
  {
  }

  /** ORing one more slot's contribution into a partial DIO word extends it to the next prefix. */
  lemma DioWordStep(m: Mode, slots: seq<Option<DioMapping>>, i: nat, w: bv16, bits: bv16)
    requires i < |slots| && w == 0x07 | Contributions(m, slots[..i]) && bits == Contribution(m, slots[i])
    ensures w | bits == 0x07 | Contributions(m, slots[..i + 1])
  {
    assert slots[..i + 1][..i] == slots[..i];
    OrAssoc(0x07, Contributions(m, slots[..i]), bits);
  }

  lemma OrAssoc(a: bv16, b: bv16, c: bv16)
    ensures (a | b) | c == a | (b | c)
  {
  }

  /** The first n slots place exactly their active mappings in their own pins' fields. */
  lemma {:induction false} PrefixFields(m: Mode, slots: seq<Option<DioMapping>>, n: nat, p: DioPin)
    requires WellFormed(slots) && n <= 6
    ensures Field(Contributions(m, slots[..n]), p) == if PinIndex(p) < n then Expected(m, slots[PinIndex(p)]) else 0
  {
    if n > 0 {
      var x := Contributions(m, slots[..n - 1]);
      var y := Contribution(m, slots[n - 1]);
      PrefixSnoc(m, slots, n);
      PrefixFields(m, slots, n - 1, p);
      ContributionFields(m, slots[n - 1], n - 1, p);
      OrDisjointField(x, y, p);
    }
  }

  /** No slot reaches the low nibble of the DIO word. */
  lemma {:induction false} PrefixNibble(m: Mode, slots: seq<Option<DioMapping>>, n: nat)
    requires WellFormed(slots) && n <= 6
    ensures Contributions(m, slots[..n]) & 0x0F == 0
  {
    if n > 0 {
      var x := Contributions(m, slots[..n - 1]);
      var y := Contribution(m, slots[n - 1]);
      PrefixSnoc(m, slots, n);
      PrefixNibble(m, slots, n - 1);
      ContributionNibble(m, slots[n - 1], n - 1);
      OrLowNibble(x, y);
    }
  }

  /** The first n slots' word is that of the first n - 1 slots with the n-th slot's contribution OR-ed in. */
  lemma PrefixSnoc(m: Mode, slots: seq<Option<DioMapping>>, n: nat)
    requires 0 < n <= |slots|
    ensures Contributions(m, slots[..n]) == Contributions(m, slots[..n - 1]) | Contribution(m, slots[n - 1])
  {
    var pre := slots[..n];
    assert pre[..n - 1] == slots[..n - 1];
    OrCongruence(Contributions(m, pre[..n - 1]), Contribution(m, pre[n - 1]), Contributions(m, slots[..n - 1]), Contribution(m, slots[n - 1]));
  }

  /**
   * The DIO word written for mode `m`: every pin's field is the type of its mapping
   * when that mapping is active in `m` and 0 otherwise; the low nibble is ClkOut off.
   */
  lemma DioWordFields(m: Mode, slots: seq<Option<DioMapping>>, p: DioPin)
    requires WellFormed(slots)
    ensures Field(DioWord(m, slots), p) == Expected(m, slots[PinIndex(p)])
    ensures DioWord(m, slots) & 0x0F == 0x07
  {
    var c := Contributions(m, slots);
    PrefixFields(m, slots, 6, p);
    PrefixNibble(m, slots, 6);
    assert slots[..6] == slots;
    ClkOutWord(c, p);
  }

  /** OR-ing in the ClkOut bits sets the low nibble to 0x7 and leaves every pin's field alone. */
  lemma ClkOutWord(c: bv16, p: DioPin)
    requires c & 0x0F == 0
    ensures Field(0x07 | c, p) == Field(c, p)
    ensures (0x07 | c) & 0x0F == 0x07
  {
    match p
    case Dio0 =>
    case Dio1 =>
    case Dio2 =>
    case Dio3 =>
    case Dio4 =>
    case Dio5 =>
  }

  /** A slot with its mapping removed when that mapping is not active in `m`. */
  function Keep(m: Mode, slot: Option<DioMapping>): Option<DioMapping>
  {
    if slot.Some? && ActiveIn(slot.value.dioMode, m) then slot else None
  }

  /** The slots with every mapping that is not active in `m` removed. */
  function ActiveOnly(m: Mode, slots: seq<Option<DioMapping>>): (r: seq<Option<DioMapping>>)
    ensures |r| == |slots|
    ensures forall i :: 0 <= i < |slots| ==> r[i] == Keep(m, slots[i])
  {
    if |slots| == 0 then [] else ActiveOnly(m, slots[..|slots| - 1]) + [Keep(m, slots[|slots| - 1])]
  }

  /** Mappings meant for other modes contribute nothing: the word is that of the active mappings alone. */
  lemma DioWordIgnoresInactive(m: Mode, slots: seq<Option<DioMapping>>)
    ensures DioWord(m, slots) == DioWord(m, ActiveOnly(m, slots))
  {
    ContributionsIgnoreInactive(m, slots);
    OrCongruence(0x07, Contributions(m, slots), 0x07, Contributions(m, ActiveOnly(m, slots)));
  }

  lemma {:induction false} ContributionsIgnoreInactive(m: Mode, slots: seq<Option<DioMapping>>)
    ensures Contributions(m, slots) == Contributions(m, ActiveOnly(m, slots))
  {
    if |slots| > 0 {
      var n := |slots|;
      var last := slots[n - 1];
      var pre := ActiveOnly(m, slots[..n - 1]);
      ContributionsIgnoreInactive(m, slots[..n - 1]);
      KeepContribution(m, last);
      ContributionsSnoc(m, pre, Keep(m, last));
      OrCongruence(Contributions(m, slots[..n - 1]), Contribution(m, last), Contributions(m, pre), Contribution(m, Keep(m, last)));
    }
  }

  lemma OrCongruence(a: bv16, b: bv16, c: bv16, d: bv16)
    requires a == c && b == d
    ensures a | b == c | d
  {
  }

  /** Adding one slot at the end ORs in its contribution. */
  lemma ContributionsSnoc(m: Mode, pre: seq<Option<DioMapping>>, slot: Option<DioMapping>)
    ensures Contributions(m, pre + [slot]) == Contributions(m, pre) | Contribution(m, slot)
  {
    assert (pre + [slot])[..|pre|] == pre;
  }

  /** A slot contributes the same with or without its inactive mapping. */
  lemma KeepContribution(m: Mode, slot: Option<DioMapping>)
    ensures Contribution(m, Keep(m, slot)) == Contribution(m, slot)
  {
  }
}
