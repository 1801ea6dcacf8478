/**
 * What the driver's operations promise, proved about their functions in `Ops`
 * (and so, through each method's postcondition, about the methods of `Rfm.Rfm69`).
 *
 * Register contents are read through `Get`, so "nothing else changes" is stated
 * address by address; bus traffic is stated on the trace, or on its writes
 * (`Writes`) and the bytes it sends to the FIFO (`FifoData`) where polls of
 * unknown length sit in between.
 */
module Properties {
  import opened Wrappers
  import opened Registers
  import opened Encoding
  import opened Bus
  import opened Ops

  /** The register file's byte at register `r`'s address. */
  function RegByte(s: State, r: Reg): byte
  {
    Get(s.chip.regs, Addr(r))
  }

  /** Only the chip's trace, budget and register file may differ. */
  predicate SameShadow(s: State, s': State)
  {
    s'.mode == s.mode && s'.dio == s.dio && s'.rssi == s.rssi &&
    s'.chip.rx == s.chip.rx && s'.chip.irq1 == s.chip.irq1 && s'.chip.irq2 == s.chip.irq2
  }

  /** Neither a register, a shadow field, a write nor a FIFO byte sent differs: only reads happened. */
  predicate Quiet(s: State, s': State)
  {
    s'.chip.regs == s.chip.regs && s'.mode == s.mode && s'.dio == s.dio && s'.rssi == s.rssi &&
    Writes(s'.chip.trace) == Writes(s.chip.trace) && FifoData(s'.chip.trace) == FifoData(s.chip.trace)
  }

  // ---------------------------------------------------------------- register access

  /** A write either fails with nothing changed, or stores the bytes and logs one write. */
  lemma WriteManyFacts(s: State, r: Reg, data: seq<byte>)
    ensures var (s', res) := WriteManyOp(s, r, data);
      SameShadow(s, s') &&
      (res.Ok? <==> s.chip.budget > 0) &&
      (res.Err? ==> s' == s && res == Err(Spi)) &&
      (res.Ok? ==>
        s'.chip.trace == s.chip.trace + [Write(r, data)] && s'.chip.budget == s.chip.budget - 1 &&
        s'.chip.regs == (if r == Fifo then s.chip.regs else Store(s.chip.regs, Addr(r), data)))
  {
    TransmitFacts(s.chip, r, data);
  }

  /** A one-byte read of a configuration register returns its byte and changes only the trace and budget. */
  lemma ReadFacts(s: State, r: Reg)
    requires !Volatile(r)
    ensures var (s', res) := ReadOp(s, r);
      (res.Ok? <==> s.chip.budget > 0) &&
      (res.Err? ==> s' == s && res == Err(Spi)) &&
      (res.Ok? ==>
        res.value == RegByte(s, r) &&
        s' == s.(chip := s.chip.(trace := s.chip.trace + [Read(r, 1)], budget := s.chip.budget - 1)))
  {
    TransferFacts(s.chip, r, 1);
  }

  /** A one-byte write stores exactly that byte at the register's address. */
  lemma StoreOne(regs: map<nat, byte>, a: nat, b: byte)
    ensures Store(regs, a, [b]) == regs[a := b]
  {
    assert [b][1..] == [];
  }

  /**
   * Read-modify-write: two transactions, a read then a write of the merged byte;
   * the register gets `(old & keep) | bits` and no other register or shadow field changes.
   */
  lemma UpdateFacts(s: State, r: Reg, keep: byte, bits: byte)
    requires !Volatile(r)
    ensures var (s', res) := UpdateOp(s, r, keep, bits);
      var b := Merge(RegByte(s, r), keep, bits);
      SameShadow(s, s') &&
      (res.Ok? <==> s.chip.budget >= 2) &&
      (res.Err? ==> res == Err(Spi) && s'.chip.regs == s.chip.regs && Writes(s'.chip.trace) == Writes(s.chip.trace)) &&
      (res.Ok? ==>
        s'.chip.regs == s.chip.regs[Addr(r) := b] &&
        s'.chip.trace == s.chip.trace + [Read(r, 1), Write(r, [b])] &&
        s'.chip.budget == s.chip.budget - 2)
  {
    ReadFacts(s, r);
    var b := Merge(RegByte(s, r), keep, bits);
    var (s1, v) := ReadOp(s, r);
    if v.Ok? {
      WriteManyFacts(s1, r, [Merge(v.value, keep, bits)]);
      StoreOne(s1.chip.regs, Addr(r), Merge(v.value, keep, bits));
      var (s2, w) := WriteOp(s1, r, Merge(v.value, keep, bits));
      if w.Err? {
        WritesSnoc(s.chip.trace, Read(r, 1));
      }
      assert s.chip.trace + [Read(r, 1)] + [Write(r, [b])] == s.chip.trace + [Read(r, 1), Write(r, [b])];
    }
  }

  // ---------------------------------------------------------------- mode and DIO

  /** The writes one successful mode change makes: RegOpMode, then the DIO word for the new mode. */
  function ModeWrites(prev: byte, m: Mode, dio: seq<Option<DioMapping>>): seq<Event>
  {
    [Write(OpMode, [ModeByte(prev, m)]), Write(DioMapping1, Be16(DioWord(m, dio)))]
  }

  /**
   * `mode`: RegOpMode becomes `(old & 0xE3) | code`, the shadow mode changes exactly
   * when that write went through, and the DIO word for the new mode is rewritten.
   */
  lemma ModeFacts(s: State, m: Mode)
    ensures var (s', res) := ModeOp(s, m);
      var b := ModeByte(RegByte(s, OpMode), m);
      s'.mode == (if s.chip.budget >= 2 then m else s.mode) &&
      s'.dio == s.dio && s'.rssi == s.rssi &&
      s'.chip.rx == s.chip.rx && s'.chip.irq1 == s.chip.irq1 && s'.chip.irq2 == s.chip.irq2 &&
      (res.Ok? <==> s.chip.budget >= 3) &&
      (res.Err? ==> res == Err(Spi)) &&
      (res.Ok? ==>
        s'.chip.trace == s.chip.trace + [Read(OpMode, 1)] + ModeWrites(RegByte(s, OpMode), m, s.dio) &&
        s'.chip.regs == Store(s.chip.regs[Addr(OpMode) := b], Addr(DioMapping1), Be16(DioWord(m, s.dio))) &&
        RegByte(s', OpMode) == b)
  {
    var b := ModeByte(RegByte(s, OpMode), m);
    UpdateFacts(s, OpMode, 0xE3, ModeCode(m));
    var (s1, u) := UpdateOp(s, OpMode, 0xE3, ModeCode(m));
    if u.Ok? {
      var w := Be16(DioWord(m, s.dio));
      WriteManyFacts(s1.(mode := m), DioMapping1, w);
      StoreGet(s1.chip.regs, Addr(DioMapping1), w, Addr(OpMode));
      assert s.chip.trace + [Read(OpMode, 1), Write(OpMode, [b])] + [Write(DioMapping1, w)] ==
        s.chip.trace + [Read(OpMode, 1)] + ModeWrites(RegByte(s, OpMode), m, s.dio);
    }
  }

  /** Writes and FIFO data of a trace extended by a mode change's events. */
  lemma ModeWritesLog(t: seq<Event>, prev: byte, m: Mode, dio: seq<Option<DioMapping>>)
    ensures Writes(t + [Read(OpMode, 1)] + ModeWrites(prev, m, dio)) == Writes(t) + ModeWrites(prev, m, dio)
    ensures FifoData(t + [Read(OpMode, 1)] + ModeWrites(prev, m, dio)) == FifoData(t)
  {
    var e1, e2 := Write(OpMode, [ModeByte(prev, m)]), Write(DioMapping1, Be16(DioWord(m, dio)));
    var t1 := t + [Read(OpMode, 1)];
    var t2 := t1 + [e1];
    WritesSnoc(t, Read(OpMode, 1));
    WritesSnoc(t1, e1);
    WritesSnoc(t2, e2);
    assert t1 + ModeWrites(prev, m, dio) == t2 + [e2];
  }

  /**
   * `dio_mapping`: the pin's slot holds the mapping (also when the write then fails),
   * no other slot changes, and a successful call writes a DIO word whose every pin
   * field shows that pin's mapping if it is active in the current mode, else 0.
   */
  lemma DioMappingFacts(s: State, d: DioMapping)
    requires WellFormed(s.dio)
    ensures var (s', res) := DioMappingOp(s, d);
      var k := PinIndex(d.pin);
      WellFormed(s'.dio) && s'.dio[k] == Some(d) &&
      (forall j :: 0 <= j < 6 && j != k ==> s'.dio[j] == s.dio[j]) &&
      s'.mode == s.mode && s'.rssi == s.rssi &&
      (res.Ok? <==> s.chip.budget > 0) &&
      (res.Ok? ==>
        s'.chip.trace == s.chip.trace + [Write(DioMapping1, Be16(DioWord(s.mode, s'.dio)))] &&
        forall p :: Field(DioWord(s.mode, s'.dio), p) == Expected(s.mode, s'.dio[PinIndex(p)]))
  {
    var s1 := s.(dio := s.dio[PinIndex(d.pin) := Some(d)]);
    WriteManyFacts(s1, DioMapping1, Be16(DioWord(s.mode, s1.dio)));
    forall p {
      DioWordFields(s.mode, s1.dio, p);
    }
  }

  /** `clear_dio`: the pin's slot is emptied, no other slot changes, and the pin's field becomes 0. */
  lemma ClearDioFacts(s: State, p: DioPin)
    requires WellFormed(s.dio)
    ensures var (s', res) := ClearDioOp(s, p);
      var k := PinIndex(p);
      WellFormed(s'.dio) && s'.dio[k] == None &&
      (forall j :: 0 <= j < 6 && j != k ==> s'.dio[j] == s.dio[j]) &&
      s'.mode == s.mode && s'.rssi == s.rssi &&
      (res.Ok? <==> s.chip.budget > 0) &&
      (res.Ok? ==>
        s'.chip.trace == s.chip.trace + [Write(DioMapping1, Be16(DioWord(s.mode, s'.dio)))] &&
        Field(DioWord(s.mode, s'.dio), p) == 0)
  {
    var s1 := s.(dio := s.dio[PinIndex(p) := None]);
    WriteManyFacts(s1, DioMapping1, Be16(DioWord(s.mode, s1.dio)));
    DioWordFields(s.mode, s1.dio, p);
  }

  // ---------------------------------------------------------------- setters

  /**
   * `sync`: more than 8 bytes is `SyncSize` with no bus traffic; no bytes turns sync
   * detection off (only bit 7 of RegSyncConfig cleared); 1 to 8 bytes write the
   * sync configuration byte, then the bytes from RegSyncValue1 on, and no other register.
   */
  lemma SyncFacts(s: State, sync: seq<byte>)
    ensures var (s', res) := SyncOp(s, sync);
      SameShadow(s, s') &&
      (|sync| > 8 ==> s' == s && res == Err(SyncSize)) &&
      (|sync| == 0 ==>
        (res.Ok? <==> s.chip.budget >= 2) &&
        (res.Ok? ==>
          s'.chip.trace == s.chip.trace + [Read(SyncConfig, 1), Write(SyncConfig, [SyncOffByte(RegByte(s, SyncConfig))])] &&
          s'.chip.regs == s.chip.regs[Addr(SyncConfig) := SyncOffByte(RegByte(s, SyncConfig))])) &&
      (1 <= |sync| <= 8 ==>
        (res.Ok? <==> s.chip.budget >= 2) &&
        (res.Ok? ==>
          s'.chip.trace == s.chip.trace + [Write(SyncConfig, [SyncConfigByte(|sync|)]), Write(SyncValue1, sync)] &&
          RegByte(s', SyncConfig) == SyncConfigByte(|sync|) &&
          (forall i :: 0 <= i < |sync| ==> Get(s'.chip.regs, Addr(SyncValue1) + i) == sync[i]) &&
          forall a: nat :: a != Addr(SyncConfig) && !(Addr(SyncValue1) <= a < Addr(SyncValue1) + |sync|) ==>
            Get(s'.chip.regs, a) == Get(s.chip.regs, a)))
  {
    if |sync| == 0 {
      UpdateFacts(s, SyncConfig, 0x7F, 0x00);
    } else if |sync| <= 8 {
      var c := SyncConfigByte(|sync|);
      WriteManyFacts(s, SyncConfig, [c]);
      var (s1, w) := WriteOp(s, SyncConfig, c);
      if w.Ok? {
        WriteManyFacts(s1, SyncValue1, sync);
        StoreOne(s.chip.regs, Addr(SyncConfig), c);
        StoreGet(s1.chip.regs, Addr(SyncValue1), sync, Addr(SyncConfig));
        forall i | 0 <= i < |sync| {
          StoreGet(s1.chip.regs, Addr(SyncValue1), sync, Addr(SyncValue1) + i);
        }
        forall a: nat | a != Addr(SyncConfig) && !(Addr(SyncValue1) <= a < Addr(SyncValue1) + |sync|) {
          StoreGet(s1.chip.regs, Addr(SyncValue1), sync, a);
        }
        assert s.chip.trace + [Write(SyncConfig, [c])] + [Write(SyncValue1, sync)] ==
          s.chip.trace + [Write(SyncConfig, [c]), Write(SyncValue1, sync)];
      }
    }
  }

  /**
   * `aes`: no key clears only bit 0 of RegPacketConfig2; a 16-byte key sets only bit 0
   * and then writes the key from RegAesKey1 on, and no other register; any other length is `AesKeySize`
   * with no bus traffic.
   */
  lemma AesFacts(s: State, key: seq<byte>)
    ensures var (s', res) := AesOp(s, key);
      SameShadow(s, s') &&
      (|key| != 0 && |key| != 16 ==> s' == s && res == Err(AesKeySize)) &&
      (|key| == 0 ==>
        (res.Ok? <==> s.chip.budget >= 2) &&
        (res.Ok? ==> s'.chip.regs == s.chip.regs[Addr(PacketConfig2) := AesOffByte(RegByte(s, PacketConfig2))])) &&
      (|key| == 16 ==>
        (res.Ok? <==> s.chip.budget >= 3) &&
        (res.Ok? ==>
          s'.chip.trace == s.chip.trace +
            [Read(PacketConfig2, 1), Write(PacketConfig2, [AesOnByte(RegByte(s, PacketConfig2))]), Write(AesKey1, key)] &&
          RegByte(s', PacketConfig2) == AesOnByte(RegByte(s, PacketConfig2)) &&
          (forall i :: 0 <= i < 16 ==> Get(s'.chip.regs, Addr(AesKey1) + i) == key[i]) &&
          forall a: nat :: a != Addr(PacketConfig2) && !(Addr(AesKey1) <= a < Addr(AesKey1) + 16) ==>
            Get(s'.chip.regs, a) == Get(s.chip.regs, a)))
  {
    if |key| == 0 {
      UpdateFacts(s, PacketConfig2, 0xFE, 0x00);
    } else if |key| == 16 {
      var b := AesOnByte(RegByte(s, PacketConfig2));
      UpdateFacts(s, PacketConfig2, 0xFF, 0x01);
      var (s1, u) := UpdateOp(s, PacketConfig2, 0xFF, 0x01);
      if u.Ok? {
        WriteManyFacts(s1, AesKey1, key);
        StoreGet(s1.chip.regs, Addr(AesKey1), key, Addr(PacketConfig2));
        forall i | 0 <= i < 16 {
          StoreGet(s1.chip.regs, Addr(AesKey1), key, Addr(AesKey1) + i);
        }
        forall a: nat | a != Addr(PacketConfig2) && !(Addr(AesKey1) <= a < Addr(AesKey1) + 16) {
          StoreGet(s1.chip.regs, Addr(AesKey1), key, a);
        }
        assert s.chip.trace + [Read(PacketConfig2, 1), Write(PacketConfig2, [b])] + [Write(AesKey1, key)] ==
          s.chip.trace + [Read(PacketConfig2, 1), Write(PacketConfig2, [b]), Write(AesKey1, key)];
      }
    }
  }

  /** The first write of `packet`: RegPacketConfig1 and RegPayloadLength, with RegPacketConfig2 untouched. */
  lemma PacketConfig1Write(s: State, pc: PacketConfig)
    ensures var (s1, w) := WriteManyOp(s, PacketConfig1, PacketConfig1Bytes(pc));
      SameShadow(s, s1) &&
      (w.Ok? <==> s.chip.budget > 0) &&
      (w.Err? ==> s1 == s && w == Err(Spi)) &&
      (w.Ok? ==>
        s1.chip.trace == s.chip.trace + [Write(PacketConfig1, PacketConfig1Bytes(pc))] &&
        s1.chip.budget == s.chip.budget - 1 &&
        s1.chip.regs == Store(s.chip.regs, Addr(PacketConfig1), PacketConfig1Bytes(pc)) &&
        Get(s1.chip.regs, Addr(PacketConfig1)) == PacketConfig1Bytes(pc)[0] &&
        Get(s1.chip.regs, Addr(PacketConfig1) + 1) == pc.format.size &&
        Get(s1.chip.regs, Addr(PacketConfig2)) == Get(s.chip.regs, Addr(PacketConfig2)))
  {
    var bytes := PacketConfig1Bytes(pc);
    WriteManyFacts(s, PacketConfig1, bytes);
    StoreGet(s.chip.regs, Addr(PacketConfig1), bytes, Addr(PacketConfig1));
    StoreGet(s.chip.regs, Addr(PacketConfig1), bytes, Addr(PacketConfig1) + 1);
    StoreGet(s.chip.regs, Addr(PacketConfig1), bytes, Addr(PacketConfig2));
  }

  /**
   * `packet`: RegPacketConfig1 and RegPayloadLength get the format, DC-free, filtering
   * and CRC settings and the length; then RegPacketConfig2 keeps bits 3, 2 and 0 and
   * takes the inter-packet delay and auto-restart bits.
   */
  lemma PacketFacts(s: State, pc: PacketConfig)
    ensures var (s', res) := PacketOp(s, pc);
      var b := PacketConfig2Byte(Get(Store(s.chip.regs, Addr(PacketConfig1), PacketConfig1Bytes(pc)), Addr(PacketConfig2)), pc);
      SameShadow(s, s') &&
      (res.Ok? <==> s.chip.budget >= 3) &&
      (res.Ok? ==>
        s'.chip.trace == s.chip.trace +
          [Write(PacketConfig1, PacketConfig1Bytes(pc)), Read(PacketConfig2, 1), Write(PacketConfig2, [b])] &&
        Get(s'.chip.regs, Addr(PacketConfig1)) == PacketConfig1Bytes(pc)[0] &&
        Get(s'.chip.regs, Addr(PacketConfig1) + 1) == pc.format.size &&
        RegByte(s', PacketConfig2) == b &&
        b & 0x0D == RegByte(s, PacketConfig2) & 0x0D)
  {
    var bytes := PacketConfig1Bytes(pc);
    PacketConfig1Write(s, pc);
    var (s1, w) := WriteManyOp(s, PacketConfig1, bytes);
    if w.Ok? {
      UpdateFacts(s1, PacketConfig2, 0x0D, PacketConfig2Bits(pc));
      var b := PacketConfig2Byte(RegByte(s1, PacketConfig2), pc);
      assert s.chip.trace + [Write(PacketConfig1, bytes)] + [Read(PacketConfig2, 1), Write(PacketConfig2, [b])] ==
        s.chip.trace + [Write(PacketConfig1, bytes), Read(PacketConfig2, 1), Write(PacketConfig2, [b])];
    }
  }

  /**
   * `fifo_mode`: `NotEmpty` sets only bit 7 of RegFifoThresh by read-modify-write;
   * `Level(n)` writes `n & 0x7F`, bit 7 clear, with no read.
   */
  lemma FifoModeFacts(s: State, fm: FifoMode)
    ensures var (s', res) := FifoModeOp(s, fm);
      SameShadow(s, s') &&
      (fm.NotEmpty? ==>
        (res.Ok? <==> s.chip.budget >= 2) &&
        (res.Ok? ==>
          s'.chip.trace == s.chip.trace + [Read(FifoThresh, 1), Write(FifoThresh, [FifoNotEmptyByte(RegByte(s, FifoThresh))])] &&
          s'.chip.regs == s.chip.regs[Addr(FifoThresh) := FifoNotEmptyByte(RegByte(s, FifoThresh))])) &&
      (fm.Level? ==>
        (res.Ok? <==> s.chip.budget >= 1) &&
        (res.Ok? ==>
          s'.chip.trace == s.chip.trace + [Write(FifoThresh, [FifoLevelByte(fm.level)])] &&
          s'.chip.regs == s.chip.regs[Addr(FifoThresh) := FifoLevelByte(fm.level)] &&
          RegByte(s', FifoThresh) < 0x80))
  {
    match fm
    case NotEmpty =>
      UpdateFacts(s, FifoThresh, 0xFF, 0x80);
    case Level(level) =>
      WriteManyFacts(s, FifoThresh, [FifoLevelByte(level)]);
      StoreOne(s.chip.regs, Addr(FifoThresh), FifoLevelByte(level));
  }

  /** `lna`: RegLna keeps bits 6..3 and takes the impedance and gain selection. */
  lemma LnaFacts(s: State, l: LnaConfig)
    ensures var (s', res) := LnaOp(s, l);
      SameShadow(s, s') &&
      (res.Ok? <==> s.chip.budget >= 2) &&
      (res.Ok? ==> s'.chip.regs == s.chip.regs[Addr(Lna) := LnaByte(RegByte(s, Lna), l)])
  {
    UpdateFacts(s, Lna, 0x78, LnaBits(l));
  }

  /** A multi-byte register write reads back, from its address on, as the bytes written. */
  lemma StoredBytes(s: State, s': State, r: Reg, data: seq<byte>)
    requires r != Fifo && s'.chip.regs == Store(s.chip.regs, Addr(r), data)
    ensures forall i :: 0 <= i < |data| ==> Get(s'.chip.regs, Addr(r) + i) == data[i]
  {
    forall i | 0 <= i < |data| {
      StoreGet(s.chip.regs, Addr(r), data, Addr(r) + i);
    }
  }

  /** `preamble`: RegPreambleMsb/Lsb read back, big-endian, as the preamble length. */
  lemma PreambleFacts(s: State, v: bv16)
    ensures var (s', res) := PreambleOp(s, v);
      SameShadow(s, s') &&
      (res.Ok? <==> s.chip.budget > 0) &&
      (res.Ok? ==>
        s'.chip.trace == s.chip.trace + [Write(PreambleMsb, Be16(v))] &&
        FromBe16([RegByte(s', PreambleMsb), Get(s'.chip.regs, Addr(PreambleMsb) + 1)]) == v)
  {
    WriteManyFacts(s, PreambleMsb, Be16(v));
    var (s', res) := PreambleOp(s, v);
    if res.Ok? {
      StoredBytes(s, s', PreambleMsb, Be16(v));
      assert [RegByte(s', PreambleMsb), Get(s'.chip.regs, Addr(PreambleMsb) + 1)] == Be16(v);
    }
  }

  /** `frequency`: RegFrfMsb/Mid/Lsb read back, big-endian, as the low 24 bits of the register value. */
  lemma FrequencyFacts(s: State, v: bv32)
    ensures var (s', res) := FrequencyOp(s, v);
      SameShadow(s, s') &&
      (res.Ok? <==> s.chip.budget > 0) &&
      (res.Ok? ==>
        s'.chip.trace == s.chip.trace + [Write(FrfMsb, Be24(v))] &&
        FromBe24([RegByte(s', FrfMsb), Get(s'.chip.regs, Addr(FrfMsb) + 1), Get(s'.chip.regs, Addr(FrfMsb) + 2)]) ==
          v & 0xFF_FFFF)
  {
    WriteManyFacts(s, FrfMsb, Be24(v));
    var (s', res) := FrequencyOp(s, v);
    if res.Ok? {
      StoredBytes(s, s', FrfMsb, Be24(v));
      assert [RegByte(s', FrfMsb), Get(s'.chip.regs, Addr(FrfMsb) + 1), Get(s'.chip.regs, Addr(FrfMsb) + 2)] == Be24(v);
    }
  }

  /** `bit_rate`: RegBitrateMsb/Lsb read back, big-endian, as the register value. */
  lemma BitRateFacts(s: State, v: bv16)
    ensures var (s', res) := BitRateOp(s, v);
      SameShadow(s, s') &&
      (res.Ok? <==> s.chip.budget > 0) &&
      (res.Ok? ==> FromBe16([RegByte(s', BitrateMsb), Get(s'.chip.regs, Addr(BitrateMsb) + 1)]) == v)
  {
    WriteManyFacts(s, BitrateMsb, Be16(v));
    var (s', res) := BitRateOp(s, v);
    if res.Ok? {
      StoredBytes(s, s', BitrateMsb, Be16(v));
      assert [RegByte(s', BitrateMsb), Get(s'.chip.regs, Addr(BitrateMsb) + 1)] == Be16(v);
    }
  }

  /** `fdev`: RegFdevMsb/Lsb read back, big-endian, as the register value. */
  lemma FdevFacts(s: State, v: bv16)
    ensures var (s', res) := FdevOp(s, v);
      SameShadow(s, s') &&
      (res.Ok? <==> s.chip.budget > 0) &&
      (res.Ok? ==> FromBe16([RegByte(s', FdevMsb), Get(s'.chip.regs, Addr(FdevMsb) + 1)]) == v)
  {
    WriteManyFacts(s, FdevMsb, Be16(v));
    var (s', res) := FdevOp(s, v);
    if res.Ok? {
      StoredBytes(s, s', FdevMsb, Be16(v));
      assert [RegByte(s', FdevMsb), Get(s'.chip.regs, Addr(FdevMsb) + 1)] == Be16(v);
    }
  }

  // ---------------------------------------------------------------- flags and waiting

  /**
   * One flag test: either a failed read with nothing changed, or one read of the flag's
   * IRQ register that consumes the register's next scripted byte and tests it.
   */
  lemma FlagFacts(s: State, f: Flag)
    ensures var (s', d) := FlagOp(s, f);
      var q := Script(s.chip, FlagReg(f));
      (d.Ok? <==> s.chip.budget > 0 && |q| > 0) &&
      (d.Err? ==> s' == s && d == Err(Spi)) &&
      (d.Ok? ==>
        d.value == FlagHolds(f, q[0]) &&
        Script(s'.chip, FlagReg(f)) == q[1..] &&
        s'.chip.trace == s.chip.trace + [Read(FlagReg(f), 1)] && s'.chip.budget == s.chip.budget - 1 &&
        s'.mode == s.mode && s'.dio == s.dio && s'.rssi == s.rssi &&
        s'.chip.regs == s.chip.regs && s'.chip.rx == s.chip.rx &&
        (FlagReg(f) == IrqFlags1 ==> s'.chip.irq2 == s.chip.irq2) &&
        (FlagReg(f) == IrqFlags2 ==> s'.chip.irq1 == s.chip.irq1))
  {
    TransferFacts(s.chip, FlagReg(f), 1);
  }

  /** A flag test that goes through: the next scripted byte of the flag's register, tested. */
  lemma FlagRead(s: State, f: Flag)
    requires s.chip.budget > 0 && |Script(s.chip, FlagReg(f))| > 0
    ensures FlagOp(s, f).1 == Ok(FlagHolds(f, Script(s.chip, FlagReg(f))[0]))
    ensures Script(FlagOp(s, f).0.chip, FlagReg(f)) == Script(s.chip, FlagReg(f))[1..]
    ensures FlagOp(s, f).0.chip.trace == s.chip.trace + [Read(FlagReg(f), 1)]
    ensures FlagOp(s, f).0.chip.budget == s.chip.budget - 1
  {
    FlagFacts(s, f);
  }

  /** A flag test is a status poll: it only reads. */
  lemma FlagFrame(s: State, f: Flag)
    ensures PollFrame(s, FlagOp(s, f).0)
  {
    FlagFacts(s, f);
    WritesSnoc(s.chip.trace, Read(FlagReg(f), 1));
  }

  lemma PollFrameTrans(s: State, s1: State, s2: State)
    requires PollFrame(s, s1) && PollFrame(s1, s2)
    ensures PollFrame(s, s2)
  {
  }

  /** A delay is recorded and changes nothing else. */
  lemma DelayFrame(s: State, ms: nat)
    ensures PollFrame(s, s.(chip := DelayMs(s.chip, ms)))
  {
    WritesSnoc(s.chip.trace, Delay(ms));
  }

  /** A busy wait only reads status: no register, FIFO byte or shadow field changes, nothing is written. */
  lemma {:induction false} PollFrames(s: State, f: Flag, holding: bool)
    ensures PollFrame(s, PollOp(s, f, holding).0)
    ensures PollOp(s, f, holding).1.Err? ==> PollOp(s, f, holding).1 == Err(Spi)
    decreases |Script(s.chip, FlagReg(f))|
  {
    var (s1, d) := FlagOp(s, f);
    FlagFrame(s, f);
    FlagFacts(s, f);
    if d.Ok? && d.value == holding {
      PollFrames(s1, f, holding);
      PollFrameTrans(s, s1, PollOp(s1, f, holding).0);
    }
  }

  /** The retry loop only reads status and waits. */
  lemma {:induction false} RetryFrames(s: State, timeout: nat, step: nat, f: Flag, count: nat, done: bool)
    requires 0 < step
    ensures PollFrame(s, RetryOp(s, timeout, step, f, count, done).0)
    decreases if count < timeout then timeout - count else 0
  {
    if !done && count < timeout {
      var s1 := s.(chip := DelayMs(s.chip, step));
      var p := FlagOp(s1, f);
      RetryStep(s, timeout, step, f, count, p.0, p.1);
      DelayFrame(s, step);
      FlagFrame(s1, f);
      PollFrameTrans(s, s1, p.0);
      if p.1.Ok? {
        RetryFrames(p.0, timeout, step, f, count + step, p.1.value);
        PollFrameTrans(s, p.0, RetryOp(p.0, timeout, step, f, count + step, p.1.value).0);
      }
    }
  }

  /** `with_timeout` only reads status and waits. */
  lemma WithTimeoutFrame(s: State, timeout: nat, step: nat, f: Flag)
    requires 0 < step
    ensures PollFrame(s, WithTimeoutOp(s, timeout, step, f).0)
  {
    var (s1, d) := FlagOp(s, f);
    FlagFrame(s, f);
    if d.Ok? {
      RetryFrames(s1, timeout, step, f, 0, d.value);
      PollFrameTrans(s, s1, RetryOp(s1, timeout, step, f, 0, d.value).0);
    }
  }

  /** How many delay-and-retest rounds the retry loop makes, at most, from counter `count`. */
  function Rounds(timeout: nat, step: nat, count: nat): nat
    requires 0 < step
    decreases if count < timeout then timeout - count else 0
  {
    if count < timeout then 1 + Rounds(timeout, step, count + step) else 0
  }

  /** A timeout of `k` whole steps takes exactly `k` rounds. */
  lemma {:induction false} RoundsMultiple(step: nat, k: nat, count: nat)
    requires 0 < step
    ensures Rounds(count + k * step, step, count) == k
    decreases k
  {
    if k > 0 {
      assert count + k * step == (count + step) + (k - 1) * step;
      RoundsMultiple(step, k - 1, count + step);
    }
  }

  /** The counter after the last round never exceeds `timeout + step - 1`. */
  lemma {:induction false} RoundsBound(timeout: nat, step: nat, count: nat)
    requires 0 < step && count < timeout
    ensures count + step * Rounds(timeout, step, count) <= timeout + step - 1
    decreases timeout - count
  {
    var n := Rounds(timeout, step, count + step);
    if count + step < timeout {
      RoundsBound(timeout, step, count + step);
    }
    assert step * (1 + n) == step + step * n;
  }

  /** `n` rounds of the retry loop: a delay of `step`, then one read of register `r`. */
  function DelayReads(step: nat, r: Reg, n: nat): (t: seq<Event>)
    ensures |t| == 2 * n
  {
    if n == 0 then [] else [Delay(step), Read(r, 1)] + DelayReads(step, r, n - 1)
  }

  /**
   * The first test decides alone when it fails (the error, nothing changed) or when
   * the flag already holds (`Ok` after that one read, with no delay).
   */
  lemma WithTimeoutFirst(s: State, timeout: nat, step: nat, f: Flag)
    requires 0 < step
    ensures var (s1, d) := FlagOp(s, f);
      var out := WithTimeoutOp(s, timeout, step, f);
      (d.Err? ==> out.0 == s && out.1 == Err(Spi)) &&
      (d.Ok? && d.value ==> out.0 == s1 && out.1.Ok? && s1.chip.trace == s.chip.trace + [Read(FlagReg(f), 1)])
  {
    FlagFacts(s, f);
  }

  /** The flag holds in none of the next `n` bytes of script `q`. */
  predicate NeverHolds(f: Flag, q: seq<byte>, n: nat)
    decreases n
  {
    n == 0 || (|q| > 0 && !FlagHolds(f, q[0]) && NeverHolds(f, q[1..], n - 1))
  }

  /** One round of the retry loop when the flag does not hold in the byte it reads. */
  lemma NeverStep(s: State, timeout: nat, step: nat, f: Flag, count: nat)
    requires 0 < step && count < timeout
    requires NeverHolds(f, Script(s.chip, FlagReg(f)), Rounds(timeout, step, count))
    requires Rounds(timeout, step, count) <= s.chip.budget
    ensures var s2 := FlagOp(s.(chip := DelayMs(s.chip, step)), f).0;
      RetryOp(s, timeout, step, f, count, false) == RetryOp(s2, timeout, step, f, count + step, false) &&
      NeverHolds(f, Script(s2.chip, FlagReg(f)), Rounds(timeout, step, count + step)) &&
      Rounds(timeout, step, count + step) <= s2.chip.budget &&
      s2.chip.trace == s.chip.trace + [Delay(step), Read(FlagReg(f), 1)]
  {
    var s1 := s.(chip := DelayMs(s.chip, step));
    FlagRead(s1, f);
    RetryStep(s, timeout, step, f, count, FlagOp(s1, f).0, FlagOp(s1, f).1);
  }

  /** When the flag never holds in the next rounds' reads, the retry loop ends with `Timeout`. */
  lemma {:induction false} RetryNever(s: State, timeout: nat, step: nat, f: Flag, count: nat)
    requires 0 < step
    requires NeverHolds(f, Script(s.chip, FlagReg(f)), Rounds(timeout, step, count))
    requires Rounds(timeout, step, count) <= s.chip.budget
    ensures RetryOp(s, timeout, step, f, count, false).1 == Err(Timeout)
    decreases if count < timeout then timeout - count else 0
  {
    if count < timeout {
      NeverStep(s, timeout, step, f, count);
      RetryNever(FlagOp(s.(chip := DelayMs(s.chip, step)), f).0, timeout, step, f, count + step);
    }
  }

  /** A trace extended by `n` rounds of a delay of `step` and a read of register `r`, one round at a time. */
  function AfterRounds(t: seq<Event>, step: nat, r: Reg, n: nat): seq<Event>
    decreases n
  {
    if n == 0 then t else AfterRounds(t + [Delay(step), Read(r, 1)], step, r, n - 1)
  }

  lemma {:induction false} AfterRoundsAppend(t: seq<Event>, step: nat, r: Reg, n: nat)
    ensures AfterRounds(t, step, r, n) == t + DelayReads(step, r, n)
    decreases n
  {
    if n > 0 {
      var u := [Delay(step), Read(r, 1)];
      AfterRoundsAppend(t + u, step, r, n - 1);
      assert DelayReads(step, r, n) == u + DelayReads(step, r, n - 1);
      assert t + u + DelayReads(step, r, n - 1) == t + (u + DelayReads(step, r, n - 1));
    }
  }

  /** When the flag never holds in the next rounds' reads, the retry loop makes every round: a delay and a read each. */
  lemma {:induction false} RetryNeverTrace(s: State, timeout: nat, step: nat, f: Flag, count: nat)
    requires 0 < step
    requires NeverHolds(f, Script(s.chip, FlagReg(f)), Rounds(timeout, step, count))
    requires Rounds(timeout, step, count) <= s.chip.budget
    ensures RetryOp(s, timeout, step, f, count, false).0.chip.trace ==
      AfterRounds(s.chip.trace, step, FlagReg(f), Rounds(timeout, step, count))
    decreases if count < timeout then timeout - count else 0
  {
    if count < timeout {
      NeverStep(s, timeout, step, f, count);
      RetryNeverTrace(FlagOp(s.(chip := DelayMs(s.chip, step)), f).0, timeout, step, f, count + step);
    }
  }

  /** The retry loop makes at most `Rounds` rounds: two events each. */
  lemma {:induction false} RetryBound(s: State, timeout: nat, step: nat, f: Flag, count: nat, done: bool)
    requires 0 < step
    ensures var s' := RetryOp(s, timeout, step, f, count, done).0;
      s.chip.trace <= s'.chip.trace && |s'.chip.trace| <= |s.chip.trace| + 2 * Rounds(timeout, step, count)
    decreases if count < timeout then timeout - count else 0
  {
    if !done && count < timeout {
      var s1 := s.(chip := DelayMs(s.chip, step));
      FlagFacts(s1, f);
      var (s2, d) := FlagOp(s1, f);
      RetryStep(s, timeout, step, f, count, s2, d);
      if d.Ok? {
        RetryBound(s2, timeout, step, f, count + step, d.value);
      }
    }
  }

  /** `with_timeout` makes one test, then at most `Rounds` rounds of a delay and a test. */
  lemma WithTimeoutBound(s: State, timeout: nat, step: nat, f: Flag)
    requires 0 < step
    ensures var s' := WithTimeoutOp(s, timeout, step, f).0;
      s.chip.trace <= s'.chip.trace && |s'.chip.trace| <= |s.chip.trace| + 1 + 2 * Rounds(timeout, step, 0)
  {
    FlagFacts(s, f);
    var (s1, d) := FlagOp(s, f);
    if d.Ok? {
      RetryBound(s1, timeout, step, f, 0, d.value);
    }
  }

  /**
   * A failed test in a later round ends the retry loop at once: the result is that
   * `Spi` error and the round's delay is the last thing that happened.
   */
  lemma RetryError(s: State, timeout: nat, step: nat, f: Flag, count: nat)
    requires 0 < step && count < timeout
    requires s.chip.budget == 0 || |Script(s.chip, FlagReg(f))| == 0
    ensures RetryOp(s, timeout, step, f, count, false) == (s.(chip := DelayMs(s.chip, step)), Err(Spi))
    ensures RetryOp(s, timeout, step, f, count, false).0.chip.trace == s.chip.trace + [Delay(step)]
  {
    var s1 := s.(chip := DelayMs(s.chip, step));
    FlagFacts(s1, f);
    RetryStep(s, timeout, step, f, count, FlagOp(s1, f).0, FlagOp(s1, f).1);
  }

  /** The trailing delay of a round whose test failed, if the loop ended that way. */
  function CutShort(res: Result<()>, step: nat): (t: seq<Event>)
    ensures res == Err(Spi) <==> t == [Delay(step)]
    ensures res != Err(Spi) <==> t == []
  {
    if res == Err(Spi) then [Delay(step)] else []
  }

  /** A flag test either fails with `Spi` and changes nothing, or adds its one read to the trace. */
  lemma FlagTrace(s: State, f: Flag)
    ensures var (s', d) := FlagOp(s, f);
      (d.Err? ==> s' == s && d == Err(Spi)) &&
      (d.Ok? ==> s'.chip.trace == s.chip.trace + [Read(FlagReg(f), 1)])
  {
    FlagFacts(s, f);
  }

  /** One more round in front of `k` rounds makes `k + 1` rounds. */
  lemma RoundThen(t: seq<Event>, step: nat, r: Reg, k: nat, c: seq<Event>)
    ensures t + [Delay(step)] + [Read(r, 1)] + DelayReads(step, r, k) + c == t + DelayReads(step, r, k + 1) + c
  {
    var u := [Delay(step), Read(r, 1)];
    assert DelayReads(step, r, k + 1) == u + DelayReads(step, r, k);
    assert t + [Delay(step)] + [Read(r, 1)] == t + u;
    AppendAssoc(t, u, DelayReads(step, r, k));
  }

  /**
   * The retry loop ends with `Ok`, `Timeout` or `Spi`, and its trace is `k` whole rounds
   * of a delay and a read, followed by a lone delay when a test failed, the whole within
   * `Rounds` rounds.
   */
  lemma {:induction false} RetryShape(s: State, timeout: nat, step: nat, f: Flag, count: nat, done: bool)
    requires 0 < step
    ensures var out := RetryOp(s, timeout, step, f, count, done);
      (out.1.Ok? || out.1 == Err(Spi) || out.1 == Err(Timeout)) &&
      exists k: nat :: k + |CutShort(out.1, step)| <= Rounds(timeout, step, count) &&
        out.0.chip.trace == s.chip.trace + DelayReads(step, FlagReg(f), k) + CutShort(out.1, step)
    decreases if count < timeout then timeout - count else 0
  {
    var r := FlagReg(f);
    if !done && count < timeout {
      var s1 := s.(chip := DelayMs(s.chip, step));
      FlagTrace(s1, f);
      var p := FlagOp(s1, f);
      RetryStep(s, timeout, step, f, count, p.0, p.1);
      if p.1.Err? {
        assert s1.chip.trace == s.chip.trace + DelayReads(step, r, 0) + CutShort(Err(Spi), step);
      } else {
        RetryShape(p.0, timeout, step, f, count + step, p.1.value);
        var out := RetryOp(p.0, timeout, step, f, count + step, p.1.value);
        var k: nat :| k + |CutShort(out.1, step)| <= Rounds(timeout, step, count + step) &&
          out.0.chip.trace == p.0.chip.trace + DelayReads(step, r, k) + CutShort(out.1, step);
        RoundThen(s.chip.trace, step, r, k, CutShort(out.1, step));
        assert out.0.chip.trace == s.chip.trace + DelayReads(step, r, k + 1) + CutShort(out.1, step);
      }
    } else {
      assert s.chip.trace == s.chip.trace + DelayReads(step, r, 0) + CutShort(RetryOp(s, timeout, step, f, count, done).1, step);
    }
  }

  /**
   * `with_timeout` ends with `Ok`, `Timeout` or `Spi`. Either its first test failed and
   * nothing happened, or its trace is that first read, `k` rounds of a delay and a read,
   * and a lone delay when a later test failed, within `Rounds` rounds.
   */
  lemma WithTimeoutShape(s: State, timeout: nat, step: nat, f: Flag)
    requires 0 < step
    ensures var out := WithTimeoutOp(s, timeout, step, f);
      (out.1.Ok? || out.1 == Err(Spi) || out.1 == Err(Timeout)) &&
      ((out.0 == s && out.1 == Err(Spi)) ||
       exists k: nat :: k + |CutShort(out.1, step)| <= Rounds(timeout, step, 0) &&
         out.0.chip.trace == s.chip.trace + [Read(FlagReg(f), 1)] + DelayReads(step, FlagReg(f), k) + CutShort(out.1, step))
  {
    FlagFacts(s, f);
    var p := FlagOp(s, f);
    if p.1.Ok? {
      RetryShape(p.0, timeout, step, f, 0, p.1.value);
    }
  }

  /**
   * `wait_mode_ready` / `wait_packet_sent` (timeout 100, step 5): at most 21 reads and
   * 20 delays, namely the first read, `k <= 20` rounds and possibly one more delay.
   */
  lemma WaitBound(s: State, f: Flag)
    ensures var out := WithTimeoutOp(s, 100, 5, f);
      s.chip.trace <= out.0.chip.trace && |out.0.chip.trace| <= |s.chip.trace| + 41 &&
      ((out.0 == s && out.1 == Err(Spi)) ||
       exists k: nat :: k + |CutShort(out.1, 5)| <= 20 &&
         out.0.chip.trace == s.chip.trace + [Read(FlagReg(f), 1)] + DelayReads(5, FlagReg(f), k) + CutShort(out.1, 5))
  {
    RoundsMultiple(5, 20, 0);
    WithTimeoutBound(s, 100, 5, f);
    WithTimeoutShape(s, 100, 5, f);
  }

  /** When the flag holds in none of its reads, `with_timeout` makes its first test and every round, then reports `Timeout`. */
  lemma WithTimeoutNever(s: State, timeout: nat, step: nat, f: Flag)
    requires 0 < step
    requires NeverHolds(f, Script(s.chip, FlagReg(f)), Rounds(timeout, step, 0) + 1)
    requires Rounds(timeout, step, 0) < s.chip.budget
    ensures WithTimeoutOp(s, timeout, step, f).1 == Err(Timeout)
    ensures WithTimeoutOp(s, timeout, step, f).0.chip.trace ==
      s.chip.trace + [Read(FlagReg(f), 1)] + DelayReads(step, FlagReg(f), Rounds(timeout, step, 0))
  {
    FlagRead(s, f);
    RetryNever(FlagOp(s, f).0, timeout, step, f, 0);
    RetryNeverTrace(FlagOp(s, f).0, timeout, step, f, 0);
    AfterRoundsAppend(s.chip.trace + [Read(FlagReg(f), 1)], step, FlagReg(f), Rounds(timeout, step, 0));
  }

  /** `wait_mode_ready` / `wait_packet_sent`: a flag that never comes costs 21 reads and 20 delays of 5 ms, then `Timeout`. */
  lemma WaitTimesOut(s: State, f: Flag)
    requires NeverHolds(f, Script(s.chip, FlagReg(f)), 21) && 21 <= s.chip.budget
    ensures WithTimeoutOp(s, 100, 5, f).1 == Err(Timeout)
    ensures WithTimeoutOp(s, 100, 5, f).0.chip.trace == s.chip.trace + [Read(FlagReg(f), 1)] + DelayReads(5, FlagReg(f), 20)
  {
    RoundsMultiple(5, 20, 0);
    WithTimeoutNever(s, 100, 5, f);
  }

  // ---------------------------------------------------------------- which errors

  /** The two status waits of `send` and `recv` fail only on a transport fault or a timeout. */
  lemma WaitErrors(s: State, f: Flag)
    ensures var r := WithTimeoutOp(s, 100, 5, f).1;
      r.Err? ==> r == Err(Spi) || r == Err(Timeout)
  {
    WithTimeoutShape(s, 100, 5, f);
  }

  /** The start of a send fails only with `Spi` or `Timeout`. */
  lemma PrepareTxErrors(s: State)
    ensures var r := PrepareTxOp(s).1;
      r.Err? ==> r == Err(Spi) || r == Err(Timeout)
  {
    var (s1, r1) := ModeOp(s, Standby);
    ModeFacts(s, Standby);
    if r1.Ok? {
      var (s2, r2) := WaitModeReadyOp(s1);
      WaitErrors(s1, ModeReady);
      if r2.Ok? {
        WriteManyFacts(s2, IrqFlags2, [0x10]);
      }
    }
  }

  /** The end of a send fails only with `Spi` or `Timeout`. */
  lemma FinishTxErrors(s: State)
    ensures var r := FinishTxOp(s).1;
      r.Err? ==> r == Err(Spi) || r == Err(Timeout)
  {
    var (s1, r1) := WaitPacketSentOp(s);
    WaitErrors(s, PacketSent);
    if r1.Ok? {
      ModeFacts(s1, Standby);
    }
  }

  /** The byte loop of `send_large` has no timeout: it fails only with `Spi`. */
  lemma {:induction false} SendBytesErrors(s: State, rest: seq<byte>)
    ensures var r := SendBytesOp(s, rest).1;
      r.Err? ==> r == Err(Spi)
    decreases |rest|
  {
    if |rest| > 0 {
      var (s1, p) := PollOp(s, FifoFull, true);
      PollFrames(s, FifoFull, true);
      if p.Ok? {
        WriteManyFacts(s1, Fifo, [rest[0]]);
      }
      var w := PutByteOp(s, rest[0]);
      SendBytesStep(s, rest, w.0, w.1);
      if w.1.Ok? {
        SendBytesErrors(w.0, rest[1..]);
      }
    }
  }

  /** The start of `recv` fails only with `Spi` or `Timeout`. */
  lemma AwaitPacketErrors(s: State)
    ensures var r := AwaitPacketOp(s).1;
      r.Err? ==> r == Err(Spi) || r == Err(Timeout)
  {
    var (s1, r1) := ModeOp(s, Receiver);
    ModeFacts(s, Receiver);
    if r1.Ok? {
      var (s2, r2) := WaitModeReadyOp(s1);
      WaitErrors(s1, ModeReady);
      if r2.Ok? {
        PollFrames(s2, PacketReady, false);
      }
    }
  }

  // ---------------------------------------------------------------- send

  /**
   * A successful mode change, as seen in the writes: RegOpMode then the DIO word; no FIFO
   * data, no other register the send and receive paths read back, and no FIFO byte.
   */
  lemma ModeLog(s: State, m: Mode)
    ensures var (s', res) := ModeOp(s, m);
      (res.Err? ==> res == Err(Spi)) &&
      (res.Ok? ==>
        Writes(s'.chip.trace) == Writes(s.chip.trace) + ModeWrites(RegByte(s, OpMode), m, s.dio) &&
        FifoData(s'.chip.trace) == FifoData(s.chip.trace) &&
        RegByte(s', OpMode) == ModeByte(RegByte(s, OpMode), m) &&
        RegByte(s', RssiValue) == RegByte(s, RssiValue) &&
        s'.mode == m && s'.dio == s.dio && s'.rssi == s.rssi && s'.chip.rx == s.chip.rx)
  {
    ModeFacts(s, m);
    ModeWritesLog(s.chip.trace, RegByte(s, OpMode), m, s.dio);
    var b := ModeByte(RegByte(s, OpMode), m);
    StoreGet(s.chip.regs[Addr(OpMode) := b], Addr(DioMapping1), Be16(DioWord(m, s.dio)), Addr(RssiValue));
  }

  /** `reset_fifo`, as seen in the writes: FifoOverrun written to RegIrqFlags2, nothing else. */
  lemma ResetFifoLog(s: State)
    ensures var (s', res) := ResetFifoOp(s);
      res.Ok? ==>
        Writes(s'.chip.trace) == Writes(s.chip.trace) + [Write(IrqFlags2, [0x10])] &&
        FifoData(s'.chip.trace) == FifoData(s.chip.trace) &&
        RegByte(s', OpMode) == RegByte(s, OpMode) &&
        s'.mode == s.mode && s'.dio == s.dio && s'.chip.rx == s.chip.rx
  {
    WriteManyFacts(s, IrqFlags2, [0x10]);
    WritesSnoc(s.chip.trace, Write(IrqFlags2, [0x10]));
    StoreGet(s.chip.regs, Addr(IrqFlags2), [0x10], Addr(OpMode));
  }

  /** A write to the FIFO sends its bytes and touches no register. */
  lemma FifoWriteLog(s: State, data: seq<byte>)
    ensures var (s', res) := WriteManyOp(s, Fifo, data);
      res.Ok? ==>
        Writes(s'.chip.trace) == Writes(s.chip.trace) + [Write(Fifo, data)] &&
        FifoData(s'.chip.trace) == FifoData(s.chip.trace) + data &&
        s'.chip.regs == s.chip.regs && s'.mode == s.mode && s'.dio == s.dio && s'.chip.rx == s.chip.rx
  {
    WriteManyFacts(s, Fifo, data);
    WritesSnoc(s.chip.trace, Write(Fifo, data));
  }

  /**
   * The start of a send: Standby with its DIO word, then FifoOverrun to RegIrqFlags2; the
   * wait in between only reads, and no FIFO byte is written.
   */
  lemma PrepareTxLog(s: State)
    ensures var (s', res) := PrepareTxOp(s);
      res.Ok? ==>
        Writes(s'.chip.trace) == Writes(s.chip.trace) + ModeWrites(RegByte(s, OpMode), Standby, s.dio) +
          [Write(IrqFlags2, [0x10])] &&
        FifoData(s'.chip.trace) == FifoData(s.chip.trace) &&
        RegByte(s', OpMode) == ModeByte(RegByte(s, OpMode), Standby) &&
        s'.mode == Standby && s'.dio == s.dio && s'.chip.rx == s.chip.rx
  {
    var (s1, r1) := ModeOp(s, Standby);
    ModeLog(s, Standby);
    if r1.Ok? {
      var (s2, r2) := WaitModeReadyOp(s1);
      WithTimeoutFrame(s1, 100, 5, ModeReady);
      if r2.Ok? {
        ResetFifoLog(s2);
      }
    }
  }

  /** The end of a send: the wait only reads, then Standby with its DIO word. */
  lemma FinishTxLog(s: State)
    ensures var (s', res) := FinishTxOp(s);
      res.Ok? ==>
        Writes(s'.chip.trace) == Writes(s.chip.trace) + ModeWrites(RegByte(s, OpMode), Standby, s.dio) &&
        FifoData(s'.chip.trace) == FifoData(s.chip.trace) &&
        s'.mode == Standby && s'.dio == s.dio && s'.chip.rx == s.chip.rx
  {
    var (s1, r1) := WaitPacketSentOp(s);
    WithTimeoutFrame(s, 100, 5, PacketSent);
    if r1.Ok? {
      ModeLog(s1, Standby);
    }
  }

  /**
   * `send`: an empty buffer is `Ok` with no bus traffic; any other send fails only with
   * `Spi` or `Timeout`. A successful send writes, in
   * this order: Standby, FifoOverrun to RegIrqFlags2, the whole buffer to the FIFO in
   * one transaction, Transmitter, Standby (each mode change with its DIO word; the
   * waits in between only read), sends exactly the buffer and ends in Standby.
   */
  lemma SendFacts(s: State, buf: seq<byte>)
    ensures var (s', res) := SendOp(s, buf);
      var a := RegByte(s, OpMode);
      (|buf| == 0 ==> s' == s && res.Ok?) &&
      (|buf| > 0 && res.Err? ==> res == Err(Spi) || res == Err(Timeout)) &&
      (res.Ok? && |buf| > 0 ==>
        s'.mode == Standby && s'.dio == s.dio &&
        FifoData(s'.chip.trace) == FifoData(s.chip.trace) + buf &&
        Writes(s'.chip.trace) == Writes(s.chip.trace) + ModeWrites(a, Standby, s.dio) +
          [Write(IrqFlags2, [0x10])] + [Write(Fifo, buf)] +
          ModeWrites(a, Transmitter, s.dio) + ModeWrites(a, Standby, s.dio))
  {
    if |buf| > 0 {
      var (s1, r1) := PrepareTxOp(s);
      PrepareTxLog(s);
      PrepareTxErrors(s);
      if r1.Ok? {
        var (s2, r2) := WriteManyOp(s1, Fifo, buf);
        FifoWriteLog(s1, buf);
        WriteManyFacts(s1, Fifo, buf);
        if r2.Ok? {
          var (s3, r3) := ModeOp(s2, Transmitter);
          ModeLog(s2, Transmitter);
          ModeByteLastWins(RegByte(s, OpMode), Standby, Transmitter);
          if r3.Ok? {
            FinishTxLog(s3);
            FinishTxErrors(s3);
            ModeByteLastWins(RegByte(s, OpMode), Transmitter, Standby);
          }
        }
      }
    }
  }

  lemma AppendAssoc<T>(a: seq<T>, b: seq<T>, c: seq<T>)
    ensures a + b + c == a + (b + c)
  {
  }

  lemma ConsSplit<T>(a: seq<T>)
    requires |a| > 0
    ensures [a[0]] + a[1..] == a
  {
  }

  /** One single-byte FIFO write per byte of `rest`, in order. */
  function ByteWrites(rest: seq<byte>): seq<Event>
  {
    if |rest| == 0 then [] else [Write(Fifo, [rest[0]])] + ByteWrites(rest[1..])
  }

  /** One byte of the `send_large` loop: the FIFO-full poll only reads, then one FIFO write. */
  lemma PutByteLog(s: State, b: byte)
    ensures var (s', res) := PutByteOp(s, b);
      res.Ok? ==>
        Writes(s'.chip.trace) == Writes(s.chip.trace) + [Write(Fifo, [b])] &&
        FifoData(s'.chip.trace) == FifoData(s.chip.trace) + [b] &&
        s'.chip.regs == s.chip.regs && s'.mode == s.mode && s'.dio == s.dio && s'.chip.rx == s.chip.rx
  {
    var (s1, p) := PollOp(s, FifoFull, true);
    PollFrames(s, FifoFull, true);
    if p.Ok? {
      FifoWriteLog(s1, [b]);
    }
  }

  /** The byte loop sends the bytes one FIFO write each, in order, and touches no register. */
  lemma {:induction false} SendBytesLog(s: State, rest: seq<byte>)
    ensures var (s', res) := SendBytesOp(s, rest);
      res.Ok? ==>
        Writes(s'.chip.trace) == Writes(s.chip.trace) + ByteWrites(rest) &&
        FifoData(s'.chip.trace) == FifoData(s.chip.trace) + rest &&
        s'.chip.regs == s.chip.regs && s'.mode == s.mode && s'.dio == s.dio && s'.chip.rx == s.chip.rx
    decreases |rest|
  {
    if |rest| > 0 {
      var p := PutByteOp(s, rest[0]);
      PutByteLog(s, rest[0]);
      SendBytesStep(s, rest, p.0, p.1);
      if p.1.Ok? {
        SendBytesLog(p.0, rest[1..]);
        AppendAssoc(Writes(s.chip.trace), [Write(Fifo, [rest[0]])], ByteWrites(rest[1..]));
        AppendAssoc(FifoData(s.chip.trace), [rest[0]], rest[1..]);
        ConsSplit(rest);
      }
    }
  }

  /**
   * `send_large`: more than 255 bytes is `PacketTooLarge` with no bus traffic; any other
   * send fails only with `Spi` or `Timeout`. A successful
   * send writes, in this order: Standby, FifoOverrun to RegIrqFlags2, the length byte,
   * Transmitter, each byte in its own FIFO write, Standby; the FIFO receives the length
   * byte followed by the buffer, and the driver ends in Standby.
   */
  lemma SendLargeFacts(s: State, buf: seq<byte>)
    ensures var (s', res) := SendLargeOp(s, buf);
      var a := RegByte(s, OpMode);
      (|buf| > 255 ==> s' == s && res == Err(PacketTooLarge)) &&
      (|buf| <= 255 && res.Err? ==> res == Err(Spi) || res == Err(Timeout)) &&
      (res.Ok? ==>
        |buf| <= 255 && s'.mode == Standby && s'.dio == s.dio &&
        FifoData(s'.chip.trace) == FifoData(s.chip.trace) + [|buf| as byte] + buf &&
        Writes(s'.chip.trace) == Writes(s.chip.trace) + ModeWrites(a, Standby, s.dio) +
          [Write(IrqFlags2, [0x10])] + [Write(Fifo, [|buf| as byte])] +
          ModeWrites(a, Transmitter, s.dio) + ByteWrites(buf) + ModeWrites(a, Standby, s.dio))
  {
    if |buf| <= 255 {
      var (s1, r1) := PrepareTxOp(s);
      PrepareTxLog(s);
      PrepareTxErrors(s);
      if r1.Ok? {
        var (s2, r2) := WriteOp(s1, Fifo, |buf| as byte);
        FifoWriteLog(s1, [|buf| as byte]);
        WriteManyFacts(s1, Fifo, [|buf| as byte]);
        if r2.Ok? {
          var (s3, r3) := ModeOp(s2, Transmitter);
          ModeLog(s2, Transmitter);
          ModeByteLastWins(RegByte(s, OpMode), Standby, Transmitter);
          if r3.Ok? {
            var (s4, r4) := SendBytesOp(s3, buf);
            SendBytesLog(s3, buf);
            SendBytesErrors(s3, buf);
            if r4.Ok? {
              FinishTxLog(s4);
              FinishTxErrors(s4);
              ModeByteLastWins(RegByte(s, OpMode), Transmitter, Standby);
            }
          }
        }
      }
    }
  }

  // ---------------------------------------------------------------- receive

  /**
   * A burst read of the FIFO takes the next `n` received bytes, fails on a transport fault
   * or when fewer are pending, and changes no register, shadow field or write.
   */
  lemma FifoReadLog(s: State, n: nat)
    ensures var (s', res) := ReadManyOp(s, Fifo, n);
      (res.Err? ==> s' == s && res == Err(Spi)) &&
      (res.Ok? ==>
        n <= |s.chip.rx| && res.value == s.chip.rx[..n] && s'.chip.rx == s.chip.rx[n..] &&
        Quiet(s, s'))
  {
    TransferFacts(s.chip, Fifo, n);
    WritesSnoc(s.chip.trace, Read(Fifo, n));
  }

  /** Latching the RSSI stores RegRssiValue's byte in the driver and changes nothing else. */
  lemma LatchRssiLog(s: State)
    ensures var (s', res) := LatchRssiOp(s);
      (res.Err? ==> res == Err(Spi)) &&
      (res.Ok? ==>
        s'.rssi == RegByte(s, RssiValue) &&
        s'.chip.regs == s.chip.regs && s'.mode == s.mode && s'.dio == s.dio && s'.chip.rx == s.chip.rx &&
        Writes(s'.chip.trace) == Writes(s.chip.trace) && FifoData(s'.chip.trace) == FifoData(s.chip.trace))
  {
    ReadFacts(s, RssiValue);
    WritesSnoc(s.chip.trace, Read(RssiValue, 1));
  }

  /** One byte of the `recv_large` loops: the FIFO-empty poll only reads, then the next received byte. */
  lemma NextByteLog(s: State)
    ensures var (s', b) := NextByteOp(s);
      (b.Err? ==> b == Err(Spi)) &&
      (b.Ok? ==>
        |s.chip.rx| > 0 && b.value == s.chip.rx[0] && s'.chip.rx == s.chip.rx[1..] &&
        Quiet(s, s'))
  {
    PollFrames(s, FifoEmpty, true);
    var (s1, p) := PollOp(s, FifoEmpty, true);
    if p.Ok? {
      FifoReadLog(s1, 1);
    }
  }

  /** The drain loop consumes exactly `k` received bytes and changes nothing else. */
  lemma {:induction false} DrainLog(s: State, k: nat)
    ensures var (s', res) := DrainOp(s, k);
      (res.Err? ==> res == Err(Spi)) &&
      (res.Ok? ==>
        k <= |s.chip.rx| && s'.chip.rx == s.chip.rx[k..] &&
        Quiet(s, s'))
    decreases k
  {
    if k > 0 {
      var p := NextByteOp(s);
      NextByteLog(s);
      DrainStep(s, k, p.0, p.1);
      if p.1.Ok? {
        DrainLog(p.0, k - 1);
        if DrainOp(p.0, k - 1).1.Ok? {
          assert s.chip.rx[1..][k - 1..] == s.chip.rx[k..];
        }
      }
    }
  }

  /**
   * The fill loop fails only on a transport fault; when it succeeds it has consumed exactly
   * `len - i` received bytes and changed no register, shadow field or write.
   */
  lemma {:induction false} FillFrame(s: State, buf: seq<byte>, i: nat, len: nat)
    requires i <= len <= |buf|
    ensures var (s', res, buf') := FillOp(s, buf, i, len);
      |buf'| == |buf| &&
      (res.Err? ==> res == Err(Spi)) &&
      (res.Ok? ==>
        len - i <= |s.chip.rx| && s'.chip.rx == s.chip.rx[len - i..] &&
        Quiet(s, s'))
    decreases len - i
  {
    if i < len {
      var p := NextByteOp(s);
      NextByteLog(s);
      FillStep(s, buf, i, len, p.0, p.1);
      if p.1.Ok? {
        FillFrame(p.0, buf[i := p.1.value], i + 1, len);
        if FillOp(p.0, buf[i := p.1.value], i + 1, len).1.Ok? {
          assert s.chip.rx[1..][len - i - 1..] == s.chip.rx[len - i..];
        }
      }
    }
  }

  /** The fill loop never touches a slot outside `buf[i..len]`, whatever happens. */
  lemma {:induction false} FillKeeps(s: State, buf: seq<byte>, i: nat, len: nat, j: nat)
    requires i <= len <= |buf| && j < |buf| && !(i <= j < len)
    ensures |FillOp(s, buf, i, len).2| == |buf| && FillOp(s, buf, i, len).2[j] == buf[j]
    decreases len - i
  {
    if i < len {
      var p := NextByteOp(s);
      FillStep(s, buf, i, len, p.0, p.1);
      if p.1.Ok? {
        FillKeeps(p.0, buf[i := p.1.value], i + 1, len, j);
      }
    }
  }

  /** When the fill loop succeeds, slot `j` of `buf[i..len]` holds received byte `j - i`. */
  lemma {:induction false} FillBytes(s: State, buf: seq<byte>, i: nat, len: nat, j: nat)
    requires i <= j < len <= |buf|
    ensures var (s', res, buf') := FillOp(s, buf, i, len);
      res.Ok? ==> j - i < |s.chip.rx| && |buf'| == |buf| && buf'[j] == s.chip.rx[j - i]
    decreases len - i
  {
    var p := NextByteOp(s);
    NextByteLog(s);
    FillStep(s, buf, i, len, p.0, p.1);
    if p.1.Ok? {
      var b := buf[i := p.1.value];
      if j == i {
        FillKeeps(p.0, b, i + 1, len, j);
      } else {
        FillBytes(p.0, b, i + 1, len, j);
        if FillOp(p.0, b, i + 1, len).1.Ok? {
          assert s.chip.rx[1..][j - (i + 1)] == s.chip.rx[j - i];
        }
      }
    }
  }

  /** The tail of `recv_large`: Standby with its DIO word, then the RSSI latched. */
  lemma FinishRecvLog(s: State)
    ensures var (s', res) := FinishRecvOp(s);
      (res.Err? ==> res == Err(Spi)) &&
      (res.Ok? ==>
        s'.mode == Standby && s'.dio == s.dio && s'.chip.rx == s.chip.rx &&
        s'.rssi == RegByte(s, RssiValue) &&
        Writes(s'.chip.trace) == Writes(s.chip.trace) + ModeWrites(RegByte(s, OpMode), Standby, s.dio) &&
        FifoData(s'.chip.trace) == FifoData(s.chip.trace))
  {
    ModeLog(s, Standby);
    var (s1, r1) := ModeOp(s, Standby);
    if r1.Ok? {
      LatchRssiLog(s1);
    }
  }

  /** A successful fill of `buf[..len]` puts the next `len` received bytes there and keeps the rest. */
  lemma FillResult(s: State, buf: seq<byte>, len: nat)
    requires len <= |buf|
    ensures var (s', res, buf') := FillOp(s, buf, 0, len);
      res.Ok? ==>
        len <= |s.chip.rx| && |buf'| == |buf| && buf'[..len] == s.chip.rx[..len] && buf'[len..] == buf[len..] &&
        s'.chip.rx == s.chip.rx[len..]
  {
    var (s', res, buf') := FillOp(s, buf, 0, len);
    FillFrame(s, buf, 0, len);
    if res.Ok? {
      forall j | 0 <= j < len
        ensures buf'[j] == s.chip.rx[j]
      {
        FillBytes(s, buf, 0, len, j);
      }
      forall j | len <= j < |buf|
        ensures buf'[j] == buf[j]
      {
        FillKeeps(s, buf, 0, len, j);
      }
    }
  }

  /**
   * The start of `recv`: Receiver with its DIO word; the waits only read, so no received
   * byte is consumed and no register but RegOpMode and the DIO mapping changes.
   */
  lemma AwaitPacketLog(s: State)
    ensures var (s', res) := AwaitPacketOp(s);
      (res.Ok? ==>
        Writes(s'.chip.trace) == Writes(s.chip.trace) + ModeWrites(RegByte(s, OpMode), Receiver, s.dio) &&
        FifoData(s'.chip.trace) == FifoData(s.chip.trace) &&
        RegByte(s', OpMode) == ModeByte(RegByte(s, OpMode), Receiver) &&
        RegByte(s', RssiValue) == RegByte(s, RssiValue) &&
        s'.mode == Receiver && s'.dio == s.dio && s'.chip.rx == s.chip.rx)
  {
    var (s1, r1) := ModeOp(s, Receiver);
    ModeLog(s, Receiver);
    if r1.Ok? {
      var (s2, r2) := WaitModeReadyOp(s1);
      WithTimeoutFrame(s1, 100, 5, ModeReady);
      if r2.Ok? {
        PollFrames(s2, PacketReady, false);
      }
    }
  }

  /**
   * `recv`: an empty buffer is `Ok` with no bus traffic; any other receive fails only with
   * `Spi` or `Timeout`. Whatever the outcome, the buffer is
   * either left as it was or holds the next received bytes (a failure after the FIFO read
   * keeps what was read); a successful receive fills it and consumes exactly those bytes.
   */
  lemma RecvData(s: State, buf: seq<byte>)
    ensures var (s', res, buf') := RecvOp(s, buf);
      (|buf| == 0 ==> s' == s && res.Ok? && buf' == buf) &&
      (|buf| > 0 && res.Err? ==> res == Err(Spi) || res == Err(Timeout)) &&
      (buf' == buf || (|buf| <= |s.chip.rx| && buf' == s.chip.rx[..|buf|])) &&
      (res.Ok? && |buf| > 0 ==>
        |buf| <= |s.chip.rx| && buf' == s.chip.rx[..|buf|] && s'.chip.rx == s.chip.rx[|buf|..])
  {
    if |buf| > 0 {
      var (s1, r1) := AwaitPacketOp(s);
      AwaitPacketLog(s);
      AwaitPacketErrors(s);
      if r1.Ok? {
        var (s2, r2) := ModeOp(s1, Standby);
        ModeLog(s1, Standby);
        ModeByteLastWins(RegByte(s, OpMode), Receiver, Standby);
        if r2.Ok? {
          var (s3, r3) := ReadManyOp(s2, Fifo, |buf|);
          FifoReadLog(s2, |buf|);
          if r3.Ok? {
            LatchRssiLog(s3);
          }
        }
      }
    }
  }

  /** A successful `recv` ends in Standby with the DIO slots kept and RegRssiValue latched. */
  lemma RecvState(s: State, buf: seq<byte>)
    ensures var (s', res, buf') := RecvOp(s, buf);
      res.Ok? && |buf| > 0 ==>
        s'.mode == Standby && s'.dio == s.dio && s'.rssi == RegByte(s, RssiValue)
  {
    if |buf| > 0 {
      var (s1, r1) := AwaitPacketOp(s);
      AwaitPacketLog(s);
      if r1.Ok? {
        var (s2, r2) := ModeOp(s1, Standby);
        ModeLog(s1, Standby);
        ModeByteLastWins(RegByte(s, OpMode), Receiver, Standby);
        if r2.Ok? {
          var (s3, r3) := ReadManyOp(s2, Fifo, |buf|);
          FifoReadLog(s2, |buf|);
          if r3.Ok? {
            LatchRssiLog(s3);
          }
        }
      }
    }
  }

  /** A successful `recv` writes Receiver then Standby, each with its DIO word, and nothing else. */
  lemma RecvLog(s: State, buf: seq<byte>)
    ensures var (s', res, buf') := RecvOp(s, buf);
      res.Ok? && |buf| > 0 ==>
        Writes(s'.chip.trace) == Writes(s.chip.trace) + ModeWrites(RegByte(s, OpMode), Receiver, s.dio) +
          ModeWrites(RegByte(s, OpMode), Standby, s.dio) &&
        FifoData(s'.chip.trace) == FifoData(s.chip.trace)
  {
    if |buf| > 0 {
      var (s1, r1) := AwaitPacketOp(s);
      AwaitPacketLog(s);
      if r1.Ok? {
        var (s2, r2) := ModeOp(s1, Standby);
        ModeLog(s1, Standby);
        ModeByteLastWins(RegByte(s, OpMode), Receiver, Standby);
        if r2.Ok? {
          var (s3, r3) := ReadManyOp(s2, Fifo, |buf|);
          FifoReadLog(s2, |buf|);
          if r3.Ok? {
            LatchRssiLog(s3);
          }
        }
      }
    }
  }

  /**
   * The packet-too-large path: `len` received bytes dropped, then Standby with its DIO word
   * and RegRssiValue latched.
   */
  lemma DiscardLog(s: State, len: nat)
    ensures var (s', res) := DiscardOp(s, len);
      (res.Err? ==> res == Err(Spi)) &&
      (res.Ok? ==>
        len <= |s.chip.rx| && s'.chip.rx == s.chip.rx[len..] &&
        s'.mode == Standby && s'.dio == s.dio && s'.rssi == RegByte(s, RssiValue) &&
        Writes(s'.chip.trace) == Writes(s.chip.trace) + ModeWrites(RegByte(s, OpMode), Standby, s.dio) &&
        FifoData(s'.chip.trace) == FifoData(s.chip.trace))
  {
    var (s1, r1) := DrainOp(s, len);
    DrainLog(s, len);
    if r1.Ok? {
      FinishRecvLog(s1);
    }
  }

  /**
   * A packet of `n` bytes taken from the pending bytes `q` after their length byte `q[0]`:
   * it fits `buf`, `buf'` holds it in front of the rest of `buf`, and `rest` is what follows.
   */
  predicate Delivered(q: seq<byte>, buf: seq<byte>, buf': seq<byte>, rest: seq<byte>, n: nat)
  {
    n < |q| && n <= |buf| && |buf'| == |buf| &&
    buf'[..n] == q[1..1 + n] && buf'[n..] == buf[n..] && rest == q[1 + n..]
  }

  /** What follows `n` bytes of a sequence's tail. */
  lemma TailRest<T>(q: seq<T>, n: nat)
    requires n < |q|
    ensures q[1..][n..] == q[1 + n..]
  {
  }

  /** A packet read from the bytes after the length byte is a delivered packet. */
  lemma TailDelivered(q: seq<byte>, buf: seq<byte>, buf': seq<byte>, rest: seq<byte>, n: nat)
    requires 0 < |q| && n <= |buf| && n <= |q[1..]| && |buf'| == |buf|
    requires buf'[..n] == q[1..][..n] && buf'[n..] == buf[n..] && rest == q[1..][n..]
    ensures Delivered(q, buf, buf', rest, n)
  {
    assert q[1..][..n] == q[1..1 + n];
  }

  /**
   * Once the length byte is known, a length that fits the buffer gives `Ok(len)` unless a
   * transaction fails (`Spi`), and no failure is other than `Spi` or `BufferTooSmall`.
   * Success means it fit the buffer: the buffer's prefix of that length holds the next
   * received bytes, the rest is kept, exactly those bytes are consumed, and the result is
   * the length.
   */
  lemma PayloadData(s: State, buf: seq<byte>, len: nat)
    ensures var (s', res, buf') := PayloadOp(s, buf, len);
      (len <= |buf| ==> res == Ok(len) || res == Err(Spi)) &&
      (res.Err? ==> res == Err(Spi) || res == Err(BufferTooSmall)) &&
      (res.Ok? ==>
        res.value == len && len <= |buf| && len <= |s.chip.rx| && |buf'| == |buf| &&
        buf'[..len] == s.chip.rx[..len] && buf'[len..] == buf[len..] && s'.chip.rx == s.chip.rx[len..])
  {
    if len <= |buf| {
      var (s1, r1, buf') := FillOp(s, buf, 0, len);
      FillResult(s, buf, len);
      FillFrame(s, buf, 0, len);
      if r1.Ok? {
        FinishRecvLog(s1);
      }
    } else {
      DiscardLog(s, len);
    }
  }

  /** Once the length byte is known, success ends in Standby with RegRssiValue latched; only Standby is written. */
  lemma PayloadLog(s: State, buf: seq<byte>, len: nat)
    ensures var (s', res, buf') := PayloadOp(s, buf, len);
      res.Ok? ==>
        s'.mode == Standby && s'.dio == s.dio && s'.rssi == RegByte(s, RssiValue) &&
        Writes(s'.chip.trace) == Writes(s.chip.trace) + ModeWrites(RegByte(s, OpMode), Standby, s.dio) &&
        FifoData(s'.chip.trace) == FifoData(s.chip.trace)
  {
    if len <= |buf| {
      var (s1, r1, buf') := FillOp(s, buf, 0, len);
      FillFrame(s, buf, 0, len);
      if r1.Ok? {
        FinishRecvLog(s1);
      }
    }
  }

  /**
   * A length byte larger than the buffer always fails with `BufferTooSmall`, or with `Spi`
   * when a transaction of the discard fails, and leaves the buffer as it was;
   * `BufferTooSmall` means exactly that case with all `len` bytes read and dropped, the
   * chip back in Standby and RegRssiValue latched.
   */
  lemma PayloadDrop(s: State, buf: seq<byte>, len: nat)
    ensures var (s', res, buf') := PayloadOp(s, buf, len);
      (len > |buf| ==> (res == Err(BufferTooSmall) || res == Err(Spi)) && buf' == buf) &&
      (res == Err(BufferTooSmall) ==>
        len > |buf| && len <= |s.chip.rx| && s'.chip.rx == s.chip.rx[len..] &&
        s'.mode == Standby && s'.dio == s.dio && s'.rssi == RegByte(s, RssiValue) &&
        Writes(s'.chip.trace) == Writes(s.chip.trace) + ModeWrites(RegByte(s, OpMode), Standby, s.dio) &&
        FifoData(s'.chip.trace) == FifoData(s.chip.trace))
  {
    if len > |buf| {
      DiscardLog(s, len);
    } else {
      var (s1, r1, buf') := FillOp(s, buf, 0, len);
      FillFrame(s, buf, 0, len);
      if r1.Ok? {
        FinishRecvLog(s1);
      }
    }
  }

  /**
   * `recv_large`: when a length byte is pending and fits the buffer, the result is `Ok`
   * unless a transaction fails (`Spi`); no failure is other than `Spi` or `BufferTooSmall`,
   * since these waits have no timeout. On success the result is the length byte received
   * first and it fits the buffer; the buffer's prefix of that length holds the bytes that
   * followed, the rest is kept, and exactly those bytes are consumed.
   */
  lemma RecvLargeData(s: State, buf: seq<byte>)
    ensures var (s', res, buf') := RecvLargeOp(s, buf);
      var q := s.chip.rx;
      (0 < |q| && q[0] as nat <= |buf| ==> res.Ok? || res == Err(Spi)) &&
      (res.Err? ==> res == Err(Spi) || res == Err(BufferTooSmall)) &&
      (res.Ok? ==> 0 < |q| && res.value == q[0] as nat && Delivered(q, buf, buf', s'.chip.rx, res.value))
  {
    var (s1, r1) := ModeOp(s, Receiver);
    ModeLog(s, Receiver);
    if r1.Ok? {
      var (s2, r2) := NextByteOp(s1);
      NextByteLog(s1);
      if r2.Ok? {
        var len := r2.value as nat;
        PayloadData(s2, buf, len);
        var (s', res, buf') := PayloadOp(s2, buf, len);
        if res.Ok? {
          TailDelivered(s.chip.rx, buf, buf', s'.chip.rx, len);
        }
      }
    }
  }

  /**
   * A successful `recv_large` ends in Standby with the DIO slots kept and RegRssiValue
   * latched, and writes only Receiver then Standby, each with its DIO word.
   */
  lemma RecvLargeLog(s: State, buf: seq<byte>)
    ensures var (s', res, buf') := RecvLargeOp(s, buf);
      res.Ok? ==>
        s'.mode == Standby && s'.dio == s.dio && s'.rssi == RegByte(s, RssiValue) &&
        Writes(s'.chip.trace) == Writes(s.chip.trace) + ModeWrites(RegByte(s, OpMode), Receiver, s.dio) +
          ModeWrites(RegByte(s, OpMode), Standby, s.dio) &&
        FifoData(s'.chip.trace) == FifoData(s.chip.trace)
  {
    var (s1, r1) := ModeOp(s, Receiver);
    ModeLog(s, Receiver);
    if r1.Ok? {
      var (s2, r2) := NextByteOp(s1);
      NextByteLog(s1);
      if r2.Ok? {
        PayloadLog(s2, buf, r2.value as nat);
        ModeByteLastWins(RegByte(s, OpMode), Receiver, Standby);
      }
    }
  }

  /**
   * `recv_large`, length byte too large: whenever the first received byte exceeds the
   * buffer's size the buffer is left as it was and the call fails with `BufferTooSmall`,
   * or with `Spi` when one of its transactions fails.
   */
  lemma RecvLargeRejects(s: State, buf: seq<byte>)
    ensures var (s', res, buf') := RecvLargeOp(s, buf);
      0 < |s.chip.rx| && s.chip.rx[0] as nat > |buf| ==>
        (res == Err(BufferTooSmall) || res == Err(Spi)) && buf' == buf
  {
    var (s1, r1) := ModeOp(s, Receiver);
    ModeLog(s, Receiver);
    if r1.Ok? {
      var (s2, r2) := NextByteOp(s1);
      NextByteLog(s1);
      if r2.Ok? {
        var len := r2.value as nat;
        PayloadDrop(s2, buf, len);
      }
    }
  }

  /**
   * `BufferTooSmall` means exactly that the first received byte exceeded the buffer's size
   * and the whole packet it announced was read and dropped; the buffer is unchanged.
   */
  lemma RecvLargeTooSmall(s: State, buf: seq<byte>)
    ensures var (s', res, buf') := RecvLargeOp(s, buf);
      var q := s.chip.rx;
      res == Err(BufferTooSmall) ==>
        0 < |q| && q[0] as nat > |buf| && q[0] as nat < |q| && buf' == buf &&
        s'.chip.rx == q[1 + q[0] as nat..]
  {
    var (s1, r1) := ModeOp(s, Receiver);
    ModeLog(s, Receiver);
    if r1.Ok? {
      var (s2, r2) := NextByteOp(s1);
      NextByteLog(s1);
      if r2.Ok? {
        var len := r2.value as nat;
        PayloadDrop(s2, buf, len);
        if len < |s.chip.rx| {
          TailRest(s.chip.rx, len);
        }
      }
    }
  }

  /**
   * After `BufferTooSmall` the chip is back in Standby with RegRssiValue latched, and only
   * Receiver then Standby were written.
   */
  lemma RecvLargeDiscardLog(s: State, buf: seq<byte>)
    ensures var (s', res, buf') := RecvLargeOp(s, buf);
      res == Err(BufferTooSmall) ==>
        s'.mode == Standby && s'.dio == s.dio && s'.rssi == RegByte(s, RssiValue) &&
        Writes(s'.chip.trace) == Writes(s.chip.trace) + ModeWrites(RegByte(s, OpMode), Receiver, s.dio) +
          ModeWrites(RegByte(s, OpMode), Standby, s.dio) &&
        FifoData(s'.chip.trace) == FifoData(s.chip.trace)
  {
    var (s1, r1) := ModeOp(s, Receiver);
    ModeLog(s, Receiver);
    if r1.Ok? {
      var (s2, r2) := NextByteOp(s1);
      NextByteLog(s1);
      if r2.Ok? {
        PayloadDrop(s2, buf, r2.value as nat);
        ModeByteLastWins(RegByte(s, OpMode), Receiver, Standby);
      }
    }
  }
}
