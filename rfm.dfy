/**
 * The RFM69 driver: a single owner of the bus with shadow state (the current
 * mode, six optional DIO mappings, the last RSSI reading). Each method is proved
 * to leave the driver and its chip exactly as the matching function of `Ops`
 * says, and to return the same result.
 */
module Rfm {
  import opened Wrappers
  import opened Registers
  import opened Encoding
  import opened Bus
  import opened Ops

  class Rfm69 {
    /** The bus with the chip behind it. */
    var chip: Chip
    var mode: Mode
    /** One slot per DIO pin. */
    var dio: seq<Option<DioMapping>>
    /** The raw RegRssiValue byte of the last receive. */
    var rssi: byte

    function Abs(): State
      reads this
    {
      State(chip, mode, dio, rssi)
    }

    ghost predicate Valid()
      reads this
    {
      WellFormed(dio)
    }

    /** `Rfm69::new`: the defaults the chip has after a reset. */
    constructor (chip: Chip)
      ensures Valid() && Abs() == Initial(chip)
    {
      this.chip := chip;
      mode := Standby;
      dio := [None, None, None, None, None, None];
      rssi := 0;
    }

    /** The last RSSI value read by a receive, as the raw register byte. */
    function Rssi(): (r: byte)
      reads this
      ensures r == Abs().rssi
    {
      rssi
    }

    // ------------------------------------------------------------ register access

    method ReadMany(reg: Reg, buffer: array<byte>) returns (r: Result<()>)
      requires Valid()
      modifies this, buffer
      ensures Valid()
      ensures var (s, res) := ReadManyOp(old(Abs()), reg, buffer.Length);
              Abs() == s && r == (if res.Ok? then Ok(()) else Err(res.error)) &&
              buffer[..] == (if res.Ok? then res.value else old(buffer[..]))
    {
      var out := Transfer(chip, reg, buffer.Length);
      chip := out.0;
      if out.1.Err? {
        return Err(out.1.error);
      }
      forall i | 0 <= i < buffer.Length {
        buffer[i] := out.1.value[i];
      }
      r := Ok(());
    }

    method Read(reg: Reg) returns (r: Result<byte>)
      requires Valid()
      modifies this
      ensures Valid()
      ensures (Abs(), r) == ReadOp(old(Abs()), reg)
    {
      var buffer := new byte[1];
      var res := ReadMany(reg, buffer);
      if res.Err? {
        return Err(res.error);
      }
      r := Ok(buffer[0]);
    }

    method WriteMany(reg: Reg, data: seq<byte>) returns (r: Result<()>)
      requires Valid()
      modifies this
      ensures Valid()
      ensures (Abs(), r) == WriteManyOp(old(Abs()), reg, data)
    {
      var out := Transmit(chip, reg, data);
      chip := out.0;
      r := out.1;
    }

    method Write(reg: Reg, val: byte) returns (r: Result<()>)
      requires Valid()
      modifies this
      ensures Valid()
      ensures (Abs(), r) == WriteOp(old(Abs()), reg, val)
    {
      r := WriteMany(reg, [val]);
    }

    /** Read-modify-write of one register with the merge `(value & keep) | bits`. */
    method Update(reg: Reg, keep: byte, bits: byte) returns (r: Result<()>)
      requires Valid()
      modifies this
      ensures Valid()
      ensures (Abs(), r) == UpdateOp(old(Abs()), reg, keep, bits)
    {
      var v := Read(reg);
      if v.Err? {
        return Err(v.error);
      }
      r := Write(reg, Merge(v.value, keep, bits));
    }

    // ------------------------------------------------------------ mode and DIO

    /** The DIO mapping word: bits 2..0 set, each active slot's 2-bit code at its pin's field. */
    method DioRegister() returns (reg: bv16)
      ensures reg == DioWord(mode, dio)
    {
      var slots, m := dio, mode;
      reg := 0x07;
      assert slots[..0] == [];
      for i := 0 to |slots|
        invariant reg == 0x07 | Contributions(m, slots[..i])
      {
        var bits: bv16 := 0;
        var slot := slots[i];
        if slot.Some? && ActiveIn(slot.value.dioMode, m) {
          bits := Place(TypeCode(slot.value.kind), slot.value.pin);
        }
        assert bits == Contribution(m, slot);
        DioWordStep(m, slots, i, reg, bits);
        reg := reg | bits;
      }
      assert slots[..|slots|] == slots;
    }

    /** Rewrites RegDioMapping1/2 from the current mode and slots. */
    method Dio() returns (r: Result<()>)
      requires Valid()
      modifies this
      ensures Valid()
      ensures (Abs(), r) == DioOp(old(Abs()))
    {
      var reg := DioRegister();
      r := WriteMany(DioMapping1, Be16(reg));
    }

    method SetMode(m: Mode) returns (r: Result<()>)
      requires Valid()
      modifies this
      ensures Valid()
      ensures (Abs(), r) == ModeOp(old(Abs()), m)
    {
      r := Update(OpMode, 0xE3, ModeCode(m));
      if r.Err? {
        return;
      }
      mode := m;
      r := Dio();
    }

    method SetDioMapping(mapping: DioMapping) returns (r: Result<()>)
      requires Valid()
      modifies this
      ensures Valid()
      ensures (Abs(), r) == DioMappingOp(old(Abs()), mapping)
    {
      dio := dio[PinIndex(mapping.pin) := Some(mapping)];
      r := Dio();
    }

    method ClearDio(pin: DioPin) returns (r: Result<()>)
      requires Valid()
      modifies this
      ensures Valid()
      ensures (Abs(), r) == ClearDioOp(old(Abs()), pin)
    {
      dio := dio[PinIndex(pin) := None];
      r := Dio();
    }

    // ------------------------------------------------------------ setters

    method SetPreamble(reg: bv16) returns (r: Result<()>)
      requires Valid()
      modifies this
      ensures Valid()
      ensures (Abs(), r) == PreambleOp(old(Abs()), reg)
    {
      r := WriteMany(PreambleMsb, Be16(reg));
    }

    /** `bit_rate`, given the 16-bit register value the float division produces. */
    method SetBitRate(reg: bv16) returns (r: Result<()>)
      requires Valid()
      modifies this
      ensures Valid()
      ensures (Abs(), r) == BitRateOp(old(Abs()), reg)
    {
      r := WriteMany(BitrateMsb, Be16(reg));
    }

    /** `fdev`, given the 16-bit register value the float division produces. */
    method SetFdev(reg: bv16) returns (r: Result<()>)
      requires Valid()
      modifies this
      ensures Valid()
      ensures (Abs(), r) == FdevOp(old(Abs()), reg)
    {
      r := WriteMany(FdevMsb, Be16(reg));
    }

    /** `frequency`, given the 32-bit value the float division produces. */
    method SetFrequency(reg: bv32) returns (r: Result<()>)
      requires Valid()
      modifies this
      ensures Valid()
      ensures (Abs(), r) == FrequencyOp(old(Abs()), reg)
    {
      r := WriteMany(FrfMsb, Be24(reg));
    }

    method SetSync(sync: seq<byte>) returns (r: Result<()>)
      requires Valid()
      modifies this
      ensures Valid()
      ensures (Abs(), r) == SyncOp(old(Abs()), sync)
    {
      var len := |sync|;
      if len == 0 {
        r := Update(SyncConfig, 0x7F, 0x00);
        return;
      } else if len > 8 {
        return Err(SyncSize);
      }
      r := Write(SyncConfig, SyncConfigByte(len));
      if r.Err? {
        return;
      }
      r := WriteMany(SyncValue1, sync);
    }

    method SetPacket(config: PacketConfig) returns (r: Result<()>)
      requires Valid()
      modifies this
      ensures Valid()
      ensures (Abs(), r) == PacketOp(old(Abs()), config)
    {
      r := WriteMany(PacketConfig1, PacketConfig1Bytes(config));
      if r.Err? {
        return;
      }
      r := Update(PacketConfig2, 0x0D, PacketConfig2Bits(config));
    }

    method SetFifoMode(fm: FifoMode) returns (r: Result<()>)
      requires Valid()
      modifies this
      ensures Valid()
      ensures (Abs(), r) == FifoModeOp(old(Abs()), fm)
    {
      match fm
      case NotEmpty =>
        r := Update(FifoThresh, 0xFF, 0x80);
      case Level(level) =>
        r := Write(FifoThresh, FifoLevelByte(level));
    }

    method SetAes(key: seq<byte>) returns (r: Result<()>)
      requires Valid()
      modifies this
      ensures Valid()
      ensures (Abs(), r) == AesOp(old(Abs()), key)
    {
      var len := |key|;
      if len == 0 {
        r := Update(PacketConfig2, 0xFE, 0x00);
        return;
      } else if len == 16 {
        r := Update(PacketConfig2, 0xFF, 0x01);
        if r.Err? {
          return;
        }
        r := WriteMany(AesKey1, key);
        return;
      }
      r := Err(AesKeySize);
    }

    method SetLna(lna: LnaConfig) returns (r: Result<()>)
      requires Valid()
      modifies this
      ensures Valid()
      ensures (Abs(), r) == LnaOp(old(Abs()), lna)
    {
      r := Update(Lna, 0x78, LnaBits(lna));
    }

    method SetRxBw(bw: RxBwConfig) returns (r: Result<()>)
      requires Valid()
      modifies this
      ensures Valid()
      ensures (Abs(), r) == RxBwOp(old(Abs()), bw)
    {
      r := Write(RxBw, RxBwByte(bw));
    }

    method SetRxAfcBw(bw: RxBwConfig) returns (r: Result<()>)
      requires Valid()
      modifies this
      ensures Valid()
      ensures (Abs(), r) == RxAfcBwOp(old(Abs()), bw)
    {
      r := Write(AfcBw, RxBwByte(bw));
    }

    // ------------------------------------------------------------ flags and waiting

    /** Reads the flag's IRQ register and tests the flag's bit. */
    method Test(f: Flag) returns (r: Result<bool>)
      requires Valid()
      modifies this
      ensures Valid()
      ensures (Abs(), r) == FlagOp(old(Abs()), f)
    {
      var v := Read(FlagReg(f));
      if v.Err? {
        return Err(v.error);
      }
      r := Ok(FlagHolds(f, v.value));
    }

    method IsSyncAddressMatch() returns (r: Result<bool>)
      requires Valid()
      modifies this
      ensures Valid()
      ensures (Abs(), r) == FlagOp(old(Abs()), SyncAddressMatch)
    {
      r := Test(SyncAddressMatch);
    }

    method IsFifoEmpty() returns (r: Result<bool>)
      requires Valid()
      modifies this
      ensures Valid()
      ensures (Abs(), r) == FlagOp(old(Abs()), FifoEmpty)
    {
      r := Test(FifoEmpty);
    }

    method IsFifoFull() returns (r: Result<bool>)
      requires Valid()
      modifies this
      ensures Valid()
      ensures (Abs(), r) == FlagOp(old(Abs()), FifoFull)
    {
      r := Test(FifoFull);
    }

    method IsPacketReady() returns (r: Result<bool>)
      requires Valid()
      modifies this
      ensures Valid()
      ensures (Abs(), r) == FlagOp(old(Abs()), PacketReady)
    {
      r := Test(PacketReady);
    }

    /** A busy wait without timeout: loops while the flag test gives `holding`. */
    method BusyWait(f: Flag, holding: bool) returns (r: Result<()>)
      requires Valid()
      modifies this
      ensures Valid()
      ensures (Abs(), r) == PollOp(old(Abs()), f, holding)
    {
      ghost var s0 := Abs();
      while true
        invariant Valid()
        invariant PollOp(Abs(), f, holding) == PollOp(s0, f, holding)
        decreases |Script(chip, FlagReg(f))|
      {
        ghost var sA := Abs();
        var d := Test(f);
        PollStep(sA, f, holding, Abs(), d);
        if d.Err? {
          return Err(d.error);
        }
        if d.value != holding {
          return Ok(());
        }
      }
    }

    /** One round of `with_timeout`: wait `step` ms, then test the flag again. */
    method DelayAndTest(step: nat, f: Flag) returns (r: Result<bool>)
      requires Valid()
      modifies this
      ensures Valid()
      ensures (Abs(), r) == FlagOp(old(Abs()).(chip := DelayMs(old(Abs()).chip, step)), f)
    {
      chip := DelayMs(chip, step);
      r := Test(f);
    }

    /** One round of the loop in `with_timeout` that computes `goal`. */
    method RetryRound(timeout: nat, step: nat, f: Flag, count: nat, ghost goal: (State, Result<()>)) returns (t: Result<bool>)
      requires 0 < step && count < timeout && RetryOp(Abs(), timeout, step, f, count, false) == goal
      requires Valid()
      modifies this
      ensures Valid()
      ensures t.Err? ==> goal == (Abs(), Err(t.error))
      ensures t.Ok? ==> RetryOp(Abs(), timeout, step, f, count + step, t.value) == goal
    {
      ghost var s := Abs();
      t := DelayAndTest(step, f);
      RetryAdvance(s, timeout, step, f, count, Abs(), t, goal);
    }

    /**
     * The loop of `with_timeout` after its first test: while the flag does not hold and
     * `count` is below `timeout`, wait `step` ms and test again.
     */
    method RetryLoop(timeout: nat, step: nat, f: Flag, first: bool) returns (r: Result<()>)
      requires 0 < step && timeout + step <= 256
      requires Valid()
      modifies this
      ensures Valid()
      ensures (Abs(), r) == RetryOp(old(Abs()), timeout, step, f, 0, first)
    {
      ghost var goal := RetryOp(Abs(), timeout, step, f, 0, first);
      var done := first;
      var count := 0;
      while !done && count < timeout
        invariant RetryOp(Abs(), timeout, step, f, count, done) == goal
        invariant Valid()
        // with `timeout + step <= 256`, the `u8` counter never overflows
        invariant count < timeout + step
        decreases timeout - count
      {
        var t := RetryRound(timeout, step, f, count, goal);
        count := count + step;
        if t.Err? {
          return Err(t.error);
        }
        done := t.value;
      }
      RetryEnd(Abs(), timeout, step, f, count, done);
      if !done {
        return Err(Timeout);
      }
      r := Ok(());
    }

    /**
     * Tests `f`, then waits `step` ms and tests again until the flag holds or
     * `timeout` ms have been waited. `timeout` and `step` are `u8`s.
     */
    method WithTimeout(timeout: nat, step: nat, f: Flag) returns (r: Result<()>)
      requires 0 < step && timeout + step <= 256
      requires Valid()
      modifies this
      ensures Valid()
      ensures (Abs(), r) == WithTimeoutOp(old(Abs()), timeout, step, f)
    {
      ghost var s0 := Abs();
      var d := Test(f);
      WithTimeoutStart(s0, timeout, step, f, Abs(), d);
      if d.Err? {
        return Err(d.error);
      }
      r := RetryLoop(timeout, step, f, d.value);
    }

    method WaitModeReady() returns (r: Result<()>)
      requires Valid()
      modifies this
      ensures Valid()
      ensures (Abs(), r) == WaitModeReadyOp(old(Abs()))
    {
      r := WithTimeout(100, 5, ModeReady);
    }

    method WaitPacketSent() returns (r: Result<()>)
      requires Valid()
      modifies this
      ensures Valid()
      ensures (Abs(), r) == WaitPacketSentOp(old(Abs()))
    {
      r := WithTimeout(100, 5, PacketSent);
    }

    method ResetFifo() returns (r: Result<()>)
      requires Valid()
      modifies this
      ensures Valid()
      ensures (Abs(), r) == ResetFifoOp(old(Abs()))
    {
      r := Write(IrqFlags2, 0x10);
    }

    // ------------------------------------------------------------ receive

    /** Receiver, wait until ready, then wait until a packet is ready. */
    method AwaitPacket() returns (r: Result<()>)
      requires Valid()
      modifies this
      ensures Valid()
      ensures (Abs(), r) == AwaitPacketOp(old(Abs()))
    {
      r := SetMode(Receiver);
      if r.Err? {
        return;
      }
      r := WaitModeReady();
      if r.Err? {
        return;
      }
      r := BusyWait(PacketReady, false);
    }

    method Recv(buffer: array<byte>) returns (r: Result<()>)
      requires Valid()
      modifies this, buffer
      ensures Valid()
      ensures (Abs(), r, buffer[..]) == RecvOp(old(Abs()), old(buffer[..]))
    {
      if buffer.Length == 0 {
        return Ok(());
      }
      ghost var b0 := buffer[..];
      r := AwaitPacket();
      if r.Err? {
        return;
      }
      r := SetMode(Standby);
      if r.Err? {
        return;
      }
      assert buffer[..] == b0;
      r := ReadMany(Fifo, buffer);
      if r.Err? {
        return;
      }
      ghost var got := buffer[..];
      r := LatchRssi();
      assert buffer[..] == got;
    }

    /** Waits while the FIFO is empty, then reads one FIFO byte. */
    method NextByte() returns (r: Result<byte>)
      requires Valid()
      modifies this
      ensures Valid()
      ensures (Abs(), r) == NextByteOp(old(Abs()))
    {
      var p := BusyWait(FifoEmpty, true);
      if p.Err? {
        return Err(p.error);
      }
      r := Read(Fifo);
    }

    /** The drain loop of `recv_large`: reads and drops `len` FIFO bytes. */
    method DrainFifo(len: nat) returns (r: Result<()>)
      requires Valid()
      modifies this
      ensures Valid()
      ensures (Abs(), r) == DrainOp(old(Abs()), len)
    {
      ghost var s0 := Abs();
      for i := 0 to len
        invariant Valid()
        invariant DrainOp(Abs(), len - i) == DrainOp(s0, len)
      {
        ghost var sA := Abs();
        var b := NextByte();
        DrainStep(sA, len - i, Abs(), b);
        if b.Err? {
          return Err(b.error);
        }
      }
      r := Ok(());
    }

    /** The fill loop of `recv_large`: stores the next `len` FIFO bytes at the front of `buffer`. */
    method FillBuffer(buffer: array<byte>, len: nat) returns (r: Result<()>)
      requires len <= buffer.Length
      requires Valid()
      modifies this, buffer
      ensures Valid()
      ensures (Abs(), r, buffer[..]) == FillOp(old(Abs()), old(buffer[..]), 0, len)
    {
      ghost var s0, b0 := Abs(), buffer[..];
      for i := 0 to len
        invariant Valid()
        invariant FillOp(Abs(), buffer[..], i, len) == FillOp(s0, b0, 0, len)
      {
        ghost var sA, bA := Abs(), buffer[..];
        var b := NextByte();
        FillStep(sA, bA, i, len, Abs(), b);
        if b.Err? {
          return Err(b.error);
        }
        buffer[i] := b.value;
      }
      r := Ok(());
    }

    /** Back to Standby, then latch the RSSI register. */
    method FinishRecv() returns (r: Result<()>)
      requires Valid()
      modifies this
      ensures Valid()
      ensures (Abs(), r) == FinishRecvOp(old(Abs()))
    {
      r := SetMode(Standby);
      if r.Err? {
        return;
      }
      r := LatchRssi();
    }

    /** Reads RegRssiValue and keeps the raw byte. */
    method LatchRssi() returns (r: Result<()>)
      requires Valid()
      modifies this
      ensures Valid()
      ensures (Abs(), r) == LatchRssiOp(old(Abs()))
    {
      var v := Read(RssiValue);
      if v.Err? {
        return Err(v.error);
      }
      rssi := v.value;
      r := Ok(());
    }

    /** Reads and drops `len` FIFO bytes, then Standby and the RSSI latched. */
    method Discard(len: nat) returns (r: Result<()>)
      requires Valid()
      modifies this
      ensures Valid()
      ensures (Abs(), r) == DiscardOp(old(Abs()), len)
    {
      r := DrainFifo(len);
      if r.Err? {
        return;
      }
      r := FinishRecv();
    }

    /** The rest of `recv_large` once the length byte is known: drop the packet or fill the buffer. */
    method Payload(buffer: array<byte>, len: nat) returns (r: Result<nat>)
      requires Valid()
      modifies this, buffer
      ensures Valid()
      ensures (Abs(), r, buffer[..]) == PayloadOp(old(Abs()), old(buffer[..]), len)
    {
      var u: Result<()>;
      if len > buffer.Length {
        u := Discard(len);
        if u.Err? {
          return Err(u.error);
        }
        return Err(BufferTooSmall);
      }
      u := FillBuffer(buffer, len);
      if u.Err? {
        return Err(u.error);
      }
      u := FinishRecv();
      if u.Err? {
        return Err(u.error);
      }
      r := Ok(len);
    }

    method RecvLarge(buffer: array<byte>) returns (r: Result<nat>)
      requires Valid()
      modifies this, buffer
      ensures Valid()
      ensures (Abs(), r, buffer[..]) == RecvLargeOp(old(Abs()), old(buffer[..]))
    {
      var u := SetMode(Receiver);
      if u.Err? {
        return Err(u.error);
      }
      var first := NextByte();
      if first.Err? {
        return Err(first.error);
      }
      r := Payload(buffer, first.value as nat);
    }

    // ------------------------------------------------------------ send

    /** Standby, wait until ready, flush the FIFO. */
    method PrepareTx() returns (r: Result<()>)
      requires Valid()
      modifies this
      ensures Valid()
      ensures (Abs(), r) == PrepareTxOp(old(Abs()))
    {
      r := SetMode(Standby);
      if r.Err? {
        return;
      }
      r := WaitModeReady();
      if r.Err? {
        return;
      }
      r := ResetFifo();
    }

    /** Wait until the packet is sent, then Standby. */
    method FinishTx() returns (r: Result<()>)
      requires Valid()
      modifies this
      ensures Valid()
      ensures (Abs(), r) == FinishTxOp(old(Abs()))
    {
      r := WaitPacketSent();
      if r.Err? {
        return;
      }
      r := SetMode(Standby);
    }

    method Send(buffer: seq<byte>) returns (r: Result<()>)
      requires Valid()
      modifies this
      ensures Valid()
      ensures (Abs(), r) == SendOp(old(Abs()), buffer)
    {
      if |buffer| == 0 {
        return Ok(());
      }
      r := PrepareTx();
      if r.Err? {
        return;
      }
      r := WriteMany(Fifo, buffer);
      if r.Err? {
        return;
      }
      r := SetMode(Transmitter);
      if r.Err? {
        return;
      }
      r := FinishTx();
    }

    /** Waits while the FIFO is full, then writes one byte to it. */
    method PutByte(b: byte) returns (r: Result<()>)
      requires Valid()
      modifies this
      ensures Valid()
      ensures (Abs(), r) == PutByteOp(old(Abs()), b)
    {
      r := BusyWait(FifoFull, true);
      if r.Err? {
        return;
      }
      r := Write(Fifo, b);
    }

    method SendLarge(buffer: seq<byte>) returns (r: Result<()>)
      requires Valid()
      modifies this
      ensures Valid()
      ensures (Abs(), r) == SendLargeOp(old(Abs()), buffer)
    {
      if |buffer| > 255 {
        return Err(PacketTooLarge);
      }
      var packetSize := |buffer| as byte;
      r := PrepareTx();
      if r.Err? {
        return;
      }
      r := Write(Fifo, packetSize);
      if r.Err? {
        return;
      }
      r := SetMode(Transmitter);
      if r.Err? {
        return;
      }
      ghost var s5 := Abs();
      for i := 0 to |buffer|
        invariant Valid()
        invariant SendBytesOp(Abs(), buffer[i..]) == SendBytesOp(s5, buffer)
      {
        ghost var sA := Abs();
        r := PutByte(buffer[i]);
        SendBytesStep(sA, buffer[i..], Abs(), r);
        if r.Err? {
          return;
        }
        assert buffer[i..][1..] == buffer[i + 1..];
      }
      r := FinishTx();
    }
  }
}
