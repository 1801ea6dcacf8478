/**
 * What each driver operation does, as a function of the driver's state and the
 * chip it drives. Every method of `Rfm.Rfm69` is proved to produce exactly the
 * state and result its function here gives; the properties of these functions
 * are proved in module `Properties`.
 *
 * A failing step ends the operation with that step's error: nothing after it
 * reaches the bus.
 */
module Ops {
  import opened Wrappers
  import opened Registers
  import opened Encoding
  import opened Bus

  /** The driver's shadow state (current mode, the six DIO slots, last raw RSSI) and its chip. */
  datatype State = State(chip: Chip, mode: Mode, dio: seq<Option<DioMapping>>, rssi: byte)

  /** The state `Rfm69::new` creates: Standby, no DIO mappings, RSSI 0. */
  function Initial(chip: Chip): (s: State)
    ensures s.chip == chip && s.mode == Standby && s.rssi == 0
    ensures WellFormed(s.dio) && forall i :: 0 <= i < 6 ==> s.dio[i] == None
  {
    State(chip, Standby, [None, None, None, None, None, None], 0)
  }

  /**
   * What a status poll may change: the trace (with reads and delays only), the
   * budget and the IRQ scripts.
   */
  predicate PollFrame(s: State, s': State)
  {
    s'.mode == s.mode && s'.dio == s.dio && s'.rssi == s.rssi &&
    s'.chip.regs == s.chip.regs && s'.chip.rx == s.chip.rx &&
    s.chip.trace <= s'.chip.trace &&
    Writes(s'.chip.trace) == Writes(s.chip.trace) &&
    FifoData(s'.chip.trace) == FifoData(s.chip.trace)
  }

  // ---------------------------------------------------------------- register access

  function ReadManyOp(s: State, r: Reg, n: nat): (State, Result<seq<byte>>)
  {
    var (c, res) := Transfer(s.chip, r, n);
    (s.(chip := c), res)
  }

  function ReadOp(s: State, r: Reg): (State, Result<byte>)
  {
    var (s1, res) := ReadManyOp(s, r, 1);
    (s1, if res.Ok? then Ok(res.value[0]) else Err(res.error))
  }

  function WriteManyOp(s: State, r: Reg, data: seq<byte>): (State, Result<()>)
  {
    var (c, res) := Transmit(s.chip, r, data);
    (s.(chip := c), res)
  }

  function WriteOp(s: State, r: Reg, v: byte): (State, Result<()>)
  {
    WriteManyOp(s, r, [v])
  }

  /** Read-modify-write: read `r`, write back `(value & keep) | bits`. */
  function UpdateOp(s: State, r: Reg, keep: byte, bits: byte): (State, Result<()>)
  {
    var (s1, v) := ReadOp(s, r);
    if v.Err? then (s1, Err(v.error)) else WriteOp(s1, r, Merge(v.value, keep, bits))
  }

  // ---------------------------------------------------------------- mode and DIO

  /** Rewrites RegDioMapping1/2 from the current mode and slots. */
  function DioOp(s: State): (State, Result<()>)
  {
    WriteManyOp(s, DioMapping1, Be16(DioWord(s.mode, s.dio)))
  }

  function ModeOp(s: State, m: Mode): (State, Result<()>)
  {
    var (s1, u) := UpdateOp(s, OpMode, 0xE3, ModeCode(m));
    if u.Err? then (s1, u) else DioOp(s1.(mode := m))
  }

  function DioMappingOp(s: State, d: DioMapping): (State, Result<()>)
    requires |s.dio| == 6
  {
    DioOp(s.(dio := s.dio[PinIndex(d.pin) := Some(d)]))
  }

  function ClearDioOp(s: State, p: DioPin): (State, Result<()>)
    requires |s.dio| == 6
  {
    DioOp(s.(dio := s.dio[PinIndex(p) := None]))
  }

  // ---------------------------------------------------------------- setters

  function PreambleOp(s: State, v: bv16): (State, Result<()>)
  {
    WriteManyOp(s, PreambleMsb, Be16(v))
  }

  function BitRateOp(s: State, v: bv16): (State, Result<()>)
  {
    WriteManyOp(s, BitrateMsb, Be16(v))
  }

  function FdevOp(s: State, v: bv16): (State, Result<()>)
  {
    WriteManyOp(s, FdevMsb, Be16(v))
  }

  function FrequencyOp(s: State, v: bv32): (State, Result<()>)
  {
    WriteManyOp(s, FrfMsb, Be24(v))
  }

  function SyncOp(s: State, sync: seq<byte>): (State, Result<()>)
  {
    if |sync| == 0 then UpdateOp(s, SyncConfig, 0x7F, 0x00)
    else if |sync| > 8 then (s, Err(SyncSize))
    else
      var (s1, w) := WriteOp(s, SyncConfig, SyncConfigByte(|sync|));
      if w.Err? then (s1, w) else WriteManyOp(s1, SyncValue1, sync)
  }

  function PacketOp(s: State, pc: PacketConfig): (State, Result<()>)
  {
    var (s1, w) := WriteManyOp(s, PacketConfig1, PacketConfig1Bytes(pc));
    if w.Err? then (s1, w) else UpdateOp(s1, PacketConfig2, 0x0D, PacketConfig2Bits(pc))
  }

  function FifoModeOp(s: State, fm: FifoMode): (State, Result<()>)
  {
    match fm
    case NotEmpty => UpdateOp(s, FifoThresh, 0xFF, 0x80)
    case Level(level) => WriteOp(s, FifoThresh, FifoLevelByte(level))
  }

  function AesOp(s: State, key: seq<byte>): (State, Result<()>)
  {
    if |key| == 0 then UpdateOp(s, PacketConfig2, 0xFE, 0x00)
    else if |key| == 16 then
      var (s1, u) := UpdateOp(s, PacketConfig2, 0xFF, 0x01);
      if u.Err? then (s1, u) else WriteManyOp(s1, AesKey1, key)
    else (s, Err(AesKeySize))
  }

  function LnaOp(s: State, l: LnaConfig): (State, Result<()>)
  {
    UpdateOp(s, Lna, 0x78, LnaBits(l))
  }

  function RxBwOp(s: State, c: RxBwConfig): (State, Result<()>)
  {
    WriteOp(s, RxBw, RxBwByte(c))
  }

  function RxAfcBwOp(s: State, c: RxBwConfig): (State, Result<()>)
  {
    WriteOp(s, AfcBw, RxBwByte(c))
  }

  // ---------------------------------------------------------------- flags and waiting

  /** Reads the flag's IRQ register and tests the flag. */
  function FlagOp(s: State, f: Flag): (State, Result<bool>)
  {
    var (s1, v) := ReadOp(s, FlagReg(f));
    (s1, if v.Ok? then Ok(FlagHolds(f, v.value)) else Err(v.error))
  }

  /** A busy wait with no timeout: test `f` until it no longer equals `holding`. */
  function PollOp(s: State, f: Flag, holding: bool): (State, Result<()>)
    decreases |Script(s.chip, FlagReg(f))|
  {
    var (s1, d) := FlagOp(s, f);
    if d.Err? then (s1, Err(d.error))
    else if d.value == holding then PollOp(s1, f, holding)
    else (s1, Ok(()))
  }

  /** The retry loop of `with_timeout`, entered with the counter `count` and the last test `done`. */
  function RetryOp(s: State, timeout: nat, step: nat, f: Flag, count: nat, done: bool): (State, Result<()>)
    requires 0 < step
    decreases if count < timeout then timeout - count else 0
  {
    if !done && count < timeout then
      var s1 := s.(chip := DelayMs(s.chip, step));
      var (s2, d) := FlagOp(s1, f);
      if d.Err? then (s2, Err(d.error)) else RetryOp(s2, timeout, step, f, count + step, d.value)
    else if done then (s, Ok(()))
    else (s, Err(Timeout))
  }

  /** Test `f` once, then retry every `step` ms until it holds or `timeout` ms have been waited. */
  function WithTimeoutOp(s: State, timeout: nat, step: nat, f: Flag): (State, Result<()>)
    requires 0 < step
  {
    var (s1, d) := FlagOp(s, f);
    if d.Err? then (s1, Err(d.error)) else RetryOp(s1, timeout, step, f, 0, d.value)
  }

  /** One round of the busy wait, given the flag test's outcome. */
  lemma PollStep(s: State, f: Flag, holding: bool, s1: State, d: Result<bool>)
    requires FlagOp(s, f) == (s1, d)
    ensures PollOp(s, f, holding) ==
      if d.Err? then (s1, Err(d.error)) else if d.value == holding then PollOp(s1, f, holding) else (s1, Ok(()))
  {
  }

  /** One round of the retry loop, given the outcome of the test after the delay. */
  lemma RetryStep(s: State, timeout: nat, step: nat, f: Flag, count: nat, s2: State, d: Result<bool>)
    requires 0 < step && count < timeout && FlagOp(s.(chip := DelayMs(s.chip, step)), f) == (s2, d)
    ensures RetryOp(s, timeout, step, f, count, false) ==
      if d.Err? then (s2, Err(d.error)) else RetryOp(s2, timeout, step, f, count + step, d.value)
  {
  }

  /** One round of the busy wait, seen from the loop that computes `goal`. */
  lemma RetryAdvance(s: State, timeout: nat, step: nat, f: Flag, count: nat, s2: State, d: Result<bool>,
                     goal: (State, Result<()>))
    requires 0 < step && count < timeout && FlagOp(s.(chip := DelayMs(s.chip, step)), f) == (s2, d)
    requires RetryOp(s, timeout, step, f, count, false) == goal
    ensures d.Err? ==> goal == (s2, Err(d.error))
    ensures d.Ok? ==> RetryOp(s2, timeout, step, f, count + step, d.value) == goal
  {
    RetryStep(s, timeout, step, f, count, s2, d);
  }

  /** `with_timeout` begins with one test of the flag. */
  lemma WithTimeoutStart(s: State, timeout: nat, step: nat, f: Flag, s1: State, d: Result<bool>)
    requires 0 < step && FlagOp(s, f) == (s1, d)
    ensures WithTimeoutOp(s, timeout, step, f) ==
      if d.Err? then (s1, Err(d.error)) else RetryOp(s1, timeout, step, f, 0, d.value)
  {
  }

  /** The busy wait ends once the flag holds or the timeout has been waited. */
  lemma RetryEnd(s: State, timeout: nat, step: nat, f: Flag, count: nat, done: bool)
    requires 0 < step && (done || timeout <= count)
    ensures RetryOp(s, timeout, step, f, count, done) == (s, if done then Ok(()) else Err(Timeout))
  {
  }

  function WaitModeReadyOp(s: State): (State, Result<()>)
  {
    WithTimeoutOp(s, 100, 5, ModeReady)
  }

  function WaitPacketSentOp(s: State): (State, Result<()>)
  {
    WithTimeoutOp(s, 100, 5, PacketSent)
  }

  /** Flushes the FIFO by writing FifoOverrun to RegIrqFlags2. */
  function ResetFifoOp(s: State): (State, Result<()>)
  {
    WriteOp(s, IrqFlags2, 0x10)
  }

  // ---------------------------------------------------------------- receive

  /** Reads RegRssiValue and keeps the raw byte as the last RSSI. */
  function LatchRssiOp(s: State): (State, Result<()>)
  {
    var (s1, v) := ReadOp(s, RssiValue);
    if v.Err? then (s1, Err(v.error)) else (s1.(rssi := v.value), Ok(()))
  }

  /** The start of `recv`: Receiver, wait until ready, then wait until a packet is ready. */
  function AwaitPacketOp(s: State): (State, Result<()>)
  {
    var (s1, r1) := ModeOp(s, Receiver);
    if r1.Err? then (s1, r1) else
    var (s2, r2) := WaitModeReadyOp(s1);
    if r2.Err? then (s2, r2) else
    PollOp(s2, PacketReady, false)
  }

  /** `recv`: the new state, the result and the new buffer contents. */
  function RecvOp(s: State, buf: seq<byte>): (State, Result<()>, seq<byte>)
  {
    if |buf| == 0 then (s, Ok(()), buf)
    else
      var (s1, r1) := AwaitPacketOp(s);
      if r1.Err? then (s1, r1, buf) else
      var (s2, r2) := ModeOp(s1, Standby);
      if r2.Err? then (s2, r2, buf) else
      var (s3, r3) := ReadManyOp(s2, Fifo, |buf|);
      if r3.Err? then (s3, Err(r3.error), buf) else
      var (s4, r4) := LatchRssiOp(s3);
      (s4, r4, r3.value)
  }

  /** Waits while the FIFO is empty, then reads one FIFO byte. */
  function NextByteOp(s: State): (State, Result<byte>)
  {
    var (s1, p) := PollOp(s, FifoEmpty, true);
    if p.Err? then (s1, Err(p.error)) else ReadOp(s1, Fifo)
  }

  /** The drain loop of `recv_large`: `k` more FIFO bytes read and dropped. */
  function DrainOp(s: State, k: nat): (State, Result<()>)
    decreases k
  {
    if k == 0 then (s, Ok(()))
    else
      var (s1, b) := NextByteOp(s);
      if b.Err? then (s1, Err(b.error)) else DrainOp(s1, k - 1)
  }

  /** One round of the drain loop, given the outcome of the byte read. */
  lemma DrainStep(s: State, k: nat, s1: State, b: Result<byte>)
    requires 0 < k && NextByteOp(s) == (s1, b)
    ensures DrainOp(s, k) == if b.Err? then (s1, Err(b.error)) else DrainOp(s1, k - 1)
  {
  }

  /**
   * The fill loop of `recv_large`: FIFO bytes go, in order, into `buf[i]`, `buf[i + 1]`, ...
   * up to (not including) index `len`; the loop stops at the first failure.
   */
  function FillOp(s: State, buf: seq<byte>, i: nat, len: nat): (State, Result<()>, seq<byte>)
    requires i <= len <= |buf|
    decreases len - i
  {
    if i == len then (s, Ok(()), buf)
    else
      var (s1, b) := NextByteOp(s);
      if b.Err? then (s1, Err(b.error), buf) else FillOp(s1, buf[i := b.value], i + 1, len)
  }

  /** One round of the fill loop, given the outcome of the byte read. */
  lemma FillStep(s: State, buf: seq<byte>, i: nat, len: nat, s1: State, b: Result<byte>)
    requires i < len <= |buf| && NextByteOp(s) == (s1, b)
    ensures FillOp(s, buf, i, len) ==
      if b.Err? then (s1, Err(b.error), buf) else FillOp(s1, buf[i := b.value], i + 1, len)
  {
  }

  /** The common tail of `recv_large`: back to Standby, then latch the RSSI register. */
  function FinishRecvOp(s: State): (State, Result<()>)
  {
    var (s1, r1) := ModeOp(s, Standby);
    if r1.Err? then (s1, r1) else
    LatchRssiOp(s1)
  }

  /** The packet-too-large path of `recv_large`: read and drop `len` bytes, then the common tail. */
  function DiscardOp(s: State, len: nat): (State, Result<()>)
  {
    var (s1, r1) := DrainOp(s, len);
    if r1.Err? then (s1, r1) else
    FinishRecvOp(s1)
  }

  /** `recv_large` once the length byte `len` is known: drop an oversized packet or fill the buffer. */
  function PayloadOp(s: State, buf: seq<byte>, len: nat): (State, Result<nat>, seq<byte>)
  {
    if len > |buf| then
      var (s1, r1) := DiscardOp(s, len);
      (s1, if r1.Err? then Err(r1.error) else Err(BufferTooSmall), buf)
    else
      var (s1, r1, buf') := FillOp(s, buf, 0, len);
      if r1.Err? then (s1, Err(r1.error), buf') else
      var (s2, r2) := FinishRecvOp(s1);
      (s2, if r2.Err? then Err(r2.error) else Ok(len), buf')
  }

  /** `recv_large`: the new state, the result (the packet length) and the new buffer contents. */
  function RecvLargeOp(s: State, buf: seq<byte>): (State, Result<nat>, seq<byte>)
  {
    var (s1, r1) := ModeOp(s, Receiver);
    if r1.Err? then (s1, Err(r1.error), buf) else
    var (s2, r2) := NextByteOp(s1);
    if r2.Err? then (s2, Err(r2.error), buf) else
    PayloadOp(s2, buf, r2.value as nat)
  }

  // ---------------------------------------------------------------- send

  /** The common start of `send` and `send_large`: Standby, wait until ready, flush the FIFO. */
  function PrepareTxOp(s: State): (State, Result<()>)
  {
    var (s1, r1) := ModeOp(s, Standby);
    if r1.Err? then (s1, r1) else
    var (s2, r2) := WaitModeReadyOp(s1);
    if r2.Err? then (s2, r2) else
    ResetFifoOp(s2)
  }

  /** The common end of `send` and `send_large`: wait until the packet is sent, then Standby. */
  function FinishTxOp(s: State): (State, Result<()>)
  {
    var (s1, r1) := WaitPacketSentOp(s);
    if r1.Err? then (s1, r1) else
    ModeOp(s1, Standby)
  }

  function SendOp(s: State, buf: seq<byte>): (State, Result<()>)
  {
    if |buf| == 0 then (s, Ok(()))
    else
      var (s1, r1) := PrepareTxOp(s);
      if r1.Err? then (s1, r1) else
      var (s2, r2) := WriteManyOp(s1, Fifo, buf);
      if r2.Err? then (s2, r2) else
      var (s3, r3) := ModeOp(s2, Transmitter);
      if r3.Err? then (s3, r3) else
      FinishTxOp(s3)
  }

  /** Waits while the FIFO is full, then writes one byte to it. */
  function PutByteOp(s: State, b: byte): (State, Result<()>)
  {
    var (s1, p) := PollOp(s, FifoFull, true);
    if p.Err? then (s1, p) else WriteOp(s1, Fifo, b)
  }

  /** The byte loop of `send_large`: the bytes of `rest`, one at a time. */
  function SendBytesOp(s: State, rest: seq<byte>): (State, Result<()>)
    decreases |rest|
  {
    if |rest| == 0 then (s, Ok(()))
    else
      var (s1, w) := PutByteOp(s, rest[0]);
      if w.Err? then (s1, w) else SendBytesOp(s1, rest[1..])
  }

  /** One round of the byte loop, given the outcome of the byte write. */
  lemma SendBytesStep(s: State, rest: seq<byte>, s1: State, w: Result<()>)
    requires 0 < |rest| && PutByteOp(s, rest[0]) == (s1, w)
    ensures SendBytesOp(s, rest) == if w.Err? then (s1, w) else SendBytesOp(s1, rest[1..])
  {
  }

  function SendLargeOp(s: State, buf: seq<byte>): (State, Result<()>)
  {
    if |buf| > 255 then (s, Err(PacketTooLarge))
    else
      var (s1, r1) := PrepareTxOp(s);
      if r1.Err? then (s1, r1) else
      var (s2, r2) := WriteOp(s1, Fifo, |buf| as byte);
      if r2.Err? then (s2, r2) else
      var (s3, r3) := ModeOp(s2, Transmitter);
      if r3.Err? then (s3, r3) else
      var (s4, r4) := SendBytesOp(s3, buf);
      if r4.Err? then (s4, r4) else
      FinishTxOp(s4)
  }
}
