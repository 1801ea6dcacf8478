/**
 * The part of the RFM69 register map the driver touches, and the codes of the
 * enumerations it writes into bit fields. Addresses and codes follow the RFM69
 * datasheet; the crate's own `registers` module is not part of this model.
 */
module Registers {

  type byte = bv8

  /** Registers the driver addresses directly (multi-byte writes continue at the next address). */
  datatype Reg =
    | Fifo
    | OpMode
    | BitrateMsb
    | FdevMsb
    | FrfMsb
    | Lna
    | RxBw
    | AfcBw
    | RssiValue
    | DioMapping1
    | IrqFlags1
    | IrqFlags2
    | PreambleMsb
    | SyncConfig
    | SyncValue1
    | PacketConfig1
    | FifoThresh
    | PacketConfig2
    | AesKey1

  function Addr(r: Reg): nat
  {
    match r
    case Fifo => 0x00
    case OpMode => 0x01
    case BitrateMsb => 0x03
    case FdevMsb => 0x05
    case FrfMsb => 0x07
    case Lna => 0x18
    case RxBw => 0x19
    case AfcBw => 0x1A
    case RssiValue => 0x24
    case DioMapping1 => 0x25
    case IrqFlags1 => 0x27
    case IrqFlags2 => 0x28
    case PreambleMsb => 0x2C
    case SyncConfig => 0x2E
    case SyncValue1 => 0x2F
    case PacketConfig1 => 0x37
    case FifoThresh => 0x3C
    case PacketConfig2 => 0x3D
    case AesKey1 => 0x3E
  }

  /** Operating modes; the code sits in bits 4..2 of RegOpMode. */
  datatype Mode = Sleep | Standby | FrequencySynthesizer | Transmitter | Receiver

  function ModeCode(m: Mode): byte
  {
    match m
    case Sleep => 0x00
    case Standby => 0x04
    case FrequencySynthesizer => 0x08
    case Transmitter => 0x0C
    case Receiver => 0x10
  }

  /** The six DIO pins; pin n owns bits 15 - 2n and 14 - 2n of the 16-bit DIO mapping word. */
  datatype DioPin = Dio0 | Dio1 | Dio2 | Dio3 | Dio4 | Dio5

  /** Slot of the pin in the driver's mapping table. */
  function PinIndex(p: DioPin): nat
  {
    match p
    case Dio0 => 0
    case Dio1 => 1
    case Dio2 => 2
    case Dio3 => 3
    case Dio4 => 4
    case Dio5 => 5
  }

  /** The signal a pin carries, as its 2-bit mapping code. */
  datatype DioType = Dio00 | Dio01 | Dio10 | Dio11

  function TypeCode(t: DioType): bv16
  {
    match t
    case Dio00 => 0
    case Dio01 => 1
    case Dio10 => 2
    case Dio11 => 3
  }

  /** The chip mode in which a mapping is meant to be active. */
  datatype DioMode = Rx | Tx

  predicate ActiveIn(dm: DioMode, m: Mode)
  {
    match dm
    case Rx => m == Receiver
    case Tx => m == Transmitter
  }

  datatype DioMapping = DioMapping(pin: DioPin, kind: DioType, dioMode: DioMode)

  /** Fixed or variable length frames; both carry the payload length byte. */
  datatype PacketFormat = Fixed(size: byte) | Variable(size: byte)

  datatype PacketDc = NoDc | Manchester | Whitening

  function DcCode(d: PacketDc): byte
  {
    match d
    case NoDc => 0x00
    case Manchester => 0x20
    case Whitening => 0x40
  }

  datatype PacketFiltering = NoFiltering | Address | Broadcast

  function FilteringCode(f: PacketFiltering): byte
  {
    match f
    case NoFiltering => 0x00
    case Address => 0x02
    case Broadcast => 0x04
  }

  /** Inter-packet receive delay: field value 0 (1 bit) to 11 (2048 bits), bits 7..4 of RegPacketConfig2. */
  type RxDelay = d: byte | d < 12

  datatype PacketConfig = PacketConfig(
    format: PacketFormat,
    dc: PacketDc,
    filtering: PacketFiltering,
    crc: bool,
    interpacketRxDelay: RxDelay,
    autoRxRestart: bool)

  /** FIFO threshold: start on the first byte, or at a FIFO level. */
  datatype FifoMode = NotEmpty | Level(level: byte)

  /** LNA input impedance (bit 7) and gain selection (bits 2..0, 0 = AGC loop, 1..6 = G1..G6). */
  datatype LnaImpedance = Zin50 | Zin200

  type LnaGain = g: byte | g <= 6

  datatype LnaConfig = LnaConfig(zin: LnaImpedance, gainSelect: LnaGain)

  function ZinCode(z: LnaImpedance): byte
  {
    match z
    case Zin50 => 0x00
    case Zin200 => 0x80
  }

  /** Receiver bandwidth: DC cancellation cut-off index (bits 7..5) and the 5-bit mantissa/exponent value. */
  type DccIndex = d: byte | d < 8

  type BwValue = v: byte | v < 32

  datatype RxBwConfig = RxBwConfig(dccCutoff: DccIndex, bw: BwValue)
}
