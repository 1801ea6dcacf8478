# RFM69 driver model

This project models the `Rfm69` driver of an embedded Rust crate for the HopeRF RFM69
sub-GHz transceiver. The driver owns an SPI bus, a chip-select line and a millisecond delay
source. It configures the radio through its register map and sends and receives packets
through the chip's 66-byte FIFO.

The model has four layers:

- **`Bus`**: the chip behind the bus, as a value.
  - The configuration registers form a register file, and a burst transfer continues at the next address.
  - The FIFO and the two IRQ flag registers are *scripted*: each read takes the next bytes the chip delivers.
  - Every successful transaction is appended to a trace of reads, writes and delays. A failed transaction changes nothing.
  - A transaction `budget` places a bus fault anywhere in an operation.
- **`Encoding`**: the bytes the driver computes before writing them.
  - read-modify-write merges;
  - the sync, packet, FIFO, LNA and bandwidth register values;
  - big-endian splits of multi-byte registers;
  - the IRQ flag tests;
  - the DIO mapping word.
- **`Ops`**: one pure function per driver operation, from the driver state (chip, current mode, six DIO slots, last RSSI byte) to the new state and the result. A failing step ends the operation with that step's error.
- **`Rfm`**: the driver itself, a class `Rfm69` whose fields the methods update in place.
  - Each method is proved to leave the driver exactly as its `Ops` function says.
  - The loops of the source (busy waits, `with_timeout`, the byte loops of `recv_large` and `send_large`) are `while` loops with invariants.
  - `recv` and `recv_large` fill a caller's `array<byte>`.
  - The class invariant `Valid()` (six DIO slots, each holding only a mapping for its own pin) is established by the constructor and kept by every method, so any operation may follow any other.

The properties the source promises are proved in module `Properties` about the `Ops` functions:

- what each setter leaves in the registers;
- that a mode change keeps the other bits of RegOpMode and rewrites the DIO word;
- that `with_timeout` gives up after the promised number of polls;
- what `send`/`send_large` put into the FIFO, and in which order relative to mode changes;
- that `recv`/`recv_large` deliver exactly the bytes the chip received;
- that `recv_large` drops a packet that does not fit and reports `BufferTooSmall`.

## Model

| member | source | states |
|---|---|---|
| Ops.Initial | src/rfm.rs:48-57 | a new driver is in Standby with all six DIO slots empty and RSSI 0, on the given chip |
| Rfm.Rfm69.constructor | src/rfm.rs:48-57 | the new object's state is `Initial(chip)` and its DIO slots are well formed |
| Bus.TransferFacts | src/rfm.rs:401-404 | a read either fails with nothing changed, or logs one read and returns `n` bytes: the next bytes of a FIFO/IRQ script (consumed) or the register file from the register's address on |
| Bus.TransmitFacts | src/rfm.rs:388-391 | a write either fails with nothing changed, or logs one write and stores the bytes from the register's address on; FIFO bytes go to the transmitter, not the register file |
| Bus.StoreGet | src/rfm.rs:388-391 | a burst write changes exactly the addresses it covers, address `a + i` to byte `i` |
| Bus.Fetch | src/rfm.rs:401-404 | a burst read returns exactly `n` bytes |
| Bus.FetchGet | src/rfm.rs:401-404 | byte `i` of a burst read is the register at the start address plus `i` |
| Bus.WritesSnoc | src/rfm.rs:388-391 | extending a trace by one event adds that event to its writes iff it is a write, and its bytes to the FIFO data iff it writes the FIFO |
| Bus.WritesAppend | src/rfm.rs:388-391 | the writes and FIFO data of a concatenated trace are the concatenations of those of its parts |
| Rfm.Rfm69.ReadMany | src/rfm.rs:401-404 | fills the buffer and updates the chip exactly as one read transaction of `buffer.Length` bytes; on failure the buffer is unchanged |
| Rfm.Rfm69.Read | src/rfm.rs:394-398 | the state and byte of a one-byte read transaction |
| Rfm.Rfm69.WriteMany | src/rfm.rs:388-391 | the state and result of one write transaction |
| Rfm.Rfm69.Write | src/rfm.rs:383-385 | the state and result of a one-byte write transaction |
| Properties.WriteManyFacts | src/rfm.rs:383-391 | a write succeeds iff a transaction is left; success stores the bytes (not for the FIFO) and logs one write; failure changes nothing and is `Spi`; the shadow state never changes |
| Properties.ReadFacts | src/rfm.rs:394-398 | a configuration register read succeeds iff a transaction is left, returns the register's byte and changes only trace and budget |
| Properties.StoreOne | src/rfm.rs:383-385 | a one-byte write stores exactly that byte at the register's address |
| Encoding.Merge | src/rfm.rs:449-455 | the merged byte keeps the `keep` bits of the old value, has every `bits` bit set, and has every other bit clear |
| Rfm.Rfm69.Update | src/rfm.rs:449-455 | the state and result of a read followed by a write of the merged byte |
| Properties.UpdateFacts | src/rfm.rs:449-455 | read-modify-write succeeds iff two transactions are left; then it logs the read and the write, and only the register changes, to `(old & keep) \| bits`; on failure no register and no write changes |
| Encoding.ModeByte | src/rfm.rs:67-72 | RegOpMode after a mode change keeps bits 7, 6, 5, 1, 0 and holds the mode code in bits 4..2 |
| Encoding.ModeByteLastWins | src/rfm.rs:67-72 | two mode changes in a row leave RegOpMode as the second one alone would |
| Rfm.Rfm69.SetMode | src/rfm.rs:67-72 | the state and result of `ModeOp`: the RegOpMode update, the shadow mode, then the DIO rewrite |
| Properties.ModeFacts | src/rfm.rs:67-72 | the shadow mode becomes `m` exactly when the RegOpMode update went through; success (iff three transactions are left) logs the read, the RegOpMode write and the DIO word for the new mode, and stores both; DIO slots, RSSI and scripts never change |
| Properties.ModeWritesLog | src/rfm.rs:67-72 | a mode change adds exactly its two writes to the trace's writes and nothing to the FIFO data |
| Properties.ModeLog | src/rfm.rs:67-72 | a mode change fails only with `Spi`; on success it adds its two writes, no FIFO byte, leaves the FIFO script alone and sets RegOpMode's mode field |
| Rfm.Rfm69.DioRegister | src/rfm.rs:418-426 | the loop over the slots computes the DIO word of the current mode and slots |
| Rfm.Rfm69.Dio | src/rfm.rs:418-426 | the state and result of writing the DIO word to RegDioMapping1/2 |
| Encoding.DioWordFields | src/rfm.rs:418-426 | in the DIO word each pin's 2-bit field is its mapping's type when the mapping is active in the mode, else 0, and the low nibble is 0x7 (ClkOut off) |
| Encoding.DioWordIgnoresInactive | src/rfm.rs:418-426 | mappings for another mode do not affect the word: it equals the word of the active mappings alone |
| Encoding.PrefixFields | src/rfm.rs:420-424 | after the first `n` slots, each pin's field is set only by its own slot, and only if that slot is active |
| Encoding.PrefixNibble | src/rfm.rs:420-424 | no slot's contribution reaches the low nibble, so after any prefix of slots it is still 0 |
| Encoding.DioWordStep | src/rfm.rs:420-424 | OR-ing one more slot's contribution extends the partial word to the next prefix of slots |
| Rfm.Rfm69.SetDioMapping | src/rfm.rs:102-114 | the state and result of `DioMappingOp`; the slots stay well formed |
| Properties.DioMappingFacts | src/rfm.rs:102-114 | the pin's slot holds the mapping, even when the write then fails; no other slot changes; success writes a word whose every field is the pin's active mapping or 0 |
| Rfm.Rfm69.ClearDio | src/rfm.rs:117-127 | the state and result of `ClearDioOp`; the slots stay well formed |
| Properties.ClearDioFacts | src/rfm.rs:117-127 | the pin's slot is emptied, no other slot changes, and the written word's field for that pin is 0 |
| Encoding.Be16 | src/rfm.rs:131-133 | a 16-bit value as two bytes that read back big-endian as that value |
| Rfm.Rfm69.SetPreamble | src/rfm.rs:131-133 | the state and result of `PreambleOp` |
| Properties.PreambleFacts | src/rfm.rs:131-133 | on success RegPreambleMsb/Lsb read back, big-endian, as the preamble length |
| Rfm.Rfm69.SetBitRate | src/rfm.rs:81-84 | the state and result of `BitRateOp` for the computed register value |
| Properties.BitRateFacts | src/rfm.rs:81-84 | on success RegBitrateMsb/Lsb read back, big-endian, as the register value |
| Rfm.Rfm69.SetFdev | src/rfm.rs:88-91 | the state and result of `FdevOp` for the computed register value |
| Properties.FdevFacts | src/rfm.rs:88-91 | on success RegFdevMsb/Lsb read back, big-endian, as the register value |
| Encoding.Be24 | src/rfm.rs:95-98 | the last three big-endian bytes of a 32-bit value read back as its low 24 bits |
| Rfm.Rfm69.SetFrequency | src/rfm.rs:95-98 | the state and result of `FrequencyOp` for the computed register value |
| Properties.FrequencyFacts | src/rfm.rs:95-98 | on success RegFrfMsb/Mid/Lsb read back, big-endian, as the low 24 bits of the value |
| Properties.StoredBytes | src/rfm.rs:388-391 | after a burst write each written byte reads back at its address |
| Encoding.SyncConfigByte | src/rfm.rs:144 | RegSyncConfig for `len` sync bytes has SyncOn set, `len - 1` in bits 5..3 and the other bits clear |
| Encoding.SyncOffByte | src/rfm.rs:140-141 | turning sync off clears bit 7 of RegSyncConfig and keeps the rest |
| Rfm.Rfm69.SetSync | src/rfm.rs:137-147 | the state and result of `SyncOp` |
| Properties.SyncFacts | src/rfm.rs:137-147 | more than 8 bytes is `SyncSize` with no bus traffic; none succeeds iff two transactions are left and clears only SyncOn; 1..8 bytes succeed iff two transactions are left, writing the config byte and then the bytes from RegSyncValue1 on, which read back, and change no other register |
| Encoding.PacketConfig1Bytes | src/rfm.rs:151-163 | RegPacketConfig1 has the format bit iff the format is variable, the DC and filtering codes and the CRC bit iff CRC is on; RegPayloadLength is the size |
| Encoding.PacketConfig2Byte | src/rfm.rs:164-165 | RegPacketConfig2 keeps bits 3, 2, 0, has the inter-packet delay in bits 7..4 and bit 1 iff auto-restart |
| Rfm.Rfm69.SetPacket | src/rfm.rs:151-166 | the state and result of `PacketOp` |
| Properties.PacketFacts | src/rfm.rs:151-166 | success iff three transactions are left; then it writes RegPacketConfig1/RegPayloadLength and updates RegPacketConfig2, keeping AesOn and reserved bits |
| Encoding.FifoNotEmptyByte | src/rfm.rs:181 | FIFO start on "not empty" sets bit 7 of RegFifoThresh and keeps the threshold |
| Encoding.FifoLevelByte | src/rfm.rs:182 | FIFO start at a level writes the level modulo 128 with bit 7 clear |
| Rfm.Rfm69.SetFifoMode | src/rfm.rs:179-184 | the state and result of `FifoModeOp` |
| Properties.FifoModeFacts | src/rfm.rs:179-184 | `NotEmpty` is a read-modify-write setting bit 7; `Level(n)` is one write of `n & 0x7F`; each succeeds iff its transactions are left |
| Encoding.AesOffByte | src/rfm.rs:191-192 | AES off clears only bit 0 of RegPacketConfig2 |
| Encoding.AesOnByte | src/rfm.rs:193-194 | AES on sets only bit 0 of RegPacketConfig2 |
| Rfm.Rfm69.SetAes | src/rfm.rs:189-198 | the state and result of `AesOp` |
| Properties.AesFacts | src/rfm.rs:189-198 | no key clears AesOn; a 16-byte key sets AesOn and writes the key from RegAesKey1 on, which reads back, and changes no other register; any other length is `AesKeySize` with no bus traffic |
| Encoding.LnaByte | src/rfm.rs:330-333 | RegLna keeps bits 6..3 and takes the impedance in bit 7 and the gain selection in bits 2..0 |
| Rfm.Rfm69.SetLna | src/rfm.rs:330-333 | the state and result of `LnaOp` |
| Properties.LnaFacts | src/rfm.rs:330-333 | success iff two transactions are left, and then RegLna alone changes, to the merged byte |
| Encoding.RxBwByte | src/rfm.rs:361-380 | the bandwidth byte has the DC cut-off index in bits 7..5 and the bandwidth value in bits 4..0 |
| Rfm.Rfm69.SetRxBw | src/rfm.rs:361-369 | the state and result of one write of the bandwidth byte to RegRxBw |
| Rfm.Rfm69.SetRxAfcBw | src/rfm.rs:372-380 | the state and result of one write of the bandwidth byte to RegAfcBw |
| Rfm.Rfm69.Test | src/rfm.rs:310-327 | the state and result of reading the flag's IRQ register and testing its bit |
| Rfm.Rfm69.IsSyncAddressMatch | src/rfm.rs:310-312 | the flag test for SyncAddressMatch (RegIrqFlags1 bit 0) |
| Rfm.Rfm69.IsFifoEmpty | src/rfm.rs:315-317 | the flag test for FIFO empty (RegIrqFlags2 bit 6 clear) |
| Rfm.Rfm69.IsFifoFull | src/rfm.rs:320-322 | the flag test for FifoFull (RegIrqFlags2 bit 7) |
| Rfm.Rfm69.IsPacketReady | src/rfm.rs:325-327 | the flag test for PacketReady (RegIrqFlags2 bit 2) |
| Properties.FlagFacts | src/rfm.rs:310-327 | a flag test is one read of the flag's register; it succeeds iff a transaction and a scripted byte are left, and returns the flag's bit of that byte |
| Properties.FlagRead | src/rfm.rs:310-327 | a test that goes through returns the flag of the next scripted byte, consumes it and logs one read |
| Properties.FlagFrame | src/rfm.rs:310-327 | a flag test only reads: no register, shadow field, write or FIFO byte changes |
| Rfm.Rfm69.BusyWait | src/rfm.rs:214 | the busy-wait loop leaves the state and result of `PollOp` |
| Properties.PollFrames | src/rfm.rs:214 | a busy wait only reads status, and fails only with `Spi` |
| Rfm.Rfm69.DelayAndTest | src/rfm.rs:439-441 | one round of the timed wait: the state and result of testing the flag after a `step` ms delay |
| Rfm.Rfm69.RetryLoop | src/rfm.rs:437-447 | the loop after the first test leaves the state and result of `RetryOp` from a count of 0, keeping the count below `timeout + step` |
| Rfm.Rfm69.WithTimeout | src/rfm.rs:432-447 | the first test followed by the timed wait loop leaves the state and result of `WithTimeoutOp` |
| Properties.RetryFrames | src/rfm.rs:437-441 | the retry loop only reads status and waits |
| Properties.WithTimeoutFrame | src/rfm.rs:432-447 | `with_timeout` only reads status and waits |
| Properties.RoundsMultiple | src/rfm.rs:437-441 | a timeout of `k` whole steps takes exactly `k` rounds |
| Properties.RoundsBound | src/rfm.rs:437-441 | the counter after the last round is at most `timeout + step - 1` |
| Properties.WithTimeoutFirst | src/rfm.rs:436-437 | `with_timeout` first tests the flag, and succeeds at once when it holds |
| Properties.RetryNever | src/rfm.rs:437-444 | when the flag never holds, the retry loop ends with `Timeout` |
| Properties.RetryNeverTrace | src/rfm.rs:437-441 | when the flag never holds, the retry loop makes every round, a delay and a read each |
| Properties.RetryBound | src/rfm.rs:437-441 | the retry loop only extends the trace, by at most two events per round |
| Properties.WithTimeoutBound | src/rfm.rs:432-447 | `with_timeout` makes one test and at most `Rounds` rounds of a delay and a test |
| Properties.WithTimeoutNever | src/rfm.rs:432-447 | when the flag holds in none of its reads, `with_timeout` logs the first test and every round, then gives `Timeout` |
| Rfm.Rfm69.WaitModeReady | src/rfm.rs:406-410 | the state and result of `with_timeout(100, 5)` on ModeReady |
| Rfm.Rfm69.WaitPacketSent | src/rfm.rs:412-416 | the state and result of `with_timeout(100, 5)` on PacketSent |
| Properties.RetryError | src/rfm.rs:437-441 | a failed test in a later round ends the loop at once with that `Spi` error, after that round's delay and nothing else |
| Properties.RetryShape | src/rfm.rs:437-447 | the loop ends with `Ok`, `Timeout` or `Spi`; its trace is `k` rounds of a delay and a read, plus a lone delay exactly when a test failed, within `Rounds` rounds |
| Properties.WithTimeoutShape | src/rfm.rs:432-447 | either the first test fails and nothing changes, or the trace is the first read, `k` rounds and a lone delay exactly when a later test failed, within `Rounds` rounds |
| Properties.WaitErrors | src/rfm.rs:406-416 | the mode-ready and packet-sent waits fail only with `Spi` or `Timeout` |
| Properties.WaitBound | src/rfm.rs:406-416 | a wait for ModeReady or PacketSent adds at most 41 events: the first read, `k <= 20` rounds of a 5 ms delay and a read, and one more delay only if a test failed, so at most 21 reads and 20 delays |
| Properties.WaitTimesOut | src/rfm.rs:406-416 | a flag that never comes costs 21 reads and 20 delays of 5 ms, then `Timeout` |
| Rfm.Rfm69.ResetFifo | src/rfm.rs:428-430 | the state and result of writing FifoOverrun to RegIrqFlags2 |
| Properties.ResetFifoLog | src/rfm.rs:428-430 | the FIFO reset adds exactly the RegIrqFlags2 write and no FIFO byte |
| Rfm.Rfm69.Send | src/rfm.rs:264-279 | the state and result of `SendOp` |
| Rfm.Rfm69.PrepareTx | src/rfm.rs:269-272 | the state and result of Standby, the ModeReady wait and the FIFO reset |
| Rfm.Rfm69.FinishTx | src/rfm.rs:276-278 | the state and result of the PacketSent wait and the return to Standby |
| Properties.PrepareTxLog | src/rfm.rs:269-272 | on success the writes are the Standby change and the FIFO reset, with no FIFO byte |
| Properties.PrepareTxErrors | src/rfm.rs:269-272 | the start of a send fails only with `Spi` or `Timeout` |
| Properties.FinishTxLog | src/rfm.rs:276-278 | on success the only writes are the Standby change |
| Properties.FinishTxErrors | src/rfm.rs:276-278 | the end of a send fails only with `Spi` or `Timeout` |
| Properties.FifoWriteLog | src/rfm.rs:274 | a FIFO write adds the bytes to the FIFO data and nothing to the register file |
| Properties.SendFacts | src/rfm.rs:264-279 | an empty buffer is `Ok` with nothing done; a non-empty send fails only with `Spi` or `Timeout`; on success the FIFO receives exactly the buffer; the writes are Standby, FIFO reset, the buffer, Transmitter, Standby in that order; the driver ends in Standby |
| Rfm.Rfm69.SendLarge | src/rfm.rs:288-307 | the state and result of `SendLargeOp` |
| Rfm.Rfm69.PutByte | src/rfm.rs:299-302 | the state and result of waiting while the FIFO is full, then writing one byte |
| Properties.PutByteLog | src/rfm.rs:299-302 | on success one byte write to the FIFO is added |
| Properties.SendBytesLog | src/rfm.rs:299-302 | on success the byte loop sends the buffer, byte by byte and in order, to the FIFO |
| Properties.SendBytesErrors | src/rfm.rs:299-302 | the byte loop has no timeout: it fails only with `Spi` |
| Properties.SendLargeFacts | src/rfm.rs:288-307 | more than 255 bytes is `PacketTooLarge` with no bus traffic; at most 255 bytes fails only with `Spi` or `Timeout`; on success the FIFO receives the length byte followed by the buffer, between the Standby/reset, Transmitter and final Standby writes |
| Rfm.Rfm69.Rssi | src/rfm.rs:201-203 | the getter returns the RSSI of the driver's state, the byte the last receive latched |
| Rfm.Rfm69.LatchRssi | src/rfm.rs:220 | the state and result of reading RegRssiValue into the RSSI field |
| Properties.LatchRssiLog | src/rfm.rs:220 | on success the RSSI field is RegRssiValue's byte and nothing else visible changes |
| Properties.FifoReadLog | src/rfm.rs:219 | a FIFO read of `n` bytes fails with nothing changed, or returns the next `n` received bytes and consumes them |
| Rfm.Rfm69.AwaitPacket | src/rfm.rs:213-216 | the state and result of Receiver, the ModeReady wait and the PacketReady poll |
| Properties.AwaitPacketLog | src/rfm.rs:213-216 | on success the only writes are the Receiver change, and no received byte is consumed |
| Properties.AwaitPacketErrors | src/rfm.rs:213-216 | the start of `recv` fails only with `Spi` or `Timeout` |
| Rfm.Rfm69.Recv | src/rfm.rs:208-222 | the state, result and buffer contents of `RecvOp` |
| Properties.RecvData | src/rfm.rs:208-222 | an empty buffer is `Ok` with nothing done; a non-empty receive fails only with `Spi` or `Timeout`; the buffer is unchanged or holds the first received bytes; on success it holds exactly the next `len` received bytes, which are consumed |
| Properties.RecvState | src/rfm.rs:208-222 | on success the driver is in Standby, the DIO slots are unchanged and the RSSI is RegRssiValue's byte |
| Properties.RecvLog | src/rfm.rs:208-222 | on success the writes are the Receiver change then the Standby change, and nothing is sent to the FIFO |
| Rfm.Rfm69.NextByte | src/rfm.rs:253-255 | the state and result of waiting while the FIFO is empty, then reading one FIFO byte |
| Properties.NextByteLog | src/rfm.rs:253-255 | on success the byte is the next received byte, which is consumed, and nothing else visible changes |
| Rfm.Rfm69.DrainFifo | src/rfm.rs:243-246 | the drain loop leaves the state and result of `DrainOp` |
| Properties.DrainLog | src/rfm.rs:243-246 | the drain loop fails only with `Spi`; on success it consumes exactly `len` received bytes and writes nothing |
| Rfm.Rfm69.FillBuffer | src/rfm.rs:253-256 | the fill loop leaves the state, result and buffer of `FillOp` |
| Properties.FillFrame | src/rfm.rs:253-256 | the fill loop keeps the buffer's length, fails only with `Spi`, and on success consumes exactly the bytes it stores and writes nothing |
| Properties.FillKeeps | src/rfm.rs:253-256 | the fill loop changes no slot outside the range it fills |
| Properties.FillBytes | src/rfm.rs:253-256 | on success slot `j` of the filled range holds received byte `j - i` |
| Properties.FillResult | src/rfm.rs:253-256 | on success the first `len` slots hold the first `len` received bytes, the rest of the buffer is unchanged, and those bytes are consumed |
| Rfm.Rfm69.FinishRecv | src/rfm.rs:258-259 | the state and result of Standby, then the RSSI latch |
| Properties.FinishRecvLog | src/rfm.rs:258-259 | on success the driver is in Standby, RSSI is RegRssiValue's byte and the only writes are the Standby change |
| Rfm.Rfm69.Discard | src/rfm.rs:242-250 | the state and result of draining `len` bytes, then Standby and the RSSI latch |
| Properties.DiscardLog | src/rfm.rs:242-250 | on success `len` received bytes are dropped, the driver is in Standby, and the only writes are the Standby change |
| Rfm.Rfm69.Payload | src/rfm.rs:242-260 | the state, result and buffer of `PayloadOp` |
| Properties.PayloadData | src/rfm.rs:240-260 | a length that fits the buffer gives `Ok(len)` or `Spi`; any failure is `Spi` or `BufferTooSmall`; on success the result is `len`, and the buffer's first `len` slots hold the next received bytes while the rest are unchanged |
| Properties.PayloadLog | src/rfm.rs:252-260 | on success the driver is in Standby, RSSI is latched and the only writes are the Standby change |
| Properties.PayloadDrop | src/rfm.rs:242-250 | a length over the buffer's size gives `BufferTooSmall`, or `Spi` if a transaction fails, with the buffer unchanged; `BufferTooSmall` means the packet was read and dropped and the driver is back in Standby |
| Rfm.Rfm69.RecvLarge | src/rfm.rs:236-261 | the state, result and buffer of `RecvLargeOp` |
| Properties.RecvLargeData | src/rfm.rs:236-261 | when a length byte is pending and fits the buffer the result is `Ok` or `Spi`; any failure is `Spi` or `BufferTooSmall` (no timeout); on success the result is the first received byte (the length), the buffer's first `len` slots hold the next `len` received bytes, the rest is unchanged, and the packet is consumed |
| Properties.RecvLargeLog | src/rfm.rs:236-261 | on success the driver is in Standby with RSSI latched and DIO slots unchanged, and the writes are Receiver then Standby |
| Properties.RecvLargeRejects | src/rfm.rs:236-250 | a length byte larger than the buffer gives `BufferTooSmall`, or `Spi` if a transaction fails, and the buffer is unchanged |
| Properties.RecvLargeTooSmall | src/rfm.rs:242-250 | `BufferTooSmall` means the length byte exceeded the buffer, the whole packet was consumed, and the buffer is unchanged |
| Properties.RecvLargeDiscardLog | src/rfm.rs:242-250 | after `BufferTooSmall` the driver is in Standby with RSSI latched, and the writes are Receiver then Standby |

## Left out

- Floating point is not modelled. `bit_rate`, `fdev` and `frequency` take the integer register value that the float division and truncating cast produce. `SetBitRate`, `SetFdev` and `SetFrequency` model only the big-endian split and write.
- `Rfm.Rfm69.LatchRssi`: keeps the raw RegRssiValue byte, not the `f32` value `byte / -2.0`. The `rssi()` getter returns that raw byte.
- Chip-select errors and bus errors are merged into one error, `Spi`. The chip-select guard is not modelled separately. `new_without_cs` is the same driver without a chip-select line.
- `read_all_regs`, `modulation`, `node_address`, `broadcast_address`, `rssi_threshold`, `sensitivity_boost`, `pa13_dbm1`, `pa13_dbm2` and `continuous_dagc` are not modelled. Each is a single `read_many` or `write` of a caller-given value, already covered by `ReadMany` and `Write`.
- Register addresses and enumeration codes follow the RFM69 datasheet. The crate's `registers` module and its enumeration definitions are not part of this model. Codes written into a bit field are modelled as field values that the encoder shifts into place. DIO mapping modes are modelled as receive and transmit.
- `update` and `with_timeout` take closures in the source.
  - `Update` takes the merge `(value & keep) | bits`, which every closure passed to `update` has the form of.
  - `WithTimeout` takes a flag, that is, a register and a bit test, which both callers have the form of.
- `Rfm.Rfm69.WithTimeout`: the `u8` counter is an unbounded integer. The `requires timeout + step <= 256` rules out the overflow of `count += step`; the two callers (100, 5) satisfy it. It also requires `0 < step`: with a step of 0 the source's loop never advances `count` and spins until the flag holds or a read fails, which the model does not cover.
- Busy waits without a timeout terminate in the model because the IRQ script is finite. Reading past the end of a script is a bus error, and an endless wait on a chip that never raises the flag is not modelled.
- The delay source is recorded in the trace and never fails.
- `Rfm.Rfm69.ReadMany`: on a failed transaction the buffer is left unchanged. A real SPI implementation may have written part of it.
- `Properties.RecvData`: when the RSSI read fails after the FIFO read, `recv` returns the error with the buffer already filled, as the source does. The lemma therefore states "unchanged or filled" rather than "unchanged on error".
- `Properties.SendFacts`, `Properties.SendLargeFacts`, `Properties.RecvLog` and `Properties.RecvLargeLog`: the order of operations is stated on the writes of the trace only. The status reads and delays in between are described by the polling lemmas, not restated here.
- `Properties.RecvLargeData`: states the delivered bytes and the unchanged tail of the buffer. It does not separately state that the buffer keeps its length, which the array type already fixes.
- FIFO overruns and underruns are not detected by the source, and they are not modelled. The chip's FIFO is a scripted stream of received bytes.
- Concurrency, interrupts on the DIO pins and the radio's physical behaviour are not modelled.
