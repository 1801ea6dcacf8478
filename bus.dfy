/**
 * The bus and the chip behind it, as the driver sees them: one fallible
 * transaction per `read_many` / `write_many`, chip select included.
 *
 * Configuration registers form a register file; a multi-byte transfer continues
 * at the next address. The FIFO and the two IRQ flag registers are scripted:
 * each read takes the next bytes the chip is going to deliver, and reading past
 * the end of a script is a failed transaction. Every transaction that succeeds
 * is appended to the trace; a failed one changes nothing. `budget` says how
 * many transactions still succeed, so a transport fault can be placed anywhere.
 */
module Bus {
  import opened Wrappers
  import opened Registers

  /** One entry of the trace: a read of `len` bytes, a write, or a delay of the delay source. */
  datatype Event = Read(reg: Reg, len: nat) | Write(reg: Reg, data: seq<byte>) | Delay(ms: nat)

  datatype Chip = Chip(
    regs: map<nat, byte>,
    rx: seq<byte>,
    irq1: seq<byte>,
    irq2: seq<byte>,
    trace: seq<Event>,
    budget: nat)

  /** Registers whose reads come from a script rather than the register file. */
  predicate Volatile(r: Reg)
  {
    r == Fifo || r == IrqFlags1 || r == IrqFlags2
  }

  /** The bytes a volatile register is still going to deliver; other registers have none. */
  function Script(c: Chip, r: Reg): seq<byte>
  {
    if r == Fifo then c.rx else if r == IrqFlags1 then c.irq1 else if r == IrqFlags2 then c.irq2 else []
  }

  /** The register file's content at an address; registers never written read as 0. */
  function Get(regs: map<nat, byte>, a: nat): byte
  {
    if a in regs then regs[a] else 0
  }

  /** A burst write into the register file: `data[i]` lands at address `a + i`. */
  function Store(regs: map<nat, byte>, a: nat, data: seq<byte>): map<nat, byte>
    decreases |data|
  {
    if |data| == 0 then regs else Store(regs[a := data[0]], a + 1, data[1..])
  }

  /** A burst write changes exactly the addresses it covers, each to its byte. */
  lemma {:induction false} StoreGet(regs: map<nat, byte>, a: nat, data: seq<byte>, x: nat)
    ensures Get(Store(regs, a, data), x) == if a <= x < a + |data| then data[x - a] else Get(regs, x)
    decreases |data|
  {
    if |data| > 0 {
      StoreGet(regs[a := data[0]], a + 1, data[1..], x);
    }
  }

  /** A burst read of `n` bytes of the register file from address `a` on. */
  function Fetch(regs: map<nat, byte>, a: nat, n: nat): (bs: seq<byte>)
    ensures |bs| == n
    decreases n
  {
    if n == 0 then [] else [Get(regs, a)] + Fetch(regs, a + 1, n - 1)
  }

  /** Byte `i` of a burst read is the register at the start address plus `i`. */
  lemma {:induction false} FetchGet(regs: map<nat, byte>, a: nat, n: nat, i: nat)
    requires i < n
    ensures Fetch(regs, a, n)[i] == Get(regs, a + i)
    decreases n
  {
    if i > 0 {
      FetchGet(regs, a + 1, n - 1, i - 1);
    }
  }

  /** One read transaction of `n` bytes starting at `r`. */
  function Transfer(c: Chip, r: Reg, n: nat): (Chip, Result<seq<byte>>)
  {
    if c.budget == 0 || (Volatile(r) && |Script(c, r)| < n) then (c, Err(Spi))
    else
      var c1 := c.(trace := c.trace + [Read(r, n)], budget := c.budget - 1);
      if r == Fifo then (c1.(rx := c.rx[n..]), Ok(c.rx[..n]))
      else if r == IrqFlags1 then (c1.(irq1 := c.irq1[n..]), Ok(c.irq1[..n]))
      else if r == IrqFlags2 then (c1.(irq2 := c.irq2[n..]), Ok(c.irq2[..n]))
      else (c1, Ok(Fetch(c.regs, Addr(r), n)))
  }

  /**
   * A read either fails and changes nothing, or consumes one transaction, logs it and
   * returns `n` bytes: the next bytes of the register's script, or the register file
   * from the register's address on. The register file is never changed by a read.
   */
  lemma TransferFacts(c: Chip, r: Reg, n: nat)
    ensures var out := Transfer(c, r, n);
      (out.1.Err? <==> c.budget == 0 || (Volatile(r) && |Script(c, r)| < n)) &&
      (out.1.Err? ==> out == (c, Err(Spi))) &&
      (out.1.Ok? ==>
        |out.1.value| == n && out.0.trace == c.trace + [Read(r, n)] && out.0.regs == c.regs &&
        out.0.budget == c.budget - 1 &&
        (Volatile(r) ==> out.1.value == Script(c, r)[..n] && Script(out.0, r) == Script(c, r)[n..]) &&
        (forall q :: Volatile(q) && q != r ==> Script(out.0, q) == Script(c, q)) &&
        (!Volatile(r) ==> forall i :: 0 <= i < n ==> out.1.value[i] == Get(c.regs, Addr(r) + i)))
  {
    if !Volatile(r) {
      forall i | 0 <= i < n {
        FetchGet(c.regs, Addr(r), n, i);
      }
    }
  }

  /** One write transaction. Bytes written to the FIFO go to the transmitter, not the register file. */
  function Transmit(c: Chip, r: Reg, data: seq<byte>): (Chip, Result<()>)
  {
    if c.budget == 0 then (c, Err(Spi))
    else
      var regs := if r == Fifo then c.regs else Store(c.regs, Addr(r), data);
      (c.(regs := regs, trace := c.trace + [Write(r, data)], budget := c.budget - 1), Ok(()))
  }

  /** A write either fails and changes nothing, or consumes one transaction, logs it and stores the bytes. */
  lemma TransmitFacts(c: Chip, r: Reg, data: seq<byte>)
    ensures var out := Transmit(c, r, data);
      (out.1.Err? <==> c.budget == 0) &&
      (out.1.Err? ==> out == (c, Err(Spi))) &&
      (out.1.Ok? ==>
        out.0.trace == c.trace + [Write(r, data)] && out.0.budget == c.budget - 1 &&
        out.0.regs == (if r == Fifo then c.regs else Store(c.regs, Addr(r), data))) &&
      out.0.rx == c.rx && out.0.irq1 == c.irq1 && out.0.irq2 == c.irq2
  {
  }

  /** A call of the delay source: recorded, never fails. */
  function DelayMs(c: Chip, ms: nat): Chip
  {
    c.(trace := c.trace + [Delay(ms)])
  }

  /** The writes of a trace, in order. */
  function Writes(t: seq<Event>): seq<Event>
  {
    if |t| == 0 then []
    else Writes(t[..|t| - 1]) + (if t[|t| - 1].Write? then [t[|t| - 1]] else [])
  }

  /** The bytes a trace sends to the FIFO, in order. */
  function FifoData(t: seq<Event>): seq<byte>
  {
    if |t| == 0 then []
    else FifoData(t[..|t| - 1]) + (if t[|t| - 1].Write? && t[|t| - 1].reg == Fifo then t[|t| - 1].data else [])
  }

  lemma WritesSnoc(t: seq<Event>, e: Event)
    ensures Writes(t + [e]) == Writes(t) + (if e.Write? then [e] else [])
    ensures FifoData(t + [e]) == FifoData(t) + (if e.Write? && e.reg == Fifo then e.data else [])
  {
    assert (t + [e])[..|t|] == t;
  }

  /** Writes and FIFO data of a trace extended by `u` are those of the trace followed by those of `u`. */
  lemma {:induction false} WritesAppend(t: seq<Event>, u: seq<Event>)
    ensures Writes(t + u) == Writes(t) + Writes(u)
    ensures FifoData(t + u) == FifoData(t) + FifoData(u)
    decreases |u|
  {
    if |u| == 0 {
      assert t + u == t;
    } else {
      var v := u[..|u| - 1];
      var e := u[|u| - 1];
      assert u == v + [e];
      assert t + u == (t + v) + [e];
      WritesAppend(t, v);
      WritesSnoc(t + v, e);
      WritesSnoc(v, e);
      var we: seq<Event> := if e.Write? then [e] else [];
      var fd: seq<byte> := if e.Write? && e.reg == Fifo then e.data else [];
      assert Writes(t) + Writes(v) + we == Writes(t) + (Writes(v) + we);
      assert FifoData(t) + FifoData(v) + fd == FifoData(t) + (FifoData(v) + fd);
    }
  }
}
