/**
 * A scripted stand-in for the I2C transport with one 24C32 on the bus.
 *
 * The transport itself is foreign code; here it is an oracle. The k-th
 * transaction issued on the bus (counting from 0) completes with
 * `outcome(k)`, every transaction is appended to `trace`, and a 4096-byte
 * `memory` plays the device's storage array so that what a read returns
 * can be related to what was written before.
 */
module MockBus {
  import opened Nhal
  import opened Eeprom24c32Defs

  /** The word address the device latches from the two address bytes; the top four bits are ignored. */
  function LatchedAddress(hi: uint8, lo: uint8): (a: nat)
    ensures a < SizeBytes
    ensures hi as int * 256 + lo as int < SizeBytes ==> a == hi as int * 256 + lo as int
  {
    (hi as int * 256 + lo as int) % SizeBytes
  }

  /** Where the device's address counter moves after a written byte: it rolls over inside the page. */
  function NextInPage(a: nat): (b: nat)
    requires a < SizeBytes
    ensures b < SizeBytes && b / PageSizeBytes == a / PageSizeBytes
    ensures a % PageSizeBytes + 1 < PageSizeBytes ==> b == a + 1
  {
    a / PageSizeBytes * PageSizeBytes + (a % PageSizeBytes + 1) % PageSizeBytes
  }

  /** The device storing the data bytes frame[i..] of one write transaction from address `a` on. */
  function StoreBytes(mem: seq<uint8>, a: nat, frame: seq<uint8>, i: nat): (m: seq<uint8>)
    requires |mem| == SizeBytes && a < SizeBytes && i <= |frame|
    ensures |m| == SizeBytes
    decreases |frame| - i
  {
    if i == |frame| then mem
    else StoreBytes(mem[a := frame[i]], NextInPage(a), frame, i + 1)
  }

  /** While the bytes fit in the rest of the page, they land at consecutive addresses and nothing else changes. */
  lemma {:induction false} StoreWithinPage(mem: seq<uint8>, a: nat, frame: seq<uint8>, i: nat)
    requires |mem| == SizeBytes && a < SizeBytes && i <= |frame|
    requires a % PageSizeBytes + |frame| - i <= PageSizeBytes
    ensures a + |frame| - i <= SizeBytes
    ensures StoreBytes(mem, a, frame, i) == mem[..a] + frame[i..] + mem[a + |frame| - i..]
    decreases |frame| - i
  {
    if i < |frame| {
      var mem' := mem[a := frame[i]];
      if i + 1 == |frame| {
        assert StoreBytes(mem', NextInPage(a), frame, i + 1) == mem';
        assert mem' == mem[..a] + frame[i..] + mem[a + 1..];
      } else {
        assert NextInPage(a) == a + 1;
        StoreWithinPage(mem', a + 1, frame, i + 1);
        assert mem'[..a + 1] == mem[..a] + [frame[i]];
        assert mem'[a + 1 + |frame| - (i + 1)..] == mem[a + |frame| - i..];
        assert [frame[i]] + frame[i + 1..] == frame[i..];
      }
    }
  }

  /** A sequential read of `n` bytes from address `a`: the counter rolls over from the last byte to the first. */
  function LoadBytes(mem: seq<uint8>, a: nat, n: nat): (r: seq<uint8>)
    requires |mem| == SizeBytes
    ensures |r| == n
  {
    seq(n, i requires 0 <= i < n => mem[(a + i) % SizeBytes])
  }

  /** A read that stays inside the array returns exactly that slice of memory. */
  lemma LoadInRange(mem: seq<uint8>, a: nat, n: nat)
    requires |mem| == SizeBytes && a + n <= SizeBytes
    ensures LoadBytes(mem, a, n) == mem[a..a + n]
  {
  }

  /** The effect of one transaction with the given outcome on the device's storage. */
  function Apply(mem: seq<uint8>, t: Transaction, r: HalResult): (m: seq<uint8>)
    requires |mem| == SizeBytes
    ensures |m| == SizeBytes
    ensures !t.MasterWrite? || r != NhalOk ==> m == mem
  {
    match t
    case MasterWrite(_, bytes) =>
      if r == NhalOk && |bytes| >= 2 then StoreBytes(mem, LatchedAddress(bytes[0], bytes[1]), bytes, 2)
      else mem
    case MasterRead(_, _) => mem
    case MasterWriteReadReg(_, _, _) => mem
  }

  /** The storage after the transactions `ts`, the first of which was the k-th on the bus. */
  function Replay(mem: seq<uint8>, ts: seq<Transaction>, outcome: nat -> HalResult, k: nat): (m: seq<uint8>)
    requires |mem| == SizeBytes
    ensures |m| == SizeBytes
    decreases |ts|
  {
    if ts == [] then mem
    else Replay(Apply(mem, ts[0], outcome(k)), ts[1..], outcome, k + 1)
  }

  /** Appending to a trace in two steps is appending once. */
  lemma AppendTwice(ts: seq<Transaction>, ts1: seq<Transaction>, ts2: seq<Transaction>)
    ensures ts + ts1 + ts2 == ts + (ts1 + ts2)
  {
  }

  /** Replaying two stretches of a trace one after the other, the second beginning as transaction `k2`, is replaying their concatenation. */
  lemma {:induction false} ReplayAppend(mem: seq<uint8>, ts1: seq<Transaction>, ts2: seq<Transaction>, outcome: nat -> HalResult, k: nat, k2: nat)
    requires |mem| == SizeBytes && k2 == k + |ts1|
    ensures Replay(mem, ts1 + ts2, outcome, k) == Replay(Replay(mem, ts1, outcome, k), ts2, outcome, k2)
    decreases |ts1|
  {
    if ts1 == [] {
      assert ts1 + ts2 == ts2;
    } else {
      assert (ts1 + ts2)[1..] == ts1[1..] + ts2;
      ReplayAppend(Apply(mem, ts1[0], outcome(k)), ts1[1..], ts2, outcome, k + 1, k2);
    }
  }

  /** A stretch of trace without write transactions leaves the storage as it was. */
  lemma {:induction false} ReplayWithoutWrites(mem: seq<uint8>, ts: seq<Transaction>, outcome: nat -> HalResult, k: nat)
    requires |mem| == SizeBytes
    requires forall i :: 0 <= i < |ts| ==> !ts[i].MasterWrite?
    ensures Replay(mem, ts, outcome, k) == mem
    decreases |ts|
  {
    if ts != [] {
      ReplayWithoutWrites(mem, ts[1..], outcome, k + 1);
    }
  }

  /** The transport context: scripted outcomes, the trace of issued transactions and the device's storage. */
  class I2cContext {
    const outcome: nat -> HalResult
    var trace: seq<Transaction>
    var memory: seq<uint8>

    ghost predicate Valid()
      reads this
    {
      |memory| == SizeBytes
    }

    constructor (outcome: nat -> HalResult, memory: seq<uint8>)
      requires |memory| == SizeBytes
      ensures Valid()
      ensures this.outcome == outcome && this.memory == memory && trace == []
    {
      this.outcome := outcome;
      this.memory := memory;
      trace := [];
    }

    /** nhal_i2c_master_write */
    method MasterWrite(dev: I2cAddress, bytes: seq<uint8>) returns (r: HalResult)
      requires Valid()
      modifies this
      ensures Valid()
      ensures r == outcome(|old(trace)|)
      ensures trace == old(trace) + [Transaction.MasterWrite(dev, bytes)]
      ensures memory == Apply(old(memory), Transaction.MasterWrite(dev, bytes), r)
    {
      r := outcome(|trace|);
      memory := Apply(memory, Transaction.MasterWrite(dev, bytes), r);
      trace := trace + [Transaction.MasterWrite(dev, bytes)];
    }

    /** nhal_i2c_master_read; the bytes read are discarded by the only caller, so only the outcome is returned. */
    method MasterRead(dev: I2cAddress, count: nat) returns (r: HalResult)
      requires Valid()
      modifies this
      ensures Valid()
      ensures r == outcome(|old(trace)|)
      ensures trace == old(trace) + [Transaction.MasterRead(dev, count)]
      ensures memory == old(memory)
    {
      r := outcome(|trace|);
      trace := trace + [Transaction.MasterRead(dev, count)];
    }

    /**
     * nhal_i2c_master_write_read_reg: latch the address sent in `reg`, then read
     * `count` bytes into `buffer`. A failed transaction leaves the buffer as it was.
     */
    method MasterWriteReadReg(dev: I2cAddress, reg: seq<uint8>, buffer: array<uint8>, count: nat) returns (r: HalResult)
      requires Valid()
      requires |reg| == 2 && count <= buffer.Length
      modifies this, buffer
      ensures Valid()
      ensures r == outcome(|old(trace)|)
      ensures trace == old(trace) + [Transaction.MasterWriteReadReg(dev, reg, count)]
      ensures memory == old(memory)
      ensures buffer[..count] == if r == NhalOk then LoadBytes(memory, LatchedAddress(reg[0], reg[1]), count)
                                 else old(buffer[..count])
      ensures buffer[count..] == old(buffer[count..])
    {
      r := outcome(|trace|);
      trace := trace + [Transaction.MasterWriteReadReg(dev, reg, count)];
      if r == NhalOk {
        var bytes := LoadBytes(memory, LatchedAddress(reg[0], reg[1]), count);
        forall i | 0 <= i < count {
          buffer[i] := bytes[i];
        }
      }
    }
  }
}
