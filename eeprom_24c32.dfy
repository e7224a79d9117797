/**
 * The 24C32 driver entry points over the transport model: the handle, init,
 * read, page write, the page-splitting write with its readiness poll, and
 * the readiness probe. Each method is proved to return the result and to
 * issue exactly the transactions of its reference run in Eeprom24c32Spec,
 * and to leave the device's storage as replaying those transactions makes it.
 */
module Eeprom24c32 {
  import opened Nhal
  import opened Eeprom24c32Defs
  import opened MockBus
  import opened Eeprom24c32Spec

  /** eeprom_24c32_handle_t: the transport context and the device's bus address. */
  class Handle {
    var ctx: I2cContext?
    var deviceAddress: I2cAddress

    /** Storage for a handle that init has not filled in yet. */
    constructor ()
      ensures ctx == null && deviceAddress == SevenBit(0)
    {
      ctx := null;
      deviceAddress := SevenBit(0);
    }
  }

  /** A handle init has filled in, over a well-formed transport context. */
  ghost predicate Initialized(h: Handle)
    reads h, h.ctx
  {
    h.ctx != null && h.ctx.Valid()
  }

  /**
   * eeprom_24c32_init: on success the handle refers to `ctx` and to the
   * 7-bit address `deviceAddress`; on failure it is left as it was.
   */
  method Init(handle: Handle?, ctx: I2cContext?, deviceAddress: uint8) returns (r: EepromResult)
    modifies handle
    ensures r == CheckInit(handle != null, ctx != null, deviceAddress)
    ensures r == Ok ==> handle.ctx == ctx && handle.deviceAddress == SevenBit(deviceAddress)
    ensures r != Ok && handle != null ==> unchanged(handle)
  {
    if handle == null || ctx == null {
      return ErrInvalidArg;
    }
    if deviceAddress > 0x7F {
      return ErrInvalidArg;
    }
    handle.ctx := ctx;
    handle.deviceAddress := SevenBit(deviceAddress);
    return Ok;
  }

  /**
   * eeprom_24c32_read into the first `length` elements of `data`: the
   * result and the transaction are those of ReadRun; on success the buffer
   * holds the device's bytes [address, address + length), and otherwise
   * it is left as it was. Nothing past `length` is touched.
   */
  method Read(h: Handle?, address: uint16, data: array?<uint8>, length: nat) returns (r: EepromResult)
    requires h != null ==> Initialized(h)
    requires h != null && data != null && CheckRequest(true, true, address, length) == Ok ==> length <= data.Length
    modifies (if h != null then {h.ctx} else {}), data
    ensures h == null || data == null ==> r == ErrInvalidArg
    ensures h != null && data == null ==> unchanged(h.ctx)
    ensures h == null && data != null ==> unchanged(data)
    ensures h != null && data != null ==>
              var w := ReadRun(h.deviceAddress, address, length, h.ctx.outcome, |old(h.ctx.trace)|);
              && r == w.result
              && h.ctx.trace == old(h.ctx.trace) + w.issued
              && h.ctx.memory == old(h.ctx.memory)
    ensures h != null && data != null && r == Ok ==>
              && address as int + length <= SizeBytes && length <= data.Length
              && data[..length] == h.ctx.memory[address..address as int + length]
              && data[length..] == old(data[length..])
    ensures h != null && data != null && r != Ok ==> data[..] == old(data[..])
  {
    if h == null || data == null || length == 0 {
      return ErrInvalidArg;
    }
    if address as int >= SizeBytes || address as int + length > SizeBytes {
      return ErrAddressOutOfRange;
    }
    var addrBytes := AddressPrefix(address);
    var result := h.ctx.MasterWriteReadReg(h.deviceAddress, addrBytes, data, length);
    PrefixLatches(address);
    LoadInRange(h.ctx.memory, address as nat, length);
    r := ToEepromResult(result);
    if r != Ok {
      assert data[..] == data[..length] + data[length..];
    }
  }

  /**
   * eeprom_24c32_write_page of the first `length` bytes of `data` (None is
   * a NULL buffer): the checks of CheckPageWrite, and when they pass the
   * result and the transaction of PageWriteRun.
   */
  method WritePage(h: Handle?, address: uint16, data: Option<seq<uint8>>, length: nat) returns (r: EepromResult)
    requires h != null ==> Initialized(h)
    requires h != null && data.Some? && CheckPageWrite(true, true, address, length) == Ok ==> length <= |data.value|
    modifies if h != null then {h.ctx} else {}
    ensures CheckPageWrite(h != null, data.Some?, address, length) != Ok ==>
              && r == CheckPageWrite(h != null, data.Some?, address, length)
              && (h != null ==> unchanged(h.ctx))
    ensures h != null && data.Some? && CheckPageWrite(true, true, address, length) == Ok ==>
              var w := PageWriteRun(h.deviceAddress, address, data.value[..length], h.ctx.outcome, |old(h.ctx.trace)|);
              && r == w.result
              && h.ctx.trace == old(h.ctx.trace) + w.issued
              && h.ctx.memory == Replay(old(h.ctx.memory), w.issued, h.ctx.outcome, |old(h.ctx.trace)|)
  {
    if h == null || data.None? || length == 0 {
      return ErrInvalidArg;
    }
    if address as int >= SizeBytes || address as int + length > SizeBytes {
      return ErrAddressOutOfRange;
    }
    if length > PageSizeBytes {
      return ErrInvalidArg;
    }
    var pageStart := PageStart(address);
    if address as int + length > pageStart as int + PageSizeBytes {
      return ErrInvalidArg;
    }
    var writeBuffer := new uint8[2 + PageSizeBytes];
    var prefix := AddressPrefix(address);
    writeBuffer[0] := prefix[0];
    writeBuffer[1] := prefix[1];
    var i := 0;
    while i < length
      modifies writeBuffer
      invariant 0 <= i <= length
      invariant writeBuffer[..2 + i] == prefix + data.value[..i]
    {
      writeBuffer[2 + i] := data.value[i];
      i := i + 1;
    }
    ghost var m0 := h.ctx.memory;
    ghost var t := MasterWrite(h.deviceAddress, writeBuffer[..2 + length]);
    var result := h.ctx.MasterWrite(h.deviceAddress, writeBuffer[..2 + length]);
    assert Replay(m0, [t], h.ctx.outcome, |old(h.ctx.trace)|)
        == Replay(Apply(m0, t, result), [], h.ctx.outcome, |old(h.ctx.trace)| + 1);
    r := ToEepromResult(result);
  }

  /**
   * eeprom_24c32_write of the first `length` bytes of `data` (None is a NULL
   * buffer): the checks of CheckRequest, and when they pass the result and
   * the transactions of WriteRun. On success the device holds those bytes
   * at [address, address + length) and every other byte as before.
   */
  method Write(h: Handle?, address: uint16, data: Option<seq<uint8>>, length: nat) returns (r: EepromResult)
    requires h != null ==> Initialized(h)
    requires h != null && data.Some? && CheckRequest(true, true, address, length) == Ok ==> length <= |data.value|
    modifies if h != null then {h.ctx} else {}
    ensures CheckRequest(h != null, data.Some?, address, length) != Ok ==>
              && r == CheckRequest(h != null, data.Some?, address, length)
              && (h != null ==> unchanged(h.ctx))
    ensures h != null && data.Some? && CheckRequest(true, true, address, length) == Ok ==>
              var w := WriteRun(h.deviceAddress, address, data.value[..length], h.ctx.outcome, |old(h.ctx.trace)|);
              && r == w.result
              && h.ctx.trace == old(h.ctx.trace) + w.issued
              && h.ctx.memory == Replay(old(h.ctx.memory), w.issued, h.ctx.outcome, |old(h.ctx.trace)|)
    ensures h != null && data.Some? && r == Ok ==>
              && address as int + length <= SizeBytes && length <= |data.value|
              && h.ctx.memory == Splice(old(h.ctx.memory), address as nat, data.value[..length])
  {
    if h == null || data.None? || length == 0 {
      return ErrInvalidArg;
    }
    if address as int >= SizeBytes || address as int + length > SizeBytes {
      return ErrAddressOutOfRange;
    }
    r := WriteChunks(h, address, data.value, length);
  }

  /**
   * The loop of eeprom_24c32_write once its checks passed: cut the request
   * into chunks that end at a page boundary or at the end of the request,
   * and run the round of each, stopping at the first that fails. The result
   * and the transactions are those of WriteRun.
   */
  method WriteChunks(h: Handle, address: uint16, data: seq<uint8>, length: nat) returns (r: EepromResult)
    requires Initialized(h)
    requires length <= |data| && address as int + length <= SizeBytes
    modifies h.ctx
    ensures var w := WriteRun(h.deviceAddress, address, data[..length], h.ctx.outcome, |old(h.ctx.trace)|);
      && r == w.result
      && h.ctx.trace == old(h.ctx.trace) + w.issued
      && h.ctx.memory == Replay(old(h.ctx.memory), w.issued, h.ctx.outcome, |old(h.ctx.trace)|)
    ensures r == Ok ==> h.ctx.memory == Splice(old(h.ctx.memory), address as nat, data[..length])
  {
    ghost var ctx := h.ctx;
    ghost var d := data[..length];
    ghost var o := ctx.outcome;
    ghost var dev := h.deviceAddress;
    ghost var t0 := ctx.trace;
    ghost var m0 := ctx.memory;
    ghost var w := WriteRun(dev, address, d, o, |t0|);
    ghost var cs := Chunks(address, length);
    WriteStart(dev, address, d, o, |t0|);
    ghost var round := Rounds(dev, address as nat, d, cs, o);
    ghost var issued: seq<Transaction> := [];
    ghost var i := 0;

    var bytesWritten: nat := 0;
    var currentAddress := address;
    ghost var pos := |t0|;
    r := Ok;
    while bytesWritten < length
      invariant bytesWritten <= length && currentAddress as int == address as int + bytesWritten
      invariant ctx.Valid() && ctx.trace == t0 + issued && pos == |ctx.trace|
      invariant ctx.memory == Replay(m0, issued, o, |t0|)
      invariant WriteAt(round, address as nat, d, cs, w, issued, bytesWritten, i, pos)
      invariant r == Ok
      decreases length - bytesWritten
    {
      var pageStart := PageStart(currentAddress);
      var bytesToPageEnd := pageStart + PageSizeBytes as uint16 - currentAddress;
      var bytesToWrite := if length - bytesWritten < bytesToPageEnd as nat then length - bytesWritten else bytesToPageEnd as nat;
      assert bytesToWrite == ChunkSize(currentAddress, length - bytesWritten);
      var chunk := data[bytesWritten..bytesWritten + bytesToWrite];
      assert chunk == d[bytesWritten..bytesWritten + bytesToWrite];
      ghost var step;
      r, step := WriteRound(h, currentAddress, chunk);
      WriteNext(dev, address as nat, d, cs, o, round, w, issued, bytesWritten, i, pos, currentAddress, bytesToWrite, chunk, step);
      ReplayAppend(m0, issued, step.issued, o, |t0|, pos);
      AppendTwice(t0, issued, step.issued);
      if r != Ok {
        return r;
      }
      ghost var issued0, written0, i0, pos0 := issued, bytesWritten, i, pos;
      issued := issued + step.issued;
      bytesWritten := bytesWritten + bytesToWrite;
      i := i + 1;
      pos := pos + |step.issued|;
      WriteAdvance(round, address as nat, d, cs, w, issued0, written0, i0, pos0, step, bytesToWrite, issued, bytesWritten, i, pos);
      currentAddress := currentAddress + bytesToWrite as uint16;
    }
    WriteDone(round, address as nat, d, cs, w, issued, i, pos);
    WriteRunStores(m0, dev, address, d, o, |t0|);
  }

  /**
   * One pass of the loop of eeprom_24c32_write: the page write of the
   * chunk `data` at `address`, and when it succeeds the poll loop; the
   * result and the transactions are those of RoundRun.
   */
  method WriteRound(h: Handle, address: uint16, data: seq<uint8>) returns (r: EepromResult, ghost s: Run)
    requires Initialized(h)
    modifies h.ctx
    ensures s == RoundRun(h.deviceAddress, address, data, h.ctx.outcome, |old(h.ctx.trace)|)
    ensures && r == s.result
      && h.ctx.trace == old(h.ctx.trace) + s.issued
      && h.ctx.memory == Replay(old(h.ctx.memory), s.issued, h.ctx.outcome, |old(h.ctx.trace)|)
  {
    ghost var o := h.ctx.outcome;
    ghost var dev := h.deviceAddress;
    ghost var k := |h.ctx.trace|;
    ghost var m0 := h.ctx.memory;
    ghost var pw := PageWriteRun(dev, address, data, o, k);
    s := RoundRun(dev, address, data, o, k);
    assert data[..|data|] == data;
    r := WritePage(h, address, Some(data), |data|);
    if r != Ok {
      return;
    }
    ghost var m1 := h.ctx.memory;
    ghost var poll := PollRun(dev, o, k + 1, k + 1);
    PollRunBounded(dev, o, k + 1, k + 1);
    ReplayAppend(m0, pw.issued, poll.issued, o, k, k + 1);
    ReplayOfProbes(m1, dev, poll.issued, o, k + 1);
    var ready := AwaitWriteCycle(h);
    if !ready {
      r := ErrWriteTimeout;
    }
  }

  /**
   * The poll loop of eeprom_24c32_write after an acknowledged page write:
   * probe the device; while it does not answer, give up once
   * WRITE_CYCLE_TIME_MS milliseconds have been counted, else count one more
   * and probe again. The probes and the outcome are those of PollRun.
   */
  method AwaitWriteCycle(h: Handle) returns (ready: bool)
    requires Initialized(h)
    modifies h.ctx
    ensures var p := PollRun(h.deviceAddress, h.ctx.outcome, |old(h.ctx.trace)|, |old(h.ctx.trace)|);
      && ready == p.ready
      && h.ctx.trace == old(h.ctx.trace) + p.issued
      && h.ctx.memory == old(h.ctx.memory)
  {
    ghost var dev := h.deviceAddress;
    ghost var o := h.ctx.outcome;
    ghost var t0 := h.ctx.trace;
    ghost var start := |t0|;
    var elapsedMs: nat := 0;
    ready := IsReady(h);
    while !ready
      invariant elapsedMs <= WriteCycleTimeMs
      invariant h.ctx.Valid() && h.ctx.trace == t0 + Probes(dev, elapsedMs + 1)
      invariant h.ctx.memory == old(h.ctx.memory)
      invariant NoneAcked(o, start, start + elapsedMs) && ready == (o(start + elapsedMs) == NhalOk)
      decreases WriteCycleTimeMs - elapsedMs
    {
      if elapsedMs >= WriteCycleTimeMs {
        PollRunClosed(dev, o, start, start, elapsedMs);
        return false;
      }
      // nhal_delay_milliseconds(1)
      elapsedMs := elapsedMs + 1;
      ready := IsReady(h);
      AppendProbe(t0, dev, elapsedMs);
    }
    PollRunClosed(dev, o, start, start, elapsedMs);
  }

  /**
   * eeprom_24c32_is_ready: false for a missing handle, without touching the
   * bus; otherwise one 1-byte read, ready exactly when it is acknowledged.
   */
  method IsReady(h: Handle?) returns (ready: bool)
    requires h != null ==> Initialized(h)
    modifies if h != null then {h.ctx} else {}
    ensures h == null ==> !ready
    ensures h != null ==>
              var p := ProbeRun(h.deviceAddress, h.ctx.outcome, |old(h.ctx.trace)|);
              && ready == p.ready
              && h.ctx.trace == old(h.ctx.trace) + p.issued
              && h.ctx.memory == old(h.ctx.memory)
  {
    if h == null {
      return false;
    }
    var result := h.ctx.MasterRead(h.deviceAddress, 1);
    ready := result == NhalOk;
  }
}
