# 24C32 EEPROM driver, modelled in Dafny

This project models the 24C32 EEPROM driver (`src/eeprom_24c32.c`) together with the proofs about it. The driver serves byte-addressed reads and writes on a 4096-byte device with 32-byte pages. It turns each request into I2C bus transactions:

- a read is one combined write-then-read: a 2-byte big-endian address, then `length` bytes;
- the page writer sends one write of the address prefix followed by at most 32 payload bytes, all inside one page;
- the full write cuts a request into chunks. Each chunk ends at a page boundary or at the end of the request. Each chunk is page-written, and after each one the device is polled with 1-byte reads, WRITE_CYCLE_TIME_MS + 1 reads at most.

Modules:

- `Nhal` (`nhal.dfy`): the transport's types.
  - `uint8` and `uint16`.
  - The NHAL result codes. `NhalUnknown` stands for any other value of the enum.
  - 7-bit device addresses.
  - The three transaction shapes the driver issues.
- `Eeprom24c32Defs` (`eeprom_defs.dfy`): the public constants SIZE 4096, PAGE 32 and WRITE_CYCLE_TIME_MS 5, and the result enum.
- `MockBus` (`mock_bus.dfy`): the transport as an oracle, as class `I2cContext`.
  - The k-th transaction on the bus, counting from 0, completes with `outcome(k)`.
  - Every transaction is appended to `trace`.
  - A 4096-byte `memory` stands in for the device's storage array.
    - The device latches the 12-bit word address from the two prefix bytes.
    - An acknowledged write stores its payload, rolling over inside the page as a 24C32 does.
    - An acknowledged read returns bytes from the latched address on.
  - `Replay` gives the storage after a stretch of trace.
- `Eeprom24c32Spec` (`eeprom_spec.dfy`): the pure part of the driver, each function paired with lemmas about what it means.
  - The result mapping.
  - The argument, range and page checks.
  - The address prefix.
  - The chunking.
  - Reference runs (`Run`: result plus transactions issued) of every entry point:
    - `ReadRun`, `PageWriteRun` and `ProbeRun`;
    - `PollRun`, the poll loop;
    - `RoundRun`, one page write plus its poll;
    - `Sequence` and `WriteRun`: the loop over the chunks, stopping at the first round that does not end in `Ok`.
- `Eeprom24c32` (`eeprom_24c32.dfy`): the entry points as methods over a `Handle` (the context and the device address).
  - `Init`, `Read`, `WritePage`, `Write` and `IsReady`.
  - The loop of `eeprom_24c32_write` in three parts: `WriteChunks` (the cursor loop), `WriteRound` (one pass) and `AwaitWriteCycle` (the poll loop).
  - Every method except `Init`, which only fills in the handle, is proved to do three things: return the result of its reference run, append exactly that run's transactions to the trace, and leave the storage as replaying them makes it. The properties are then lemmas about the reference runs.

Some C operations are written differently in the model:

- The bit operations become arithmetic with the same values on these ranges:
  - `address >> 8 & 0xFF` is `address / 256 % 256`;
  - `address & 0xFF` is `address % 256`;
  - `address & ~(32 - 1)` is `address - address % 32`.
- The cursor `current_data` becomes a slice of the request, starting at `bytesWritten`.
- write_page's `memcpy` into its 34-byte buffer is a loop filling the array `writeBuffer` after the two prefix bytes.

## Model

| member | source | states |
|---|---|---|
| Eeprom24c32Spec.ToEepromResult | src/eeprom_24c32.c:10-30 | The result is `Ok` exactly for NHAL_OK, `ErrWriteTimeout` exactly for NHAL_ERR_TIMEOUT and `ErrInvalidArg` exactly for NHAL_ERR_INVALID_ARG. It is never `ErrAddressOutOfRange`, so every other outcome, listed or not, is `ErrI2cError`. |
| Eeprom24c32Spec.CheckInit | src/eeprom_24c32.c:37-43 | Init succeeds exactly when the handle and context are present and the device address is below 0x80. Otherwise the result is an invalid argument. |
| Eeprom24c32Spec.CheckRequest | src/eeprom_24c32.c:58-65 | The argument check shared by read, write_page and write (also at :90-97 and :129-136). A missing handle, missing data or zero length is an invalid argument whatever the address, so that check comes first. Otherwise the result is out of range unless `address + length <= 4096`. An accepted request lies on the device. |
| Eeprom24c32Spec.PageStart | src/eeprom_24c32.c:103 | `address & ~31` is the first address of the page holding `address`: a multiple of 32, at most `address`, and at most 31 below it. |
| Eeprom24c32Spec.CheckPageWrite | src/eeprom_24c32.c:90-106 | The request checks come first, and their failure is returned unchanged, so address 4096 is out of range. Then a page write is accepted exactly when its bytes lie in one page, and an in-range request that crosses a page boundary is an invalid argument. Every failure is an invalid argument or out of range. |
| Eeprom24c32Spec.PageLengthCheckImplied | src/eeprom_24c32.c:99-106 | A range that stays before the end of its page is at most 32 bytes long, so the length limit never rejects anything the boundary check accepts. |
| Eeprom24c32Spec.AddressPrefix | src/eeprom_24c32.c:67-70 | The two prefix bytes are the address, high byte first: `p[0] * 256 + p[1] == address`. |
| Eeprom24c32Spec.PrefixLatches | src/eeprom_24c32.c:108-110 | For an address on the device, the prefix makes the device latch exactly that address. |
| Eeprom24c32Spec.ChunkSize | src/eeprom_24c32.c:143-146 | The next chunk is `min(remaining, bytes to page end)`. It is positive, at most the remaining bytes and at most 32, lies in one page, and ends at the request's end or at a page boundary. |
| Eeprom24c32Spec.ChunkPassesPageCheck | src/eeprom_24c32.c:143-153 | Every chunk the loop cuts from an in-range request passes all of write_page's checks. |
| Eeprom24c32Spec.Chunks | src/eeprom_24c32.c:142-171 | The chunk list is empty exactly for a zero length. Every chunk lies inside the request and inside one page. |
| Eeprom24c32Spec.ChunksPartition | src/eeprom_24c32.c:142-171 | The number of chunks is the number of pages `[address, address + length)` touches. Chunk i starts at `address` (i = 0) or at the first byte of the i-th following page. It ends at the next page boundary or at `address + length` (last chunk). So the chunks are contiguous and their sizes sum to `length`. |
| Eeprom24c32Spec.ChunksTile | src/eeprom_24c32.c:168-170 | Each chunk starts where the previous one ended. The first starts at `address` and the last ends at `address + length`. |
| Eeprom24c32Spec.ChunkExamples | src/eeprom_24c32.c:142-146 | Four bytes at 0 or at 0x0100 are one chunk. Sixteen bytes at 24 split at 32 into two chunks of eight. |
| Eeprom24c32Spec.ChunkAccepted | src/eeprom_24c32.c:99-106 | A chunk inside an in-range request passes write_page's checks exactly when it lies in one page. |
| Eeprom24c32Spec.ReadRun | src/eeprom_24c32.c:52-82 | A read issues at most one transaction, and one that issues none does not succeed. |
| Eeprom24c32Spec.ReadRunShape | src/eeprom_24c32.c:52-82 | A read issues a transaction exactly when its length is positive and its range fits on the device. It then issues exactly one: a write-then-read with the address as prefix and `length` bytes to read, and the mapped outcome is its result. Otherwise it issues nothing and returns the check's result. |
| Eeprom24c32Spec.PageWriteRun | src/eeprom_24c32.c:84-121 | write_page issues at most one transaction, and one that issues none does not succeed. |
| Eeprom24c32Spec.PageWriteRunPageSafe | src/eeprom_24c32.c:84-121 | write_page issues at most one transaction, and issues one exactly when its checks pass. Without one it returns the check's result. The one it issues is `2 + length` bytes long, and its payload lies in one page on the device. |
| Eeprom24c32Spec.PageWriteStores | src/eeprom_24c32.c:108-120 | An acknowledged page write stores the payload at `[address, address + length)` and leaves every other byte of the device as it was. |
| Eeprom24c32Spec.ProbeRun | src/eeprom_24c32.c:176-191 | The probe is one 1-byte read of the device, and it is ready exactly when the transport reports success. |
| Eeprom24c32Spec.PollRun | src/eeprom_24c32.c:159-166 | The poll loop at its k-th probe issues at least one read and at most the WRITE_CYCLE_TIME_MS + 1 - (k - start) its budget allows. |
| Eeprom24c32Spec.PollRunBounded | src/eeprom_24c32.c:159-166 | The poll loop issues only 1-byte reads of the device, between 1 and WRITE_CYCLE_TIME_MS + 1 of them. It stops at the first acknowledged read and reports ready exactly when its last read was acknowledged. Not ready means the full budget of reads was spent. |
| Eeprom24c32Spec.PollReadyIff | src/eeprom_24c32.c:159-166 | The poll loop reports ready exactly when one of the WRITE_CYCLE_TIME_MS + 1 reads it may issue is acknowledged. |
| Eeprom24c32Spec.PollRunClosed | src/eeprom_24c32.c:159-166 | Closed form of the poll loop. After e unacknowledged probes, and an (e+1)-th probe that succeeds or would overrun the budget, the loop has issued exactly e + 1 probes and is ready exactly when the last succeeded. |
| Eeprom24c32Spec.ChunkRunShape | src/eeprom_24c32.c:148-166 | One pass of the loop issues at most WRITE_CYCLE_TIME_MS + 2 transactions. It issues the chunk's page write, first and only, exactly when the chunk lies in one page; after it come only probes. A chunk that does not lie in one page issues nothing and is an invalid argument. Every transaction is page-safe. |
| Eeprom24c32Spec.ChunkRunResult | src/eeprom_24c32.c:148-166 | A failed page write ends the pass with the mapped outcome and no poll. After an acknowledged write, the pass goes on exactly when its last probe was acknowledged and none before it was. A timeout comes only after WRITE_CYCLE_TIME_MS + 1 unacknowledged probes. |
| Eeprom24c32Spec.ChunkRunTimesOut | src/eeprom_24c32.c:155-163 | A pass whose page write is acknowledged and none of whose WRITE_CYCLE_TIME_MS + 1 probes is ends in a write timeout after exactly WRITE_CYCLE_TIME_MS + 2 transactions. |
| Eeprom24c32Spec.ChunkRunWrites | src/eeprom_24c32.c:148-157 | The only write of a pass is the chunk's frame, the prefix followed by the chunk's bytes. |
| Eeprom24c32Spec.ChunkRunStores | src/eeprom_24c32.c:148-166 | A pass that goes on has stored the chunk's bytes at the chunk and changed nothing else. |
| Eeprom24c32Spec.ChunkRunStops | src/eeprom_24c32.c:148-166 | A pass for a chunk in one page stops at its first failure, and when it goes on every write in it was acknowledged. Stopping at the first failure means: every write before the last transaction was acknowledged; every write but the first comes straight after an acknowledged probe; nothing follows WRITE_CYCLE_TIME_MS + 1 unacknowledged probes in a row; success ends with an acknowledged probe; failure ends with the failed write and its mapped outcome, or with WRITE_CYCLE_TIME_MS + 1 unacknowledged probes and a write timeout. |
| Eeprom24c32Spec.WriteThenProbesStops | src/eeprom_24c32.c:148-166 | A run of one write and then at most WRITE_CYCLE_TIME_MS + 1 probes, ending as a pass ends, stops at its first failure, and acknowledged every write when it goes on. |
| Eeprom24c32Spec.StopsAfterAcked | src/eeprom_24c32.c:142-171 | A successful stretch of passes, all of whose writes were acknowledged, followed by a run that stops at its first failure, is a run that stops at its first failure. |
| Eeprom24c32Spec.SpentBudgetEndsRun | src/eeprom_24c32.c:159-163 | Worked example: an acknowledged write, WRITE_CYCLE_TIME_MS + 1 unacknowledged probes, a second write and an acknowledged probe do not make a run that stops at its first failure, even one reporting `Ok`. |
| Eeprom24c32Spec.SequenceSplit | src/eeprom_24c32.c:142-171 | The loop over rounds lo to n is the loop to j, then, if that succeeds, the loop from j on; a loop to j that fails is the whole loop. |
| Eeprom24c32Spec.SequenceStopsAt | src/eeprom_24c32.c:155-157 | When rounds 0 to j - 1 went on and round j does not, the loop ends with round j's result, having issued exactly those rounds' transactions. |
| Eeprom24c32Spec.SequenceTimesOut | src/eeprom_24c32.c:159-163 | When rounds 0 to j - 1 went on and round j times out after WRITE_CYCLE_TIME_MS + 2 transactions, the loop times out right after them. |
| Eeprom24c32Spec.SequenceStopsFrames | src/eeprom_24c32.c:142-171 | When each round writes its own frame and the loop stops at round j, its page writes are frames 0 to j. |
| Eeprom24c32Spec.RoundsTimeOut | src/eeprom_24c32.c:148-166 | The write's round for chunk j times out when its page write is acknowledged and none of its probes is. |
| Eeprom24c32Spec.RoundsFramesUpTo | src/eeprom_24c32.c:142-171 | When the write's passes for chunks 0 to j - 1 went on and the pass for chunk j does not, its page writes are the frames of chunks 0 to j. |
| Eeprom24c32Spec.ReplayComposes | src/eeprom_24c32.c:142-173 | Replaying the device's storage over no transactions changes nothing, and over two stretches of trace is replaying one and then the other. |
| Eeprom24c32Spec.RoundsStore | src/eeprom_24c32.c:148-166 | Each of the write's passes that goes on, begun on any storage as any transaction, stores its chunk's bytes at the chunk and changes nothing else. |
| Eeprom24c32Spec.SequencePageSafe | src/eeprom_24c32.c:142-171 | Passes that issue only page-safe transactions make a loop that issues only page-safe transactions. |
| Eeprom24c32Spec.SequenceBounded | src/eeprom_24c32.c:142-171 | Passes of at most b transactions make a loop of at most b transactions per chunk. |
| Eeprom24c32Spec.SequenceFrames | src/eeprom_24c32.c:142-171 | When each pass writes its own frame, the loop's writes are a prefix of the frames in chunk order: all of them when the loop succeeds. |
| Eeprom24c32Spec.SequenceStopsAtFailure | src/eeprom_24c32.c:142-171 | Passes that each stop at their first failure, and acknowledged every write when they go on, make a loop that stops at its first failure in the same sense: no write after a failed write or a failed probe, and nothing after a spent poll budget. |
| Eeprom24c32Spec.SequenceStores | src/eeprom_24c32.c:142-173 | For any replay function `run` that composes over concatenated traces: when every pass that goes on stores its chunk, a successful loop stores all chunks in order. |
| Eeprom24c32Spec.WriteRun | src/eeprom_24c32.c:138-173 | A zero-length write succeeds and issues nothing, so only a non-empty write can fail. |
| Eeprom24c32Spec.WriteRunPageSafe | src/eeprom_24c32.c:142-171 | Every transaction the full write issues is page-safe: no write crosses a page. |
| Eeprom24c32Spec.WriteRunFrames | src/eeprom_24c32.c:142-171 | The writes of the full write are a prefix of the chunk frames in address order, and all of them on success. |
| Eeprom24c32Spec.WriteRunBounded | src/eeprom_24c32.c:142-171 | The full write issues at most (WRITE_CYCLE_TIME_MS + 2) transactions for each page the request touches. |
| Eeprom24c32Spec.WriteRunStopsAtFailure | src/eeprom_24c32.c:142-171 | A non-empty write stops at its first failure. Every write before its last transaction was acknowledged. Every write but the first comes straight after an acknowledged probe. Nothing follows WRITE_CYCLE_TIME_MS + 1 unacknowledged probes in a row, so after a failed page write or a spent poll budget no further chunk is written. Success ends with an acknowledged probe. Failure ends either with the failed write, whose outcome gives the result, or with WRITE_CYCLE_TIME_MS + 1 unacknowledged probes and a write timeout. |
| Eeprom24c32Spec.WriteRunTimeout | src/eeprom_24c32.c:142-173 | For any chunk j: suppose the passes for chunks 0 to j - 1 went on, chunk j's page write is acknowledged, and none of the WRITE_CYCLE_TIME_MS + 1 probes after it is. Then the result is a write timeout right after those probes, and the page writes issued are the frames of chunks 0 to j only. |
| Eeprom24c32Spec.WriteRunStores | src/eeprom_24c32.c:123-174 | A successful write leaves the device holding the data at `[address, address + length)` and every other byte as it was. |
| Eeprom24c32Spec.WriteThenRead | src/eeprom_24c32.c:52-82 | After a successful write, a read of the same range issues one write-then-read whose prefix makes the device return exactly the bytes written. |
| Eeprom24c32Spec.WriteStart | src/eeprom_24c32.c:138-141 | When the loop starts, nothing is issued and the remaining run is the whole reference run over all chunks. |
| Eeprom24c32Spec.WriteNext | src/eeprom_24c32.c:143-170 | The pass at the cursor is the pass for that chunk. If it fails, the whole write ends with its result. If it goes on, the cursor moves to the chunk's end and the next chunk. |
| Eeprom24c32Spec.WriteDone | src/eeprom_24c32.c:171-173 | Once every byte is written the run has succeeded, and it issued what the loop issued. |
| Eeprom24c32.Init | src/eeprom_24c32.c:32-50 | Returns CheckInit's result. On success the handle refers to the context and holds the 7-bit device address. On failure a present handle is not modified. |
| Eeprom24c32.Read | src/eeprom_24c32.c:52-82 | A missing handle or buffer is an invalid argument. Otherwise the result and the single transaction are those of ReadRun, and the storage is unchanged. On success the buffer's first `length` bytes are the device's bytes at `[address, address + length)`. Nothing past `length` is touched. The whole buffer is unchanged on failure, as the transport stand-in `MockBus.I2cContext.MasterWriteReadReg` promises. |
| Eeprom24c32.WritePage | src/eeprom_24c32.c:84-121 | When the checks fail, returns their result and leaves the transport untouched. Otherwise the result is that of PageWriteRun, exactly its transaction is appended to the trace, and the storage is what replaying it gives. |
| Eeprom24c32.Write | src/eeprom_24c32.c:123-136 | When the checks fail, returns their result and leaves the transport untouched. Otherwise the result and transactions are those of WriteRun. On success the device holds the data at the request and every other byte as before. |
| Eeprom24c32.WriteChunks | src/eeprom_24c32.c:138-173 | The cursor loop returns the result and issues the transactions of WriteRun, and the storage is their replay. On success the storage is the old one with the data spliced in. |
| Eeprom24c32.WriteRound | src/eeprom_24c32.c:148-166 | One pass of the loop: the page write, then on success the poll. Its result and transactions are those of RoundRun, and the storage is what replaying them gives. |
| Eeprom24c32.AwaitWriteCycle | src/eeprom_24c32.c:159-166 | The poll loop, with `elapsed_ms` as counter. Its readiness and probes are those of PollRun, and the storage is unchanged. |
| Eeprom24c32.IsReady | src/eeprom_24c32.c:176-191 | A missing handle gives false with no transport call. Otherwise one 1-byte read is issued, and the result is ready exactly when it is acknowledged. The storage is unchanged. |
| Eeprom24c32.Handle.constructor | src/eeprom_24c32.c:45-47 | A handle, before init, with no context and address 0. |
| MockBus.I2cContext.MasterWrite | src/eeprom_24c32.c:113-118 | The write completes with the next scripted outcome and is appended to the trace. When acknowledged, its payload is stored from the latched address. |
| MockBus.I2cContext.MasterRead | src/eeprom_24c32.c:183-188 | The read completes with the next scripted outcome, is appended to the trace, and leaves the storage unchanged. |
| MockBus.I2cContext.MasterWriteReadReg | src/eeprom_24c32.c:72-79 | The transaction completes with the next scripted outcome and is appended to the trace. When acknowledged, the first `count` bytes of the buffer are the device's bytes from the latched address; otherwise they are as before. The rest of the buffer and the storage are unchanged. |

## Left out

- The NHAL transport (`nhal_i2c_master_write`, `nhal_i2c_master_read`, `nhal_i2c_master_write_read_reg`) is foreign code. `MockBus.I2cContext` stands in for it, with scripted outcomes, a trace and a storage model that follows the 24C32's page roll-over. Clock stretching, bus errors in mid-transaction and the transport's own timeouts are not modelled beyond the outcome code they produce.
- `nhal_delay_milliseconds(1)` (src/eeprom_24c32.c:164) is not modelled. Time is the `elapsedMs` counter and nothing else.
- Eeprom24c32.IsReady: the byte the probe reads (`dummy_data`) is discarded by the driver, so `MasterRead` returns only the outcome.
- `size_t` wrap-around of `address + length` for huge lengths is not modelled. Lengths are unbounded naturals, so the range check is the mathematical one.
- The header disagrees with the implementation. Its handle struct holds `i2c_ctx` and `timeout_ms`, and its `eeprom_24c32_init` prototype (include/eeprom_24c32.h:44-48) takes a handle, an `i2c_ctx` and a `timeout_ms`, although its doc comment also lists a `device_address`. The tests call a 4-argument init (tests/test_eeprom_24c32_init.cpp:32). The model follows `src/eeprom_24c32.c`: init takes a handle, a context and a device address, and the handle holds the context and a 7-bit device address.
- Read, WritePage, Write and IsReady require a handle that `Init` filled in. The C code passes `handle->ctx` to the transport without checking it, and the header asks for an initialized handle.
- Read, WritePage and Write require the buffer to hold at least `length` bytes once the checks pass. The C code reads or writes `length` bytes through `data` without a check.
- `WriteChunks`, `WriteRound` and `AwaitWriteCycle` are not separate C functions. They are the loop, one pass and the poll loop of `eeprom_24c32_write`, factored so that each part is proved on its own.
- The gtest/gmock tests and the transport stub under `tests/` are not part of this model.
