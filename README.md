# aarch64 kernel core in Dafny

A model of three small parts of a hobby aarch64 kernel, with proofs about them.

- **The sector adapter**, `impl BlockDevice for VirtIOBlk`. It turns a byte
  read or write of any length, starting at a sector number, into whole
  512-byte sector transfers on the VirtIO block device.
  - Whole chunks go straight to their sectors.
  - A short trailing remainder is read through a scratch sector.
  - A short trailing remainder is written by read-modify-write.
- **The PL011 UART console**: `write_byte`, `write_bytes`, `read_byte`,
  `move_back`, the line editor `read_line` and the `core::fmt::Write` hook.
- **Three helpers of the kernel's main module**:
  - `null_terminated_str`;
  - `regs_to_usize`, which folds big-endian device-tree cells into a 64-bit `usize`;
  - the `writerand` shell command's chunk loop and its byte-to-printable mapping.

Files:

- `common.dfy`, module `Machine`: the machine integer types `u8` and `u32`, 2^32, 2^64, Rust's `Result<T, ()>`, and zero blocks.
- `sector_adapter.dfy`, module `SectorAdapter`, modelling `src/impls.rs`:
  - The disk is a map from sector number to 512 bytes. A sector that has never been written reads as zeros.
  - `ReadBytes` and `WriteBytes` are the reference meaning of a multi-sector transfer.
  - The class `VirtIOBlk` holds the disk. Its methods `Read` and `Write` are the adapter's loops, over a `dst` array and a `src` sequence. They are proved equal to the reference functions.
  - The constants `NUM_BLOCKS = 1000` and `BLOCK_SIZE = 512` are kept.
- `uart.dfy`, module `Uart`, modelling `src/uart.rs`:
  - The class `UART` replaces the memory-mapped registers by two fields. `input` holds the bytes the receiver will deliver. `output` holds every byte transmitted.
  - The pure functions `Kept` and `Echo` give the editing semantics: a stack of kept bytes, and what is echoed.
  - `Press` and `Typed` give the same loop as a state machine over the cells, the count and the output. `ReadLine` is proved against them.
  - Lemmas connect the two descriptions.
- `kernel_helpers.dfy`, module `KernelHelpers`, modelling parts of `src/main.rs`:
  - `null_terminated_str`;
  - `regs_to_usize`, as a loop with explicit 64-bit wrap-around;
  - the `writerand` mapping and chunk loop. Entropy is a byte stream parameter.

## Model

| member | source | states |
|---|---|---|
| SectorAdapter.SectorOf | src/impls.rs:10 | the device's whole-sector read is total and always delivers 512 bytes |
| SectorAdapter.ReadBytes | src/impls.rs:6-20 | the reference result of a read of `n` bytes has exactly `n` bytes |
| SectorAdapter.WriteBytes | src/impls.rs:21-37 | the reference write keeps every sector 512 bytes long |
| SectorAdapter.ReadBytesAt | src/impls.rs:7-18 | byte `k` of a read is byte `k % 512` of sector `start + k / 512` |
| SectorAdapter.ReadBytesSplit | src/impls.rs:7-18 | reading `512q + r` bytes is reading `q` whole sectors, then `r` bytes from sector `start + q` |
| SectorAdapter.ReadChunk | src/impls.rs:7-12 | full chunk `k` of the destination equals sector `start + k` |
| SectorAdapter.ReadRemainder | src/impls.rs:13-18 | a non-empty remainder of `n % 512` bytes equals the first `n % 512` bytes of sector `start + n / 512` |
| SectorAdapter.WriteBytesFrame | src/impls.rs:21-37 | a write changes no sector outside `start .. start + ceil(n / 512)`, neither its presence nor its contents |
| SectorAdapter.WriteNothing | src/impls.rs:21-37 | writing an empty source changes nothing |
| SectorAdapter.WriteBytesAt | src/impls.rs:22-35 | after a write, each byte of each sector is the source byte that lands there, if any, and otherwise the byte it held before |
| SectorAdapter.WriteChunk | src/impls.rs:22-27 | full chunk `k` of the source replaces sector `start + k` entirely |
| SectorAdapter.WriteRemainder | src/impls.rs:28-35 | read-modify-write: the last sector gets the source's tail in bytes `0..r` and keeps its own bytes `r..512` |
| SectorAdapter.WriteThenRead | src/impls.rs:6-37 | reading back with the same start and length after a write returns the source |
| SectorAdapter.VirtIOBlk.ReadSector | src/impls.rs:10 | the inner sector read puts the sector's 512 bytes at `offset`; `dst` is unchanged before and after them |
| SectorAdapter.VirtIOBlk.WriteSector | src/impls.rs:25 | the inner sector write replaces that one sector and nothing else |
| SectorAdapter.VirtIOBlk.Read | src/impls.rs:6-20 | returns `Ok(dst.len())`; `dst` ends up equal to `ReadBytes` of the disk; the disk is unchanged |
| SectorAdapter.VirtIOBlk.ReadPartial | src/impls.rs:13-18 | the remainder goes through a scratch sector: `dst[..base]` is untouched, `dst[base..]` gets the sector's prefix, nothing past `dst` is written |
| SectorAdapter.VirtIOBlk.Write | src/impls.rs:21-37 | returns `Ok(src.len())`; the new disk is `WriteBytes` of the old one |
| SectorAdapter.CopyFromSlice | src/impls.rs:17 | `copy_from_slice` changes exactly `dst[at..at + len]` |
| Uart.KeptCount | src/uart.rs:45-61 | kept bytes = ordinary bytes typed minus the DELs that removed a byte |
| Uart.KeptShorter | src/uart.rs:45-61 | the kept line is never longer than what was typed |
| Uart.PlainKept | src/uart.rs:55-61 | typing with no DEL keeps exactly what was typed |
| Uart.PlainEcho | src/uart.rs:55-58 | with no DEL, `echo` sends back exactly what was typed, and without it nothing is sent |
| Uart.QuietEcho | src/uart.rs:45-58 | with `echo` off, the output is one erase sequence per DEL that removed a byte |
| Uart.TypeThenDelete | src/uart.rs:45-61 | a DEL right after an ordinary byte undoes it and sends the erase sequence |
| Uart.DeleteOnEmpty | src/uart.rs:46 | a DEL on an empty line changes nothing and sends nothing |
| Uart.NeverFullPrefixes | src/uart.rs:42 | "the line had room before every keystroke" holds exactly when every prefix kept fewer than `buf.len()` bytes |
| Uart.EditStep | src/uart.rs:43-63 | one keystroke pushes an ordinary byte, pops on DEL (or ignores DEL on an empty line), and sends what `KeyEcho` says |
| Uart.TypedStep | src/uart.rs:42-64 | one more pass of the loop is one more `Press`, and it is accepted only for a non-line-end byte with room on the line |
| Uart.TypedCount | src/uart.rs:40-62 | after accepted keystrokes, `count` equals the length of the kept line and stays within `buf.len()` |
| Uart.PressCells | src/uart.rs:45-62 | one press appends to or pops from the kept cells; cells past `count` still hold their original value or 0 |
| Uart.TypedCells | src/uart.rs:45-62 | after accepted keystrokes, `buf[0..count]` is the kept line; every later slot holds its original value or 0 |
| Uart.TypedSent | src/uart.rs:45-62 | after accepted keystrokes, the output is exactly `Echo` of them |
| Uart.AcceptedMeans | src/uart.rs:42-44 | the loop goes on through `t` exactly when `t` has no CR or LF and the buffer had room before each byte |
| Uart.UART.constructor | src/uart.rs:6-8 | a new console has transmitted nothing |
| Uart.UART.WriteByte | src/uart.rs:10-15 | transmits one byte |
| Uart.UART.WriteBytes | src/uart.rs:17-21 | transmits exactly the bytes of `s`, in order |
| Uart.UART.ReadByte | src/uart.rs:24-30 | takes the next received byte |
| Uart.UART.MoveBack | src/uart.rs:33-37 | transmits `ESC [ D` |
| Uart.UART.Keystroke | src/uart.rs:43-63 | one loop pass: a line end stops and changes nothing; any other byte is one `Press` on the buffer, count and output, keeping `count + max_len == buf.len()` |
| Uart.UART.ReadKeys | src/uart.rs:40-64 | the loop consumes accepted keystrokes, then the line end if there is one; it stops at a line end, a full buffer or the end of input; the cells, count and output are `Typed` of what it consumed |
| Uart.UART.ReadLine | src/uart.rs:39-69 | consumes up to and including the first CR or LF (not stored) or until the buffer is full; returns `Kept` of the bytes typed (stack semantics); slots past the line hold their old value or 0; transmits `Echo` plus a final LF when `echo` is set; an empty buffer consumes nothing |
| Uart.UART.WriteStr | src/uart.rs:72-76 | transmits the string's bytes and returns `Ok` |
| KernelHelpers.NullTerminatedStr | src/main.rs:45-51 | needs a non-empty input; the result is a prefix that is one byte shorter exactly when the last byte is NUL, and otherwise the whole input |
| KernelHelpers.StripsTerminator | src/main.rs:45-51 | a string followed by one NUL comes back as the string |
| KernelHelpers.KeepsUnterminated | src/main.rs:48-50 | an input not ending in NUL comes back unchanged |
| KernelHelpers.NotIdempotent | src/main.rs:46-47 | `"ab\0\0"` gives `"ab\0"`, and applying the helper again gives `"ab"` |
| KernelHelpers.BeWord | src/main.rs:57-58 | `u32::from_be_bytes` is below 2^32 |
| KernelHelpers.ShiftIn | src/main.rs:59 | shifting a 64-bit value left by 32 and or-ing in a word leaves the low 32 bits clear for the word, and equals the unbounded shift-and-add mod 2^64 |
| KernelHelpers.RegsToUsize | src/main.rs:53-62 | needs `4 * cell_size` bytes; the result is the big-endian value of the first `cell_size` cells mod 2^64; the rest is `regs[4 * cell_size..]` |
| KernelHelpers.SmallCellsExact | src/main.rs:53-62 | 0 cells give 0, 1 cell gives the first word, 2 cells give `hi * 2^32 + lo`, all below 2^64 |
| KernelHelpers.ThreeCellsDropFirst | src/main.rs:59 | with 3 cells, the first cell is shifted out of the 64-bit result entirely |
| KernelHelpers.Printable | src/main.rs:255 | `((b * 100) / 272 + 32) as u8` lies in the printable range 32..=125 |
| KernelHelpers.PrintableMonotone | src/main.rs:255 | the mapping is non-decreasing in `b` |
| KernelHelpers.PrintableEnds | src/main.rs:255 | 0 maps to 32 and 255 maps to 125 |
| KernelHelpers.RandRounds | src/main.rs:248-261 | `len` bytes take `ceil(len / 512)` rounds |
| KernelHelpers.RandBlocksPrintable | src/main.rs:249-256 | every prepared block has 512 bytes, each printable or part of the zero padding of the short last round |
| KernelHelpers.PrepareBlock | src/main.rs:249-257 | one round's `outdata`: the round's bytes, mapped in place, then zeros |
| KernelHelpers.WriteRand | src/main.rs:238-261 | takes `min(512, len)` bytes per round; makes `ceil(len / 512)` rounds; advances the `u64` `sector` once per round, wrapping to 0 past 2^64 - 1 |

## Left out

- The UART's memory-mapped registers and busy-wait polling (src/uart.rs:10-30) are not modelled. Transmitting appends to `output`; receiving takes the head of `input`. `UART::new`'s base address becomes the pending input.
- Uart.UART.ReadLine: the device blocks when no byte arrives. The model leaves the loop when `input` runs out, as a third way out besides a line end and a full buffer.
- `write_str` goes through `as_bytes`. The model takes the bytes directly, with no UTF-8.
- The VirtIO driver's own sector `read` and `write` (src/impls.rs:10, 16, 25, 32, 34) are foreign calls. They are modelled as total transfers on the disk map. Their results, which the adapter ignores, are not modelled. So every contract of `Read`, `Write` and their lemmas holds only when each inner transfer succeeds. If one fails, the adapter still returns `Ok`, and:
  - a failed read of a full chunk (src/impls.rs:10) leaves that chunk of `dst` as it was;
  - a failed read of the remainder sector (src/impls.rs:16) copies zeros from the scratch `[0u8; 512]` into the remainder of `dst`;
  - a failed read of the read-modify-write sector (src/impls.rs:32) leaves the scratch buffer zeroed, so the following write replaces bytes `r..512` of that sector with zeros, contrary to WriteRemainder;
  - a failed write leaves its sector as it was.
- The adapter does not check `NUM_BLOCKS`, and neither does the model. Sector numbers are unbounded.
- `start_sector_num as u64 + i` is a natural number here. The sum cannot exceed a `u64` for any slice that fits in memory.
- KernelHelpers.RegsToUsize: `cell_size * 4` is not wrapped to 64 bits. The model requires `4 * cellSize` bytes as a mathematical product.
- KernelHelpers.WriteRand: a start sector parsed as `u64::MAX` (or close to it) overflows `sector += 1` within the first rounds. The model wraps it to 0, as a build without overflow checks does. A build with overflow checks panics there instead, and that panic is not modelled.
- KernelHelpers.WriteRand: the entropy device is a byte-stream parameter.
- KernelHelpers.WriteRand: the block write in the loop is commented out in the source. The blocks are returned instead of written.
- `writerand`'s argument parsing (`from_utf8`, `parse`, `unwrap_or`) belongs to the shell dispatch and is not modelled.
- The following are not part of this model: `kernel_main`'s device-tree probing, VirtIO set-up and shell dispatch (src/main.rs:65-343); the filesystem, bitmap, block-interface, device-tree and virtio modules; the panic handler; and the boot assembly.
