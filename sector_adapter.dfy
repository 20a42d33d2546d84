// The sector adapter: `impl BlockDevice for VirtIOBlk`, which turns a byte
// read or write of any length, starting at a sector number, into whole
// 512-byte sector transfers on the VirtIO block device.

module SectorAdapter {
  import opened Machine

  /**
   * Number of blocks the device advertises to the block interface. The
   * adapter never checks a sector number against it, and neither does this
   * model: sector numbers are unbounded.
   */
  const NUM_BLOCKS: nat := 1000

  /**
   * Size in bytes of one sector, the unit of every transfer. The adapter's
   * code writes the literal 512 (`array_chunks::<512>`, `[0u8; 512]`), and
   * so does this model.
   */
  const BLOCK_SIZE: nat := 512

  /**
   * The device contents: sector number to its 512 bytes. A sector that has
   * never been written is absent and reads as zeros, so the device's own
   * sector read is total.
   */
  type Disk = map<nat, seq<u8>>

  ghost predicate WellFormed(d: Disk) {
    forall n :: n in d ==> |d[n]| == 512
  }

  /** The contents of a sector that has never been written. */
  const BLANK_SECTOR: seq<u8> := Zeros(512)

  /** What a whole-sector read of sector `n` delivers. */
  function SectorOf(d: Disk, n: nat): (r: seq<u8>)
    requires WellFormed(d)
    ensures |r| == 512
  {
    if n in d then d[n] else BLANK_SECTOR
  }

  /**
   * Reference meaning of `read`: the first `n` bytes of the sectors
   * `start`, `start + 1`, ... laid end to end, taken chunk by chunk as the
   * adapter does (whole sectors, then a prefix of one more).
   */
  function ReadBytes(d: Disk, start: nat, n: nat): (r: seq<u8>)
    requires WellFormed(d)
    ensures |r| == n
    decreases n
  {
    if n < 512 then SectorOf(d, start)[..n]
    else SectorOf(d, start) + ReadBytes(d, start + 1, n - 512)
  }

  /**
   * Reference meaning of `write`: every whole chunk of `src` replaces its
   * sector; a short trailing chunk replaces the prefix of its sector and
   * keeps the rest (read-modify-write).
   */
  function WriteBytes(d: Disk, start: nat, src: seq<u8>): (r: Disk)
    requires WellFormed(d)
    ensures WellFormed(r)
    decreases |src|
  {
    if |src| == 0 then d
    else if |src| < 512 then d[start := src + SectorOf(d, start)[|src|..]]
    else WriteBytes(d[start := src[..512]], start + 1, src[512..])
  }

  // ---------------------------------------------------------------------
  // Properties of the reference definitions
  // ---------------------------------------------------------------------

  /** Byte `k` of a read is byte `k % 512` of sector `start + k / 512`. */
  lemma {:induction false} ReadBytesAt(d: Disk, start: nat, n: nat, k: nat)
    requires WellFormed(d) && k < n
    ensures ReadBytes(d, start, n)[k] == SectorOf(d, start + k / 512)[k % 512]
    decreases n
  {
    if n >= 512 && k >= 512 {
      ReadBytesAt(d, start + 1, n - 512, k - 512);
      assert (k - 512) / 512 == k / 512 - 1;
      assert (k - 512) % 512 == k % 512;
    }
  }

  /** A read of `512 * q + r` bytes is a read of `q` whole sectors followed by a read of `r` bytes. */
  lemma {:induction false} ReadBytesSplit(d: Disk, start: nat, q: nat, r: nat)
    requires WellFormed(d)
    ensures ReadBytes(d, start, 512 * q + r)
         == ReadBytes(d, start, 512 * q) + ReadBytes(d, start + q, r)
    decreases q
  {
    if q > 0 {
      ReadBytesSplit(d, start + 1, q - 1, r);
      assert 512 * q + r - 512 == 512 * (q - 1) + r;
      assert 512 * q - 512 == 512 * (q - 1);
    }
  }

  /** Full chunk `k` of a read holds exactly sector `start + k`. */
  lemma ReadChunk(d: Disk, start: nat, n: nat, k: nat)
    requires WellFormed(d) && 512 * (k + 1) <= n
    ensures ReadBytes(d, start, n)[512 * k..512 * (k + 1)] == SectorOf(d, start + k)
  {
    ReadBytesSplit(d, start, k, n - 512 * k);
    assert ReadBytes(d, start + k, n - 512 * k)[..512] == SectorOf(d, start + k);
  }

  /**
   * The short remainder of a read, `n % 512` bytes, holds exactly the first
   * `n % 512` bytes of sector `start + n / 512`.
   */
  lemma ReadRemainder(d: Disk, start: nat, n: nat)
    requires WellFormed(d) && n % 512 != 0
    ensures ReadBytes(d, start, n)[512 * (n / 512)..]
         == SectorOf(d, start + n / 512)[..n % 512]
  {
    ReadBytesSplit(d, start, n / 512, n % 512);
  }

  /** A write touches only the sectors `start .. start + ceil(n / 512)`; every other sector keeps its entry (or its absence). */
  lemma {:induction false} WriteBytesFrame(d: Disk, start: nat, src: seq<u8>, m: nat)
    requires WellFormed(d)
    requires m < start || start + SectorsSpanned(|src|) <= m
    ensures (m in WriteBytes(d, start, src)) == (m in d)
    ensures m in d ==> WriteBytes(d, start, src)[m] == d[m]
    decreases |src|
  {
    if |src| >= 512 {
      assert SectorsSpanned(|src[512..]|) == SectorsSpanned(|src|) - 1;
      WriteBytesFrame(d[start := src[..512]], start + 1, src[512..], m);
    }
  }

  /** Writing nothing changes nothing. */
  lemma WriteNothing(d: Disk, start: nat)
    requires WellFormed(d)
    ensures WriteBytes(d, start, []) == d
  {
  }

  /**
   * Byte `j` of sector `m` after a write: the byte of `src` that lands
   * there if any does, and otherwise the byte the sector held before. In
   * particular the bytes after the written prefix of the last sector are
   * kept.
   */
  lemma {:induction false} WriteBytesAt(d: Disk, start: nat, src: seq<u8>, m: nat, j: nat)
    requires WellFormed(d) && j < 512
    ensures SectorOf(WriteBytes(d, start, src), m)[j]
         == if start <= m && (m - start) * 512 + j < |src|
            then src[(m - start) * 512 + j]
            else SectorOf(d, m)[j]
    decreases |src|
  {
    if |src| == 0 {
    } else if |src| < 512 {
      if m != start {
        assert m > start ==> (m - start) * 512 >= 512;
      }
    } else {
      var d' := d[start := src[..512]];
      if m < start + 1 {
        WriteBytesFrame(d', start + 1, src[512..], m);
      } else {
        WriteBytesAt(d', start + 1, src[512..], m, j);
        assert (m - (start + 1)) * 512 + j == (m - start) * 512 + j - 512;
      }
    }
  }

  /** Full chunk `k` of `src` replaces sector `start + k` entirely. */
  lemma WriteChunk(d: Disk, start: nat, src: seq<u8>, k: nat)
    requires WellFormed(d) && 512 * (k + 1) <= |src|
    ensures SectorOf(WriteBytes(d, start, src), start + k) == src[512 * k..512 * (k + 1)]
  {
    var stored := SectorOf(WriteBytes(d, start, src), start + k);
    var chunk := src[512 * k..512 * (k + 1)];
    forall j | 0 <= j < 512
      ensures stored[j] == chunk[j]
    {
      WriteBytesAt(d, start, src, start + k, j);
    }
  }

  /**
   * Read-modify-write of the short remainder: the last sector gets the
   * `|src| % 512` trailing bytes of `src` in front and keeps its own bytes
   * after them.
   */
  lemma WriteRemainder(d: Disk, start: nat, src: seq<u8>)
    requires WellFormed(d) && |src| % 512 != 0
    ensures SectorOf(WriteBytes(d, start, src), start + |src| / 512)
         == src[512 * (|src| / 512)..] + SectorOf(d, start + |src| / 512)[|src| % 512..]
  {
    var q, r := |src| / 512, |src| % 512;
    var stored := SectorOf(WriteBytes(d, start, src), start + q);
    var head, kept := src[512 * q..], SectorOf(d, start + q)[r..];
    forall j | 0 <= j < 512
      ensures stored[j] == (head + kept)[j]
    {
      WriteBytesAt(d, start, src, start + q, j);
      assert (start + q - start) * 512 + j == 512 * q + j;
    }
  }

  /** Reading back what was just written, from the same sector and with the same length, yields it. */
  lemma {:induction false} WriteThenRead(d: Disk, start: nat, src: seq<u8>)
    requires WellFormed(d)
    ensures ReadBytes(WriteBytes(d, start, src), start, |src|) == src
    decreases |src|
  {
    if |src| >= 512 {
      var d' := d[start := src[..512]];
      var tail := src[512..];
      WriteThenRead(d', start + 1, tail);
      WriteBytesFrame(d', start + 1, tail, start);
      assert src == src[..512] + tail;
    }
  }

  // ---------------------------------------------------------------------
  // The device and the adapter
  // ---------------------------------------------------------------------

  /**
   * The VirtIO block device as the adapter sees it. Its own whole-sector
   * `read` and `write` are modelled as total transfers on `disk`; their
   * results, which the adapter discards, are not modelled.
   */
  class VirtIOBlk {
    var disk: Disk

    ghost predicate Valid()
      reads this
    {
      WellFormed(disk)
    }

    constructor (initial: Disk)
      requires WellFormed(initial)
      ensures Valid() && disk == initial
    {
      disk := initial;
    }

    /** The device's sector read into the 512 bytes of `dst` at `offset`. */
    method ReadSector(sector: nat, dst: array<u8>, offset: nat)
      requires Valid() && offset + 512 <= dst.Length
      modifies dst
      ensures dst[..offset] == old(dst[..offset])
      ensures dst[offset..offset + 512] == SectorOf(disk, sector)
      ensures dst[offset + 512..] == old(dst[offset + 512..])
    {
      CopyFromSlice(dst, offset, SectorOf(disk, sector));
    }

    /** The device's sector write of the 512 bytes `src`. */
    method WriteSector(sector: nat, src: seq<u8>)
      requires Valid() && |src| == 512
      modifies this
      ensures Valid() && disk == old(disk)[sector := src]
    {
      disk := disk[sector := src];
    }

    /**
     * `BlockDevice::read`: fills `dst` from the sectors starting at
     * `start`, whole chunks directly and a short remainder through a
     * scratch sector, and always reports `Ok(dst.len())`.
     */
    method Read(start: u32, dst: array<u8>) returns (r: Result<nat>)
      requires Valid()
      modifies dst
      ensures r == Ok(dst.Length)
      ensures dst[..] == ReadBytes(disk, start as nat, dst.Length)
      ensures disk == old(disk)
    {
      var n := dst.Length;
      ghost var d := disk;
      ghost var want := ReadBytes(d, start as nat, n);
      // `i` counts the whole chunks done, `base` is where the next one starts.
      var i: nat, base: nat := 0, 0;
      while n - base >= 512
        invariant base <= n
        invariant dst[..base] + ReadBytes(d, start as nat + i, n - base) == want
      {
        ghost var before := dst[..];
        ReadSector(start as nat + i, dst, base);
        ReadStep(d, start as nat + i, n - base);
        PlacedChunk(before, dst[..], base, SectorOf(d, start as nat + i),
                    ReadBytes(d, start as nat + i + 1, n - base - 512), want);
        i, base := i + 1, base + 512;
      }
      var remLen := n - base;
      assert remLen < 512;
      if remLen > 0 {
        ghost var before := dst[..];
        ReadPartial(start as nat + i, dst, base);
        PlacedTail(before, dst[..], base, ReadBytes(d, start as nat + i, remLen), want);
      } else {
        assert dst[..] == dst[..base];
      }
      r := Ok(n);
    }

    /**
     * The short remainder of a read: the whole sector goes into a scratch
     * buffer and only its prefix is copied into `dst[base..]`, so nothing
     * past the end of `dst` is touched.
     */
    method ReadPartial(sector: nat, dst: array<u8>, base: nat)
      requires Valid() && base < dst.Length < base + 512
      modifies dst
      ensures dst[..base] == old(dst[..base])
      ensures dst[base..] == ReadBytes(disk, sector, dst.Length - base)
    {
      var buf := new u8[512](_ => 0);
      ReadSector(sector, buf, 0);
      var tail := buf[..dst.Length - base];
      assert tail == SectorOf(disk, sector)[..dst.Length - base] by {
        assert buf[..] == buf[0..512];
      }
      CopyFromSlice(dst, base, tail);
      assert dst[base..] == dst[base..base + |tail|];
    }

    /**
     * `BlockDevice::write`: stores `src` into the sectors starting at
     * `start`, whole chunks directly and a short remainder by
     * read-modify-write of its sector, and always reports `Ok(src.len())`.
     */
    method Write(start: u32, src: seq<u8>) returns (r: Result<nat>)
      requires Valid()
      modifies this
      ensures Valid()
      ensures r == Ok(|src|)
      ensures disk == WriteBytes(old(disk), start as nat, src)
    {
      var n := |src|;
      ghost var want := WriteBytes(disk, start as nat, src);
      var i: nat, base: nat := 0, 0;
      while n - base >= 512
        invariant Valid() && base <= n
        invariant WriteBytes(disk, start as nat + i, src[base..]) == want
      {
        WriteStep(disk, start as nat + i, src[base..]);
        assert src[base..][512..] == src[base + 512..];
        assert src[base..][..512] == src[base..base + 512];
        WriteSector(start as nat + i, src[base..base + 512]);
        i, base := i + 1, base + 512;
      }
      var rem := src[base..];
      assert |rem| < 512;
      if |rem| > 0 {
        var buf := new u8[512](_ => 0);
        ReadSector(start as nat + i, buf, 0);
        ghost var fetched := buf[..];
        assert fetched == SectorOf(disk, start as nat + i) by {
          assert buf[..] == buf[0..512];
        }
        CopyFromSlice(buf, 0, rem);
        assert buf[..] == rem + fetched[|rem|..] by {
          assert buf[..] == buf[..|rem|] + buf[|rem|..];
        }
        WriteSector(start as nat + i, buf[..]);
      }
      r := Ok(n);
    }
  }

  /**
   * Bookkeeping for one chunk of a read: if `before[..base]` followed by
   * `chunk + rest` is the whole result, and `after` is `before` with `chunk`
   * placed at `base`, then `after[..base + |chunk|]` followed by `rest` is the
   * whole result.
   */
  lemma PlacedChunk(before: seq<u8>, after: seq<u8>, base: nat, chunk: seq<u8>, rest: seq<u8>, want: seq<u8>)
    requires base + |chunk| <= |after| && base <= |before|
    requires after[..base] == before[..base] && after[base..base + |chunk|] == chunk
    requires before[..base] + (chunk + rest) == want
    ensures after[..base + |chunk|] + rest == want
  {
    assert after[..base + |chunk|] == after[..base] + after[base..base + |chunk|];
  }

  /** Bookkeeping for the last piece of a read: `after` is `before` with `tail` placed at its end. */
  lemma PlacedTail(before: seq<u8>, after: seq<u8>, base: nat, tail: seq<u8>, want: seq<u8>)
    requires base <= |after| && base <= |before|
    requires after[..base] == before[..base] && after[base..] == tail
    requires before[..base] + tail == want
    ensures after == want
  {
    assert after == after[..base] + after[base..];
  }

  /** One whole-chunk step of `ReadBytes`. */
  lemma ReadStep(d: Disk, start: nat, n: nat)
    requires WellFormed(d) && n >= 512
    ensures ReadBytes(d, start, n) == SectorOf(d, start) + ReadBytes(d, start + 1, n - 512)
  {
  }

  /** One whole-chunk step of `WriteBytes`. */
  lemma WriteStep(d: Disk, start: nat, src: seq<u8>)
    requires WellFormed(d) && |src| >= 512
    ensures WriteBytes(d, start, src) == WriteBytes(d[start := src[..512]], start + 1, src[512..])
  {
  }

  /** Rust's `copy_from_slice` into `dst[at..at + |src|]`; nothing else of `dst` changes. */
  method CopyFromSlice(dst: array<u8>, at: nat, src: seq<u8>)
    requires at + |src| <= dst.Length
    modifies dst
    ensures dst[..at] == old(dst[..at])
    ensures dst[at..at + |src|] == src
    ensures dst[at + |src|..] == old(dst[at + |src|..])
  {
    for j := 0 to |src|
      invariant forall k :: 0 <= k < dst.Length ==>
        dst[k] == if at <= k < at + j then src[k - at] else old(dst[k])
    {
      dst[at + j] := src[j];
    }
  }
}
