// The small pure helpers of the kernel's main module: stripping the NUL of a
// device-tree string, folding device-tree cells into a `usize`, and the
// `writerand` shell command's chunk loop with its byte-to-printable mapping.

module KernelHelpers {
  import opened Machine

  // ---------------------------------------------------------------------
  // null_terminated_str
  // ---------------------------------------------------------------------

  /**
   * `null_terminated_str`: drops the last byte when it is NUL. The source
   * indexes the last byte, so it needs a non-empty input.
   */
  function NullTerminatedStr(bytes: seq<u8>): (r: seq<u8>)
    requires |bytes| > 0
    ensures r <= bytes
    ensures |bytes| - 1 <= |r|
    ensures |r| < |bytes| <==> bytes[|bytes| - 1] == 0
  {
    if bytes[|bytes| - 1] == 0 then bytes[..|bytes| - 1] else bytes
  }

  /** A string followed by its terminator comes back as the string. */
  lemma StripsTerminator(s: seq<u8>)
    ensures NullTerminatedStr(s + [0]) == s
  {
    assert (s + [0])[..|s|] == s;
  }

  /** An input whose last byte is not NUL comes back unchanged. */
  lemma KeepsUnterminated(s: seq<u8>)
    requires |s| > 0 && s[|s| - 1] != 0
    ensures NullTerminatedStr(s) == s
  {
  }

  /** Only one NUL is stripped, so applying the helper twice differs from once: "ab\0\0". */
  lemma NotIdempotent()
    ensures var s: seq<u8> := [0x61, 0x62, 0, 0];
            && NullTerminatedStr(s) == [0x61, 0x62, 0]
            && NullTerminatedStr(NullTerminatedStr(s)) == [0x61, 0x62]
            && NullTerminatedStr(NullTerminatedStr(s)) != NullTerminatedStr(s)
  {
    var s: seq<u8> := [0x61, 0x62, 0, 0];
    assert s[..3] == [0x61, 0x62, 0];
    assert s[..3][..2] == [0x61, 0x62];
  }

  // ---------------------------------------------------------------------
  // regs_to_usize
  // ---------------------------------------------------------------------

  /** `u32::from_be_bytes`: the value of four bytes, most significant first. */
  function BeWord(c: seq<u8>): (w: nat)
    requires |c| == 4
    ensures w < TWO32
  {
    ((c[0] as nat * 0x100 + c[1] as nat) * 0x100 + c[2] as nat) * 0x100 + c[3] as nat
  }

  /** The big-endian value of the first `n` 32-bit cells of `regs`, without any width limit. */
  function BeCells(regs: seq<u8>, n: nat): nat
    requires |regs| >= 4 * n
  {
    if n == 0 then 0 else BeCells(regs, n - 1) * TWO32 + BeWord(regs[4 * (n - 1)..4 * n])
  }

  /** Euclidean division has one remainder: `q * m + r` with `0 <= r < m` leaves `r`. */
  lemma ModUnique(n: int, q: int, r: int, m: int)
    requires m > 0 && 0 <= r < m && n == q * m + r
    ensures n % m == r
  {
    var d := q - n / m;
    assert d * m == n % m - r;
    if d > 0 {
      MulAtLeast(d, m);
    } else if d < 0 {
      assert (-d) * m == -(d * m);
      MulAtLeast(-d, m);
    }
  }

  lemma MulAtLeast(d: int, m: int)
    requires d >= 1 && m > 0
    ensures d * m >= m
  {
    assert d * m == (d - 1) * m + m;
    assert (d - 1) * m >= 0;
  }

  /** A 64-bit shift left by 32 keeps exactly the low 32 bits, moved up. */
  lemma ShiftLeft32(b: nat)
    ensures (b * TWO32) % TWO64 == (b % TWO32) * TWO32
  {
    var q, r := b / TWO32, b % TWO32;
    assert b * TWO32 == q * TWO64 + r * TWO32;
    ModUnique(b * TWO32, q, r * TWO32, TWO64);
  }

  /**
   * Shifting a 64-bit value left by 32 and or-ing in a 32-bit word: the
   * shift leaves the low 32 bits clear, so the or is an addition, and the
   * outcome is the unbounded shift-and-add reduced mod 2^64.
   */
  lemma ShiftIn(b: nat, w: nat)
    requires w < TWO32
    ensures ((b % TWO64) * TWO32) % TWO64 % TWO32 == 0
    ensures ((b % TWO64) * TWO32) % TWO64 + w == (b * TWO32 + w) % TWO64
  {
    var q, r := b / TWO32, b % TWO32;
    ShiftLeft32(b % TWO64);
    assert (b % TWO64) % TWO32 == r by {
      var k := b / TWO64;
      assert b == k * TWO64 + b % TWO64;
      assert b == (k * TWO32 + (b % TWO64) / TWO32) * TWO32 + (b % TWO64) % TWO32;
      ModUnique(b, k * TWO32 + (b % TWO64) / TWO32, (b % TWO64) % TWO32, TWO32);
    }
    ModUnique(r * TWO32, r, 0, TWO32);
    assert b * TWO32 + w == q * TWO64 + (r * TWO32 + w);
    ModUnique(b * TWO32 + w, q, r * TWO32 + w, TWO64);
  }

  /**
   * `regs_to_usize`: splits off the first `4 * cellSize` bytes and folds
   * them, four at a time, into a 64-bit `usize` with `result << 32 | word`;
   * returns the value and the bytes after them. `split_at` needs the input
   * to hold that many bytes.
   */
  method RegsToUsize(regs: seq<u8>, cellSize: nat) returns (result: nat, rest: seq<u8>)
    requires |regs| >= 4 * cellSize
    ensures result < TWO64
    ensures result == BeCells(regs, cellSize) % TWO64
    ensures rest == regs[4 * cellSize..]
  {
    var work := regs[..4 * cellSize];
    rest := regs[4 * cellSize..];
    result := 0;
    for i := 0 to cellSize
      invariant result == BeCells(regs, i) % TWO64
    {
      var word := BeWord(work[4 * i..4 * i + 4]);
      assert work[4 * i..4 * i + 4] == regs[4 * i..4 * (i + 1)];
      ShiftIn(BeCells(regs, i), word);
      result := (result * TWO32) % TWO64 + word;
    }
  }

  /** One and two cells, the widths device trees use, fit a `usize` exactly. */
  lemma SmallCellsExact(regs: seq<u8>)
    requires |regs| >= 8
    ensures BeCells(regs, 0) == 0
    ensures BeCells(regs, 1) == BeWord(regs[..4]) < TWO64
    ensures BeCells(regs, 2) == BeWord(regs[..4]) * TWO32 + BeWord(regs[4..8]) < TWO64
  {
    var hi, lo := BeWord(regs[..4]), BeWord(regs[4..8]);
    assert hi * TWO32 <= (TWO32 - 1) * TWO32;
  }

  /** A third cell pushes the first one out of the 64-bit result entirely. */
  lemma ThreeCellsDropFirst(regs: seq<u8>)
    requires |regs| >= 12
    ensures BeCells(regs, 3) % TWO64 == BeWord(regs[4..8]) * TWO32 + BeWord(regs[8..12])
  {
    var a, b, c := BeWord(regs[..4]), BeWord(regs[4..8]), BeWord(regs[8..12]);
    SmallCellsExact(regs);
    assert BeCells(regs, 3) == (a * TWO32 + b) * TWO32 + c;
    assert (a * TWO32 + b) * TWO32 == a * TWO64 + b * TWO32;
    assert b * TWO32 <= (TWO32 - 1) * TWO32;
    ModUnique(BeCells(regs, 3), a, b * TWO32 + c, TWO64);
  }

  // ---------------------------------------------------------------------
  // writerand
  // ---------------------------------------------------------------------

  /**
   * The byte mapping of `writerand`: `((b as u32 * 100) / 272 + 32) as u8`.
   * The product is at most 25500, so the `u32` arithmetic cannot overflow,
   * and the sum is at most 125, so the cast to `u8` truncates nothing.
   */
  function Printable(b: u8): (r: u8)
    ensures 32 <= r <= 125
  {
    ((b as nat * 100) / 272 + 32) as u8
  }

  /** The mapping never decreases: a larger byte maps to a printable byte at least as large. */
  lemma PrintableMonotone(a: u8, b: u8)
    requires a <= b
    ensures Printable(a) <= Printable(b)
  {
    var x, y := a as nat * 100, b as nat * 100;
    assert x <= y;
    assert x / 272 <= y / 272;
  }

  /** The mapping reaches both ends of the printable range. */
  lemma PrintableEnds()
    ensures Printable(0) == 32 && Printable(255) == 125
  {
  }

  /** Each byte of `s` mapped to its printable byte. */
  function Printables(s: seq<u8>): (r: seq<u8>)
    ensures |r| == |s|
    ensures forall i :: 0 <= i < |s| ==> r[i] == Printable(s[i])
  {
    seq(|s|, i requires 0 <= i < |s| => Printable(s[i]))
  }

  /** The 512-byte `outdata` of one round: the round's entropy bytes mapped, then zeros. */
  function Block(chunk: seq<u8>): seq<u8>
    requires |chunk| <= 512
  {
    Printables(chunk) + Zeros(512 - |chunk|)
  }

  /** The blocks `writerand` prepares from the entropy bytes `data`, 512 bytes a round. */
  function RandBlocks(data: seq<u8>): seq<seq<u8>>
    decreases |data|
  {
    if |data| == 0 then []
    else
      var n := Min(512, |data|);
      [Block(data[..n])] + RandBlocks(data[n..])
  }

  /** `len` bytes take ceil(len / 512) rounds. */
  lemma {:induction false} RandRounds(data: seq<u8>)
    ensures |RandBlocks(data)| == SectorsSpanned(|data|)
    decreases |data|
  {
    if |data| > 0 {
      var n := Min(512, |data|);
      RandRounds(data[n..]);
      if |data| >= 512 {
        assert SectorsSpanned(|data|) == 1 + SectorsSpanned(|data| - 512);
      }
    }
  }

  /**
   * Every prepared block has 512 bytes, and each byte is printable (32..125)
   * or belongs to the zero padding of a short last round.
   */
  lemma {:induction false} RandBlocksPrintable(data: seq<u8>)
    ensures forall i :: 0 <= i < |RandBlocks(data)| ==> |RandBlocks(data)[i]| == 512
    ensures forall i, j :: 0 <= i < |RandBlocks(data)| && 0 <= j < 512 ==>
              var x := RandBlocks(data)[i][j];
              (32 <= x <= 125) || (x == 0 && i == |RandBlocks(data)| - 1 && 512 * i + j >= |data|)
    decreases |data|
  {
    if |data| > 0 {
      var n := Min(512, |data|);
      var rest := data[n..];
      RandBlocksPrintable(rest);
      var bs := RandBlocks(data);
      assert bs == [Block(data[..n])] + RandBlocks(rest);
      forall i, j | 0 <= i < |bs| && 0 <= j < 512
        ensures var x := bs[i][j];
                (32 <= x <= 125) || (x == 0 && i == |bs| - 1 && 512 * i + j >= |data|)
      {
        if i == 0 {
          var block := Block(data[..n]);
          if j >= n {
            assert block[j] == 0;
            assert n < 512 && n == |data|;
            RandRounds(rest);
          } else {
            assert block[j] == Printable(data[j]);
          }
        } else {
          assert bs[i] == RandBlocks(rest)[i - 1];
        }
      }
    }
  }

  /** Adding one to a value already reduced mod 2^64 and reducing again is adding one and reducing once. */
  lemma WrapSucc(a: nat)
    ensures (a % TWO64 + 1) % TWO64 == (a + 1) % TWO64
  {
    var q, r := a / TWO64, a % TWO64;
    if r + 1 < TWO64 {
      ModUnique(a + 1, q, r + 1, TWO64);
      ModUnique(r + 1, 0, r + 1, TWO64);
    } else {
      ModUnique(a + 1, q + 1, 0, TWO64);
      ModUnique(r + 1, 1, 0, TWO64);
    }
  }

  /**
   * One round's `outdata`: a zeroed 512-byte buffer whose first `|chunk|`
   * bytes are filled from the entropy source and then mapped in place.
   */
  method PrepareBlock(chunk: seq<u8>) returns (block: seq<u8>)
    requires |chunk| <= 512
    ensures block == Block(chunk)
  {
    var outdata := new u8[512](_ => 0);
    var curlen := |chunk|;
    for j := 0 to curlen
      invariant forall k :: 0 <= k < j ==> outdata[k] == chunk[k]
      invariant forall k :: j <= k < 512 ==> outdata[k] == 0
    {
      outdata[j] := chunk[j];
    }
    for j := 0 to curlen
      invariant forall k :: 0 <= k < j ==> outdata[k] == Printable(chunk[k])
      invariant forall k :: j <= k < curlen ==> outdata[k] == chunk[k]
      invariant forall k :: curlen <= k < 512 ==> outdata[k] == 0
    {
      outdata[j] := Printable(outdata[j]);
    }
    assert outdata[..] == Block(chunk);
    block := outdata[..];
  }

  /**
   * The `writerand` loop: while `len` bytes remain, prepares one block from
   * the next `min(512, len)` entropy bytes and advances `sector` by one.
   * `entropy` stands for the bytes the entropy device delivers, in order.
   * The block write is commented out in the source, so the blocks are
   * returned instead of written. `sector` is a `u64` parsed from the shell,
   * so any start below 2^64 is possible, and `sector += 1` wraps to 0 past
   * the largest one.
   */
  method WriteRand(sector: nat, len: nat, entropy: seq<u8>) returns (sector': nat, blocks: seq<seq<u8>>)
    requires sector < TWO64
    requires |entropy| >= len
    ensures blocks == RandBlocks(entropy[..len])
    ensures |blocks| == SectorsSpanned(len)
    ensures sector' == (sector + |blocks|) % TWO64
  {
    sector' := sector;
    var remaining := len;
    var pending := entropy[..len];
    blocks := [];
    while remaining > 0
      invariant remaining == |pending|
      invariant sector' == (sector + |blocks|) % TWO64
      invariant blocks + RandBlocks(pending) == RandBlocks(entropy[..len])
      decreases remaining
    {
      var curlen := Min(512, remaining);
      var block := PrepareBlock(pending[..curlen]);
      assert RandBlocks(pending) == [block] + RandBlocks(pending[curlen..]);
      assert (blocks + [block]) + RandBlocks(pending[curlen..]) == blocks + ([block] + RandBlocks(pending[curlen..]));
      WrapSucc(sector + |blocks|);
      blocks := blocks + [block];
      pending := pending[curlen..];
      sector' := (sector' + 1) % TWO64;
      remaining := remaining - curlen;
    }
    RandRounds(entropy[..len]);
  }
}
