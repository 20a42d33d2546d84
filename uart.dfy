// The PL011 UART console: byte output, the line editor `read_line`, and the
// `core::fmt::Write` hook. The memory-mapped registers are replaced by two
// streams: `input`, the bytes the receiver will deliver in order, and
// `output`, every byte transmitted so far.

module Uart {
  import opened Machine

  const LF: u8 := 0x0a     // b'\n'
  const CR: u8 := 0x0d     // b'\r'
  const DEL: u8 := 127     // the backspace key
  const SPACE: u8 := 0x20  // b' '

  /** `move_back`: ESC [ D, the ANSI "cursor left" sequence. */
  const MOVE_BACK: seq<u8> := [0x1b, 0x5b, 0x44]

  /** What an effective backspace transmits: cursor left, a blank, cursor left. */
  const ERASE: seq<u8> := MOVE_BACK + [SPACE] + MOVE_BACK

  /** The bytes that end a line. */
  predicate IsLineEnd(b: u8) {
    b == CR || b == LF
  }

  /**
   * Stack semantics of typing `s`: an ordinary byte is pushed, DEL pops the
   * most recent kept byte, and DEL with nothing kept is ignored.
   */
  function Kept(s: seq<u8>): seq<u8>
    decreases |s|
  {
    if s == [] then []
    else
      var before := Kept(s[..|s| - 1]);
      if s[|s| - 1] != DEL then before + [s[|s| - 1]]
      else if before == [] then []
      else before[..|before| - 1]
  }

  /**
   * What one keystroke `v` transmits when `kept` bytes are on the line: an
   * ordinary byte is sent back when `echo` is set, a DEL that removes a byte
   * sends ERASE whether or not `echo` is set, and a DEL on an empty line
   * sends nothing.
   */
  function KeyEcho(v: u8, kept: nat, echo: bool): seq<u8> {
    if v != DEL then (if echo then [v] else [])
    else if kept == 0 then []
    else ERASE
  }

  /** What `read_line` transmits while `s` is typed, keystroke by keystroke. */
  function Echo(s: seq<u8>, echo: bool): seq<u8>
    decreases |s|
  {
    if s == [] then []
    else Echo(s[..|s| - 1], echo) + KeyEcho(s[|s| - 1], |Kept(s[..|s| - 1])|, echo)
  }

  /**
   * The line had room before every keystroke of `s`: `read_line` only reads
   * a byte while fewer than `cap` bytes are kept.
   */
  predicate NeverFull(s: seq<u8>, cap: nat)
    decreases |s|
  {
    s == [] || (NeverFull(s[..|s| - 1], cap) && |Kept(s[..|s| - 1])| < cap)
  }

  /** Number of DELs in `s` that removed a byte. */
  function Erasures(s: seq<u8>): nat
    decreases |s|
  {
    if s == [] then 0
    else Erasures(s[..|s| - 1]) + if s[|s| - 1] == DEL && Kept(s[..|s| - 1]) != [] then 1 else 0
  }

  /** Number of ordinary (non-DEL) bytes in `s`. */
  function Ordinary(s: seq<u8>): nat
    decreases |s|
  {
    if s == [] then 0
    else Ordinary(s[..|s| - 1]) + if s[|s| - 1] != DEL then 1 else 0
  }

  /** `n` copies of ERASE, end to end. */
  function Erases(n: nat): seq<u8> {
    if n == 0 then [] else Erases(n - 1) + ERASE
  }

  // ---------------------------------------------------------------------
  // Properties of the line-editing semantics
  // ---------------------------------------------------------------------

  /** Every kept byte was typed and not erased: |Kept(s)| = ordinary bytes - erasures. */
  lemma {:induction false} KeptCount(s: seq<u8>)
    ensures |Kept(s)| + Erasures(s) == Ordinary(s)
    decreases |s|
  {
    if s != [] {
      KeptCount(s[..|s| - 1]);
    }
  }

  /** The kept line is never longer than what was typed. */
  lemma {:induction false} KeptShorter(s: seq<u8>)
    ensures |Kept(s)| <= |s|
    decreases |s|
  {
    if s != [] {
      KeptShorter(s[..|s| - 1]);
    }
  }

  /** Without DEL the editor keeps exactly what was typed. */
  lemma {:induction false} PlainKept(s: seq<u8>)
    requires forall i :: 0 <= i < |s| ==> s[i] != DEL
    ensures Kept(s) == s
    decreases |s|
  {
    if s != [] {
      var p := s[..|s| - 1];
      assert forall i :: 0 <= i < |p| ==> p[i] == s[i];
      PlainKept(p);
      assert s == p + [s[|s| - 1]];
    }
  }

  /** Without DEL the editor transmits, with `echo`, exactly what was typed, and otherwise nothing. */
  lemma {:induction false} PlainEcho(s: seq<u8>, echo: bool)
    requires forall i :: 0 <= i < |s| ==> s[i] != DEL
    ensures Echo(s, echo) == if echo then s else []
    decreases |s|
  {
    if s != [] {
      var p := s[..|s| - 1];
      assert forall i :: 0 <= i < |p| ==> p[i] == s[i];
      var b := s[|s| - 1];
      PlainEcho(p, echo);
      assert Echo(s, echo) == Echo(p, echo) + KeyEcho(b, |Kept(p)|, echo);
      assert KeyEcho(b, |Kept(p)|, echo) == if echo then [b] else [];
      assert s == p + [b];
    }
  }

  /** Without `echo` the only output is one ERASE per effective DEL. */
  lemma {:induction false} QuietEcho(s: seq<u8>)
    ensures Echo(s, false) == Erases(Erasures(s))
    decreases |s|
  {
    if s != [] {
      QuietEcho(s[..|s| - 1]);
    }
  }

  /** A DEL right after an ordinary byte undoes it and transmits ERASE. */
  lemma TypeThenDelete(s: seq<u8>, b: u8, echo: bool)
    requires b != DEL
    ensures Kept(s + [b, DEL]) == Kept(s)
    ensures Echo(s + [b, DEL], echo) == Echo(s, echo) + (if echo then [b] else []) + ERASE
  {
    var t := s + [b, DEL];
    assert t[..|t| - 1] == s + [b];
    assert (s + [b])[..|s|] == s;
  }

  /** A DEL with nothing kept changes nothing and transmits nothing. */
  lemma DeleteOnEmpty(s: seq<u8>, echo: bool)
    requires Kept(s) == []
    ensures Kept(s + [DEL]) == []
    ensures Echo(s + [DEL], echo) == Echo(s, echo)
  {
    assert (s + [DEL])[..|s|] == s;
  }

  /** NeverFull says exactly that every prefix of `s` kept fewer than `cap` bytes. */
  lemma {:induction false} NeverFullPrefixes(s: seq<u8>, cap: nat)
    ensures NeverFull(s, cap) <==> forall j :: 0 <= j < |s| ==> |Kept(s[..j])| < cap
    decreases |s|
  {
    if s != [] {
      var p := s[..|s| - 1];
      NeverFullPrefixes(p, cap);
      assert forall j :: 0 <= j < |p| ==> p[..j] == s[..j];
    }
  }

  /** One keystroke of the editor, as `read_line`'s loop body performs it. */
  lemma EditStep(s: seq<u8>, v: u8, echo: bool)
    ensures var k := Kept(s);
            Kept(s + [v]) == if v != DEL then k + [v] else if k == [] then [] else k[..|k| - 1]
    ensures Echo(s + [v], echo) == Echo(s, echo) + KeyEcho(v, |Kept(s)|, echo)
  {
    assert (s + [v])[..|s|] == s;
  }

  // ---------------------------------------------------------------------
  // The editor as a state machine over the buffer, the count and the output
  // ---------------------------------------------------------------------

  /** What `read_line` works on: the buffer's cells, how many bytes are kept, and everything transmitted. */
  datatype Editor = Editor(cells: seq<u8>, count: nat, sent: seq<u8>)

  /**
   * One arm of `read_line`'s `match`, for a byte `v` that is not a line end.
   * DEL with bytes kept zeroes the last kept cell and transmits ERASE; DEL
   * with nothing kept does nothing; any other byte is stored at `count`
   * and echoed if asked. The loop only reads while the buffer has room, so
   * the last branch (an ordinary byte with no room) is never taken there.
   */
  function Press(e: Editor, v: u8, echo: bool): Editor {
    if v == DEL then
      if 0 < e.count <= |e.cells| then Editor(e.cells[e.count - 1 := 0], e.count - 1, e.sent + ERASE)
      else e
    else if e.count < |e.cells| then Editor(e.cells[e.count := v], e.count + 1, e.sent + if echo then [v] else [])
    else e
  }

  /** The editor after the keystrokes `t`, pressed one after the other from `e0`. */
  function Typed(e0: Editor, t: seq<u8>, echo: bool): Editor
    decreases |t|
  {
    if t == [] then e0 else Press(Typed(e0, t[..|t| - 1], echo), t[|t| - 1], echo)
  }

  /**
   * `read_line` reads every keystroke of `t` and goes on: none is a line
   * end, and the buffer had room before each.
   */
  predicate Accepted(e0: Editor, t: seq<u8>, echo: bool)
    decreases |t|
  {
    t == [] ||
    (Accepted(e0, t[..|t| - 1], echo) && !IsLineEnd(t[|t| - 1])
     && Typed(e0, t[..|t| - 1], echo).count < |e0.cells|)
  }

  /** Pressing one more key, unfolded once. */
  lemma TypedStep(e0: Editor, t: seq<u8>, v: u8, echo: bool)
    ensures Typed(e0, t + [v], echo) == Press(Typed(e0, t, echo), v, echo)
    ensures Accepted(e0, t + [v], echo)
        == (Accepted(e0, t, echo) && !IsLineEnd(v) && Typed(e0, t, echo).count < |e0.cells|)
  {
    assert (t + [v])[..|t|] == t;
  }

  /**
   * From an empty line, the accepted keystrokes `t` keep as many bytes as
   * the stack semantics does, and the buffer keeps its size.
   */
  lemma {:induction false} TypedCount(e0: Editor, t: seq<u8>, echo: bool)
    requires e0.count == 0 && Accepted(e0, t, echo)
    ensures |Typed(e0, t, echo).cells| == |e0.cells|
    ensures Typed(e0, t, echo).count == |Kept(t)| <= |e0.cells|
    decreases |t|
  {
    if t != [] {
      var p, v := t[..|t| - 1], t[|t| - 1];
      assert t == p + [v];
      TypedCount(e0, p, echo);
      TypedStep(e0, p, v, echo);
      EditStep(p, v, echo);
    }
  }

  /**
   * One press with room on the line: an ordinary byte is appended to the
   * kept cells, DEL drops the last one, and the cells past the kept ones
   * still hold their `first` value or 0.
   */
  lemma PressCells(e: Editor, v: u8, echo: bool, first: seq<u8>)
    requires e.count < |e.cells| == |first|
    requires forall k :: e.count <= k < |e.cells| ==> e.cells[k] == first[k] || e.cells[k] == 0
    ensures var e' := Press(e, v, echo);
            && e'.count <= |e'.cells| == |e.cells|
            && e'.cells[..e'.count]
               == (if v != DEL then e.cells[..e.count] + [v]
                   else if e.count == 0 then []
                   else e.cells[..e.count - 1])
            && forall k :: e'.count <= k < |e'.cells| ==> e'.cells[k] == first[k] || e'.cells[k] == 0
  {
    var e' := Press(e, v, echo);
    if v == DEL && e.count > 0 {
      assert e'.cells[..e'.count] == e.cells[..e.count - 1];
    } else if v != DEL {
      assert e'.cells[..e'.count] == e.cells[..e.count] + [v];
    }
  }

  /**
   * From an empty line, the accepted keystrokes `t` leave Kept(t) in the
   * first cells and every later cell holding its first value or 0.
   */
  lemma {:induction false} TypedCells(e0: Editor, t: seq<u8>, echo: bool)
    requires e0.count == 0 && Accepted(e0, t, echo)
    ensures var e := Typed(e0, t, echo);
            && e.count <= |e.cells| == |e0.cells|
            && e.cells[..e.count] == Kept(t)
            && forall k :: e.count <= k < |e.cells| ==> e.cells[k] == e0.cells[k] || e.cells[k] == 0
    decreases |t|
  {
    if t != [] {
      var p, v := t[..|t| - 1], t[|t| - 1];
      assert t == p + [v];
      TypedCells(e0, p, echo);
      TypedCount(e0, p, echo);
      TypedStep(e0, p, v, echo);
      EditStep(p, v, echo);
      var e := Typed(e0, p, echo);
      PressCells(e, v, echo, e0.cells);
      if v == DEL && e.count > 0 {
        assert e.cells[..e.count - 1] == e.cells[..e.count][..e.count - 1];
      }
    }
  }

  /** From an empty line, the accepted keystrokes `t` transmit Echo(t) after what was sent before. */
  lemma {:induction false} TypedSent(e0: Editor, t: seq<u8>, echo: bool)
    requires e0.count == 0 && Accepted(e0, t, echo)
    ensures Typed(e0, t, echo).sent == e0.sent + Echo(t, echo)
    decreases |t|
  {
    if t != [] {
      var p, v := t[..|t| - 1], t[|t| - 1];
      assert t == p + [v];
      TypedSent(e0, p, echo);
      TypedCount(e0, p, echo);
      TypedStep(e0, p, v, echo);
      EditStep(p, v, echo);
    }
  }

  /** Accepted says exactly that no keystroke of `t` is a line end and the line had room before each. */
  lemma {:induction false} AcceptedMeans(e0: Editor, t: seq<u8>, echo: bool)
    requires e0.count == 0
    ensures Accepted(e0, t, echo)
        <==> (forall j :: 0 <= j < |t| ==> !IsLineEnd(t[j])) && NeverFull(t, |e0.cells|)
    decreases |t|
  {
    if t != [] {
      var p := t[..|t| - 1];
      AcceptedMeans(e0, p, echo);
      assert forall j :: 0 <= j < |p| ==> p[j] == t[j];
      if Accepted(e0, p, echo) {
        TypedCount(e0, p, echo);
      }
    }
  }

  // ---------------------------------------------------------------------
  // The device
  // ---------------------------------------------------------------------

  class UART {
    /** Bytes the receiver has yet to deliver, in arrival order. */
    var input: seq<u8>
    /** Every byte transmitted so far, in order. */
    var output: seq<u8>

    /** `UART::new`: a console whose receiver will deliver `pending`. */
    constructor (pending: seq<u8>)
      ensures input == pending && output == []
    {
      input := pending;
      output := [];
    }

    /** `write_byte`: transmits one byte. */
    method WriteByte(b: u8)
      modifies this`output
      ensures output == old(output) + [b]
    {
      output := output + [b];
    }

    /** `write_bytes`: transmits the bytes of `s` in order. */
    method WriteBytes(s: seq<u8>)
      modifies this`output
      ensures output == old(output) + s
    {
      for i := 0 to |s|
        invariant output == old(output) + s[..i]
      {
        WriteByte(s[i]);
        assert s[..i + 1] == s[..i] + [s[i]];
      }
    }

    /** `read_byte`: takes the next received byte. */
    method ReadByte() returns (b: u8)
      requires input != []
      modifies this`input
      ensures old(input) == [b] + input
    {
      b := input[0];
      input := input[1..];
    }

    /** `move_back`: moves the terminal cursor one column left. */
    method MoveBack()
      modifies this`output
      ensures output == old(output) + MOVE_BACK
    {
      WriteByte(0x1b);
      WriteByte(0x5b);
      WriteByte(0x44);
    }

    /**
     * `read_line`: edits a line into `buf` and returns its first `count`
     * bytes. Reading stops at the first CR or LF, which is consumed but not
     * stored, or as soon as `buf` is full. `typed` is the number of other
     * bytes consumed and `terminated` tells whether a line end was consumed
     * after them. If the input runs out first the model leaves the loop,
     * where the device would wait for more.
     */
    method ReadLine(buf: array<u8>, echo: bool) returns (line: seq<u8>, ghost typed: nat, ghost terminated: bool)
      modifies this, buf
      ensures typed + (if terminated then 1 else 0) <= |old(input)|
      ensures input == old(input)[typed + if terminated then 1 else 0..]
      ensures forall j :: 0 <= j < typed ==> !IsLineEnd(old(input)[j])
      ensures terminated ==> IsLineEnd(old(input)[typed]) && |line| < buf.Length
      ensures !terminated ==> |line| == buf.Length || typed == |old(input)|
      ensures NeverFull(old(input)[..typed], buf.Length)
      ensures line == Kept(old(input)[..typed])
      ensures |line| <= buf.Length && buf[..|line|] == line
      ensures forall k :: |line| <= k < buf.Length ==> buf[k] == old(buf[k]) || buf[k] == 0
      ensures output == old(output) + Echo(old(input)[..typed], echo) + (if echo then [LF] else [])
      ensures buf.Length == 0 ==> typed == 0 && !terminated && input == old(input)
    {
      ghost var e0 := Editor(buf[..], 0, output);
      var count: nat;
      ghost var t: seq<u8>;
      count, t, terminated := ReadKeys(buf, echo);
      typed := |t|;
      assert old(input)[..typed] == t;
      TypedCells(e0, t, echo);
      TypedSent(e0, t, echo);
      AcceptedMeans(e0, t, echo);
      if echo {
        WriteByte(LF);
      }
      line := buf[0..count];
    }

    /**
     * The loop of `read_line`: presses keystrokes while the buffer has room
     * and input remains, until a line end. `t` is the sequence of keystrokes
     * pressed and `count` the number of bytes kept.
     */
    method ReadKeys(buf: array<u8>, echo: bool) returns (count: nat, ghost t: seq<u8>, ghost terminated: bool)
      modifies this, buf
      ensures terminated ==> |old(input)| > |t| && IsLineEnd(old(input)[|t|])
                             && old(input) == t + [old(input)[|t|]] + input && count < buf.Length
      ensures !terminated ==> old(input) == t + input && (count == buf.Length || input == [])
      ensures Accepted(Editor(old(buf[..]), 0, old(output)), t, echo)
      ensures Editor(buf[..], count, output) == Typed(Editor(old(buf[..]), 0, old(output)), t, echo)
    {
      ghost var received, e0 := input, Editor(buf[..], 0, output);
      t := [];
      var maxLen: nat := buf.Length;
      count := 0;
      terminated := false;
      while maxLen > 0 && input != []
        invariant count + maxLen == buf.Length
        invariant received == t + input
        invariant Accepted(e0, t, echo)
        invariant Editor(buf[..], count, output) == Typed(e0, t, echo)
        decreases |input|
      {
        var count', maxLen', stop, v := Keystroke(buf, count, maxLen, echo);
        if stop {
          terminated := true;
          break;
        }
        TypedStep(e0, t, v, echo);
        assert received == (t + [v]) + input;
        t, count, maxLen := t + [v], count', maxLen';
      }
    }

    /**
     * One pass of `read_line`'s loop: reads a byte `v` and runs the arm of
     * the `match` it selects. A line end sets `stop` and changes nothing
     * else; DEL erases the last kept byte (zeroing its slot) if there is
     * one; any other byte is echoed if asked and stored at `count`.
     */
    method Keystroke(buf: array<u8>, count: nat, maxLen: nat, echo: bool)
      returns (count': nat, maxLen': nat, stop: bool, v: u8)
      requires input != [] && maxLen > 0 && count + maxLen == buf.Length
      modifies this, buf
      ensures old(input) == [v] + input && stop == IsLineEnd(v)
      ensures stop ==> count' == count && buf[..] == old(buf[..]) && output == old(output)
      ensures !stop ==> count' + maxLen' == buf.Length
                        && Editor(buf[..], count', output) == Press(Editor(old(buf[..]), count, old(output)), v, echo)
    {
      v := ReadByte();
      count', maxLen', stop := count, maxLen, false;
      if v == CR || v == LF {
        stop := true;
      } else if v == DEL {
        if count' > 0 {
          count' := count' - 1;
          buf[count'] := 0;
          maxLen' := maxLen' + 1;
          MoveBack();
          WriteByte(SPACE);
          MoveBack();
        }
      } else {
        if echo {
          WriteByte(v);
        }
        buf[count'] := v;
        count' := count' + 1;
        maxLen' := maxLen' - 1;
      }
    }

    /** `write_str` of `core::fmt::Write`: transmits the string's bytes and always succeeds. */
    method WriteStr(s: seq<u8>) returns (r: Result<()>)
      modifies this`output
      ensures r == Ok(())
      ensures output == old(output) + s
    {
      WriteBytes(s);
      r := Ok(());
    }
  }
}
