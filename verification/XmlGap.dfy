/** The in-place decoders of pugixml: the text is compacted in the parse buffer while the rest of it is still being
    read, with at most one gap between the two. */
module XmlGap {
  import opened Bytes
  import opened Utf8
  import opened XmlChars
  import opened XmlText

  /** `memmove` towards the front of the buffer. */
  method MoveDown(buf: array<byte>, dst: nat, from: nat, n: nat)
    requires dst <= from && from + n <= buf.Length
    modifies buf
    ensures buf[..] == Moved(old(buf[..]), dst, from, n)
  {
    for k := 0 to n
      invariant forall i :: dst <= i < dst + k ==> buf[i] == old(buf[i - dst + from])
      invariant forall i :: 0 <= i < dst || dst + k <= i < buf.Length ==> buf[i] == old(buf[i])
    {
      buf[dst + k] := buf[from + k];
    }
    ghost var was := old(buf[..]);
    ghost var r := Moved(was, dst, from, n);
    forall i | 0 <= i < buf.Length ensures buf[i] == r[i] {
      MovedAt(was, dst, from, n, i);
    }
  }

  lemma MovedAt(b: bytes, dst: nat, from: nat, n: nat, i: nat)
    requires dst <= from && from + n <= |b| && i < |b|
    ensures Moved(b, dst, from, n)[i] == if dst <= i < dst + n then b[i - dst + from] else b[i]
  {
  }

  function Moved(b: bytes, dst: nat, from: nat, n: nat): (r: bytes)
    requires dst <= from && from + n <= |b|
    ensures |r| == |b|
  {
    b[..dst] + b[from..from + n] + b[dst + n..]
  }

  /** `PUGI__SCANWHILE_UNROLL`: four tests a turn; `spaces` adds `ct_space` to the class. */
  method ScanWhileUnroll(buf: array<byte>, start: nat, t: CharType, spaces: bool) returns (s: nat)
    requires Terminated(buf[..]) && start < buf.Length
    requires InClass('\0', t)
    ensures start <= s < buf.Length
    ensures forall k :: start <= k < s ==> !Stops(buf[k], t, spaces)
    ensures Stops(buf[s], t, spaces)
  {
    hide IsChartype, InClass;
    s := start;
    while true
      invariant start <= s < buf.Length
      invariant forall k :: start <= k < s ==> !Stops(buf[k], t, spaces)
      decreases buf.Length - s
    {
      var ss := buf[s];
      StopsIsExact(ss, t, spaces);
      if IsChartype(ss, t) || (spaces && IsChartype(ss, Space)) { break; }
      ss := buf[s + 1];
      StopsIsExact(ss, t, spaces);
      if IsChartype(ss, t) || (spaces && IsChartype(ss, Space)) { s := s + 1; break; }
      ss := buf[s + 2];
      StopsIsExact(ss, t, spaces);
      if IsChartype(ss, t) || (spaces && IsChartype(ss, Space)) { s := s + 2; break; }
      ss := buf[s + 3];
      StopsIsExact(ss, t, spaces);
      if IsChartype(ss, t) || (spaces && IsChartype(ss, Space)) { s := s + 3; break; }
      s := s + 4;
    }
  }

  predicate Stops(c: byte, t: CharType, spaces: bool) {
    InClass(c, t) || (spaces && XmlText.IsSpace(c))
  }

  lemma StopsIsExact(c: byte, t: CharType, spaces: bool)
    ensures Stops(c, t, spaces) <==> IsChartype(c, t) || (spaces && IsChartype(c, Space))
  {
    hide IsChartype;
    ClassIsExact(c, t);
    ClassIsExact(c, Space);
  }

  /** The gap as a value: `end` is one past its last byte, 0 while there is none. */
  datatype Hole = Hole(end: nat, size: nat)

  /** The reader is at `s` of the buffer `b`: what it has yet to read is as in `src`, and what it has decoded since
      `begin` is `text`, left and right of the gap. */
  ghost predicate State(b: bytes, g: Hole, src: bytes, begin: nat, s: nat, text: bytes) {
    && |b| == |src| && begin <= s <= |src|
    && b[s..] == src[s..] && b[..begin] == src[..begin]
    && (g.end == 0 ==> g.size == 0 && text == b[begin..s])
    && (g.end != 0 ==> begin + g.size <= g.end <= s && text == b[begin..g.end - g.size] + b[g.end..s])
  }

  /** The write position never passes the read position. */
  lemma TextFits(b: bytes, g: Hole, src: bytes, begin: nat, s: nat, text: bytes)
    requires State(b, g, src, begin, s, text)
    ensures |text| + g.size == s - begin
  {
  }

  lemma HoleBounds(b: bytes, g: Hole, src: bytes, begin: nat, s: nat, text: bytes)
    requires State(b, g, src, begin, s, text)
    ensures g.end != 0 ==> g.size <= g.end <= s <= |b|
    ensures g.end == 0 ==> Collapsed(b, src, begin, s, text)
  {
    TextFits(b, g, src, begin, s, text);
  }

  lemma SuffixAt(b: bytes, src: bytes, s: nat, t: nat)
    requires |b| == |src| && s <= t <= |src| && b[s..] == src[s..]
    ensures b[s..t] == src[s..t] && b[t..] == src[t..]
    ensures t < |src| ==> b[t] == src[t]
  {
    assert b[s..t] == b[s..][..t - s] && src[s..t] == src[s..][..t - s];
    assert b[t..] == b[s..][t - s..] && src[t..] == src[s..][t - s..];
    if t < |src| {
      assert b[t] == b[s..][t - s] && src[t] == src[s..][t - s];
    }
  }

  /** Bytes left where they are join the text. */
  lemma Keep(b: bytes, g: Hole, src: bytes, begin: nat, s: nat, t: nat, text: bytes)
    requires State(b, g, src, begin, s, text) && s <= t <= |src|
    ensures State(b, g, src, begin, t, text + src[s..t])
  {
    SuffixAt(b, src, s, t);
    if g.end == 0 {
      assert b[begin..t] == b[begin..s] + b[s..t];
    } else {
      assert b[g.end..t] == b[g.end..s] + b[s..t];
    }
  }

  lemma PutState(b: bytes, g: Hole, src: bytes, begin: nat, s: nat, text: bytes, c: byte)
    requires State(b, g, src, begin, s, text) && s < |src|
    ensures State(b[s := c], g, src, begin, s + 1, text + [c])
  {
    SuffixAt(b, src, s, s + 1);
    assert b[s := c][s + 1..] == b[s + 1..];
    if g.end == 0 {
      assert b[s := c][begin..s + 1] == b[begin..s] + [c];
    } else {
      assert b[s := c][begin..g.end - g.size] == b[begin..g.end - g.size];
      assert b[s := c][g.end..s + 1] == b[g.end..s] + [c];
    }
  }

  /** Moving the text after the gap down to the text before it leaves the text in one piece. */
  lemma CollapseState(b: bytes, g: Hole, src: bytes, begin: nat, s: nat, text: bytes)
    requires State(b, g, src, begin, s, text) && g.end != 0
    ensures var r := Moved(b, g.end - g.size, g.end, s - g.end);
      Collapsed(r, src, begin, s, text)
  {
    var dst, n := g.end - g.size, s - g.end;
    var r := Moved(b, dst, g.end, n);
    assert r[..dst] == b[..dst] && r[dst..dst + n] == b[g.end..s] && r[dst + n..] == b[dst + n..];
    assert r[begin..dst] == r[..dst][begin..] == b[begin..dst];
    assert r[begin..begin + |text|] == r[begin..dst] + r[dst..dst + n];
    assert r[s..] == r[dst + n..][s - dst - n..] == b[s..];
    assert r[..begin] == r[..dst][..begin] == b[..begin];
  }

  /** The decoded text stands in one piece from `begin`; nothing from `s` on has been touched. */
  ghost predicate Collapsed(b: bytes, src: bytes, begin: nat, s: nat, text: bytes) {
    && |b| == |src| && begin + |text| <= s <= |src|
    && b[begin..begin + |text|] == text && b[..begin] == src[..begin] && b[s..] == src[s..]
  }

  lemma StateBounds(b: bytes, g: Hole, src: bytes, begin: nat, s: nat, text: bytes)
    requires State(b, g, src, begin, s, text)
    ensures |b| == |src| && begin <= s <= |src| && b[s..] == src[s..]
  {
  }

  lemma SameRest(b: bytes, src: bytes, s: nat)
    requires |b| == |src| && s <= |src| && b[s..] == src[s..]
    ensures forall k :: s <= k < |src| ==> b[k] == src[k]
    ensures forall k {:trigger b[k..]} :: s <= k <= |src| ==> b[k..] == src[k..]
  {
    forall k | s <= k <= |src| ensures b[k..] == src[k..] && (k < |src| ==> b[k] == src[k]) {
      SuffixAt(b, src, s, k);
    }
  }

  class Gap {
    const buf: array<byte>
    /** One past the last byte of the gap, 0 while there is none. */
    var end: nat
    var size: nat

    constructor (buf: array<byte>)
      ensures this.buf == buf && Value() == Hole(0, 0)
    {
      this.buf, end, size := buf, 0, 0;
    }

    function Value(): Hole
      reads this
    {
      Hole(end, size)
    }

    ghost predicate Holds(src: bytes, begin: nat, s: nat, text: bytes)
      reads this, buf
    {
      State(buf[..], Value(), src, begin, s, text)
    }

    /** `*s++ = c` */
    method Put(s: nat, c: byte, ghost src: bytes, ghost begin: nat, ghost text: bytes)
      requires Holds(src, begin, s, text) && s < |src|
      modifies buf
      ensures Holds(src, begin, s + 1, text + [c])
    {
      PutState(buf[..], Value(), src, begin, s, text, c);
      ghost var before := buf[..];
      buf[s] := c;
      assert buf[..] == before[s := c];
    }

    method Collapse(s: nat, ghost src: bytes, ghost begin: nat, ghost text: bytes)
      requires Holds(src, begin, s, text)
      modifies buf
      ensures Collapsed(buf[..], src, begin, s, text)
    {
      hide Moved;
      HoleBounds(buf[..], Value(), src, begin, s, text);
      if end != 0 {
        hide State, Collapsed;
        CollapseState(buf[..], Value(), src, begin, s, text);
        MoveDown(buf, end - size, end, s - end);
      }
    }

    /** `push`: collapse the previous gap and open one of `count` more bytes at `s`. */
    method Push(s: nat, count: nat, ghost src: bytes, ghost begin: nat, ghost text: bytes) returns (t: nat)
      requires Holds(src, begin, s, text) && s + count <= |src| && s + count > 0
      modifies this, buf
      ensures t == s + count && Holds(src, begin, t, text)
    {
      TextFits(buf[..], Value(), src, begin, s, text);
      Collapse(s, src, begin, text);
      t := s + count;
      SuffixAt(buf[..], src, s, t);
      end := t;
      size := size + count;
      assert buf[..][end..t] == [];
    }

    /** `flush`: the index just past the collapsed text. */
    method Flush(s: nat, ghost src: bytes, ghost begin: nat, ghost text: bytes) returns (t: nat)
      requires Holds(src, begin, s, text)
      modifies buf
      ensures t == begin + |text| && Collapsed(buf[..], src, begin, s, text)
    {
      TextFits(buf[..], Value(), src, begin, s, text);
      Collapse(s, src, begin, text);
      t := if end != 0 then s - size else s;
    }

    // ----- pieces of the decoders -----

    /** A line end: the first byte is overwritten, a line feed after a carriage return falls into the gap. */
    method PutNewline(s: nat, c: byte, ghost src: bytes, ghost begin: nat, ghost text: bytes) returns (t: nat)
      requires Holds(src, begin, s, text) && s + 1 < |src|
      modifies this, buf
      ensures var step := Newline(src, s, c);
        t == step.piece.next && Holds(src, begin, t, text + step.piece.out)
    {
      Put(s, c, src, begin, text);
      t := s + 1;
      SuffixAt(buf[..], src, t, t);
      if buf[t] == '\n' {
        t := Push(t, 1, src, begin, text + [c]);
      }
    }

    /** Write the bytes of a decoded reference at `s` and drop the rest of the reference up to `next`. */
    method Replace(s: nat, out: bytes, next: nat, ghost src: bytes, ghost begin: nat, ghost text: bytes)
      returns (t: nat)
      requires Holds(src, begin, s, text) && 0 < |out| <= next - s && next <= |src|
      modifies this, buf
      ensures t == next && Holds(src, begin, next, text + out)
    {
      hide State;
      StateBounds(buf[..], Value(), src, begin, s, text);
      assert text + out[..0] == text;
      for k := 0 to |out|
        invariant Holds(src, begin, s + k, text + out[..k])
      {
        Put(s + k, out[k], src, begin, text + out[..k]);
        assert text + out[..k] + [out[k]] == text + out[..k + 1];
      }
      assert out[..|out|] == out;
      t := Push(s + |out|, next - s - |out|, src, begin, text + out);
    }

    /** The digit loops of a numeric reference. */
    method ScanDigits(s: nat, base: int, ghost src: bytes) returns (ok: bool, stre: nat, ucsc: nat)
      requires Terminated(src) && buf.Length == |src| && s < |src| && buf[..][s..] == src[s..]
      requires base == 10 || base == 16
      ensures (ok, stre, ucsc) == Digits(src, s, base, 0)
    {
      stre, ucsc := s, 0;
      while true
        invariant s <= stre < |src| && ucsc < 0x1_0000_0000
        invariant Digits(src, stre, base, ucsc) == Digits(src, s, base, 0)
        decreases |src| - stre
      {
        var ch := buf[stre];
        SuffixAt(buf[..], src, s, stre);
        var d := DigitIn(ch, base);
        if d >= 0 {
          ucsc := (ucsc * (if base == 16 then 16 else 10) + d) % 0x1_0000_0000;
        } else {
          ok := ch == ';';
          return;
        }
        stre := stre + 1;
      }
    }

    /** The chained comparisons of a named reference. */
    method Compare(s: nat, rest: bytes, ghost src: bytes) returns (ok: bool, stre: nat)
      requires Terminated(src) && buf.Length == |src| && s < |src| && buf[..][s..] == src[s..] && '\0' !in rest
      ensures (ok, stre) == Walk(src, s, rest)
    {
      stre := s;
      for k := 0 to |rest|
        invariant stre == s + k < |src| && Walk(src, stre, rest[k..]) == Walk(src, s, rest)
      {
        assert rest[k..][0] == rest[k] && rest[k..][1..] == rest[k + 1..];
        SuffixAt(buf[..], src, s, stre);
        assert rest[k] in rest;
        if buf[stre] != rest[k] {
          return false, stre;
        }
        stre := stre + 1;
      }
      ok := true;
    }

    /** A named reference compared from `from` on: replaced by `c`, or left as it is up to the mismatch. */
    method NamedReference(s: nat, from: nat, rest: bytes, c: byte, ghost src: bytes, ghost begin: nat,
                          ghost text: bytes) returns (t: nat)
      requires Holds(src, begin, s, text) && Terminated(src) && s < from < |src| && '\0' !in rest
      modifies this, buf
      ensures var piece := Named(src, s, Walk(src, from, rest), c);
        t == piece.next && Holds(src, begin, t, text + piece.out)
    {
      SuffixAt(buf[..], src, s, from);
      var ok, stre := Compare(from, rest, src);
      if ok {
        t := Replace(s, [c], stre, src, begin, text);
      } else {
        Keep(buf[..], Value(), src, begin, s, stre, text);
        t := stre;
      }
    }

    /** `strconv_escape`: a good reference is replaced in place, anything else is left as it is. */
    method StrconvEscape(s: nat, ghost src: bytes, ghost begin: nat, ghost text: bytes) returns (t: nat)
      requires Holds(src, begin, s, text) && Terminated(src) && s < |src| && src[s] == '&'
      modifies this, buf
      ensures t == Reference(src, s).next && Holds(src, begin, t, text + Reference(src, s).out)
    {
      hide State, Walk, Named, Numeric;
      StateBounds(buf[..], Value(), src, begin, s, text);
      SameRest(buf[..], src, s);
      var c := buf[s + 1];
      if c == '#' {
        t := NumericReference(s, src, begin, text);
      } else if c == 'a' && buf[s + 2] == 'm' {
        t := NamedReference(s, s + 3, "p;", '&', src, begin, text);
      } else if c == 'a' && buf[s + 2] == 'p' {
        t := NamedReference(s, s + 3, "os;", '\'', src, begin, text);
      } else if c == 'g' {
        t := NamedReference(s, s + 2, "t;", '>', src, begin, text);
      } else if c == 'l' {
        t := NamedReference(s, s + 2, "t;", '<', src, begin, text);
      } else if c == 'q' {
        t := NamedReference(s, s + 2, "uot;", '\"', src, begin, text);
      } else {
        t := if c == 'a' then s + 2 else s + 1;
        Keep(buf[..], Value(), src, begin, s, t, text);
      }
    }

    method NumericReference(s: nat, ghost src: bytes, ghost begin: nat, ghost text: bytes) returns (t: nat)
      requires Holds(src, begin, s, text) && Terminated(src) && s + 1 < |src| && src[s] == '&' && src[s + 1] == '#'
      modifies this, buf
      ensures t == Reference(src, s).next && Holds(src, begin, t, text + Reference(src, s).out)
    {
      SameRest(buf[..], src, s);
      var hex := buf[s + 2] == 'x';
      var first := if hex then s + 3 else s + 2;
      if buf[first] == ';' {
        Keep(buf[..], Value(), src, begin, s, first, text);
        return first;
      }
      var ok, stre, ucsc := ScanDigits(first, if hex then 16 else 10, src);
      if ok {
        t := Replace(s, Utf8Any(ucsc), stre + 1, src, begin, text);
      } else {
        Keep(buf[..], Value(), src, begin, s, stre, text);
        t := stre;
      }
    }
  }
}
