/** `text_output_escaped` and its inverse: the decoders of `XmlText` give back what was escaped. */
module XmlEscape {
  import opened Bytes
  import opened Utf8
  import opened XmlChars
  import opened XmlText
  import opened XmlTranscode
  import opened XmlWriter

  /** `format_attribute_single_quote` and `format_skip_control_chars` */
  datatype Flags = Flags(singleQuote: bool, skipControl: bool)

  /** The reference for a control character. */
  function ControlReference(c: byte): bytes
    requires Code(c) < 32
  {
    "&#" + [Chr('0' as int + Code(c) / 10), Chr('0' as int + Code(c) % 10)] + ";"
  }

  /** What is written for one byte that is not NUL. */
  function EscapedByte(c: byte, t: CharTypeX, flags: Flags): bytes
    requires c != '\0'
  {
    if !InClassX(c, t) then [c] else
    match c
    case '&' => "&amp;"
    case '<' => "&lt;"
    case '>' => "&gt;"
    case '\"' => if flags.singleQuote then "\"" else "&quot;"
    case '\'' => if flags.singleQuote then "&apos;" else "'"
    case _ => if flags.skipControl then [] else ControlReference(c)
  }

  function Escaped(s: bytes, t: CharTypeX, flags: Flags): bytes
    requires '\0' !in s
  {
    if s == [] then [] else EscapedByte(s[0], t, flags) + Escaped(s[1..], t, flags)
  }

  // ----- the output loop -----

  /** `PUGI__SCANWHILE_UNROLL` over the character classes of the printer; `s` stands for a string with its NUL. */
  method ScanUsual(s: bytes, start: nat, t: CharTypeX) returns (i: nat)
    requires Terminated(s) && start < |s|
    ensures start <= i < |s| && InClassX(s[i], t)
    ensures forall k :: start <= k < i ==> !InClassX(s[k], t)
  {
    hide IsChartypeX;
    i := start;
    while true
      invariant start <= i < |s|
      invariant forall k :: start <= k < i ==> !InClassX(s[k], t)
      decreases |s| - i
    {
      ClassXIsExact(s[i], t);
      if IsChartypeX(s[i], t) { break; }
      ClassXIsExact(s[i + 1], t);
      if IsChartypeX(s[i + 1], t) { i := i + 1; break; }
      ClassXIsExact(s[i + 2], t);
      if IsChartypeX(s[i + 2], t) { i := i + 2; break; }
      ClassXIsExact(s[i + 3], t);
      if IsChartypeX(s[i + 3], t) { i := i + 3; break; }
      i := i + 4;
    }
  }

  lemma Regroup(a: bytes, b: bytes, c: bytes)
    ensures a + b + c == a + (b + c)
  {
  }

  lemma ConsSlices(s: bytes, n: nat)
    requires 0 < n <= |s|
    ensures s[1..][n - 1..] == s[n..] && s[..n] == [s[0]] + s[1..][..n - 1]
  {
  }

  lemma EscapedStep(s: bytes, t: CharTypeX, flags: Flags)
    requires '\0' !in s && s != []
    ensures Escaped(s, t, flags) == EscapedByte(s[0], t, flags) + Escaped(s[1..], t, flags)
  {
  }

  lemma UsualByte(c: byte, t: CharTypeX, flags: Flags)
    requires c != '\0' && !InClassX(c, t)
    ensures EscapedByte(c, t, flags) == [c]
  {
  }

  lemma {:induction false} UsualStretch(s: bytes, n: nat, t: CharTypeX, flags: Flags)
    requires '\0' !in s && n <= |s| && forall k :: 0 <= k < n ==> !InClassX(s[k], t)
    ensures Escaped(s, t, flags) == s[..n] + Escaped(s[n..], t, flags)
    decreases n
  {
    if n == 0 {
      assert s[0..] == s;
    } else {
      UsualByte(s[0], t, flags);
      EscapedStep(s, t, flags);
      hide EscapedByte, InClassX, Escaped;
      UsualStretch(s[1..], n - 1, t, flags);
      ConsSlices(s, n);
      Regroup([s[0]], s[1..][..n - 1], Escaped(s[n..], t, flags));
    }
  }

  /** A usual stretch and the special byte after it are whole code points of a well-formed text. */
  lemma CutAtSpecial(e: Encoding, s: bytes, n: nat, t: CharTypeX)
    requires Accepts(e, s) && n < |s| && InClassX(s[n], t)
    ensures Accepts(e, s[..n]) && Accepts(e, s[n + 1..])
  {
    hide WellFormed;
    if !e.Native? {
      CutWellFormed(s, n);
      var cp := SplitWellFormed(s[n..]);
      assert s[n..][0] == s[n] == Encode(cp)[0];
      assert s[n..][1..] == s[n + 1..];
    }
  }

  method WriteSpecial(w: Writer, c: byte, t: CharTypeX, flags: Flags)
    requires w.Valid() && InClassX(c, t) && c != '\0'
    modifies w, w.buffer
    ensures w.Valid() && w.written == old(w.written) + EscapedByte(c, t, flags)
  {
    hide WellFormed, Splits;
    EscapedIsAscii(c, t, flags);
    match c
    case '&' => w.Write("&amp;");
    case '<' => w.Write("&lt;");
    case '>' => w.Write("&gt;");
    case '\"' => if flags.singleQuote { w.Write("\""); } else { w.Write("&quot;"); }
    case '\'' => if flags.singleQuote { w.Write("&apos;"); } else { w.Write("'"); }
    case _ => if !flags.skipControl { w.Write(ControlReference(c)); }
  }

  lemma EscapedIsAscii(c: byte, t: CharTypeX, flags: Flags)
    requires InClassX(c, t) && c != '\0'
    ensures |EscapedByte(c, t, flags)| <= 6 && WellFormed(EscapedByte(c, t, flags))
  {
    AsciiWellFormed(EscapedByte(c, t, flags));
  }

  /** One turn of the loop: the usual bytes from `i` on and the special one after them, if there is one. */
  method WriteTurn(w: Writer, c: bytes, i: nat, t: CharTypeX, flags: Flags, ghost s: bytes) returns (next: nat)
    requires w.Valid() && i < |c| && c[i..] == s + ['\0' as byte] && '\0' !in s && s != [] && Accepts(w.encoding, s)
    modifies w, w.buffer
    ensures w.Valid() && i < next && next - i <= |s| && Accepts(w.encoding, s[next - i..])
    ensures w.written + Escaped(s[next - i..], t, flags) == old(w.written) + Escaped(s, t, flags)
  {
    hide WellFormed, Splits, Accepts, EscapedByte, InClassX;
    ghost var now := w.written;
    assert forall k :: i <= k < |c| ==> c[k] == c[i..][k - i];
    var j := ScanUsual(c, i, t);
    ghost var n := j - i;
    assert c[i..j] == s[..n];
    assert forall k :: 0 <= k < n ==> s[k] == c[i + k];
    UsualStretch(s, n, t, flags);
    if c[j] == '\0' {
      EndsHere(c, i, j, s);
      assert s[..n] == s && s[n..] == [];
      w.WriteBuffer(c[i..j]);
      AcceptsNothing(w.encoding);
      next := j;
    } else {
      CutAtSpecial(w.encoding, s, n, t);
      w.WriteBuffer(c[i..j]);
      WriteSpecial(w, c[j], t, flags);
      next := j + 1;
      assert s[n..][1..] == s[n + 1..];
      ghost var special, rest := EscapedByte(s[n], t, flags), Escaped(s[n + 1..], t, flags);
      Regroup(now, s[..n], special);
      Regroup(now, s[..n] + special, rest);
      Regroup(s[..n], special, rest);
    }
  }

  lemma EndsHere(c: bytes, i: nat, j: nat, s: bytes)
    requires i <= j < |c| && c[i..] == s + ['\0' as byte] && '\0' !in s && c[j] == '\0'
    ensures j - i == |s|
  {
    assert c[i..][j - i] == '\0';
  }

  /** `text_output_escaped` */
  method TextOutputEscaped(w: Writer, s: bytes, t: CharTypeX, flags: Flags)
    requires w.Valid() && '\0' !in s && Accepts(w.encoding, s)
    modifies w, w.buffer
    ensures w.Valid() && w.written == old(w.written) + Escaped(s, t, flags)
  {
    hide WellFormed, Splits, Accepts, EscapedByte, InClassX;
    var c := s + ['\0' as byte];
    var i := 0;
    ghost var before := w.written;
    assert s[0..] == s;
    while c[i] != '\0'
      invariant i <= |s| && w.Valid() && Accepts(w.encoding, s[i..])
      invariant w.written + Escaped(s[i..], t, flags) == before + Escaped(s, t, flags)
      decreases |s| - i
    {
      assert c[i..] == s[i..] + ['\0' as byte];
      var next := WriteTurn(w, c, i, t, flags, s[i..]);
      assert s[i..][next - i..] == s[next..];
      i := next;
    }
    assert s[|s|..] == [];
  }

}
