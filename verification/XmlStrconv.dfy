/** The `strconv_*` functions of pugixml: each compacts its text in the buffer and leaves exactly what the left-to-right
    decoder of `XmlText` yields. A null result is -1. */
module XmlStrconv {
  import opened Bytes
  import opened XmlChars
  import opened XmlText
  import opened XmlGap

  const NUL: byte := '\0'

  /** The buffer after a call that started at `begin`: the text in place with its terminator, everything before it and
      everything from the returned index on untouched. */
  ghost predicate Delivered(before: bytes, after: bytes, begin: nat, d: Decoded, trim: bool, r: int) {
    match d
    case Rejected => r == -1
    case Text(out, next) =>
      var t := if trim then TrimEnd(out) else out;
      && r == next && |after| == |before| && begin + |t| < |before| && begin + |t| <= next <= |before|
      && after[begin..begin + |t|] == t && after[begin + |t|] == '\0'
      && after[..begin] == before[..begin] && after[next..] == before[next..]
  }

  /** A decoder whose text starts at `begin` and whose decoding starts at `first`, after any leading white space: it has
      read up to `s`, has `text` in the buffer and the rest still to come. */
  ghost predicate Running(g: Gap, kind: Kind, endch: byte, src: bytes, begin: nat, first: nat, s: nat, text: bytes)
    reads g, g.buf
    requires kind.Attribute() ==> endch == '\"' || endch == '\''
  {
    && Terminated(src) && first < |src| && s < |src|
    && g.Holds(src, begin, s, text)
    && Prepend(text, Decode(kind, src, s, endch)) == Decode(kind, src, first, endch)
  }

  lemma Begins(g: Gap, kind: Kind, endch: byte, src: bytes, begin: nat)
    requires Terminated(src) && begin < |src| && g.buf[..] == src && g.Value() == Hole(0, 0)
    requires kind.Attribute() ==> endch == '\"' || endch == '\''
    ensures Running(g, kind, endch, src, begin, begin, begin, [])
  {
    PrependNothing(Decode(kind, src, begin, endch));
    assert src[begin..begin] == [];
  }

  /** One emitted piece moves the decoder on. */
  lemma Advances(kind: Kind, endch: byte, src: bytes, first: nat, s: nat, text: bytes)
    requires kind.Attribute() ==> endch == '\"' || endch == '\''
    requires Terminated(src) && first < |src| && s < |src| && StepAt(kind, src, s, endch).Emit?
    requires Prepend(text, Decode(kind, src, s, endch)) == Decode(kind, src, first, endch)
    ensures var piece := StepAt(kind, src, s, endch).piece;
      Prepend(text + piece.out, Decode(kind, src, piece.next, endch)) == Decode(kind, src, first, endch)
  {
    hide StepAt;
    var piece := StepAt(kind, src, s, endch).piece;
    PrependTwice(text, piece.out, Decode(kind, src, piece.next, endch));
  }

  /** A terminator ends the text as it stands; a missing one leaves nothing to deliver. */
  lemma Ends(g: Gap, kind: Kind, endch: byte, src: bytes, begin: nat, first: nat, s: nat, text: bytes)
    requires kind.Attribute() ==> endch == '\"' || endch == '\''
    requires Running(g, kind, endch, src, begin, first, s, text)
    ensures match StepAt(kind, src, s, endch)
      case Stop(next) => Decode(kind, src, first, endch) == Text(text, next)
      case Reject => Decode(kind, src, first, endch) == Rejected
      case Emit(_) => true
  {
    hide StepAt, State;
    assert text + [] == text;
  }

  /** `PUGI__SCANWHILE_UNROLL` at the head of every decoder loop. */
  method Scan(g: Gap, kind: Kind, endch: byte, s: nat, ghost src: bytes, ghost begin: nat, ghost first: nat,
              ghost text: bytes)
    returns (t: nat, ghost text': bytes)
    requires kind.Attribute() ==> endch == '\"' || endch == '\''
    requires Running(g, kind, endch, src, begin, first, s, text)
    ensures s <= t && Running(g, kind, endch, src, begin, first, t, text')
    ensures Stops(src[t], StopClass(kind), kind.AttributeWnorm?)
  {
    hide State, Decode, InClass;
    var b := g.buf;
    StateBounds(b[..], g.Value(), src, begin, s, text);
    SameRest(b[..], src, s);
    NulStops(kind);
    t := ScanWhileUnroll(b, s, StopClass(kind), kind.AttributeWnorm?);
    text' := text + src[s..t];
    forall k | s <= k < t ensures !Stops(src[k], StopClass(kind), kind.AttributeWnorm?) {
      assert b[..][k] == b[k];
    }
    OrdinaryStretch(kind, src, s, t, endch);
    PrependTwice(text, src[s..t], Decode(kind, src, t, endch));
    Keep(b[..], g.Value(), src, begin, s, t, text);
    assert b[t] == b[..][t] == src[t];
  }

  /** `else ++s` */
  lemma Ordinary(g: Gap, kind: Kind, endch: byte, src: bytes, begin: nat, first: nat, s: nat, text: bytes)
    requires kind.Attribute() ==> endch == '\"' || endch == '\''
    requires Running(g, kind, endch, src, begin, first, s, text)
    requires StepAt(kind, src, s, endch) == Emit(Piece([src[s]], s + 1))
    ensures Running(g, kind, endch, src, begin, first, s + 1, text + [src[s]])
  {
    hide State, Decode, StepAt;
    Advances(kind, endch, src, first, s, text);
    Keep(g.buf[..], g.Value(), src, begin, s, s + 1, text);
    assert src[s..s + 1] == [src[s]];
  }

  /** `s = strconv_escape(s, g)` */
  method Escape(g: Gap, kind: Kind, endch: byte, s: nat, ghost src: bytes, ghost begin: nat, ghost first: nat,
                ghost text: bytes)
    returns (t: nat, ghost text': bytes)
    requires kind.Attribute() ==> endch == '\"' || endch == '\''
    requires Running(g, kind, endch, src, begin, first, s, text)
    requires src[s] == '&' && StepAt(kind, src, s, endch) == Emit(Reference(src, s))
    modifies g, g.buf
    ensures s < t && Running(g, kind, endch, src, begin, first, t, text')
  {
    hide State, Decode, StepAt, Reference;
    Advances(kind, endch, src, first, s, text);
    text' := text + Reference(src, s).out;
    t := g.StrconvEscape(s, src, begin, text);
  }

  /** A single 0x0d or a 0x0d 0x0a pair. */
  method LineEnd(g: Gap, kind: Kind, endch: byte, s: nat, c: byte, ghost src: bytes, ghost begin: nat, ghost first: nat,
                 ghost text: bytes)
    returns (t: nat, ghost text': bytes)
    requires kind.Attribute() ==> endch == '\"' || endch == '\''
    requires Running(g, kind, endch, src, begin, first, s, text) && s + 1 < |src|
    requires StepAt(kind, src, s, endch) == Newline(src, s, c)
    modifies g, g.buf
    ensures s < t && Running(g, kind, endch, src, begin, first, t, text')
  {
    hide State, Decode, StepAt;
    Advances(kind, endch, src, first, s, text);
    text' := text + Newline(src, s, c).piece.out;
    t := g.PutNewline(s, c, src, begin, text);
  }

  lemma NulStops(kind: Kind)
    ensures InClass('\0', StopClass(kind))
  {
  }

  /** `*g.flush(s) = 0` */
  method Finish(g: Gap, s: nat, ghost src: bytes, ghost begin: nat, ghost text: bytes, ghost next: nat)
    returns (end: nat)
    requires g.Holds(src, begin, s, text) && s < |src| && s <= next <= |src| && (s == next ==> src[s] == '\0')
    modifies g.buf
    ensures end == begin + |text| <= s && Delivered(src, g.buf[..], begin, Text(text, next), false, next)
  {
    end := g.Flush(s, src, begin, text);
    ghost var before := g.buf[..];
    g.buf[end] := '\0';
    Zeroed(before, src, begin, s, text, next);
    assert g.buf[..] == before[end := NUL];
  }

  lemma Zeroed(b: bytes, src: bytes, begin: nat, s: nat, text: bytes, next: nat)
    requires Collapsed(b, src, begin, s, text) && s < |src| && s <= next <= |src| && (s == next ==> src[s] == '\0')
    ensures Delivered(src, b[begin + |text| := NUL], begin, Text(text, next), false, next)
  {
    var e := begin + |text|;
    var r := b[e := NUL];
    SuffixAt(b, src, s, s);
    SuffixAt(b, src, s, next);
    if s == next && e == s {
      assert r == b;
    }
    assert r[next..] == b[next..];
    assert r[begin..e] == b[begin..e] && r[..begin] == b[..begin];
  }

  /** The rest of the buffer at the read position, for look-ahead. */
  lemma LookAhead(g: Gap, src: bytes, begin: nat, s: nat, text: bytes)
    requires g.Holds(src, begin, s, text)
    ensures g.buf.Length == |src| && begin <= s <= |src|
    ensures forall k :: s <= k < |src| ==> g.buf[k] == src[k]
  {
    StateBounds(g.buf[..], g.Value(), src, begin, s, text);
    SameRest(g.buf[..], src, s);
    assert forall k :: s <= k < |src| ==> g.buf[k] == g.buf[..][k];
  }

  method StrconvComment(buf: array<byte>, begin: nat, endch: byte) returns (r: int)
    requires Terminated(buf[..]) && begin < buf.Length
    modifies buf
    ensures Delivered(old(buf[..]), buf[..], begin, Decode(Comment, old(buf[..]), begin, endch), false, r)
  {
    hide State, Decode, Delivered, Stops, StopClass, Reference;
    var g := new Gap(buf);
    var s := begin;
    ghost var src: bytes, text: bytes := buf[..], [];
    Begins(g, Comment, endch, src, begin);
    while true
      invariant Running(g, Comment, endch, src, begin, begin, s, text)
      decreases |src| - s
    {
      s, text := Scan(g, Comment, endch, s, src, begin, begin, text);
      LookAhead(g, src, begin, s, text);
      Ends(g, Comment, endch, src, begin, begin, s, text);
      if buf[s] == '\r' {
        s, text := LineEnd(g, Comment, endch, s, '\n', src, begin, begin, text);
      } else if buf[s] == '-' && buf[s + 1] == '-' && EndsWith(buf[s + 2], endch) {
        var next := if buf[s + 2] == '>' then s + 3 else s + 2;
        var _ := Finish(g, s, src, begin, text, next);
        return next;
      } else if buf[s] == '\0' {
        DeliverNothing(src, buf[..], begin, Comment, endch);
        return -1;
      } else {
        Ordinary(g, Comment, endch, src, begin, begin, s, text);
        text := text + [src[s]];
        s := s + 1;
      }
    }
  }

  lemma DeliverNothing(before: bytes, after: bytes, begin: nat, kind: Kind, endch: byte)
    requires Terminated(before) && begin < |before|
    requires kind.Attribute() ==> endch == '\"' || endch == '\''
    requires Decode(kind, before, begin, endch) == Rejected
    ensures Delivered(before, after, begin, Decode(kind, before, begin, endch), false, -1)
    ensures Delivered(before, after, begin, Decode(kind, before, begin, endch), true, -1)
  {
  }

  method StrconvCdata(buf: array<byte>, begin: nat, endch: byte) returns (r: int)
    requires Terminated(buf[..]) && begin < buf.Length
    modifies buf
    ensures Delivered(old(buf[..]), buf[..], begin, Decode(Cdata, old(buf[..]), begin, endch), false, r)
  {
    hide State, Decode, Delivered, Stops, StopClass, Reference;
    var g := new Gap(buf);
    var s := begin;
    ghost var src: bytes, text: bytes := buf[..], [];
    Begins(g, Cdata, endch, src, begin);
    while true
      invariant Running(g, Cdata, endch, src, begin, begin, s, text)
      decreases |src| - s
    {
      s, text := Scan(g, Cdata, endch, s, src, begin, begin, text);
      LookAhead(g, src, begin, s, text);
      Ends(g, Cdata, endch, src, begin, begin, s, text);
      if buf[s] == '\r' {
        s, text := LineEnd(g, Cdata, endch, s, '\n', src, begin, begin, text);
      } else if buf[s] == ']' && buf[s + 1] == ']' && EndsWith(buf[s + 2], endch) {
        var _ := Finish(g, s, src, begin, text, s + 1);
        return s + 1;
      } else if buf[s] == '\0' {
        DeliverNothing(src, buf[..], begin, Cdata, endch);
        return -1;
      } else {
        Ordinary(g, Cdata, endch, src, begin, begin, s, text);
        text := text + [src[s]];
        s := s + 1;
      }
    }
  }

  // ----- character data -----

  lemma CollapsedPrefix(b: bytes, src: bytes, begin: nat, s: nat, text: bytes, n: nat)
    requires Collapsed(b, src, begin, s, text) && n <= |text|
    ensures Collapsed(b, src, begin, s, text[..n])
    ensures forall k :: begin <= k < begin + |text| ==> b[k] == text[k - begin]
  {
    assert b[begin..begin + n] == b[begin..begin + |text|][..n];
    forall k | begin <= k < begin + |text| ensures b[k] == text[k - begin] {
      assert b[begin..begin + |text|][k - begin] == b[k];
    }
  }

  lemma TrimStep(t: bytes, n: nat)
    requires n < |t| && IsSpace(t[n])
    ensures TrimEnd(t[..n + 1]) == TrimEnd(t[..n])
  {
    assert t[..n + 1][..n] == t[..n];
  }

  /** The trimming loop over the collapsed text in `buf[begin..last]`. */
  method TrimBack(buf: array<byte>, begin: nat, last: nat, ghost text: bytes) returns (end: nat)
    requires begin + |text| == last <= buf.Length
    requires forall k :: begin <= k < last ==> buf[k] == text[k - begin]
    ensures begin <= end <= last && TrimEnd(text) == text[..end - begin]
  {
    hide IsChartype;
    end := last;
    assert text[..|text|] == text;
    while end > begin && IsChartype(buf[end - 1], Space)
      invariant begin <= end <= last
      invariant TrimEnd(text[..end - begin]) == TrimEnd(text)
    {
      hide TrimEnd;
      ClassIsExact(buf[end - 1], Space);
      TrimStep(text, end - 1 - begin);
      end := end - 1;
    }
    if end > begin {
      ClassIsExact(buf[end - 1], Space);
    }
  }

  lemma CollapsedBounds(b: bytes, src: bytes, begin: nat, s: nat, text: bytes)
    requires Collapsed(b, src, begin, s, text)
    ensures |b| == |src| && begin + |text| <= s <= |src| && text[..|text|] == text
  {}

  /** The end of a PCDATA run: flush, step back over white space if asked to, and terminate. */
  method FinishPcdata(g: Gap, begin: nat, s: nat, trim: bool, ghost src: bytes, ghost text: bytes, ghost next: nat)
    requires g.Holds(src, begin, s, text) && s < |src| && s <= next <= |src| && (s == next ==> src[s] == '\0')
    modifies g.buf
    ensures Delivered(src, g.buf[..], begin, Text(text, next), trim, next)
  {
    hide State, TrimEnd, Collapsed;
    var end := g.Flush(s, src, begin, text);
    ghost var before := g.buf[..];
    CollapsedBounds(before, src, begin, s, text);
    CollapsedPrefix(before, src, begin, s, text, |text|);
    if trim {
      end := TrimBack(g.buf, begin, end, text);
    }
    ghost var t := text[..end - begin];
    CollapsedPrefix(before, src, begin, s, text, end - begin);
    g.buf[end] := '\0';
    assert g.buf[..] == before[end := NUL];
    Zeroed(before, src, begin, s, t, next);
  }

  /** `strconv_pcdata_impl<trim, eol, escape>::parse` */
  method StrconvPcdata(buf: array<byte>, begin: nat, trim: bool, eol: bool, escape: bool) returns (r: int)
    requires Terminated(buf[..]) && begin < buf.Length
    modifies buf
    ensures r != -1
    ensures Delivered(old(buf[..]), buf[..], begin, Decode(Pcdata(eol, escape), old(buf[..]), begin, NUL), trim, r)
  {
    hide State, Decode, Delivered, Stops, StopClass, Reference;
    var g := new Gap(buf);
    var s := begin;
    var kind := Pcdata(eol, escape);
    ghost var src: bytes, text: bytes := buf[..], [];
    Begins(g, kind, NUL, src, begin);
    while true
      invariant Running(g, kind, NUL, src, begin, begin, s, text)
      decreases |src| - s
    {
      s, text := Scan(g, kind, NUL, s, src, begin, begin, text);
      LookAhead(g, src, begin, s, text);
      Ends(g, kind, NUL, src, begin, begin, s, text);
      if buf[s] == '<' {
        FinishPcdata(g, begin, s, trim, src, text, s + 1);
        return s + 1;
      } else if eol && buf[s] == '\r' {
        s, text := LineEnd(g, kind, NUL, s, '\n', src, begin, begin, text);
      } else if escape && buf[s] == '&' {
        s, text := Escape(g, kind, NUL, s, src, begin, begin, text);
      } else if buf[s] == '\0' {
        FinishPcdata(g, begin, s, trim, src, text, s);
        return s;
      } else {
        Ordinary(g, kind, NUL, src, begin, begin, s, text);
        text := text + [src[s]];
        s := s + 1;
      }
    }
  }

  // ----- attribute values -----

  /** `strconv_attribute_impl<escape>::parse_simple` */
  method ParseSimple(buf: array<byte>, begin: nat, endQuote: byte, escape: bool) returns (r: int)
    requires Terminated(buf[..]) && begin < buf.Length && (endQuote == '\"' || endQuote == '\'')
    modifies buf
    ensures Delivered(old(buf[..]), buf[..], begin, Decode(AttributeSimple(escape), old(buf[..]), begin, endQuote),
                      false, r)
  {
    hide State, Decode, Delivered, Stops, StopClass, Reference;
    var g := new Gap(buf);
    var s := begin;
    var kind := AttributeSimple(escape);
    ghost var src: bytes, text: bytes := buf[..], [];
    Begins(g, kind, endQuote, src, begin);
    while true
      invariant Running(g, kind, endQuote, src, begin, begin, s, text)
      decreases |src| - s
    {
      s, text := Scan(g, kind, endQuote, s, src, begin, begin, text);
      LookAhead(g, src, begin, s, text);
      Ends(g, kind, endQuote, src, begin, begin, s, text);
      if buf[s] == endQuote {
        var _ := Finish(g, s, src, begin, text, s + 1);
        return s + 1;
      } else if escape && buf[s] == '&' {
        s, text := Escape(g, kind, endQuote, s, src, begin, begin, text);
      } else if buf[s] == '\0' {
        DeliverNothing(src, buf[..], begin, kind, endQuote);
        return -1;
      } else {
        Ordinary(g, kind, endQuote, src, begin, begin, s, text);
        text := text + [src[s]];
        s := s + 1;
      }
    }
  }

  /** `strconv_attribute_impl<escape>::parse_eol` */
  method ParseEol(buf: array<byte>, begin: nat, endQuote: byte, escape: bool) returns (r: int)
    requires Terminated(buf[..]) && begin < buf.Length && (endQuote == '\"' || endQuote == '\'')
    modifies buf
    ensures Delivered(old(buf[..]), buf[..], begin, Decode(AttributeEol(escape), old(buf[..]), begin, endQuote), false,
                      r)
  {
    hide State, Decode, Delivered, Stops, StopClass, Reference;
    var g := new Gap(buf);
    var s := begin;
    var kind := AttributeEol(escape);
    ghost var src: bytes, text: bytes := buf[..], [];
    Begins(g, kind, endQuote, src, begin);
    while true
      invariant Running(g, kind, endQuote, src, begin, begin, s, text)
      decreases |src| - s
    {
      s, text := Scan(g, kind, endQuote, s, src, begin, begin, text);
      LookAhead(g, src, begin, s, text);
      Ends(g, kind, endQuote, src, begin, begin, s, text);
      if buf[s] == endQuote {
        var _ := Finish(g, s, src, begin, text, s + 1);
        return s + 1;
      } else if buf[s] == '\r' {
        s, text := LineEnd(g, kind, endQuote, s, '\n', src, begin, begin, text);
      } else if escape && buf[s] == '&' {
        s, text := Escape(g, kind, endQuote, s, src, begin, begin, text);
      } else if buf[s] == '\0' {
        DeliverNothing(src, buf[..], begin, kind, endQuote);
        return -1;
      } else {
        Ordinary(g, kind, endQuote, src, begin, begin, s, text);
        text := text + [src[s]];
        s := s + 1;
      }
    }
  }

  lemma SpaceIsExact(c: byte)
    ensures IsChartype(c, Space) <==> IsSpace(c)
  {
    ClassIsExact(c, Space);
  }

  /** `strconv_attribute_impl<escape>::parse_wconv` */
  method ParseWconv(buf: array<byte>, begin: nat, endQuote: byte, escape: bool) returns (r: int)
    requires Terminated(buf[..]) && begin < buf.Length && (endQuote == '\"' || endQuote == '\'')
    modifies buf
    ensures Delivered(old(buf[..]), buf[..], begin, Decode(AttributeWconv(escape), old(buf[..]), begin, endQuote),
                      false, r)
  {
    hide State, Decode, Delivered, IsChartype, InClass, Stops, StopClass, Reference;
    var g := new Gap(buf);
    var s := begin;
    var kind := AttributeWconv(escape);
    ghost var src: bytes, text: bytes := buf[..], [];
    Begins(g, kind, endQuote, src, begin);
    while true
      invariant Running(g, kind, endQuote, src, begin, begin, s, text)
      decreases |src| - s
    {
      s, text := Scan(g, kind, endQuote, s, src, begin, begin, text);
      LookAhead(g, src, begin, s, text);
      Ends(g, kind, endQuote, src, begin, begin, s, text);
      SpaceIsExact(buf[s]);
      if buf[s] == endQuote {
        var _ := Finish(g, s, src, begin, text, s + 1);
        return s + 1;
      } else if IsChartype(buf[s], Space) {
        if buf[s] == '\r' {
          s, text := LineEnd(g, kind, endQuote, s, ' ', src, begin, begin, text);
        } else {
          Advances(kind, endQuote, src, begin, s, text);
          g.Put(s, ' ', src, begin, text);
          s, text := s + 1, text + " ";
        }
      } else if escape && buf[s] == '&' {
        s, text := Escape(g, kind, endQuote, s, src, begin, begin, text);
      } else if buf[s] == '\0' {
        DeliverNothing(src, buf[..], begin, kind, endQuote);
        return -1;
      } else {
        Ordinary(g, kind, endQuote, src, begin, begin, s, text);
        text := text + [src[s]];
        s := s + 1;
      }
    }
  }

  // ----- white space normalization -----

  /** The first index from `s` on that holds no white space. */
  method PastSpaces(buf: array<byte>, s: nat, ghost src: bytes) returns (str: nat)
    requires Terminated(src) && buf.Length == |src| && s < |src|
    requires forall k :: s <= k < |src| ==> buf[k] == src[k]
    ensures str == SkipSpace(src, s)
  {
    hide IsChartype;
    str := s;
    ClassIsExact(buf[str], Space);
    while IsChartype(buf[str], Space)
      invariant s <= str < |src| && SkipSpace(src, str) == SkipSpace(src, s)
      invariant IsChartype(buf[str], Space) <==> IsSpace(src[str])
      decreases |src| - str
    {
      str := str + 1;
      ClassIsExact(buf[str], Space);
    }
  }

  /** The end of a normalized value: zeros go backwards over the trailing white space. The byte before `begin` is the
      opening quote, which stops them. */
  method FinishNormalized(g: Gap, s: nat, ghost src: bytes, ghost begin: nat, ghost text: bytes)
    requires g.Holds(src, begin, s, text) && s < |src| && 0 < begin && !IsSpace(src[begin - 1])
    modifies g.buf
    ensures Delivered(src, g.buf[..], begin, Text(text, s + 1), true, s + 1)
  {
    hide State, IsChartype, Collapsed, TrimEnd;
    var end := g.Flush(s, src, begin, text);
    ghost var before := g.buf[..];
    CollapsedFrame(before, src, begin, s, text);
    var str := end;
    g.buf[str] := '\0';
    ClassIsExact(g.buf[str - 1], Space);
    while IsChartype(g.buf[str - 1], Space)
      invariant begin <= str <= end && g.buf[str] == '\0'
      invariant forall k :: 0 <= k < str || end < k < |src| ==> g.buf[k] == before[k]
      invariant TrimEnd(text[..str - begin]) == TrimEnd(text)
      invariant IsChartype(g.buf[str - 1], Space) <==> IsSpace(before[str - 1])
      decreases str
    {
      CollapsedByte(before, src, begin, s, text, str - 1 - begin);
      TrimStep(text, str - 1 - begin);
      str := str - 1;
      g.buf[str] := '\0';
      ClassIsExact(g.buf[str - 1], Space);
    }
    NormalizedEnd(before, g.buf[..], src, begin, s, text, str);
  }

  lemma CollapsedFrame(b: bytes, src: bytes, begin: nat, s: nat, text: bytes)
    requires Collapsed(b, src, begin, s, text) && 0 < begin
    ensures |b| == |src| && begin + |text| <= s <= |src| && b[begin - 1] == src[begin - 1]
    ensures text[..|text|] == text
  {
    assert b[..begin][begin - 1] == src[..begin][begin - 1];
  }

  lemma CollapsedByte(b: bytes, src: bytes, begin: nat, s: nat, text: bytes, k: nat)
    requires Collapsed(b, src, begin, s, text) && k < |text|
    ensures begin + k < |b| && b[begin + k] == text[k]
  {
    assert b[begin..begin + |text|][k] == b[begin + k];
  }

  lemma SliceSame(b: bytes, c: bytes, lo: nat, hi: nat)
    requires lo <= hi <= |b| == |c| && forall k :: lo <= k < hi ==> b[k] == c[k]
    ensures b[lo..hi] == c[lo..hi]
    ensures lo == 0 ==> b[..hi] == c[..hi]
    ensures hi == |b| ==> b[lo..] == c[lo..]
  {
  }

  lemma NormalizedEnd(before: bytes, b: bytes, src: bytes, begin: nat, s: nat, text: bytes, str: nat)
    requires Collapsed(before, src, begin, s, text) && s < |src| && |b| == |src| && 0 < begin <= str <= begin + |text|
    requires forall k :: 0 <= k < str || begin + |text| < k < |src| ==> b[k] == before[k]
    requires b[str] == '\0' && !IsSpace(before[str - 1])
    requires TrimEnd(text[..str - begin]) == TrimEnd(text)
    ensures Delivered(src, b, begin, Text(text, s + 1), true, s + 1)
  {
    hide TrimEnd, Delivered, Collapsed, IsSpace;
    CollapsedParts(before, src, begin, s, text);
    Remaining(before, src, begin, s, text, str);
    SuffixAt(before, src, s, s + 1);
    SliceSame(b, before, begin, str);
    SliceSame(b, before, s + 1, |b|);
    SliceSame(b, before, 0, begin);
    DeliverTrimmed(src, b, begin, text, s + 1, str);
  }

  lemma CollapsedParts(b: bytes, src: bytes, begin: nat, s: nat, text: bytes)
    requires Collapsed(b, src, begin, s, text)
    ensures |b| == |src| && begin + |text| <= s <= |src| && b[s..] == src[s..] && b[..begin] == src[..begin]
  {
  }

  lemma DeliverTrimmed(src: bytes, b: bytes, begin: nat, text: bytes, next: nat, str: nat)
    requires |b| == |src| && begin <= str < |src| && str <= next <= |src| && b[str] == '\0'
    requires TrimEnd(text) == b[begin..str] && b[..begin] == src[..begin] && b[next..] == src[next..]
    ensures Delivered(src, b, begin, Text(text, next), true, next)
  {
    hide TrimEnd;
  }

  lemma Remaining(before: bytes, src: bytes, begin: nat, s: nat, text: bytes, str: nat)
    requires Collapsed(before, src, begin, s, text) && 0 < begin <= str <= begin + |text| && !IsSpace(before[str - 1])
    requires TrimEnd(text[..str - begin]) == TrimEnd(text)
    ensures before[begin..str] == TrimEnd(text)
  {
    var t := text[..str - begin];
    CollapsedPrefix(before, src, begin, s, text, str - begin);
    if t != [] {
      assert t[|t| - 1] == before[str - 1];
    }
  }

  /** `strconv_attribute_impl<escape>::parse_wnorm`: leading and trailing white space goes, inner runs become one
      space. */
  method ParseWnorm(buf: array<byte>, begin: nat, endQuote: byte, escape: bool) returns (r: int)
    requires Terminated(buf[..]) && 0 < begin < buf.Length && (endQuote == '\"' || endQuote == '\'')
    requires !IsSpace(buf[begin - 1])
    modifies buf
    ensures var src := old(buf[..]);
      Delivered(src, buf[..], begin, Decode(AttributeWnorm(escape), src, SkipSpace(src, begin), endQuote), true, r)
  {
    hide State, Decode, Delivered, IsChartype, SkipSpace, Stops, StopClass, Reference;
    var g := new Gap(buf);
    var kind := AttributeWnorm(escape);
    ghost var src: bytes, text: bytes := buf[..], [];
    ghost var first := SkipSpace(src, begin);
    var s := begin;
    Begins(g, kind, endQuote, src, begin);
    var str := PastSpaces(buf, s, src);
    if str > s {
      s := g.Push(s, str - s, src, begin, []);
    }
    PrependNothing(Decode(kind, src, first, endQuote));
    while true
      invariant Running(g, kind, endQuote, src, begin, first, s, text)
      decreases |src| - s
    {
      s, text := Scan(g, kind, endQuote, s, src, begin, first, text);
      LookAhead(g, src, begin, s, text);
      Ends(g, kind, endQuote, src, begin, first, s, text);
      ClassIsExact(buf[s], Space);
      if buf[s] == endQuote {
        FinishNormalized(g, s, src, begin, text);
        return s + 1;
      } else if IsChartype(buf[s], Space) {
        Advances(kind, endQuote, src, first, s, text);
        s := PutSpaces(g, s, src, begin, text);
        text := text + " ";
      } else if escape && buf[s] == '&' {
        s, text := Escape(g, kind, endQuote, s, src, begin, first, text);
      } else if buf[s] == '\0' {
        NothingDelivered(src, buf[..], begin);
        return -1;
      } else {
        Ordinary(g, kind, endQuote, src, begin, first, s, text);
        text := text + [src[s]];
        s := s + 1;
      }
    }
  }

  lemma NothingDelivered(before: bytes, after: bytes, begin: nat)
    ensures Delivered(before, after, begin, Rejected, true, -1)
  {
  }

  /** A run of white space becomes one space, the rest of it a gap. */
  method PutSpaces(g: Gap, s: nat, ghost src: bytes, ghost begin: nat, ghost text: bytes) returns (t: nat)
    requires g.Holds(src, begin, s, text) && Terminated(src) && s + 1 < |src|
    modifies g, g.buf
    ensures t == SkipSpace(src, s + 1) && g.Holds(src, begin, t, text + " ")
  {
    hide State, IsChartype;
    g.Put(s, ' ', src, begin, text);
    t := s + 1;
    LookAhead(g, src, begin, t, text + " ");
    ClassIsExact(g.buf[t], Space);
    if IsChartype(g.buf[t], Space) {
      var str := PastSpaces(g.buf, t + 1, src);
      t := g.Push(t, str - t, src, begin, text + " ");
    }
  }
}
