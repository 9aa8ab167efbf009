/** `Json::FastWriter` and the text helpers it appends with, as the loops of the source. */
module JsonWriter {
  import opened Bytes
  import opened JsonValue
  import opened JsonStrings
  import opened Decimal
  import opened JsonNumbers
  import JsonText

  /** `uintToString`: the buffer is filled from its end. */
  method UintToString(value: nat) returns (current: bytes)
    ensures current == Numeral(value)
  {
    var rest: nat := value / 10;
    current := [Digit(value % 10)];
    while rest != 0
      invariant Numeral(value) == if rest == 0 then current else Numeral(rest) + current
    {
      current := [Digit(rest % 10)] + current;
      rest := rest / 10;
    }
  }

  /** `valueToString(LargestInt)`: the least value is not negated in its own type. */
  method IntToString(value: int) returns (text: bytes)
    requires MIN_INT <= value <= MAX_INT
    ensures text == SignedNumeral(value)
  {
    if value == MIN_INT {
      text := UintToString(MAX_INT + 1);
      text := "-" + text;
    } else if value < 0 {
      text := UintToString(-value);
      text := "-" + text;
    } else {
      text := UintToString(value);
    }
  }

  method IsAnyCharRequiredQuoting(s: bytes) returns (found: bool)
    ensures found <==> exists k :: 0 <= k < |s| && RequiresQuoting(s[k])
  {
    for cur := 0 to |s|
      invariant forall k :: 0 <= k < cur ==> !RequiresQuoting(s[k])
    {
      if RequiresQuoting(s[cur]) {
        return true;
      }
    }
    return false;
  }

  method ValueToQuotedString(s: bytes) returns (result: bytes)
    ensures result == Quote(s)
  {
    var special := IsAnyCharRequiredQuoting(s);
    if !special {
      PlainNeedsNoQuoting(s);
      return "\"" + s + "\"";
    }
    result := "\"";
    var c := 0;
    while c != |s|
      invariant 0 <= c <= |s|
      invariant result + QuoteBody(s, c) == "\"" + QuoteBody(s, 0)
      decreases |s| - c
    {
      var (text, n) := QuoteStep(s, c);
      assert result + (text + QuoteBody(s, c + n)) == (result + text) + QuoteBody(s, c + n);
      result := result + text;
      c := c + n;
    }
    result := result + "\"";
  }

  class FastWriter {
    var yamlCompatibilityEnabled_: bool
    var dropNullPlaceholders_: bool
    var omitEndingLineFeed_: bool
    var document_: bytes

    constructor ()
      ensures Options() == JsonText.WriterOptions(false, false, false) && document_ == []
    {
      yamlCompatibilityEnabled_, dropNullPlaceholders_, omitEndingLineFeed_, document_ := false, false, false, [];
    }

    function Options(): JsonText.WriterOptions
      reads this`yamlCompatibilityEnabled_, this`dropNullPlaceholders_, this`omitEndingLineFeed_
    {
      JsonText.WriterOptions(yamlCompatibilityEnabled_, dropNullPlaceholders_, omitEndingLineFeed_)
    }

    method EnableYAMLCompatibility()
      modifies this`yamlCompatibilityEnabled_
      ensures Options() == old(Options()).(yamlCompatibilityEnabled := true)
    {
      yamlCompatibilityEnabled_ := true;
    }

    method DropNullPlaceholders()
      modifies this`dropNullPlaceholders_
      ensures Options() == old(Options()).(dropNullPlaceholders := true)
    {
      dropNullPlaceholders_ := true;
    }

    method OmitEndingLineFeed()
      modifies this`omitEndingLineFeed_
      ensures Options() == old(Options()).(omitEndingLineFeed := true)
    {
      omitEndingLineFeed_ := true;
    }

    method Write(root: Value) returns (document: bytes)
      requires Representable(root)
      modifies this`document_
      ensures document == document_ == JsonText.WriteDocument(Options(), root)
    {
      document_ := [];
      WriteValue(root);
      if !omitEndingLineFeed_ {
        document_ := document_ + "\n";
      }
      document := document_;
    }

    method WriteValue(value: Value)
      requires Representable(value)
      modifies this`document_
      ensures document_ == old(document_) + JsonText.WriteValue(Options(), value)
      decreases value
    {
      hide Quote, SignedNumeral;
      match value
      case Null =>
        if !dropNullPlaceholders_ {
          document_ := document_ + "null";
        }
      case Bool(b) => document_ := document_ + if b then "true" else "false";
      case Int(i) =>
        var text := IntToString(i);
        document_ := document_ + text;
      case UInt(u) =>
        var text := UintToString(u);
        NumeralIsSigned(u);
        document_ := document_ + text;
      case Real(text) => document_ := document_ + text;
      case String(s) =>
        var text := ValueToQuotedString(s);
        document_ := document_ + text;
      case Array(items) => WriteArray(value);
      case Object(members) => WriteObject(value);
    }

    method WriteArray(value: Value)
      requires value.Array? && Representable(value)
      modifies this`document_
      ensures document_ == old(document_) + JsonText.WriteValue(Options(), value)
      decreases value, 0
    {
      hide JsonText.WriteItems;
      document_ := document_ + "[";
      WriteItems(value.items);
      document_ := document_ + "]";
      ArrayText(Options(), value.items);
    }

    /** The element loop of the array case. */
    method WriteItems(items: seq<Value>)
      requires forall k :: 0 <= k < |items| ==> Representable(items[k])
      modifies this`document_
      ensures document_ == old(document_) + JsonText.WriteItems(Options(), items, true)
      decreases items, 0
    {
      hide JsonText.WriteValue;
      for index := 0 to |items|
        invariant document_ + JsonText.WriteItems(Options(), items[index..], index == 0)
               == old(document_) + JsonText.WriteItems(Options(), items, true)
      {
        ItemsSplit(Options(), items, index);
        ghost var before := document_;
        if index > 0 {
          document_ := document_ + ",";
        }
        WriteValue(items[index]);
        assert document_ == before + ((if index == 0 then [] else ",") + JsonText.WriteValue(Options(), items[index]));
      }
      assert items[|items|..] == [] && document_ + [] == document_;
    }

    method WriteObject(value: Value)
      requires value.Object? && Representable(value)
      modifies this`document_
      ensures document_ == old(document_) + JsonText.WriteValue(Options(), value)
      decreases value, 0
    {
      hide JsonText.WriteMembers;
      document_ := document_ + "{";
      WriteMembers(value.members);
      document_ := document_ + "}";
      ObjectText(Options(), value.members);
    }

    /** The member loop of the object case. */
    method WriteMembers(members: seq<Member>)
      requires forall k :: 0 <= k < |members| ==> Representable(members[k].value)
      modifies this`document_
      ensures document_ == old(document_) + JsonText.WriteMembers(Options(), members, true)
      decreases members, 0
    {
      hide JsonText.WriteValue, MemberText, Representable;
      for it := 0 to |members|
        invariant document_ + JsonText.WriteMembers(Options(), members[it..], it == 0)
               == old(document_) + JsonText.WriteMembers(Options(), members, true)
      {
        MembersSplit(Options(), members, it);
        ghost var before, text := document_, MemberText(Options(), members[it], it == 0);
        ghost var rest := JsonText.WriteMembers(Options(), members[it + 1..], false);
        WriteMember(members[it], it == 0);
        Associate(before, text, rest);
      }
      assert members[|members|..] == [] && document_ + [] == document_;
    }

    /** The body of the member loop. */
    method WriteMember(member: Member, first: bool)
      requires Representable(member.value)
      modifies this`document_
      ensures document_ == old(document_) + MemberText(Options(), member, first)
      decreases member
    {
      hide Quote, JsonText.WriteValue;
      if !first {
        document_ := document_ + ",";
      }
      var name := ValueToQuotedString(member.name);
      document_ := document_ + name;
      document_ := document_ + if yamlCompatibilityEnabled_ then ": " else ":";
      WriteValue(member.value);
    }
  }

  lemma Associate(a: bytes, b: bytes, c: bytes)
    ensures (a + b) + c == a + (b + c)
  {
  }

  lemma ItemsSplit(w: JsonText.WriterOptions, items: seq<Value>, k: nat)
    requires k < |items|
    ensures JsonText.WriteItems(w, items[k..], k == 0)
         == ((if k == 0 then [] else ",") + JsonText.WriteValue(w, items[k]))
           + JsonText.WriteItems(w, items[k + 1..], false)
  {
    hide JsonText.WriteValue;
    assert items[k..][0] == items[k] && items[k..][1..] == items[k + 1..];
  }

  function MemberText(w: JsonText.WriterOptions, m: Member, first: bool): bytes {
    (if first then [] else ",") + Quote(m.name) + JsonText.Colon(w) + JsonText.WriteValue(w, m.value)
  }

  lemma MembersSplit(w: JsonText.WriterOptions, members: seq<Member>, k: nat)
    requires k < |members|
    ensures JsonText.WriteMembers(w, members[k..], k == 0)
         == MemberText(w, members[k], k == 0) + JsonText.WriteMembers(w, members[k + 1..], false)
  {
    hide JsonText.WriteValue, Quote;
    assert members[k..][0] == members[k] && members[k..][1..] == members[k + 1..];
  }

  lemma ArrayText(w: JsonText.WriterOptions, items: seq<Value>)
    ensures JsonText.WriteValue(w, Array(items)) == "[" + JsonText.WriteItems(w, items, true) + "]"
  {
  }

  lemma ObjectText(w: JsonText.WriterOptions, members: seq<Member>)
    ensures JsonText.WriteValue(w, Object(members)) == "{" + JsonText.WriteMembers(w, members, true) + "}"
  {
  }

  lemma NumeralIsSigned(n: nat)
    ensures SignedNumeral(n) == Numeral(n)
  {
  }

  /** The integers of a value lie in the 64-bit types that hold them. */
  ghost predicate Representable(v: Value) {
    match v
    case Int(i) => MIN_INT <= i <= MAX_INT
    case UInt(u) => 0 <= u <= MAX_UINT
    case Array(items) => forall k :: 0 <= k < |items| ==> Representable(items[k])
    case Object(members) => forall k :: 0 <= k < |members| ==> Representable(members[k].value)
    case _ => true
  }
}
