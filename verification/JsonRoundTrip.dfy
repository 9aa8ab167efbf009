/** What `FastWriter` writes is a text of RFC 8259, and reading it gives back the value, for every storable value and
    every setting of writer and reader, exactly if it does not nest too deep and no null in it goes unseen. */
module JsonRoundTrip {
  import opened Bytes
  import opened Utf8
  import opened Places
  import opened JsonValue
  import opened JsonStrings
  import opened JsonPieces
  import opened Decimal
  import opened JsonNumbers
  import opened JsonText
  import opened JsonSyntax

  // ----- the text of a value -----

  function IntegerOf(n: int): Number {
    JsonSyntax.Number(if n < 0 then "-" else "", Numeral(if n < 0 then -n else n), None, None)
  }

  /** The text that stands for a value: no white space but one space behind each colon with the YAML option, and nothing
      for a null with the option that drops it. */
  function SyntaxOf(w: WriterOptions, v: Value): Json {
    match v
    case Null => if w.dropNullPlaceholders then Absent else NullWord
    case Bool(b) => if b then TrueWord else FalseWord
    case Int(i) => Num(IntegerOf(i))
    case UInt(u) => Num(IntegerOf(u))
    case Real(_) => Absent
    case String(s) => Str(PiecesOf(s, 0))
    case Array(items) => List(ItemsOf(w, items), "")
    case Object(members) => Record(FieldsOf(w, members), false, "")
  }

  function ItemsOf(w: WriterOptions, items: seq<Value>): (r: seq<Item>)
    ensures |r| == |items|
  {
    if items == [] then [] else [Item("", SyntaxOf(w, items[0]), "")] + ItemsOf(w, items[1..])
  }

  function FieldsOf(w: WriterOptions, members: seq<Member>): (r: seq<Field>)
    ensures |r| == |members|
  {
    if members == [] then [] else
    [Field("", PiecesOf(members[0].name, 0), "", if w.yamlCompatibilityEnabled then " " else "",
           SyntaxOf(w, members[0].value), "")]
    + FieldsOf(w, members[1..])
  }

  /** No white space anywhere but `s` behind each colon. */
  predicate Spaced(j: Json, s: bytes) {
    match j
    case List(items, inside) =>
      inside == "" && forall k :: 0 <= k < |items| ==>
        items[k].before == "" && items[k].after == "" && Spaced(items[k].value, s)
    case Record(fields, comma, inside) =>
      inside == "" && !comma && forall k :: 0 <= k < |fields| ==>
        && fields[k].before == "" && fields[k].gap == "" && fields[k].middle == s && fields[k].after == ""
        && Spaced(fields[k].value, s)
    case _ => true
  }

  function ColonSpace(w: WriterOptions): bytes {
    if w.yamlCompatibilityEnabled then " " else ""
  }

  lemma {:induction false} NoLeadingZero(n: nat)
    ensures Numeral(n)[0] == '0' ==> Numeral(n) == "0"
  {
    if n >= 10 {
      NoLeadingZero(n / 10);
      PositiveNumeral(n / 10);
      assert Numeral(n)[0] == Numeral(n / 10)[0];
    }
  }

  lemma PositiveNumeral(n: nat)
    requires n > 0
    ensures Numeral(n) != "0"
  {
    NumeralMeaning(n);
    assert "0"[..0] == [];
    assert Meaning("0") == 0;
  }

  lemma IntegerText(n: int)
    ensures ValidNumber(IntegerOf(n)) && StandardNumber(IntegerOf(n)) && NumberText(IntegerOf(n)) == SignedNumeral(n)
    ensures Positional(IntegerOf(n).digits, 10) == if n < 0 then -n else n
  {
    hide IsDigitOf, Positional;
    var t := Numeral(if n < 0 then -n else n);
    NumeralMeaning(if n < 0 then -n else n);
    NoLeadingZero(if n < 0 then -n else n);
    DigitsAreDigits(t);
    MeaningIsPositional(t);
    assert t + ([] + []) == t;
  }

  /** The writer writes a text of RFC 8259 unless it drops nulls. Without the YAML option there is no white space
      outside strings, and with it exactly one space behind the colon of each member. */
  lemma {:induction false} WriterSyntax(w: WriterOptions, v: Value)
    requires Storable(v)
    ensures Render(SyntaxOf(w, v)) == WriteValue(w, v) && ValidText(SyntaxOf(w, v))
    ensures Spaced(SyntaxOf(w, v), if w.yamlCompatibilityEnabled then " " else "")
    ensures !w.dropNullPlaceholders ==> StandardText(SyntaxOf(w, v))
    decreases v, 1
  {
    hide WellFormed, Quote, PiecesOf, Standard, Positional, IsDigitOf, Numeral, RenderItems, RenderFields, WriteItems,
      WriteMembers, ItemsOf, FieldsOf, NumberText, ValidNumber, StandardNumber, AllValid, Quoted;
    match v
    case Int(i) => IntegerText(i);
    case UInt(u) => IntegerText(u);
    case String(s) =>
      QuoteIsPieces(s);
      StandardIsValid(PiecesOf(s, 0));
    case Array(items) => ItemsSyntax(w, items);
    case Object(members) => MembersSyntax(w, members);
    case _ =>
  }

  predicate GoodItem(w: WriterOptions, m: Item) {
    && ValidItem(m) && m.before == "" && m.after == "" && Spaced(m.value, ColonSpace(w))
    && (!w.dropNullPlaceholders ==> StandardText(m.value))
  }

  predicate GoodField(w: WriterOptions, m: Field) {
    && ValidField(m) && m.before == "" && m.gap == "" && m.middle == ColonSpace(w) && m.after == ""
    && Standard(m.key) && Spaced(m.value, ColonSpace(w)) && (!w.dropNullPlaceholders ==> StandardText(m.value))
  }

  lemma {:induction false} ItemsSyntax(w: WriterOptions, items: seq<Value>)
    requires forall k :: 0 <= k < |items| ==> Storable(items[k])
    ensures RenderItems(ItemsOf(w, items)) == WriteItems(w, items, true)
    ensures forall k :: 0 <= k < |items| ==> GoodItem(w, ItemsOf(w, items)[k])
    decreases items, 0
  {
    hide WriteValue, Storable, Render, ValidText, Spaced, StandardText, SyntaxOf, RenderItems, WriteItems;
    if items == [] {
      NothingWritten(w);
    } else {
      WriterSyntax(w, items[0]);
      ItemsSyntax(w, items[1..]);
      ItemsSplit(ItemsOf(w, items));
      assert ItemsOf(w, items)[1..] == ItemsOf(w, items[1..]);
      WrittenItems(w, items);
      BareItem(SyntaxOf(w, items[0]));
    }
  }

  lemma BareItem(j: Json)
    ensures RenderItem(Item("", j, "")) == Render(j)
  {
    hide Render;
  }

  lemma NothingWritten(w: WriterOptions)
    ensures WriteItems(w, [], true) == [] && WriteMembers(w, [], true) == [] && RenderItems([]) == []
      && RenderFields([]) == []
  {
  }

  lemma WrittenItems(w: WriterOptions, items: seq<Value>)
    requires items != []
    ensures WriteItems(w, items, true)
      == WriteValue(w, items[0]) + if |items| == 1 then "" else "," + WriteItems(w, items[1..], true)
  {
    hide WriteValue;
    if |items| > 1 {
      var rest := items[1..];
      assert WriteItems(w, rest, false) == "," + WriteItems(w, rest, true);
    }
  }

  lemma {:induction false} MembersSyntax(w: WriterOptions, members: seq<Member>)
    requires forall k :: 0 <= k < |members| ==> Storable(members[k].value)
    ensures RenderFields(FieldsOf(w, members)) == WriteMembers(w, members, true)
    ensures forall k :: 0 <= k < |members| ==> GoodField(w, FieldsOf(w, members)[k])
    decreases members, 0
  {
    hide WriteValue, Storable, Render, ValidText, Spaced, StandardText, SyntaxOf, RenderFields, WriteMembers, PiecesOf,
      Standard, Quote, Quoted, AllValid, WellFormed, ColonSpace;
    if members == [] {
      NothingWritten(w);
    } else {
      var m := members[0];
      WriterSyntax(w, m.value);
      QuoteIsPieces(m.name);
      StandardIsValid(PiecesOf(m.name, 0));
      MembersSyntax(w, members[1..]);
      FieldsSplit(FieldsOf(w, members));
      assert FieldsOf(w, members)[1..] == FieldsOf(w, members[1..]);
      WrittenMembers(w, members);
      BareField(PiecesOf(m.name, 0), ColonSpace(w), SyntaxOf(w, m.value));
      SpaceIsWhite(w);
    }
  }

  lemma SpaceIsWhite(w: WriterOptions)
    ensures AllWhite(ColonSpace(w)) && AllWhite("")
    ensures ColonSpace(w) == if w.yamlCompatibilityEnabled then " " else ""
  {
  }

  lemma BareField(ps: seq<Piece>, s: bytes, j: Json)
    ensures RenderField(Field("", ps, "", s, j, "")) == Quoted(ps) + (":" + (s + Render(j)))
  {
    hide Render, Quoted;
    assert Render(j) + "" == Render(j);
  }

  lemma WrittenMembers(w: WriterOptions, members: seq<Member>)
    requires members != []
    ensures WriteMembers(w, members, true)
      == Quote(members[0].name) + (":" + (ColonSpace(w) + WriteValue(w, members[0].value)))
         + if |members| == 1 then "" else "," + WriteMembers(w, members[1..], true)
  {
    hide WriteValue, Quote, Colon, ColonSpace;
    var m, rest := members[0], members[1..];
    ColonIs(w);
    Grouped(Quote(m.name), ColonSpace(w), WriteValue(w, m.value), WriteMembers(w, rest, false));
    if |members| > 1 {
      MoreMembersWritten(w, rest);
    } else {
      assert rest == [];
    }
  }

  lemma ColonIs(w: WriterOptions)
    ensures Colon(w) == ":" + ColonSpace(w)
  {
  }

  lemma Grouped(q: bytes, s: bytes, x: bytes, rest: bytes)
    ensures [] + q + (":" + s) + x + rest == q + (":" + (s + x)) + rest
  {
    assert [] + q == q;
    assert (":" + s) + x == ":" + (s + x);
    assert q + (":" + s) + x == q + ((":" + s) + x);
  }

  lemma MoreMembersWritten(w: WriterOptions, members: seq<Member>)
    requires members != []
    ensures WriteMembers(w, members, false) == "," + WriteMembers(w, members, true)
  {
    hide WriteValue, Quote, Colon;
  }

  // ----- documents -----

  /** A null written as nothing. */
  predicate Visible(w: WriterOptions, v: Value) {
    !(v.Null? && w.dropNullPlaceholders)
  }

  /** The whole document: `OurReader::parse` on what `FastWriter::write` produced, for all settings. A document of one
      dropped null is empty. */
  lemma DocumentReadsBack(f: Features, w: WriterOptions, v: Value)
    requires Storable(v)
    ensures Parse(f, WriteDocument(w, v))
         == if !Visible(w, v) then (if f.stackLimit < 1 then Thrown else Failed)
            else
              var r := Expect(f, SyntaxOf(w, v), 1);
              if r.Gives? && f.strictRoot && !v.Array? && !v.Object? then Failed else AsRead(r, |WriteValue(w, v)|)
  {
    hide WriteValue, Storable, Expect, Render, ValidText, Spaced, StandardText, Parse;
    var end := if w.omitEndingLineFeed then "" else "\n";
    var j := SyntaxOf(w, v);
    WriterSyntax(w, v);
    OnlyNullIsAbsent(w, v);
    SpaceIsWhite(w);
    if Visible(w, v) {
      assert "" + Render(j) + end + "" == WriteDocument(w, v);
      DocumentReads(f, "", j, end, "");
    } else {
      NothingRendered();
      assert WriteDocument(w, v) == end;
      EmptyDocument(f, end);
    }
  }

  lemma EmptyDocument(f: Features, doc: bytes)
    requires doc == "" || doc == "\n"
    ensures Parse(f, doc) == if f.stackLimit < 1 then Thrown else Failed
  {
    hide ReadItems, ReadMembers, ReadToken;
    AfterNothing(doc);
  }

  lemma AfterNothing(doc: bytes)
    requires doc == "" || doc == "\n"
    ensures ReadToken(doc, 0).kind == EndOfStream
  {
    hide ReadToken;
    AtWhole(doc);
    TokenSkipsWhite(doc, 0, doc);
    NoToken(doc, |doc|);
  }

  // ----- when the value comes back -----

  /** Every null in the value is seen by the reader: it is written out, or the reader takes dropped ones and it is not
      alone in an array. */
  predicate Survives(f: Features, w: WriterOptions, v: Value) {
    match v
    case Null => w.dropNullPlaceholders ==> f.allowDroppedNullPlaceholders
    case Array(items) =>
      && (w.dropNullPlaceholders ==> items != [Null])
      && forall k :: 0 <= k < |items| ==> Survives(f, w, items[k])
    case Object(members) => forall k :: 0 <= k < |members| ==> Survives(f, w, members[k].value)
    case _ => true
  }

  lemma NumberExpect(f: Features, n: int)
    requires MIN_INT <= n <= MAX_UINT
    ensures ExpectNumber(f, IntegerOf(n)) == Gives(if n <= MAX_INT then Int(n) else UInt(n))
  {
    hide Positional, NumberText;
    IntegerText(n);
  }

  /** A value comes back exactly if it is not too deep and all its nulls are seen; with nulls written out a value that
      is too deep makes the reader throw. */
  lemma {:induction false} ExpectIsExact(f: Features, w: WriterOptions, v: Value, depth: nat)
    requires Storable(v) && depth >= 1
    ensures Expect(f, SyntaxOf(w, v), depth) == Gives(v) <==> depth + Depth(v) - 1 <= f.stackLimit && Survives(f, w, v)
    ensures !w.dropNullPlaceholders && depth + Depth(v) - 1 > f.stackLimit
      ==> Expect(f, SyntaxOf(w, v), depth) == Throws
    decreases v, 1
  {
    hide Expect, SyntaxOf, ExpectItems, ExpectFields, ItemsOf, FieldsOf, WellFormed, Sorted;
    match v
    case Array(items) =>
      ListExpect(f, w, items, depth);
      if depth <= f.stackLimit {
        ItemsExact(f, w, items, depth, []);
        assert [] + items == items;
      }
    case Object(members) =>
      RecordExpect(f, w, members, depth);
      if depth <= f.stackLimit {
        MembersExact(f, w, members, 0, depth, [], []);
        assert [] + members == members && members[0..] == members;
      }
    case _ => ScalarExact(f, w, v, depth);
  }

  lemma ListExpect(f: Features, w: WriterOptions, items: seq<Value>, depth: nat)
    ensures Expect(f, SyntaxOf(w, Array(items)), depth)
      == if depth > f.stackLimit then Throws else ExpectItems(f, ItemsOf(w, items), depth, [])
  {
    hide ExpectItems, ItemsOf;
  }

  lemma RecordExpect(f: Features, w: WriterOptions, members: seq<Member>, depth: nat)
    ensures Expect(f, SyntaxOf(w, Object(members)), depth)
      == if depth > f.stackLimit then Throws else ExpectFields(f, FieldsOf(w, members), false, depth, [], [])
  {
    hide ExpectFields, FieldsOf;
  }

  lemma ScalarExact(f: Features, w: WriterOptions, v: Value, depth: nat)
    requires Storable(v) && depth >= 1 && !v.Array? && !v.Object?
    ensures Expect(f, SyntaxOf(w, v), depth) == Gives(v) <==> depth + Depth(v) - 1 <= f.stackLimit && Survives(f, w, v)
    ensures depth > f.stackLimit ==> Expect(f, SyntaxOf(w, v), depth) == Throws
  {
    hide ExpectNumber, Denoted, WellFormed, PiecesOf;
    match v
    case Int(i) => NumberExpect(f, i);
    case UInt(u) => NumberExpect(f, u);
    case String(s) => QuoteIsPieces(s);
    case _ =>
  }

  lemma {:induction false} ItemsExact(f: Features, w: WriterOptions, items: seq<Value>, depth: nat, done: seq<Value>)
    requires 1 <= depth <= f.stackLimit && forall k :: 0 <= k < |items| ==> Storable(items[k])
    ensures ExpectItems(f, ItemsOf(w, items), depth, done) == Gives(Array(done + items)) <==>
      && depth + DepthOfItems(items) <= f.stackLimit && (forall k :: 0 <= k < |items| ==> Survives(f, w, items[k]))
      && !(w.dropNullPlaceholders && items == [Null] && done == [])
    ensures !w.dropNullPlaceholders && depth + DepthOfItems(items) > f.stackLimit ==>
      ExpectItems(f, ItemsOf(w, items), depth, done) == Throws
    decreases items, 0
  {
    hide Expect, ExpectItems, Storable, Depth, SyntaxOf;
    if items == [] {
      assert done + items == done;
      NoItems(f, depth, done);
    } else {
      var x, rest := items[0], items[1..];
      ExpectIsExact(f, w, x, depth + 1);
      ExpectNextItem(f, ItemsOf(w, items), depth, done);
      assert ItemsOf(w, items)[1..] == ItemsOf(w, rest);
      OnlyNullIsAbsent(w, x);
      DepthSplits(items);
      if !w.dropNullPlaceholders { WrittenNullsSurvive(f, w, x); }
      var r := Expect(f, SyntaxOf(w, x), depth + 1);
      if |items| == 1 && SyntaxOf(w, x).Absent? && Unseen(f, done) {
        assert |done + items| == |done| + 1 && items == [Null];
      } else {
        if r == Gives(x) {
          ItemsExact(f, w, rest, depth, done + [x]);
          assert done + items == (done + [x]) + rest;
        } else if r.Gives? {
          ItemsKind(f, ItemsOf(w, rest), depth, done + [r.value]);
          assert (done + [r.value])[|done|] == r.value && (done + items)[|done|] == x;
        }
        Surviving(f, w, items);
      }
    }
  }

  lemma Surviving(f: Features, w: WriterOptions, items: seq<Value>)
    requires items != []
    ensures (forall k :: 0 <= k < |items| ==> Survives(f, w, items[k]))
      <==> Survives(f, w, items[0]) && forall k :: 0 <= k < |items[1..]| ==> Survives(f, w, items[1..][k])
  {
    hide Survives;
    assert items == [items[0]] + items[1..];
  }

  lemma OnlyNullIsAbsent(w: WriterOptions, v: Value)
    requires Storable(v)
    ensures SyntaxOf(w, v).Absent? <==> v == Null && w.dropNullPlaceholders
  {
  }

  lemma DepthSplits(items: seq<Value>)
    requires items != []
    ensures DepthOfItems(items) == Max(Depth(items[0]), DepthOfItems(items[1..]))
  {
  }

  /** The keys read so far are those of the members before `k`. */
  predicate SameKeys(done: seq<Member>, members: seq<Member>, k: nat) {
    k <= |members| && |done| == k && forall j :: 0 <= j < k ==> done[j].name == members[j].name
  }

  /** The next member is appended, because keys come in increasing order. */
  lemma NextMember(done: seq<Member>, members: seq<Member>, k: nat, value: Value)
    requires k < |members| && Sorted(members) && SameKeys(done, members, k)
    ensures var next := done + [Member(members[k].name, value)];
      Insert(done, members[k].name, value) == next && SameKeys(next, members, k + 1)
    ensures !HasMember(done, members[k].name)
  {
    InsertLast(done, members[k].name, value);
  }

  ghost predicate StorableMembers(members: seq<Member>) {
    && Sorted(members)
    && forall k :: 0 <= k < |members| ==>
         WellFormed(members[k].name) && |members[k].name| < MAX_KEY_LENGTH && Storable(members[k].value)
  }

  /** What is expected of the members from `k` on. */
  lemma {:induction false} MembersExact(f: Features, w: WriterOptions, members: seq<Member>, k: nat, depth: nat,
                                        done: seq<Member>, name: bytes)
    requires 1 <= depth <= f.stackLimit && StorableMembers(members) && SameKeys(done, members, k)
    requires k > 0 ==> k < |members|
    requires k == 0 ==> name == []
    ensures ExpectFields(f, FieldsOf(w, members[k..]), false, depth, done, name) == Gives(Object(done + members[k..]))
      <==> depth + DepthOfMembers(members[k..]) <= f.stackLimit
           && forall i :: k <= i < |members| ==> Survives(f, w, members[i].value)
    ensures !w.dropNullPlaceholders && depth + DepthOfMembers(members[k..]) > f.stackLimit ==>
      ExpectFields(f, FieldsOf(w, members[k..]), false, depth, done, name) == Throws
    decreases members, 0, |members| - k
  {
    hide Expect, ExpectFields, Storable, StorableMembers, SameKeys, Depth, DepthOfMembers, SyntaxOf, FieldsOf, Survives;
    var rest := members[k..];
    if rest == [] {
      assert done + rest == done;
      NoDepth(rest);
      NothingExpected(f, w, depth, done);
    } else {
      var m := members[k];
      MemberStorable(members, k);
      assert rest[0] == m && rest[1..] == members[k + 1..];
      ExpectIsExact(f, w, m.value, depth + 1);
      MemberDepthSplits(rest);
      if !w.dropNullPlaceholders { WrittenNullsSurvive(f, w, m.value); }
      MemberExpected(f, w, members, k, depth, done, name);
      var r := Expect(f, SyntaxOf(w, m.value), depth + 1);
      if r.Gives? {
        var next := done + [Member(m.name, r.value)];
        if k + 1 == |members| {
          assert rest == [m];
          NoDepth(rest[1..]);
          SameEnd(done, Member(m.name, r.value), m);
        } else if r == Gives(m.value) {
          MembersExact(f, w, members, k + 1, depth, next, m.name);
          assert done + rest == next + rest[1..];
        } else {
          DoneIsKept(f, w, members, k + 1, depth, next, m.name);
          assert next[|done|] != m && (done + rest)[|done|] == m;
        }
      }
    }
  }

  lemma SameEnd(done: seq<Member>, m: Member, n: Member)
    ensures done + [m] == done + [n] <==> m == n
  {
    assert (done + [m])[|done|] == m && (done + [n])[|done|] == n;
  }

  lemma NothingExpected(f: Features, w: WriterOptions, depth: nat, done: seq<Member>)
    ensures ExpectFields(f, FieldsOf(w, []), false, depth, done, []) == Gives(Object(done))
  {
  }

  lemma MemberStorable(members: seq<Member>, k: nat)
    requires StorableMembers(members) && k < |members|
    ensures Storable(members[k].value)
  {
  }

  /** What is expected at a member, in terms of its value and of what follows. */
  lemma MemberExpected(f: Features, w: WriterOptions, members: seq<Member>, k: nat, depth: nat, done: seq<Member>,
                       name: bytes)
    requires StorableMembers(members) && k < |members| && SameKeys(done, members, k)
    ensures var m, r := members[k], Expect(f, SyntaxOf(w, members[k].value), depth + 1);
      && ExpectFields(f, FieldsOf(w, members[k..]), false, depth, done, name)
         == (if !r.Gives? then r
             else if k + 1 == |members| then Gives(Object(done + [Member(m.name, r.value)]))
             else ExpectFields(f, FieldsOf(w, members[k + 1..]), false, depth, done + [Member(m.name, r.value)],
                               m.name))
      && (r.Gives? ==> SameKeys(done + [Member(m.name, r.value)], members, k + 1))
  {
    hide Expect, ExpectFields, Storable, SyntaxOf, WellFormed, Denoted, PiecesOf, Insert, HasMember, Sorted, SameKeys;
    var rest, m := members[k..], members[k];
    ExpectNextField(f, FieldsOf(w, rest), false, depth, done, name);
    assert rest[0] == m && rest[1..] == members[k + 1..];
    assert FieldsOf(w, rest)[1..] == FieldsOf(w, rest[1..]);
    QuoteIsPieces(m.name);
    var r := Expect(f, SyntaxOf(w, m.value), depth + 1);
    NextMember(done, members, k, if r.Gives? then r.value else Null);
  }

  /** The object read begins with what has been read before. */
  lemma {:induction false} DoneIsKept(f: Features, w: WriterOptions, members: seq<Member>, k: nat, depth: nat,
                                      done: seq<Member>, name: bytes)
    requires StorableMembers(members) && SameKeys(done, members, k)
    ensures var r := ExpectFields(f, FieldsOf(w, members[k..]), false, depth, done, name);
      r.Gives? ==> r.value.Object? && done <= r.value.members
    decreases |members| - k
  {
    hide Expect, ExpectFields, StorableMembers, SameKeys, SyntaxOf, FieldsOf;
    if k < |members| {
      MemberExpected(f, w, members, k, depth, done, name);
      var m, r := members[k], Expect(f, SyntaxOf(w, members[k].value), depth + 1);
      if r.Gives? && k + 1 < |members| {
        DoneIsKept(f, w, members, k + 1, depth, done + [Member(m.name, r.value)], m.name);
      }
    } else {
      SameLength(done, members, k);
      NoFieldsLeft(f, w, members[k..], depth, done, name);
    }
  }

  lemma SameLength(done: seq<Member>, members: seq<Member>, k: nat)
    requires SameKeys(done, members, k)
    ensures k <= |members|
  {
  }

  lemma NoFieldsLeft(f: Features, w: WriterOptions, rest: seq<Member>, depth: nat, done: seq<Member>, name: bytes)
    requires rest == []
    ensures var r := ExpectFields(f, FieldsOf(w, rest), false, depth, done, name); r.Gives? ==> r.value == Object(done)
  {
  }

  lemma MemberDepthSplits(members: seq<Member>)
    requires members != []
    ensures DepthOfMembers(members) == Max(Depth(members[0].value), DepthOfMembers(members[1..]))
  {
  }

  lemma NoDepth(members: seq<Member>)
    requires members == []
    ensures DepthOfMembers(members) == 0
  {
  }

  /** The round trip: a written value is read back exactly if it is not too deep, all its nulls are seen, and it may
      stand alone. */
  lemma DocumentComesBackIff(f: Features, w: WriterOptions, v: Value)
    requires Storable(v)
    ensures Parse(f, WriteDocument(w, v)) == Parsed(v, |WriteValue(w, v)|) <==>
      && Depth(v) <= f.stackLimit && Survives(f, w, v) && Visible(w, v) && (f.strictRoot ==> v.Array? || v.Object?)
  {
    hide Parse, Expect, WriteDocument, WriteValue, Storable, Survives, SyntaxOf;
    DocumentReadsBack(f, w, v);
    ExpectIsExact(f, w, v, 1);
  }

  /** The whole document with nulls written out. */
  lemma DocumentRoundTrip(f: Features, w: WriterOptions, v: Value)
    requires Storable(v) && !w.dropNullPlaceholders
    ensures Parse(f, WriteDocument(w, v))
         == if Depth(v) > f.stackLimit then Thrown
            else if f.strictRoot && !v.Array? && !v.Object? then Failed
            else Parsed(v, |WriteValue(w, v)|)
  {
    hide Parse, Expect, WriteDocument, WriteValue, Storable, SyntaxOf, Survives;
    DocumentReadsBack(f, w, v);
    ExpectIsExact(f, w, v, 1);
    WrittenNullsSurvive(f, w, v);
  }

  lemma {:induction false} WrittenNullsSurvive(f: Features, w: WriterOptions, v: Value)
    requires !w.dropNullPlaceholders
    ensures Survives(f, w, v)
    decreases v
  {
    match v
    case Array(items) =>
      forall k | 0 <= k < |items| ensures Survives(f, w, items[k]) {
        WrittenNullsSurvive(f, w, items[k]);
      }
    case Object(members) =>
      forall k | 0 <= k < |members| ensures Survives(f, w, members[k].value) {
        WrittenNullsSurvive(f, w, members[k].value);
      }
    case _ =>
  }
}
