/** Which texts `OurReader` accepts for a setting, and what an accepted object holds, said of the text alone. */
module JsonAccepted {
  import opened Bytes
  import opened JsonValue
  import opened JsonStrings
  import opened JsonPieces
  import opened JsonNumbers
  import opened JsonText
  import opened JsonSyntax

  /** Nested no deeper than the stack, with strings that denote something, short keys that are repeated only where they
      may be, and values left out or a comma behind the last member only where the settings let them. */
  predicate Accepts(f: Features, j: Json, depth: nat)
    decreases j
  {
    && depth <= f.stackLimit
    && match j
       case NullWord => true
       case TrueWord => true
       case FalseWord => true
       case Num(n) => ExpectNumber(f, n).Gives?
       case Str(ps) => Denoted(ps).Some?
       case Absent => f.allowDroppedNullPlaceholders
       case List(items, _) =>
         forall k :: 0 <= k < |items| ==> Accepts(f, items[k].value, depth + 1) || EndUnseen(f, items, k)
       case Record(fields, comma, _) =>
         && (forall k :: 0 <= k < |fields| ==> KeyAccepted(fields[k]) && Accepts(f, fields[k].value, depth + 1))
         && (f.rejectDupKeys ==> DistinctKeys(fields))
         && (comma && fields != [] && !f.allowTrailingCommas ==> KeyIs(fields[|fields| - 1], []))
  }

  /** A value left out behind the last comma, or between the brackets. */
  predicate EndUnseen(f: Features, items: seq<Item>, k: nat) {
    && k < |items| && k == |items| - 1 && items[k].value.Absent?
    && (k == 0 || (f.allowTrailingCommas && !f.allowDroppedNullPlaceholders))
  }

  predicate KeyAccepted(m: Field) {
    Denoted(m.key).Some? && |Denoted(m.key).value| < MAX_KEY_LENGTH
  }

  predicate KeyIs(m: Field, key: bytes) {
    Denoted(m.key) == Some(key)
  }

  /** Keys are the same when they denote the same, however they are written. */
  predicate DistinctKeys(fields: seq<Field>) {
    forall i, k :: 0 <= i < k < |fields| ==> Denoted(fields[i].key) != Denoted(fields[k].key)
  }

  lemma {:induction false} AcceptedIff(f: Features, j: Json, depth: nat)
    ensures Expect(f, j, depth).Gives? <==> Accepts(f, j, depth)
    decreases j, 1
  {
    hide ExpectNumber, Denoted, ExpectItems, ExpectFields;
    match j
    case List(items, _) =>
      ItemsAcceptedIff(f, items, 0, depth, []);
      assert items[0..] == items;
    case Record(fields, comma, _) =>
      FieldsAcceptedIff(f, fields, 0, comma, depth, [], []);
      assert fields[0..] == fields;
    case _ =>
  }

  lemma {:induction false} ItemsAcceptedIff(f: Features, items: seq<Item>, k: nat, depth: nat, done: seq<Value>)
    requires k <= |items| && |done| == k
    ensures ExpectItems(f, items[k..], depth, done).Gives?
      <==> forall i :: k <= i < |items| ==> Accepts(f, items[i].value, depth + 1) || EndUnseen(f, items, i)
    decreases items, 0, |items| - k
  {
    hide Expect, Accepts;
    if k < |items| {
      ExpectNextItem(f, items[k..], depth, done);
      assert items[k..][0] == items[k] && items[k..][1..] == items[k + 1..];
      AcceptedIff(f, items[k].value, depth + 1);
      var r := Expect(f, items[k].value, depth + 1);
      if r.Gives? {
        ItemsAcceptedIff(f, items, k + 1, depth, done + [r.value]);
      }
    }
  }

  /** The keys in `done` are those of the members before `k`. */
  ghost predicate KeysOf(done: seq<Member>, fields: seq<Field>, k: nat) {
    && k <= |fields| && Sorted(done)
    && forall key :: HasMember(done, key) <==> exists i :: 0 <= i < k && KeyIs(fields[i], key)
  }

  /** Distinct from `k` on: no member repeats the key of an earlier one. */
  ghost predicate FreshFrom(fields: seq<Field>, k: nat) {
    forall i, j :: 0 <= i < j < |fields| && k <= j ==> Denoted(fields[i].key) != Denoted(fields[j].key)
  }

  predicate EndsWell(f: Features, fields: seq<Field>, comma: bool, name: bytes) {
    f.allowTrailingCommas || if fields == [] then name == [] else comma ==> KeyIs(fields[|fields| - 1], [])
  }

  lemma KeyAdded(done: seq<Member>, fields: seq<Field>, k: nat, key: bytes, v: Value)
    requires KeysOf(done, fields, k) && k < |fields| && KeyIs(fields[k], key)
    ensures KeysOf(Insert(done, key, v), fields, k + 1)
  {
    hide Insert, Denoted;
    var read := Insert(done, key, v);
    InsertIsMapUpdate(done, key, v);
    forall other ensures HasMember(read, other) <==> exists i :: 0 <= i < k + 1 && KeyIs(fields[i], other) {
      if HasMember(done, other) && other != key {
        var m :| m in done && m.name == other;
        assert m in read;
      }
      if HasMember(read, other) && other != key {
        var m :| m in read && m.name == other;
        assert m in done;
      }
    }
  }

  lemma {:induction false} FieldsAcceptedIff(f: Features, fields: seq<Field>, k: nat, comma: bool, depth: nat,
                                             done: seq<Member>, name: bytes)
    requires k <= |fields| && KeysOf(done, fields, k)
    ensures ExpectFields(f, fields[k..], comma, depth, done, name).Gives?
      <==> (forall i :: k <= i < |fields| ==> KeyAccepted(fields[i]) && Accepts(f, fields[i].value, depth + 1))
           && (f.rejectDupKeys ==> FreshFrom(fields, k)) && EndsWell(f, fields[k..], comma, name)
    decreases fields, 0, |fields| - k
  {
    hide Expect, Accepts, Denoted, Insert, HasMember, KeysOf, FreshFrom;
    ExpectNextField(f, fields[k..], comma, depth, done, name);
    if k < |fields| {
      var m := fields[k];
      assert fields[k..][0] == m && fields[k..][1..] == fields[k + 1..];
      AcceptedIff(f, m.value, depth + 1);
      KeysFresh(f, done, fields, k);
      var r := Expect(f, m.value, depth + 1);
      if KeyAccepted(m) && r.Gives? {
        var key := Denoted(m.key).value;
        KeyAdded(done, fields, k, key, r.value);
        FieldsAcceptedIff(f, fields, k + 1, comma, depth, Insert(done, key, r.value), key);
        EndMoves(f, fields, k, comma, name, key);
      }
    }
    NothingFresh(fields, |fields|);
  }

  lemma KeysFresh(f: Features, done: seq<Member>, fields: seq<Field>, k: nat)
    requires KeysOf(done, fields, k) && k < |fields|
    ensures KeyAccepted(fields[k]) ==>
      (FreshFrom(fields, k) <==> FreshFrom(fields, k + 1) && !HasMember(done, Denoted(fields[k].key).value))
  {
    hide Denoted, HasMember;
    if KeyAccepted(fields[k]) {
      var key := Denoted(fields[k].key).value;
      if i :| 0 <= i < k && KeyIs(fields[i], key) {
        assert HasMember(done, key);
      }
      forall i | 0 <= i < k && Denoted(fields[i].key) == Denoted(fields[k].key) ensures HasMember(done, key) {
        assert KeyIs(fields[i], key);
      }
    }
  }

  lemma EndMoves(f: Features, fields: seq<Field>, k: nat, comma: bool, name: bytes, key: bytes)
    requires k < |fields| && KeyIs(fields[k], key)
    ensures comma || k + 1 < |fields| ==>
      (EndsWell(f, fields[k..], comma, name) <==> EndsWell(f, fields[k + 1..], comma, key))
    ensures !comma && k + 1 == |fields| ==> EndsWell(f, fields[k..], comma, name)
  {
    hide Denoted;
  }

  lemma NothingFresh(fields: seq<Field>, k: nat)
    requires k == |fields|
    ensures FreshFrom(fields, k)
  {
  }

  /** A document of a text, with white space around it and whatever behind it, is accepted exactly if the text is, the
      root may stand alone, and what is behind it may be there. */
  lemma DocumentAcceptedIff(f: Features, before: bytes, j: Json, after: bytes, extra: bytes)
    requires ValidText(j) && !j.Absent? && AllWhite(before) && AllWhite(after)
    requires extra == [] || (extra[0] !in WHITE && (j.Num? && after == [] ==> NumberEnds(extra, 0)))
    ensures Parse(f, before + Render(j) + after + extra).Parsed?
      <==> Accepts(f, j, 1) && (f.strictRoot ==> j.List? || j.Record?)
           && (f.failIfExtra ==> extra == [] || extra[0] == '\0')
  {
    hide Parse, Render, ValidText, AllWhite, Expect, Accepts, NumberEnds;
    DocumentReads(f, before, j, after, extra);
    AcceptedIff(f, j, 1);
  }

  /** A text of RFC 8259 is refused only for its depth, a string that denotes nothing, a number that is no `double`, or
      a key: too long, or repeated where that is refused. The other settings do not matter. */
  predicate Plausible(f: Features, j: Json, depth: nat)
    decreases j
  {
    && depth <= f.stackLimit
    && match j
       case Num(n) => ExpectNumber(f, n).Gives?
       case Str(ps) => Denoted(ps).Some?
       case List(items, _) => forall k :: 0 <= k < |items| ==> Plausible(f, items[k].value, depth + 1)
       case Record(fields, _, _) =>
         && (forall k :: 0 <= k < |fields| ==> KeyAccepted(fields[k]) && Plausible(f, fields[k].value, depth + 1))
         && (f.rejectDupKeys ==> DistinctKeys(fields))
       case _ => true
  }

  lemma {:induction false} StandardAcceptedIff(f: Features, j: Json, depth: nat)
    requires StandardText(j)
    ensures Accepts(f, j, depth) <==> Plausible(f, j, depth)
    decreases j
  {
    hide Denoted, Standard, StandardNumber, ExpectNumber;
    match j
    case List(items, _) =>
      forall k | 0 <= k < |items|
        ensures Accepts(f, items[k].value, depth + 1) <==> Plausible(f, items[k].value, depth + 1) {
        StandardAcceptedIff(f, items[k].value, depth + 1);
      }
    case Record(fields, comma, _) =>
      forall k | 0 <= k < |fields|
        ensures Accepts(f, fields[k].value, depth + 1) <==> Plausible(f, fields[k].value, depth + 1) {
        StandardAcceptedIff(f, fields[k].value, depth + 1);
      }
    case _ =>
  }

  // ----- what an accepted object holds -----

  /** The object binds exactly the keys of its members, each to the value written last for it. */
  ghost predicate Holds(f: Features, read: seq<Member>, fields: seq<Field>, k: nat, depth: nat) {
    && Sorted(read)
    && forall key, v :: Member(key, v) in read <==>
         exists i :: 0 <= i < k <= |fields| && LastBinding(f, fields, i, k, depth, key, v)
  }

  /** Of the members before `k` the one at `i` is the last with the key, and `v` is what its value is read as. */
  ghost predicate LastBinding(f: Features, fields: seq<Field>, i: nat, k: nat, depth: nat, key: bytes, v: Value) {
    && i < k <= |fields| && KeyIs(fields[i], key) && Expect(f, fields[i].value, depth) == Gives(v)
    && forall j :: i < j < k ==> !KeyIs(fields[j], key)
  }

  lemma BindingAdded(f: Features, read: seq<Member>, fields: seq<Field>, k: nat, depth: nat, key: bytes, v: Value)
    requires Holds(f, read, fields, k, depth) && k < |fields| && KeyIs(fields[k], key)
    requires Expect(f, fields[k].value, depth) == Gives(v)
    ensures Holds(f, Insert(read, key, v), fields, k + 1, depth)
  {
    hide Insert, Denoted, Expect;
    InsertIsMapUpdate(read, key, v);
    var next, n := Insert(read, key, v), k + 1;
    forall other, w ensures Member(other, w) in next
      <==> exists i :: 0 <= i < n <= |fields| && LastBinding(f, fields, i, n, depth, other, w)
    {
      assert LastBinding(f, fields, k, n, depth, key, v);
      if i :| 0 <= i < n && LastBinding(f, fields, i, n, depth, other, w) && i < k {
        assert LastBinding(f, fields, i, k, depth, other, w);
      }
      if i :| 0 <= i < k && LastBinding(f, fields, i, k, depth, other, w) && other != key {
        assert LastBinding(f, fields, i, n, depth, other, w);
      }
    }
  }

  lemma {:induction false} FieldsHold(f: Features, fields: seq<Field>, k: nat, comma: bool, depth: nat,
                                      done: seq<Member>, name: bytes)
    requires k <= |fields| && Holds(f, done, fields, k, depth + 1)
    ensures var r := ExpectFields(f, fields[k..], comma, depth, done, name);
      r.Gives? ==> r.value.Object? && Holds(f, r.value.members, fields, |fields|, depth + 1)
    decreases |fields| - k
  {
    hide Expect, Denoted, Insert, HasMember, Holds;
    ExpectNextField(f, fields[k..], comma, depth, done, name);
    if k < |fields| {
      var m := fields[k];
      assert fields[k..][0] == m && fields[k..][1..] == fields[k + 1..];
      var r := Expect(f, m.value, depth + 1);
      if Denoted(m.key).Some? && r.Gives? {
        var key := Denoted(m.key).value;
        BindingAdded(f, done, fields, k, depth + 1, key, r.value);
        FieldsHold(f, fields, k + 1, comma, depth, Insert(done, key, r.value), key);
      }
    }
  }

  /** An accepted object is a map from its keys to their values, the last one where a key is repeated. */
  lemma RecordHolds(f: Features, j: Json, depth: nat)
    requires j.Record?
    ensures var r := Expect(f, j, depth);
      r.Gives? ==> r.value.Object? && Holds(f, r.value.members, j.fields, |j.fields|, depth + 1)
  {
    hide ExpectFields, Denoted;
    FieldsHold(f, j.fields, 0, j.comma, depth, [], []);
    assert j.fields[0..] == j.fields;
  }

  /** An accepted array holds its values in order, without one left out at its end. */
  lemma ListHolds(f: Features, j: Json, depth: nat)
    requires j.List?
    ensures var r := Expect(f, j, depth);
      r.Gives? ==>
        && r.value.Array?
        && |r.value.items| == |j.items| - (if j.items != [] && EndUnseen(f, j.items, |j.items| - 1) then 1 else 0)
        && forall i :: 0 <= i < |r.value.items| ==> Expect(f, j.items[i].value, depth + 1) == Gives(r.value.items[i])
  {
    hide ExpectItems;
    ItemsHold(f, j.items, 0, depth, []);
    assert j.items[0..] == j.items;
  }

  lemma {:induction false} ItemsHold(f: Features, items: seq<Item>, k: nat, depth: nat, done: seq<Value>)
    requires k <= |items| && |done| == k
    requires k > 0 && k == |items| ==> !EndUnseen(f, items, k - 1)
    requires forall i :: 0 <= i < k ==> Expect(f, items[i].value, depth + 1) == Gives(done[i])
    ensures var r := ExpectItems(f, items[k..], depth, done);
      r.Gives? ==>
        && r.value.Array?
        && |r.value.items| == |items| - (if items != [] && EndUnseen(f, items, |items| - 1) then 1 else 0)
        && forall i :: 0 <= i < |r.value.items| ==> Expect(f, items[i].value, depth + 1) == Gives(r.value.items[i])
    decreases |items| - k
  {
    hide Expect;
    if k < |items| {
      ExpectNextItem(f, items[k..], depth, done);
      assert items[k..][0] == items[k] && items[k..][1..] == items[k + 1..];
      var r := Expect(f, items[k].value, depth + 1);
      if r.Gives? && !EndUnseen(f, items, k) {
        ItemsHold(f, items, k + 1, depth, done + [r.value]);
      }
    }
  }
}
