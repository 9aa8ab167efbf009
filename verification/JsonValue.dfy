/** The values jsoncpp stores. A `Real` keeps the text of its number: what `istringstream` makes of it is not
    part of this model. An object is its `std::map`: the members in increasing order of their keys. */
module JsonValue {
  import opened Bytes
  import opened Utf8

  const MAX_INT: int := 0x7FFF_FFFF_FFFF_FFFF
  const MIN_INT: int := -0x8000_0000_0000_0000
  const MAX_UINT: int := 0xFFFF_FFFF_FFFF_FFFF
  const MAX_KEY_LENGTH: int := 0x4000_0000

  datatype Value =
    | Null
    | Bool(b: bool)
    | Int(i: int)
    | UInt(u: int)
    | Real(text: bytes)
    | String(s: bytes)
    | Array(items: seq<Value>)
    | Object(members: seq<Member>)

  datatype Member = Member(name: bytes, value: Value)

  /** `CZString::operator<`: `memcmp` on the common length, then the length. */
  predicate Less(a: bytes, b: bytes) {
    if a == [] || b == [] then |a| < |b|
    else if a[0] != b[0] then a[0] < b[0]
    else Less(a[1..], b[1..])
  }

  lemma {:induction false} LessIsStrictTotalOrder(a: bytes, b: bytes, c: bytes)
    ensures !Less(a, a)
    ensures Less(a, b) && Less(b, c) ==> Less(a, c)
    ensures Less(a, b) || Less(b, a) || a == b
    ensures !(Less(a, b) && Less(b, a))
  {
    if a != [] && b != [] && c != [] {
      LessIsStrictTotalOrder(a[1..], b[1..], c[1..]);
      assert a == [a[0]] + a[1..] && b == [b[0]] + b[1..];
    } else if a != [] && b != [] {
      LessIsStrictTotalOrder(a[1..], b[1..], []);
      assert a == [a[0]] + a[1..] && b == [b[0]] + b[1..];
    } else if a != [] {
      LessIsStrictTotalOrder(a[1..], [], []);
    }
  }

  predicate Begins(a: bytes, b: bytes) {
    |a| < |b| && a == b[..|a|]
  }

  predicate DiffersAt(a: bytes, b: bytes, k: nat) {
    k < |a| && k < |b| && a[..k] == b[..k] && Code(a[k]) < Code(b[k])
  }

  lemma TailsCompared(c: byte, a: bytes, b: bytes)
    ensures Begins([c] + a, [c] + b) <==> Begins(a, b)
  {
    assert ([c] + a)[1..] == a;
    if |a| < |b| { assert ([c] + b)[..|a| + 1] == [c] + b[..|a|]; }
  }

  lemma TailsDiffer(c: byte, a: bytes, b: bytes, k: nat)
    ensures DiffersAt([c] + a, [c] + b, k + 1) <==> DiffersAt(a, b, k)
    ensures !DiffersAt([c] + a, [c] + b, 0)
  {
    if k < |a| && k < |b| {
      assert ([c] + a)[..k + 1] == [c] + a[..k] && ([c] + b)[..k + 1] == [c] + b[..k];
      assert ([c] + a[..k])[1..] == a[..k] && ([c] + b[..k])[1..] == b[..k];
    }
  }

  /** The first byte that differs decides, and a string comes behind those it begins with. */
  lemma {:induction false} LessIsLexicographic(a: bytes, b: bytes)
    ensures Less(a, b) <==> Begins(a, b) || exists k: nat :: DiffersAt(a, b, k)
  {
    if a != [] && b != [] && a[0] == b[0] {
      LessIsLexicographic(a[1..], b[1..]);
      assert a == [a[0]] + a[1..] && b == [a[0]] + b[1..];
      SameFirst(a[0], a[1..], b[1..]);
    } else if a != [] && b != [] {
      OtherFirst(a, b);
    }
  }

  lemma SameFirst(c: byte, a: bytes, b: bytes)
    ensures (Begins([c] + a, [c] + b) || exists k: nat :: DiffersAt([c] + a, [c] + b, k))
      <==> Begins(a, b) || exists k: nat :: DiffersAt(a, b, k)
  {
    hide Begins, DiffersAt;
    TailsCompared(c, a, b);
    if k: nat :| DiffersAt(a, b, k) { TailsDiffer(c, a, b, k); }
    if k: nat :| DiffersAt([c] + a, [c] + b, k) { TailsDiffer(c, a, b, if k > 0 then k - 1 else 0); }
  }

  lemma OtherFirst(a: bytes, b: bytes)
    requires a != [] && b != [] && a[0] != b[0]
    ensures (Begins(a, b) || exists k: nat :: DiffersAt(a, b, k)) <==> Code(a[0]) < Code(b[0])
  {
    BeginsTheSame(a, b);
    forall k: nat ensures DiffersAt(a, b, k) <==> k == 0 && Code(a[0]) < Code(b[0]) {
      DiffersLater(a, b, k);
    }
    assert DiffersAt(a, b, 0) <==> Code(a[0]) < Code(b[0]);
  }

  lemma BeginsTheSame(a: bytes, b: bytes)
    ensures Begins(a, b) && a != [] ==> a[0] == b[0]
  {
    if Begins(a, b) && a != [] { assert b[..|a|][0] == b[0]; }
  }

  lemma DiffersLater(a: bytes, b: bytes, k: nat)
    ensures k > 0 && DiffersAt(a, b, k) ==> a[0] == b[0]
  {
    if k > 0 && DiffersAt(a, b, k) { assert a[..k][0] == a[0] && b[..k][0] == b[0]; }
  }

  ghost predicate Sorted(members: seq<Member>) {
    forall i, j :: 0 <= i < j < |members| ==> Less(members[i].name, members[j].name)
  }

  predicate HasMember(members: seq<Member>, name: bytes) {
    exists i :: 0 <= i < |members| && members[i].name == name
  }

  /** `currentValue()[name] = value`: the map keeps one entry a key, in key order. */
  function Insert(members: seq<Member>, name: bytes, value: Value): seq<Member> {
    if members == [] || Less(name, members[0].name) then [Member(name, value)] + members
    else if members[0].name == name then [Member(name, value)] + members[1..]
    else [members[0]] + Insert(members[1..], name, value)
  }

  /** Inserting past the last key appends. */
  lemma {:induction false} InsertLast(members: seq<Member>, name: bytes, value: Value)
    requires forall i :: 0 <= i < |members| ==> Less(members[i].name, name)
    ensures Insert(members, name, value) == members + [Member(name, value)]
    ensures !HasMember(members, name)
  {
    if members != [] {
      InsertLast(members[1..], name, value);
      LessIsStrictTotalOrder(members[0].name, name, []);
      assert members == [members[0]] + members[1..];
      forall i | 0 <= i < |members| ensures members[i].name != name {
        LessIsStrictTotalOrder(members[i].name, name, []);
      }
    }
  }

  /** Insertion keeps the map sorted, binds the key to the value and leaves every other key alone. */
  lemma {:induction false} InsertIsMapUpdate(members: seq<Member>, name: bytes, value: Value)
    requires Sorted(members)
    ensures var r := Insert(members, name, value);
      && Sorted(r)
      && Member(name, value) in r
      && (forall m :: m in r <==> m == Member(name, value) || (m in members && m.name != name))
  {
    hide Less;
    if members != [] {
      var first, rest := members[0], members[1..];
      LessIsStrictTotalOrder(name, first.name, name);
      if Less(name, first.name) {
        InFront(members, name);
      } else if first.name == name {
        OnlyFirst(members);
      } else {
        InsertIsMapUpdate(rest, name, value);
        InsertBehind(members, name, value);
      }
    }
  }

  lemma InFront(members: seq<Member>, name: bytes)
    requires members != [] && Sorted(members) && Less(name, members[0].name)
    ensures forall j :: 0 <= j < |members| ==> Less(name, members[j].name) && members[j].name != name
  {
    hide Less;
    forall j | 0 <= j < |members| ensures Less(name, members[j].name) && members[j].name != name {
      LessIsStrictTotalOrder(name, members[0].name, members[j].name);
      LessIsStrictTotalOrder(name, members[j].name, name);
    }
  }

  lemma OnlyFirst(members: seq<Member>)
    requires members != [] && Sorted(members)
    ensures forall j :: 0 < j < |members| ==> members[j].name != members[0].name
  {
    hide Less;
    forall j | 0 < j < |members| ensures members[j].name != members[0].name {
      LessIsStrictTotalOrder(members[0].name, members[j].name, members[0].name);
    }
  }

  /** Storing a member behind the first one. */
  lemma InsertBehind(members: seq<Member>, name: bytes, value: Value)
    requires members != [] && Sorted(members) && Less(members[0].name, name) && members[0].name != name
    requires !Less(name, members[0].name)
    requires var rest := Insert(members[1..], name, value);
      Sorted(rest) && forall m :: m in rest <==> m == Member(name, value) || (m in members[1..] && m.name != name)
    ensures var r := Insert(members, name, value);
      Sorted(r) && forall m :: m in r <==> m == Member(name, value) || (m in members && m.name != name)
  {
    hide Less;
    var first, rest := members[0], Insert(members[1..], name, value);
    assert members == [first] + members[1..];
    assert Insert(members, name, value) == [first] + rest;
    forall m | m in rest ensures Less(first.name, m.name) {
      if m != Member(name, value) {
        assert m in members[1..];
      }
    }
  }

  /** Values the round trip is promised for: numbers as jsoncpp types them, well-formed text, keys it can store. */
  ghost predicate Storable(v: Value) {
    match v
    case Null => true
    case Bool(_) => true
    case Int(i) => MIN_INT <= i <= MAX_INT
    case UInt(u) => MAX_INT < u <= MAX_UINT
    case Real(_) => false
    case String(s) => WellFormed(s)
    case Array(items) => forall k :: 0 <= k < |items| ==> Storable(items[k])
    case Object(members) =>
      && Sorted(members)
      && forall k :: 0 <= k < |members| ==>
           && WellFormed(members[k].name) && |members[k].name| < MAX_KEY_LENGTH
           && Storable(members[k].value)
  }

  function Max(a: nat, b: nat): nat { if a < b then b else a }

  /** How many values are open at once while `v` is read. */
  function Depth(v: Value): (d: nat)
    ensures d >= 1
  {
    match v
    case Array(items) => 1 + DepthOfItems(items)
    case Object(members) => 1 + DepthOfMembers(members)
    case _ => 1
  }

  function DepthOfItems(items: seq<Value>): nat {
    if items == [] then 0 else Max(Depth(items[0]), DepthOfItems(items[1..]))
  }

  function DepthOfMembers(members: seq<Member>): nat {
    if members == [] then 0 else Max(Depth(members[0].value), DepthOfMembers(members[1..]))
  }
}
