/**
 The recursive binary serializer (src/utils/serialization.cpp:111-294).  Its
 exceptions are `None`; a double is the 64 bits it is copied from; a std::map is
 the list of its entries in key order.
 */
module Serialization {
  import opened Bytes

  type i64 = x: int | -0x8000_0000_0000_0000 <= x < 0x8000_0000_0000_0000

  datatype Value =
    | Null
    | Bool(flag: bool)
    | Int(number: i64)
    | UInt(size: u64)
    | Float(bits: u64)
    | Text(chars: bytes)
    | Binary(blob: bytes)
    | Array(items: seq<Value>)
    | Dict(entries: seq<Entry>)

  datatype Entry = Entry(key: bytes, value: Value)

  // ------------------------------------------------------------ map entries

  ghost predicate Sorted(entries: seq<Entry>) {
    forall i, j :: 0 <= i < j < |entries| ==> Less(entries[i].key, entries[j].key)
  }

  /** `map[key] = value`: overwrites the entry of the key or puts a new one in its place in the order. */
  function Insert(entries: seq<Entry>, key: bytes, value: Value): seq<Entry> {
    if entries == [] then [Entry(key, value)]
    else if entries[0].key == key then [Entry(key, value)] + entries[1..]
    else if Less(key, entries[0].key) then [Entry(key, value)] + entries
    else [entries[0]] + Insert(entries[1..], key, value)
  }

  lemma {:induction false} InsertLast(entries: seq<Entry>, key: bytes, value: Value)
    requires forall i :: 0 <= i < |entries| ==> Less(entries[i].key, key)
    ensures Insert(entries, key, value) == entries + [Entry(key, value)]
  {
    if entries != [] {
      LessIrreflexive(key);
      if Less(key, entries[0].key) { LessTransitive(key, entries[0].key, key); }
      InsertLast(entries[1..], key, value);
      assert entries == [entries[0]] + entries[1..];
    }
  }

  lemma {:induction false} InsertSorted(entries: seq<Entry>, key: bytes, value: Value)
    requires Sorted(entries)
    ensures Sorted(Insert(entries, key, value))
    ensures forall e :: e in Insert(entries, key, value) ==> e == Entry(key, value) || e in entries
  {
    if entries != [] && entries[0].key != key {
      LessTotal(entries[0].key, key);
      if Less(key, entries[0].key) {
        forall j | 0 <= j < |entries| ensures Less(key, entries[j].key) {
          if j > 0 { LessTransitive(key, entries[0].key, entries[j].key); }
        }
      } else {
        InsertSorted(entries[1..], key, value);
        var rest := Insert(entries[1..], key, value);
        forall j | 0 <= j < |rest| ensures Less(entries[0].key, rest[j].key) {
          assert rest[j] in rest;
        }
      }
    }
  }

  function Lookup(entries: seq<Entry>, key: bytes): Option<Value> {
    if entries == [] then None
    else if entries[0].key == key then Some(entries[0].value)
    else Lookup(entries[1..], key)
  }

  /** Assigning to a key changes what is found under it, and nothing else. */
  lemma {:induction false} InsertAssigns(entries: seq<Entry>, key: bytes, value: Value, k: bytes)
    requires Sorted(entries)
    ensures Lookup(Insert(entries, key, value), k) == if k == key then Some(value) else Lookup(entries, k)
  {
    var one := [Entry(key, value)];
    if entries == [] {
      assert one[1..] == [];
    } else if entries[0].key == key {
      assert (one + entries[1..])[1..] == entries[1..];
    } else if Less(key, entries[0].key) {
      assert (one + entries)[1..] == entries;
    } else {
      InsertAssigns(entries[1..], key, value, k);
      assert Insert(entries, key, value)[1..] == Insert(entries[1..], key, value);
    }
  }

  // ---------------------------------------------------------------- encoding

  /** What a C++ value can be: sizes fit 64 bits, map keys ascend strictly. */
  ghost predicate WellFormed(v: Value) {
    match v
    case Text(s) => |s| < TWO_64
    case Binary(s) => |s| < TWO_64
    case Array(items) => |items| < TWO_64 && forall x :: x in items ==> WellFormed(x)
    case Dict(entries) =>
      && |entries| < TWO_64 && Sorted(entries)
      && (forall e :: e in entries ==> |e.key| < TWO_64 && WellFormed(e.value))
    case _ => true
  }

  function Tag(v: Value): byte {
    match v
    case Null => 0
    case Bool(_) => 1
    case Int(_) => 2
    case UInt(_) => 3
    case Float(_) => 4
    case Text(_) => 5
    case Binary(_) => 6
    case Array(_) => 7
    case Dict(_) => 8
  }

  function EncodeText(s: bytes): bytes {
    ToLe(|s|, 8) + s
  }

  function Encode(v: Value): (r: bytes)
    ensures |r| > 0
  {
    [Tag(v)] + Body(v)
  }

  function Body(v: Value): bytes
    decreases v, 0
  {
    match v
    case Null => []
    case Bool(b) => [if b then 1 else 0]
    case Int(i) => ToLe(i % TWO_64, 8)
    case UInt(u) => ToLe(u, 8)
    case Float(bits) => ToLe(bits, 8)
    case Text(s) => EncodeText(s)
    case Binary(s) => EncodeText(s)
    case Array(items) => ToLe(|items|, 8) + EncodeItems(items)
    case Dict(entries) => ToLe(|entries|, 8) + EncodeEntries(entries)
  }

  function EncodeItems(items: seq<Value>): bytes {
    if items == [] then [] else EncodeItems(items[..|items| - 1]) + Encode(items[|items| - 1])
  }

  function EncodeEntry(e: Entry): bytes {
    EncodeText(e.key) + Encode(e.value)
  }

  function EncodeEntries(entries: seq<Entry>): bytes {
    if entries == [] then [] else EncodeEntries(entries[..|entries| - 1]) + EncodeEntry(entries[|entries| - 1])
  }

  // ---------------------------------------------------------------- decoding

  /** A decoded thing and the offset behind it. */
  datatype Parsed<+T> = Parsed(value: T, next: nat)

  function DecodeUint(s: bytes, at: nat): (r: Option<Parsed<u64>>)
    ensures r.Some? ==> r.value.next == at + 8 <= |s|
  {
    if at + 8 > |s| then None else Some(Parsed(Read64(s, at), at + 8))
  }

  function DecodeText(s: bytes, at: nat): (r: Option<Parsed<bytes>>)
    ensures r.Some? ==> at < r.value.next <= |s| && |r.value.value| < TWO_64
  {
    match DecodeUint(s, at)
    case None => None
    case Some(Parsed(n, from)) =>
      if from + n > |s| then None else Some(Parsed(s[from..from + n], from + n))
  }

  function AsSigned(u: u64): i64 {
    if u < 0x8000_0000_0000_0000 then u else u - TWO_64
  }

  /** Decodes one value; the measure is the number of bytes left. */
  function DecodeValue(s: bytes, at: nat): (r: Option<Parsed<Value>>)
    ensures r.Some? ==> at < r.value.next <= |s|
    decreases |s| - at, 0
  {
    if at >= |s| then None
    else
      var from := at + 1;
      match s[at]
      case 0 => Some(Parsed(Null, from))
      case 1 => if from >= |s| then None else Some(Parsed(Bool(s[from] != 0), from + 1))
      case 2 => (match DecodeUint(s, from) case None => None
                  case Some(p) => Some(Parsed(Int(AsSigned(p.value)), p.next)))
      case 3 => (match DecodeUint(s, from) case None => None case Some(p) => Some(Parsed(UInt(p.value), p.next)))
      case 4 => (match DecodeUint(s, from) case None => None case Some(p) => Some(Parsed(Float(p.value), p.next)))
      case 5 => (match DecodeText(s, from) case None => None case Some(p) => Some(Parsed(Text(p.value), p.next)))
      case 6 => (match DecodeText(s, from) case None => None case Some(p) => Some(Parsed(Binary(p.value), p.next)))
      case 7 => (match DecodeUint(s, from)
                 case None => None
                 case Some(p) =>
                   match DecodeItems(s, p.next, p.value, [])
                   case None => None
                   case Some(q) => Some(Parsed(Array(q.value), q.next)))
      case 8 => (match DecodeUint(s, from)
                 case None => None
                 case Some(p) =>
                   match DecodeEntries(s, p.next, p.value, [])
                   case None => None
                   case Some(q) => Some(Parsed(Dict(q.value), q.next)))
      case _ => None
  }

  /** Decodes `n` more values behind those in `done`. */
  function DecodeItems(s: bytes, at: nat, n: nat, done: seq<Value>): (r: Option<Parsed<seq<Value>>>)
    requires at <= |s|
    ensures r.Some? ==> at <= r.value.next <= |s| && |r.value.value| == |done| + n
    decreases |s| - at, 1
  {
    if n == 0 then Some(Parsed(done, at))
    else
      match DecodeValue(s, at)
      case None => None
      case Some(p) => DecodeItems(s, p.next, n - 1, done + [p.value])
  }

  function DecodeEntries(s: bytes, at: nat, n: nat, done: seq<Entry>): (r: Option<Parsed<seq<Entry>>>)
    requires at <= |s|
    ensures r.Some? ==> at <= r.value.next <= |s|
    decreases |s| - at, 1
  {
    if n == 0 then Some(Parsed(done, at))
    else
      match DecodeText(s, at)
      case None => None
      case Some(k) =>
        match DecodeValue(s, k.next)
        case None => None
        case Some(p) => DecodeEntries(s, p.next, n - 1, Insert(done, k.value, p.value))
  }

  function Deserialize(s: bytes): Option<Value> {
    match DecodeValue(s, 0) case None => None case Some(p) => Some(p.value)
  }

  /** Any non-zero byte is a true flag, and a tag above eight is no value. */
  lemma LooseInputs(s: bytes, at: nat)
    requires at < |s|
    ensures s[at] == 1 && at + 1 < |s| ==>
              DecodeValue(s, at) == Some(Parsed(Bool(s[at + 1] > 0), at + 2))
    ensures s[at] > 8 ==> DecodeValue(s, at) == None
  {
    hide Read64, DecodeText, DecodeItems, DecodeEntries;
  }

  // -------------------------------------------------------------- round trip

  /** The bytes `e` stand in `s` at offset `at`. */
  ghost predicate Holds(s: bytes, at: nat, e: bytes) {
    at + |e| <= |s| && s[at..at + |e|] == e
  }

  lemma HoldsSplit(s: bytes, at: nat, a: bytes, b: bytes)
    requires Holds(s, at, a + b)
    ensures Holds(s, at, a) && Holds(s, at + |a|, b)
  {
    var w := s[at..at + |a + b|];
    assert w[..|a|] == a && w[|a|..] == b;
    assert s[at..at + |a|] == w[..|a|];
    assert s[at + |a|..at + |a| + |b|] == w[|a|..];
  }

  lemma UintBack(s: bytes, at: nat, u: u64)
    requires Holds(s, at, ToLe(u, 8))
    ensures DecodeUint(s, at) == Some(Parsed(u, at + 8))
  {
    Read64At(s, at, u);
  }

  lemma TextBack(s: bytes, at: nat, t: bytes)
    requires |t| < TWO_64 && Holds(s, at, EncodeText(t))
    ensures DecodeText(s, at) == Some(Parsed(t, at + |EncodeText(t)|))
  {
    hide Read64, ToLe;
    HoldsSplit(s, at, ToLe(|t|, 8), t);
    UintBack(s, at, |t|);
  }

  lemma {:induction false} ItemsPrefix(items: seq<Value>, i: nat)
    requires i < |items|
    ensures EncodeItems(items[..i]) + Encode(items[i]) <= EncodeItems(items)
    ensures EncodeItems(items[..i + 1]) == EncodeItems(items[..i]) + Encode(items[i])
  {
    hide Encode;
    assert items[..i + 1][..i] == items[..i];
    var n := |items| - 1;
    if i < n {
      ItemsPrefix(items[..n], i);
      assert items[..n][..i] == items[..i];
    } else {
      assert items[..i + 1] == items;
    }
  }

  lemma {:induction false} EntriesPrefix(entries: seq<Entry>, i: nat)
    requires i < |entries|
    ensures EncodeEntries(entries[..i]) + EncodeEntry(entries[i]) <= EncodeEntries(entries)
    ensures EncodeEntries(entries[..i + 1]) == EncodeEntries(entries[..i]) + EncodeEntry(entries[i])
  {
    hide EncodeEntry;
    assert entries[..i + 1][..i] == entries[..i];
    var n := |entries| - 1;
    if i < n {
      EntriesPrefix(entries[..n], i);
      assert entries[..n][..i] == entries[..i];
    } else {
      assert entries[..i + 1] == entries;
    }
  }

  lemma HoldsPrefix(s: bytes, at: nat, whole: bytes, a: bytes, b: bytes)
    requires Holds(s, at, whole) && a + b <= whole
    ensures Holds(s, at + |a|, b)
  {
    assert whole == (a + b) + whole[|a + b|..];
    HoldsSplit(s, at, a + b, whole[|a + b|..]);
    HoldsSplit(s, at, a, b);
  }

  lemma HoldsFits(s: bytes, at: nat, e: bytes)
    requires Holds(s, at, e)
    ensures at + |e| <= |s|
  {
  }

  lemma ItemWellFormed(v: Value, i: nat)
    requires v.Array? && WellFormed(v) && i < |v.items|
    ensures WellFormed(v.items[i])
  {
    assert v.items[i] in v.items;
  }

  lemma EntryWellFormed(v: Value, i: nat)
    requires v.Dict? && WellFormed(v) && i < |v.entries|
    ensures |v.entries[i].key| < TWO_64 && WellFormed(v.entries[i].value)
    ensures forall j :: 0 <= j < i ==> Less(v.entries[j].key, v.entries[i].key)
  {
    assert v.entries[i] in v.entries;
  }

  lemma {:induction false} ItemsBack(s: bytes, at: nat, v: Value, i: nat)
    requires v.Array? && WellFormed(v) && i <= |v.items| && Holds(s, at, EncodeItems(v.items))
    ensures |EncodeItems(v.items[..i])| <= |EncodeItems(v.items)|
    ensures DecodeItems(s, at + |EncodeItems(v.items[..i])|, |v.items| - i, v.items[..i])
         == Some(Parsed(v.items, at + |EncodeItems(v.items)|))
    decreases v, 1, |v.items| - i
  {
    hide Encode, DecodeValue, WellFormed, Holds, EncodeItems, DecodeItems;
    var items := v.items;
    HoldsFits(s, at, EncodeItems(items));
    if i == |items| {
      assert items[..i] == items;
      NoItemsLeft(s, at + |EncodeItems(items)|, items);
    } else {
      var x, from := items[i], at + |EncodeItems(items[..i])|;
      ItemsPrefix(items, i);
      ItemWellFormed(v, i);
      HoldsPrefix(s, at, EncodeItems(items), EncodeItems(items[..i]), Encode(x));
      HoldsFits(s, from, Encode(x));
      ValueBack(s, from, x);
      ItemStep(s, from, x, |items| - i, items[..i]);
      ItemsBack(s, at, v, i + 1);
      assert items[..i] + [x] == items[..i + 1];
    }
  }

  lemma NoItemsLeft(s: bytes, at: nat, done: seq<Value>)
    requires at <= |s|
    ensures DecodeItems(s, at, 0, done) == Some(Parsed(done, at))
  {
  }

  /** Decoding one item that decodes, in front of `n - 1` others. */
  lemma ItemStep(s: bytes, at: nat, x: Value, n: nat, done: seq<Value>)
    requires n > 0 && at + |Encode(x)| <= |s| && DecodeValue(s, at) == Some(Parsed(x, at + |Encode(x)|))
    ensures DecodeItems(s, at, n, done) == DecodeItems(s, at + |Encode(x)|, n - 1, done + [x])
  {
    hide Encode, DecodeValue;
  }

  /** Decoding one entry whose value decodes, in front of `n - 1` others. */
  lemma EntryStep(s: bytes, at: nat, e: Entry, n: nat, done: seq<Entry>)
    requires n > 0 && |e.key| < TWO_64 && Holds(s, at, EncodeEntry(e))
    requires DecodeValue(s, at + |EncodeText(e.key)|) == Some(Parsed(e.value, at + |EncodeEntry(e)|))
    requires forall i :: 0 <= i < |done| ==> Less(done[i].key, e.key)
    ensures DecodeEntries(s, at, n, done) == DecodeEntries(s, at + |EncodeEntry(e)|, n - 1, done + [e])
  {
    hide Encode, DecodeValue, EncodeText, DecodeText, Less, Insert;
    HoldsSplit(s, at, EncodeText(e.key), Encode(e.value));
    TextBack(s, at, e.key);
    InsertLast(done, e.key, e.value);
  }

  lemma {:induction false} EntriesBack(s: bytes, at: nat, v: Value, i: nat)
    requires v.Dict? && WellFormed(v) && i <= |v.entries| && Holds(s, at, EncodeEntries(v.entries))
    ensures |EncodeEntries(v.entries[..i])| <= |EncodeEntries(v.entries)|
    ensures DecodeEntries(s, at + |EncodeEntries(v.entries[..i])|, |v.entries| - i, v.entries[..i])
         == Some(Parsed(v.entries, at + |EncodeEntries(v.entries)|))
    decreases v, 1, |v.entries| - i
  {
    hide Encode, DecodeValue, EncodeText, DecodeText, DecodeEntries, Less, WellFormed, Holds, EncodeEntries;
    var entries := v.entries;
    HoldsFits(s, at, EncodeEntries(entries));
    if i == |entries| {
      assert entries[..i] == entries;
      NoEntries(s, at + |EncodeEntries(entries)|, entries);
    } else {
      var e, from := entries[i], at + |EncodeEntries(entries[..i])|;
      EntriesPrefix(entries, i);
      HoldsPrefix(s, at, EncodeEntries(entries), EncodeEntries(entries[..i]), EncodeEntry(e));
      HoldsSplit(s, from, EncodeText(e.key), Encode(e.value));
      EntryWellFormed(v, i);
      ValueBack(s, from + |EncodeText(e.key)|, e.value);
      EntryStep(s, from, e, |entries| - i, entries[..i]);
      EntriesBack(s, at, v, i + 1);
      assert entries[..i] + [e] == entries[..i + 1];
    }
  }

  lemma NoEntries(s: bytes, at: nat, done: seq<Entry>)
    requires at <= |s|
    ensures DecodeEntries(s, at, 0, done) == Some(Parsed(done, at))
  {
  }

  lemma ScalarBack(s: bytes, at: nat, v: Value)
    requires WellFormed(v) && !v.Array? && !v.Dict? && Holds(s, at, Encode(v))
    ensures DecodeValue(s, at) == Some(Parsed(v, at + |Encode(v)|))
  {
    hide Read64, ToLe, EncodeText, DecodeText, DecodeUint, DecodeItems, DecodeEntries;
    HoldsSplit(s, at, [Tag(v)], Body(v));
    assert s[at] == s[at..at + 1][0] == Tag(v);
    match v
    case Null =>
    case Bool(b) => assert s[at + 1] == s[at + 1..at + 2][0];
    case Int(i) => UintBack(s, at + 1, i % TWO_64);
    case UInt(u) => UintBack(s, at + 1, u);
    case Float(bits) => UintBack(s, at + 1, bits);
    case Text(t) => TextBack(s, at + 1, t);
    case Binary(t) => TextBack(s, at + 1, t);
  }

  /** Wherever the encoding of a value stands, decoding there yields the value and stops right behind it. */
  lemma {:induction false} ValueBack(s: bytes, at: nat, v: Value)
    requires WellFormed(v) && Holds(s, at, Encode(v))
    ensures DecodeValue(s, at) == Some(Parsed(v, at + |Encode(v)|))
    decreases v, 2
  {
    hide Read64, ToLe, DecodeText, DecodeUint, DecodeItems, DecodeEntries, EncodeItems, EncodeEntries;
    if !v.Array? && !v.Dict? {
      ScalarBack(s, at, v);
    } else {
      HoldsSplit(s, at, [Tag(v)], Body(v));
      assert s[at] == s[at..at + 1][0] == Tag(v);
      var n := if v.Array? then |v.items| else |v.entries|;
      HoldsSplit(s, at + 1, ToLe(n, 8), if v.Array? then EncodeItems(v.items) else EncodeEntries(v.entries));
      UintBack(s, at + 1, n);
      NoItems();
      if v.Array? {
        ItemsBack(s, at + 9, v, 0);
        assert v.items[..0] == [];
      } else {
        EntriesBack(s, at + 9, v, 0);
        assert v.entries[..0] == [];
      }
    }
  }

  lemma NoItems()
    ensures EncodeItems([]) == [] && EncodeEntries([]) == []
  {
  }

  /** Nested round trip: whatever follows it, an encoded value decodes to itself and to exactly its own bytes. */
  lemma RoundTrip(v: Value, rest: bytes)
    requires WellFormed(v)
    ensures DecodeValue(Encode(v) + rest, 0) == Some(Parsed(v, |Encode(v)|))
    ensures Deserialize(Encode(v) + rest) == Some(v)
  {
    hide Encode, DecodeValue;
    var s := Encode(v) + rest;
    assert s[0..0 + |Encode(v)|] == Encode(v);
    ValueBack(s, 0, v);
  }

  /** The format is prefix-free: a byte string starts with the encoding of at most one value. */
  lemma PrefixFree(v: Value, w: Value, a: bytes, b: bytes)
    requires WellFormed(v) && WellFormed(w) && Encode(v) + a == Encode(w) + b
    ensures v == w && a == b
  {
    hide Encode, DecodeValue;
    RoundTrip(v, a);
    RoundTrip(w, b);
    assert a == (Encode(v) + a)[|Encode(v)|..];
    assert b == (Encode(w) + b)[|Encode(w)|..];
  }

  /** Whatever the input, what is decoded is a proper value: sizes in range and map keys in strict order. */
  lemma {:induction false} DecodedWellFormed(s: bytes, at: nat)
    requires DecodeValue(s, at).Some? && |s| < TWO_64
    ensures WellFormed(DecodeValue(s, at).value.value)
    decreases |s| - at, 0
  {
    hide Read64, DecodeText;
    if s[at] == 7 {
      var p := DecodeUint(s, at + 1).value;
      ItemsWellFormed(s, p.next, p.value, []);
    } else if s[at] == 8 {
      var p := DecodeUint(s, at + 1).value;
      EntriesWellFormed(s, p.next, p.value, []);
    }
  }

  lemma {:induction false} ItemsWellFormed(s: bytes, at: nat, n: nat, done: seq<Value>)
    requires at <= |s| < TWO_64 && DecodeItems(s, at, n, done).Some?
    requires forall x :: x in done ==> WellFormed(x)
    ensures forall x :: x in DecodeItems(s, at, n, done).value.value ==> WellFormed(x)
    decreases |s| - at, 1
  {
    hide DecodeValue, WellFormed;
    if n != 0 {
      DecodedWellFormed(s, at);
      var p := DecodeValue(s, at).value;
      ItemsWellFormed(s, p.next, n - 1, done + [p.value]);
    }
  }

  lemma InsertLength(entries: seq<Entry>, key: bytes, value: Value)
    ensures |Insert(entries, key, value)| <= |entries| + 1
  {
  }

  lemma {:induction false} EntriesWellFormed(s: bytes, at: nat, n: nat, done: seq<Entry>)
    requires at <= |s| < TWO_64 && DecodeEntries(s, at, n, done).Some?
    requires Sorted(done) && |done| + (|s| - at) < TWO_64
             && forall e :: e in done ==> |e.key| < TWO_64 && WellFormed(e.value)
    ensures var r := DecodeEntries(s, at, n, done).value.value;
            Sorted(r) && |r| < TWO_64 && forall e :: e in r ==> |e.key| < TWO_64 && WellFormed(e.value)
    decreases |s| - at, 1
  {
    hide DecodeValue, WellFormed, DecodeText, Insert, Sorted;
    if n != 0 {
      var k := DecodeText(s, at).value;
      DecodedWellFormed(s, k.next);
      var p := DecodeValue(s, k.next).value;
      InsertSorted(done, k.value, p.value);
      InsertLength(done, k.value, p.value);
      EntriesWellFormed(s, p.next, n - 1, Insert(done, k.value, p.value));
    }
  }

  // ----------------------------------------- the serializer as it is executed

  /** `serialize`: appends to one buffer, with loops over arrays and maps. */
  method Serialize(v: Value) returns (out: bytes)
    ensures out == Encode(v)
    decreases v, 1
  {
    hide ToLe;
    out := [Tag(v)];
    match v
    case Null =>
    case Bool(b) => out := out + [if b then 1 else 0];
    case Int(i) => out := AppendLe(out, i % TWO_64, 8);
    case UInt(u) => out := AppendLe(out, u, 8);
    case Float(bits) => out := AppendLe(out, bits, 8);
    case Text(t) => out := AppendText(out, t);
    case Binary(t) => out := AppendText(out, t);
    case Array(items) => out := AppendItems(out, v);
    case Dict(entries) => out := AppendEntries(out, v);
  }

  method AppendItems(out: bytes, v: Value) returns (r: bytes)
    requires v.Array?
    ensures r == out + ToLe(|v.items|, 8) + EncodeItems(v.items)
    decreases v, 0
  {
    hide ToLe, Encode;
    var items := v.items;
    r := AppendLe(out, |items|, 8);
    ghost var head := r;
    for k := 0 to |items|
      invariant r == head + EncodeItems(items[..k])
    {
      ItemsPrefix(items, k);
      var encoded := Serialize(items[k]);
      r := r + encoded;
    }
    assert items[..|items|] == items;
  }

  method AppendEntries(out: bytes, v: Value) returns (r: bytes)
    requires v.Dict?
    ensures r == out + ToLe(|v.entries|, 8) + EncodeEntries(v.entries)
    decreases v, 0
  {
    hide ToLe, Encode;
    var entries := v.entries;
    r := AppendLe(out, |entries|, 8);
    ghost var head := r;
    for k := 0 to |entries|
      invariant r == head + EncodeEntries(entries[..k])
    {
      EntriesPrefix(entries, k);
      r := AppendText(r, entries[k].key);
      var encoded := Serialize(entries[k].value);
      r := r + encoded;
    }
    assert entries[..|entries|] == entries;
  }

  method AppendText(out: bytes, t: bytes) returns (r: bytes)
    ensures r == out + EncodeText(t)
  {
    hide ToLe;
    r := AppendLe(out, |t|, 8);
    r := r + t;
  }

  /** `decode_value` with its offset threaded through; every loop and recursion ends on every input. */
  method ParseValue(s: bytes, at: nat) returns (r: Option<Parsed<Value>>)
    ensures r == DecodeValue(s, at)
    decreases |s| - at, 0
  {
    hide Read64, Insert;
    if at >= |s| { return None; }
    var kind, from := s[at], at + 1;
    if kind == 7 {
      var n := DecodeUint(s, from);
      if n == None { return None; }
      var p := ParseItems(s, n.value.next, n.value.value);
      return if p.None? then None else Some(Parsed(Array(p.value.value), p.value.next));
    } else if kind == 8 {
      var n := DecodeUint(s, from);
      if n == None { return None; }
      var p := ParseEntries(s, n.value.next, n.value.value);
      return if p.None? then None else Some(Parsed(Dict(p.value.value), p.value.next));
    } else {
      r := ParseScalar(s, at);
    }
  }

  method ParseScalar(s: bytes, at: nat) returns (r: Option<Parsed<Value>>)
    requires at < |s| && s[at] != 7 && s[at] != 8
    ensures r == DecodeValue(s, at)
  {
    hide Read64, DecodeItems, DecodeEntries;
    var kind, from := s[at], at + 1;
    if kind == 0 { return Some(Parsed(Null, from)); }
    if kind == 1 { return if from >= |s| then None else Some(Parsed(Bool(s[from] != 0), from + 1)); }
    if kind == 5 || kind == 6 {
      var t := DecodeText(s, from);
      return if t.None? then None
        else Some(Parsed(if kind == 5 then Text(t.value.value) else Binary(t.value.value), t.value.next));
    }
    if kind > 8 { return None; }
    var u := DecodeUint(s, from);
    if u.None? { return None; }
    var x := u.value.value;
    return Some(Parsed(if kind == 2 then Int(AsSigned(x)) else if kind == 3 then UInt(x) else Float(x), u.value.next));
  }

  method ParseItems(s: bytes, at: nat, n: nat) returns (r: Option<Parsed<seq<Value>>>)
    requires at <= |s|
    ensures r == DecodeItems(s, at, n, [])
    decreases |s| - at, 1
  {
    hide DecodeValue;
    var items, p := [], at;
    for k := 0 to n
      invariant at <= p <= |s|
      invariant DecodeItems(s, p, n - k, items) == DecodeItems(s, at, n, [])
    {
      var x := ParseValue(s, p);
      if x == None { return None; }
      items, p := items + [x.value.value], x.value.next;
    }
    return Some(Parsed(items, p));
  }

  method ParseEntries(s: bytes, at: nat, n: nat) returns (r: Option<Parsed<seq<Entry>>>)
    requires at <= |s|
    ensures r == DecodeEntries(s, at, n, [])
    decreases |s| - at, 1
  {
    hide DecodeValue, DecodeText, Insert;
    var entries, p := [], at;
    for k := 0 to n
      invariant at <= p <= |s|
      invariant DecodeEntries(s, p, n - k, entries) == DecodeEntries(s, at, n, [])
    {
      var key := DecodeText(s, p);
      if key == None { return None; }
      var x := ParseValue(s, key.value.next);
      if x == None { return None; }
      entries, p := Insert(entries, key.value.value, x.value.value), x.value.next;
    }
    return Some(Parsed(entries, p));
  }
}
