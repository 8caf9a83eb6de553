/** What the encoder computes, and how encoding and decoding undo each other. */
module BencodeEncoding {
  import opened Bytes
  import opened Seqs
  import opened Strconv
  import opened Wrappers
  import opened BencodeGrammar
  import opened BencodeParser

  ghost function Encoded(v: Value): seq<byte>
    decreases v, 1, 0
  {
    match v
    case Str(b) => PrintStr(b)
    case Int(i) => [TOKEN_INT] + FormatInt(i) + [TOKEN_END]
    case List(items) => [TOKEN_LIST] + EncodedItems(items) + [TOKEN_END]
    case Dict(m) => [TOKEN_DICT] + EncodedEntries(v, SortedKeysOf(v)) + [TOKEN_END]
  }

  ghost function EncodedItems(items: seq<Value>): seq<byte>
    decreases items, 0, 0
  {
    if items == [] then [] else EncodedItems(items[..|items| - 1]) + Encoded(items[|items| - 1])
  }

  ghost function EncodedEntries(d: Value, keys: seq<seq<byte>>): seq<byte>
    requires d.Dict? && Elements(keys) <= d.entries.Keys
    decreases d, 0, |keys|
  {
    if keys == [] then []
    else
      var k := keys[|keys| - 1];
      EncodedEntries(d, keys[..|keys| - 1]) + (PrintStr(k) + Encoded(d.entries[k]))
  }

  ghost function SortedKeysOf(d: Value): (keys: seq<seq<byte>>)
    requires d.Dict?
    ensures Ascending(keys) && Elements(keys) == d.entries.Keys
  {
    SortedKeysAscending(d.entries.Keys);
    SortedKeys(d.entries.Keys)
  }

  // ---------- the canonical tree of a value ----------

  ghost function CanonicalTree(v: Value): Tree
    decreases v, 1, 0
  {
    match v
    case Str(b) => TStr(b)
    case Int(i) => TInt(FormatInt(i))
    case List(items) => TList(CanonicalTrees(items))
    case Dict(_) => TDict(CanonicalEntries(v, SortedKeysOf(v)))
  }

  ghost function CanonicalTrees(items: seq<Value>): seq<Tree>
    decreases items, 0, 0
  {
    seq(|items|, i requires 0 <= i < |items| => CanonicalTree(items[i]))
  }

  ghost function CanonicalEntries(d: Value, keys: seq<seq<byte>>): seq<Entry>
    requires d.Dict? && Elements(keys) <= d.entries.Keys
    decreases d, 0, |keys|
  {
    seq(|keys|, i requires 0 <= i < |keys| =>
      assert keys[i] in Elements(keys);
      Entry(keys[i], CanonicalTree(d.entries[keys[i]])))
  }

  lemma {:induction false} EncodedIsPrinted(v: Value)
    ensures Encoded(v) == Print(CanonicalTree(v))
    decreases v, 1, 0
  {
    match v
    case Str(_) =>
    case Int(_) =>
    case List(items) => EncodedItemsIsPrinted(items);
    case Dict(_) => EncodedEntriesIsPrinted(v, SortedKeysOf(v));
  }

  lemma {:induction false} EncodedItemsIsPrinted(items: seq<Value>)
    ensures EncodedItems(items) == PrintItems(CanonicalTrees(items))
    decreases items, 0, 0
  {
    if items != [] {
      var n := |items| - 1;
      EncodedItemsIsPrinted(items[..n]);
      EncodedIsPrinted(items[n]);
      assert CanonicalTrees(items)[..n] == CanonicalTrees(items[..n]);
    }
  }

  lemma {:induction false} EncodedEntriesIsPrinted(d: Value, keys: seq<seq<byte>>)
    requires d.Dict? && Elements(keys) <= d.entries.Keys
    ensures EncodedEntries(d, keys) == PrintEntries(CanonicalEntries(d, keys))
    decreases d, 0, |keys|
  {
    if keys != [] {
      var n := |keys| - 1;
      EncodedEntriesIsPrinted(d, keys[..n]);
      EncodedIsPrinted(d.entries[keys[n]]);
      assert CanonicalEntries(d, keys)[..n] == CanonicalEntries(d, keys[..n]);
    }
  }

  // ---------- the canonical tree spells its value ----------

  lemma {:induction false} FormatRoundTrip(i: int)
    requires MIN_INT64 <= i <= MAX_INT64
    ensures IntText(FormatInt(i)) && FormatInt(i)[0] != PLUS
    ensures ParseInt64(FormatInt(i)) == Some(i)
  {
    var n: nat := if i < 0 then -i else i;
    NumberOfDigits(n);
    var text := FormatInt(i);
    if i < 0 {
      assert text[1..] == Digits(n);
    }
  }

  lemma {:induction false} CanonicalTreeSpells(v: Value)
    requires Representable(v)
    ensures WellFormed(CanonicalTree(v)) && Canonical(CanonicalTree(v))
    ensures ValueOf(CanonicalTree(v)) == v
    decreases v
  {
    match v
    case Str(_) =>
    case Int(i) => FormatRoundTrip(i);
    case List(items) =>
      forall i | 0 <= i < |items|
        ensures WellFormed(CanonicalTrees(items)[i]) && Canonical(CanonicalTrees(items)[i])
        ensures ValueOf(CanonicalTrees(items)[i]) == items[i]
      {
        CanonicalTreeSpells(items[i]);
      }
      assert ValuesOf(CanonicalTrees(items)) == items;
    case Dict(m) =>
      var keys := SortedKeysOf(v);
      var entries := CanonicalEntries(v, keys);
      forall i | 0 <= i < |keys|
        ensures keys[i] in m && |keys[i]| <= MAX_INT64
        ensures WellFormed(entries[i].val) && Canonical(entries[i].val) && ValueOf(entries[i].val) == m[keys[i]]
      {
        assert keys[i] in Elements(keys);
        CanonicalTreeSpells(m[keys[i]]);
      }
      assert Keys(entries) == keys;
      MapOfDistinct(entries, m);
  }

  /** With ascending keys no entry is overridden, so the entries are the map. */
  lemma MapOfDistinct(entries: seq<Entry>, m: map<seq<byte>, Value>)
    requires EntriesWellFormed(entries) && Ascending(Keys(entries))
    requires Elements(Keys(entries)) == m.Keys
    requires forall i :: 0 <= i < |entries| ==> entries[i].key in m && ValueOf(entries[i].val) == m[entries[i].key]
    ensures MapOf(entries) == m
  {
    hide MapOf, ValueOf, WellFormed, Ascending;
    MapOfKeys(entries);
    forall k | k in m ensures MapOf(entries)[k] == m[k] {
      var i :| 0 <= i < |entries| && Keys(entries)[i] == k;
      MapOfAt(entries, i);
    }
  }

  lemma {:induction false} MapOfAt(entries: seq<Entry>, i: nat)
    requires EntriesWellFormed(entries) && Ascending(Keys(entries)) && i < |entries|
    ensures entries[i].key in MapOf(entries)
    ensures MapOf(entries)[entries[i].key] == ValueOf(entries[i].val)
  {
    var n := |entries| - 1;
    if i < n {
      assert Keys(entries[..n]) == Keys(entries)[..n];
      MapOfAt(entries[..n], i);
      assert Less(Keys(entries)[i], Keys(entries)[n]);
      LessTotal(entries[i].key, entries[i].key);
    }
  }

  // ---------- a canonical tree is the canonical tree of its value ----------

  lemma CanonicalText(text: seq<byte>)
    requires IntText(text) && text[0] != PLUS
    ensures FormatInt(ParseInt64(text).value) == text
    ensures MIN_INT64 <= ParseInt64(text).value <= MAX_INT64
  {
    var digits := if text[0] == MINUS then text[1..] else text;
    assert Minimal(digits);
    DigitsOfNumber(digits);
    assert text[0] == MINUS ==> text == [MINUS] + digits && digits[0] == text[1];
  }

  /** The legal integer texts are those of the 64-bit numbers as they are formatted, and those that begin
      with a '+'. */
  lemma LegalIntegers(text: seq<byte>)
    ensures IntText(text) <==> ParseInt64(text).Some? && (text[0] == 43 || text == FormatInt(ParseInt64(text).value))
  {
    if ParseInt64(text).Some? {
      var i := ParseInt64(text).value;
      if IntText(text) {
        if text[0] != PLUS { CanonicalText(text); }
      } else if text == FormatInt(i) {
        FormatRoundTrip(i);
      }
    }
  }

  lemma {:induction false} CanonicalTreeUnique(t: Tree)
    requires WellFormed(t) && Canonical(t)
    ensures CanonicalTree(ValueOf(t)) == t
    decreases t
  {
    match t
    case TStr(_) =>
    case TInt(text) => CanonicalText(text);
    case TList(items) =>
      forall i | 0 <= i < |items| ensures CanonicalTree(ValuesOf(items)[i]) == items[i] {
        CanonicalTreeUnique(items[i]);
      }
      assert CanonicalTrees(ValuesOf(items)) == items;
    case TDict(entries) =>
      var d := ValueOf(t);
      MapOfKeys(entries);
      AscendingUnique(SortedKeysOf(d), Keys(entries));
      forall i | 0 <= i < |entries|
        ensures CanonicalEntries(d, Keys(entries))[i] == entries[i]
      {
        MapOfAt(entries, i);
        CanonicalTreeUnique(entries[i].val);
        assert entries[i] == Entry(entries[i].key, entries[i].val);
      }
      assert CanonicalEntries(d, Keys(entries)) == entries;
  }

  // ---------- the round trips ----------

  /** Decoding an encoding gives the value back and stops exactly at its end, whatever follows. */
  lemma RoundTripWithRemainder(v: Value, rest: seq<byte>)
    requires Representable(v)
    ensures var r := ParseValue(Encoded(v) + rest, 0);
            r.Ok? && r.next == |Encoded(v)| && WellFormed(r.value) && ValueOf(r.value) == v
  {
    var t := CanonicalTree(v);
    EncodedIsPrinted(v);
    CanonicalTreeSpells(v);
    ParseValueComplete(Encoded(v) + rest, 0, t);
  }

  /** Re-encoding what was decoded gives the input back exactly when the input is canonical. */
  lemma ReencodingExact(x: seq<byte>)
    requires ParseAll(x).Ok?
    ensures var t := ParseAll(x).value;
            WellFormed(t) && (Encoded(ValueOf(t)) == x <==> Canonical(t))
  {
    AcceptsExactlyTheGrammar(x);
    var t :| WellFormed(t) && Print(t) == x;
    var v := ValueOf(t);
    EncodedIsPrinted(v);
    if Canonical(t) {
      CanonicalTreeUnique(t);
    } else if Encoded(v) == x {
      RepresentableValue(t);
      CanonicalTreeSpells(v);
      Unambiguous(CanonicalTree(v), t);
    }
  }

  /** A decoded value is always within what Go's types represent. */
  lemma {:induction false} RepresentableValue(t: Tree)
    requires WellFormed(t)
    ensures Representable(ValueOf(t))
  {
    match t
    case TStr(_) =>
    case TInt(_) =>
    case TList(items) =>
      forall i | 0 <= i < |items| ensures Representable(ValuesOf(items)[i]) {
        RepresentableValue(items[i]);
      }
    case TDict(entries) =>
      RepresentableMap(entries);
  }

  lemma {:induction false} RepresentableMap(entries: seq<Entry>)
    requires EntriesWellFormed(entries)
    ensures forall k :: k in MapOf(entries) ==> |k| <= MAX_INT64 && Representable(MapOf(entries)[k])
  {
    if entries != [] {
      RepresentableMap(entries[..|entries| - 1]);
      RepresentableValue(entries[|entries| - 1].val);
    }
  }

  /** Encodings are always accepted, and distinct values have distinct encodings. */
  lemma EncodedInjective(v: Value, w: Value)
    requires Representable(v) && Representable(w)
    ensures ParseAll(Encoded(v)).Ok?
    ensures Encoded(v) == Encoded(w) ==> v == w
  {
    RoundTripWithRemainder(v, []);
    RoundTripWithRemainder(w, []);
    assert Encoded(v) + [] == Encoded(v) && Encoded(w) + [] == Encoded(w);
  }

  /** The bytes of an encoding, spelled out: a string, a small number. */
  lemma ScalarLayout(b: seq<byte>, n: nat)
    ensures Encoded(Str(b)) == Digits(|b|) + [58] + b
    ensures n < 10 ==> Digits(n) == [48 + n as byte] && Encoded(Int(n)) == [105, 48 + n as byte, 101]
    ensures 0 < n < 10 ==> Encoded(Int(-(n as int))) == [105, 45, 48 + n as byte, 101]
  {
  }

  lemma NoElements(keys: seq<seq<byte>>)
    ensures Elements(keys) == {} <==> keys == []
  {
    if keys != [] { assert keys[0] in Elements(keys); }
  }

  /** Empty containers, and a list of two. */
  lemma ListLayout(v: Value, w: Value)
    ensures Encoded(List([])) == [108, 101] && Encoded(Dict(map[])) == [100, 101]
    ensures Encoded(List([v, w])) == [108] + (Encoded(v) + Encoded(w)) + [101]
  {
    assert [v, w][..1] == [v] && [v][..0] == [];
    assert EncodedItems([]) == [];
    assert EncodedItems([v]) == Encoded(v);
    NoElements(SortedKeysOf(Dict(map[])));
  }

  lemma EncodedTwo(d: Value, j: seq<byte>, k: seq<byte>)
    requires d.Dict? && j in d.entries && k in d.entries && Elements([j, k]) <= d.entries.Keys
    ensures EncodedEntries(d, [j, k])
         == PrintStr(j) + Encoded(d.entries[j]) + (PrintStr(k) + Encoded(d.entries[k]))
  {
    hide PrintStr, Encoded;
    assert [j, k][..1] == [j] && [j][..0] == [];
    assert EncodedEntries(d, []) == [];
    assert EncodedEntries(d, [j]) == PrintStr(j) + Encoded(d.entries[j]);
  }

  lemma TwoKeysSorted(d: Value, j: seq<byte>, k: seq<byte>)
    requires d.Dict? && Less(j, k) && d.entries.Keys == {j, k}
    ensures SortedKeysOf(d) == [j, k]
  {
    assert Ascending([j, k]);
    assert Elements([j, k]) == {j, k};
    AscendingUnique(SortedKeysOf(d), [j, k]);
  }

  /** A dictionary's entries come in the order of their keys, whichever was put in first. */
  lemma TwoEntries(d: Value, j: seq<byte>, k: seq<byte>)
    requires d.Dict? && Less(j, k) && d.entries.Keys == {j, k}
    ensures Encoded(d)
         == [100] + (PrintStr(j) + Encoded(d.entries[j]) + (PrintStr(k) + Encoded(d.entries[k]))) + [101]
  {
    hide PrintStr, EncodedEntries;
    TwoKeysSorted(d, j, k);
    EncodedTwo(d, j, k);
  }

  /** An input is accepted and yet does not survive re-encoding. */
  ghost predicate ChangedByReencoding(x: seq<byte>) {
    ParseAll(x).Ok? && WellFormed(ParseAll(x).value) && Encoded(ValueOf(ParseAll(x).value)) != x
  }

  lemma NotCanonicalChanged(t: Tree)
    requires WellFormed(t) && !Canonical(t)
    ensures ChangedByReencoding(Print(t))
  {
    AcceptsExactlyTheGrammar(Print(t));
    ReencodingExact(Print(t));
  }

  /** A dictionary of two keys, with empty strings as values. */
  function TwoKeys(j: seq<byte>, k: seq<byte>): seq<byte> {
    [TOKEN_DICT] + (PrintEntry(Entry(j, TStr([]))) + PrintEntry(Entry(k, TStr([])))) + [TOKEN_END]
  }

  lemma PrintTwo(d: Entry, e: Entry)
    ensures PrintEntries([d, e]) == PrintEntry(d) + PrintEntry(e)
  {
    assert [d, e][..1] == [d] && [d][..0] == [];
    assert PrintEntries([]) == [];
    assert PrintEntries([d]) == PrintEntry(d);
  }

  /** It is changed by re-encoding unless the first key is the smaller. */
  lemma TwoKeysChanged(j: seq<byte>, k: seq<byte>)
    requires |j| <= MAX_INT64 && |k| <= MAX_INT64 && !Less(j, k)
    ensures ChangedByReencoding(TwoKeys(j, k))
  {
    var d, e := Entry(j, TStr([])), Entry(k, TStr([]));
    PrintTwo(d, e);
    assert !Less(Keys([d, e])[0], Keys([d, e])[1]);
    NotCanonicalChanged(TDict([d, e]));
  }

  /** The ways an accepted input can fail to be canonical: a '+' sign, a key that repeats, keys out
      of order. */
  lemma NonCanonicalInputs()
    ensures ChangedByReencoding([TOKEN_INT, PLUS, ZERO, TOKEN_END])
    ensures ChangedByReencoding(TwoKeys([], []))
    ensures ChangedByReencoding(TwoKeys([ZERO], []))
  {
    var plus := [PLUS, ZERO];
    assert ParseInt64(plus) == Some(0) by {
      assert plus[1..] == [ZERO];
      assert [ZERO][..0] == [];
      assert Number([]) == 0 && Number([ZERO]) == 0;
    }
    assert Print(TInt(plus)) == [TOKEN_INT, PLUS, ZERO, TOKEN_END];
    NotCanonicalChanged(TInt(plus));
    TwoKeysChanged([], []);
    TwoKeysChanged([ZERO], []);
  }
}
