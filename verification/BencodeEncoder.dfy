/** The encoder as the program has it: recursive dispatch over buffers filled by loops. */
module BencodeEncoder {
  import opened Bytes
  import opened Seqs
  import opened Strconv
  import opened BencodeGrammar
  import opened BencodeParser
  import opened BencodeEncoding

  method Encode(v: Value) returns (r: seq<byte>)
    ensures r == Encoded(v)
    ensures Representable(v) ==> ParseAll(r).Ok? && WellFormed(ParseAll(r).value) && ValueOf(ParseAll(r).value) == v
    decreases v, 1
  {
    match v {
      case Str(b) => r := EncodeString(b);
      case Int(i) => r := [TOKEN_INT] + FormatInt(i) + [TOKEN_END];
      case List(items) => r := EncodeList(v);
      case Dict(m) => r := EncodeDict(v);
    }
    if Representable(v) {
      RoundTripWithRemainder(v, []);
      assert Encoded(v) + [] == Encoded(v);
    }
  }

  method EncodeString(data: seq<byte>) returns (buf: seq<byte>)
    ensures buf == PrintStr(data)
  {
    buf := Digits(|data|);
    buf := buf + [COLON];
    buf := buf + data;
  }

  method EncodeList(v: Value) returns (buf: seq<byte>)
    requires v.List?
    ensures buf == Encoded(v)
    decreases v, 0
  {
    buf := [TOKEN_LIST];
    for n := 0 to |v.items|
      invariant buf == [TOKEN_LIST] + EncodedItems(v.items[..n])
    {
      var item := Encode(v.items[n]);
      assert v.items[..n + 1][..n] == v.items[..n];
      buf := buf + item;
    }
    assert v.items[..|v.items|] == v.items;
    buf := buf + [TOKEN_END];
  }

  /** Whatever order the map yields its keys in, the sort fixes the order written. */
  method EncodeDict(v: Value) returns (buf: seq<byte>)
    requires v.Dict?
    ensures buf == Encoded(v)
    decreases v, 0
  {
    buf := [TOKEN_DICT];
    var keys := KeysOf(v.entries);
    keys := SortStrings(keys);
    AscendingUnique(keys, SortedKeysOf(v));
    for n := 0 to |keys|
      invariant EntriesWritten(v, keys, n, buf)
    {
      EntryWritten(v, keys, n, buf);
      var key := EncodeString(keys[n]);
      buf := buf + key;
      var value := Encode(v.entries[keys[n]]);
      buf := buf + value;
    }
    assert keys[..|keys|] == keys;
    buf := buf + [TOKEN_END];
  }

  /** The buffer of a dictionary after n of its keys. */
  ghost predicate EntriesWritten(v: Value, keys: seq<seq<byte>>, n: nat, buf: seq<byte>)
    requires v.Dict? && n <= |keys|
  {
    Elements(keys[..n]) <= v.entries.Keys && buf == [TOKEN_DICT] + EncodedEntries(v, keys[..n])
  }

  lemma EntryWritten(v: Value, keys: seq<seq<byte>>, n: nat, buf: seq<byte>)
    requires v.Dict? && Elements(keys) == v.entries.Keys && n < |keys| && EntriesWritten(v, keys, n, buf)
    ensures keys[n] in v.entries
    ensures EntriesWritten(v, keys, n + 1, buf + PrintStr(keys[n]) + Encoded(v.entries[keys[n]]))
  {
    assert keys[n] in Elements(keys);
    assert keys[..n + 1][..n] == keys[..n];
  }

  /** The keys in some order. */
  method KeysOf(m: map<seq<byte>, Value>) returns (keys: seq<seq<byte>>)
    ensures Distinct(keys) && Elements(keys) == m.Keys
  {
    hide Distinct, Elements;
    keys := [];
    NoKeys();
    var unseen := m.Keys;
    while unseen != {}
      invariant Distinct(keys)
      invariant Elements(keys) + unseen == m.Keys && Elements(keys) !! unseen
      decreases |unseen|
    {
      var k :| k in unseen;
      OneMoreKey(keys, k);
      keys := keys + [k];
      unseen := unseen - {k};
    }
  }

  ghost predicate Distinct(keys: seq<seq<byte>>) {
    forall i, j :: 0 <= i < j < |keys| ==> keys[i] != keys[j]
  }

  lemma NoKeys()
    ensures Distinct([]) && Elements<seq<byte>>([]) == {}
  {
  }

  lemma OneMoreKey(keys: seq<seq<byte>>, k: seq<byte>)
    requires Distinct(keys) && k !in Elements(keys)
    ensures Distinct(keys + [k]) && Elements(keys + [k]) == Elements(keys) + {k}
  {
    assert forall i :: 0 <= i < |keys| ==> keys[i] in Elements(keys);
  }

  /** `sort.Strings` on keys without repetition. */
  method SortStrings(keys: seq<seq<byte>>) returns (sorted: seq<seq<byte>>)
    requires Distinct(keys)
    ensures Ascending(sorted) && Elements(sorted) == Elements(keys)
  {
    sorted := [];
    for n := 0 to |keys|
      invariant Ascending(sorted) && Elements(sorted) == Elements(keys[..n])
    {
      var k, p := keys[n], 0;
      assert k !in Elements(sorted);
      while p < |sorted| && Less(sorted[p], k)
        invariant p <= |sorted|
        invariant forall i :: 0 <= i < p ==> Less(sorted[i], k)
      {
        p := p + 1;
      }
      KeyInserted(sorted, p, k);
      sorted := Inserted(sorted, p, k);
      assert keys[..n + 1] == keys[..n] + [k];
    }
    assert keys[..|keys|] == keys;
  }

  lemma KeyInserted(sorted: seq<seq<byte>>, p: nat, k: seq<byte>)
    requires Ascending(sorted) && k !in Elements(sorted) && p <= |sorted|
    requires forall i :: 0 <= i < p ==> Less(sorted[i], k)
    requires p < |sorted| ==> !Less(sorted[p], k)
    ensures Ascending(Inserted(sorted, p, k)) && Elements(Inserted(sorted, p, k)) == Elements(sorted) + {k}
  {
    forall j | p <= j < |sorted| ensures Less(k, sorted[j]) {
      assert sorted[p] in Elements(sorted);
      LessTotal(k, sorted[p]);
      if p < j { LessTransitive(k, sorted[p], sorted[j]); }
    }
    InsertedSorted(sorted, p, k, (a, b) => Less(a, b));
    InsertedElements(sorted, p, k);
  }
}
