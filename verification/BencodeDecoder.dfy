/** The decoder as the program has it, a cursor over a byte slice, and the spans it records. */
module BencodeDecoder {
  import opened Bytes
  import opened Strconv
  import opened BencodeGrammar
  import opened BencodeParser

  datatype Node = Node(
    value: Value, start: nat, end: nat, dict: map<seq<byte>, Node>, list: seq<Node>)

  datatype Result<+T> = Success(value: T) | Failure(error: DecodeError)

  // ---------- the node of a tree spelled at a position ----------

  ghost function NodeOf(t: Tree, start: nat): (n: Node)
    requires WellFormed(t)
    ensures n.value == ValueOf(t) && n.start == start && n.end == start + |Print(t)|
    decreases t, 0
  {
    match t
    case TList(items) =>
      Node(ValueOf(t), start, start + |Print(t)|, map[], NodesOf(items, start + 1))
    case TDict(entries) =>
      Node(ValueOf(t), start, start + |Print(t)|, DictNodesOf(entries, start + 1), [])
    case _ =>
      Node(ValueOf(t), start, start + |Print(t)|, map[], [])
  }

  /** The node of the i-th item. */
  ghost function ItemNodeOf(items: seq<Tree>, i: nat, base: nat): Node
    requires AllWellFormed(items) && i < |items|
    decreases items[i], 1
  {
    NodeOf(items[i], base + |PrintItems(items[..i])|)
  }

  ghost function NodesOf(items: seq<Tree>, base: nat): seq<Node>
    requires AllWellFormed(items)
  {
    seq(|items|, i requires 0 <= i < |items| => ItemNodeOf(items, i, base))
  }

  /** The node of the i-th entry's value. */
  ghost function EntryNodeOf(entries: seq<Entry>, i: nat, base: nat): Node
    requires EntriesWellFormed(entries) && i < |entries|
    decreases entries[i], 1
  {
    NodeOf(entries[i].val, base + |PrintEntries(entries[..i])| + |PrintStr(entries[i].key)|)
  }

  ghost function DictNodesOf(entries: seq<Entry>, base: nat): map<seq<byte>, Node>
    requires EntriesWellFormed(entries)
  {
    if entries == [] then map[]
    else
      var n := |entries| - 1;
      DictNodesOf(entries[..n], base)[entries[n].key := EntryNodeOf(entries, n, base)]
  }

  // ---------- spans ----------

  /** n's span lies in data and decodes on its own to n's value; the children retained mirror
      that value, and their spans are strictly inside n's and pairwise disjoint. */
  ghost predicate Located(n: Node, data: seq<byte>) {
    && n.start < n.end <= |data|
    && DecodesTo(data[n.start..n.end], n.value)
    && (n.value.List? <==> n.value == List(seq(|n.list|, i requires 0 <= i < |n.list| => n.list[i].value)))
    && (n.value.Dict? <==> n.value == Dict(map k | k in n.dict :: n.dict[k].value))
    && (forall i :: 0 <= i < |n.list| ==> Inside(n.list[i], n) && Located(n.list[i], data))
    && (forall i, j :: 0 <= i < j < |n.list| ==> n.list[i].end <= n.list[j].start)
    && (forall k :: k in n.dict ==> Inside(n.dict[k], n) && Located(n.dict[k], data))
    && (forall j, k :: j in n.dict && k in n.dict && j != k ==> Disjoint(n.dict[j], n.dict[k]))
  }

  ghost predicate DecodesTo(x: seq<byte>, v: Value) {
    ParseAll(x).Ok? && WellFormed(ParseAll(x).value) && ValueOf(ParseAll(x).value) == v
  }

  ghost predicate Inside(child: Node, n: Node) {
    n.start < child.start && child.end < n.end
  }

  ghost predicate Disjoint(a: Node, b: Node) {
    a.end <= b.start || b.end <= a.start
  }

  /** Every node of a tree found in the data is located there. */
  lemma {:induction false} NodeLocated(t: Tree, data: seq<byte>, start: nat)
    requires WellFormed(t) && At(data, start, Print(t))
    ensures Located(NodeOf(t, start), data)
    decreases t, 1
  {
    PrintNonEmpty(t);
    AcceptsExactlyTheGrammar(Print(t));
    match t
    case TStr(_) =>
    case TInt(_) =>
    case TList(items) =>
      InnerAt(data, start, TOKEN_LIST, PrintItems(items));
      ItemsLocated(t, data, start + 1);
      ListLocated(items, data, start);
    case TDict(entries) =>
      InnerAt(data, start, TOKEN_DICT, PrintEntries(entries));
      EntriesLocated(t, data, start + 1);
      DictLocated(entries, data, start);
  }

  lemma {:induction false} ItemsLocated(t: Tree, data: seq<byte>, base: nat)
    requires t.TList? && AllWellFormed(t.items) && At(data, base, PrintItems(t.items))
    ensures var ns := NodesOf(t.items, base); forall i :: 0 <= i < |ns| ==> Located(ns[i], data)
    decreases t, 0
  {
    var ns := NodesOf(t.items, base);
    forall i | 0 <= i < |ns| ensures Located(ns[i], data) {
      ItemLocated(t.items[i], t.items, data, base, i);
    }
  }

  lemma {:induction false} ItemLocated(item: Tree, items: seq<Tree>, data: seq<byte>, base: nat, i: nat)
    requires AllWellFormed(items) && At(data, base, PrintItems(items))
    requires i < |items| && item == items[i]
    ensures Located(ItemNodeOf(items, i, base), data)
    decreases item, 2
  {
    hide Located, NodeOf, WellFormed, Print, PrintItems, At;
    var pos := base + |PrintItems(items[..i])|;
    assert WellFormed(item) && At(data, pos, Print(item)) by {
      var next := ItemAt(data, base, items, i, pos);
    }
    NodeLocated(item, data, pos);
  }

  lemma {:induction false} EntriesLocated(t: Tree, data: seq<byte>, base: nat)
    requires t.TDict? && EntriesWellFormed(t.entries) && At(data, base, PrintEntries(t.entries))
    ensures forall i :: 0 <= i < |t.entries| ==> Located(EntryNodeOf(t.entries, i, base), data)
    decreases t, 0
  {
    forall i | 0 <= i < |t.entries| ensures Located(EntryNodeOf(t.entries, i, base), data) {
      EntryLocated(t.entries[i], t.entries, data, base, i);
    }
  }

  lemma {:induction false} EntryLocated(e: Entry, entries: seq<Entry>, data: seq<byte>, base: nat, i: nat)
    requires EntriesWellFormed(entries) && At(data, base, PrintEntries(entries))
    requires i < |entries| && e == entries[i]
    ensures Located(EntryNodeOf(entries, i, base), data)
    decreases e.val, 2
  {
    hide Located, NodeOf, WellFormed, Print, PrintStr, PrintEntries, At;
    var mid := base + |PrintEntries(entries[..i])| + |PrintStr(e.key)|;
    assert WellFormed(e.val) && At(data, mid, Print(e.val)) by {
      var m, next := EntryAt(data, base, entries, i, base + |PrintEntries(entries[..i])|);
    }
    NodeLocated(e.val, data, mid);
  }

  lemma ListLocated(items: seq<Tree>, data: seq<byte>, start: nat)
    requires AllWellFormed(items) && At(data, start, Print(TList(items))) && At(data, start + 1, PrintItems(items))
    requires DecodesTo(Print(TList(items)), ValueOf(TList(items)))
    requires var ns := NodesOf(items, start + 1); forall i :: 0 <= i < |ns| ==> Located(ns[i], data)
    ensures Located(NodeOf(TList(items), start), data)
  {
    hide WellFormed, PrintItems, ParseAll;
    NodesApart(items, data, start + 1);
    ValuesOfNodes(items, start + 1);
  }

  lemma ValuesOfNodes(items: seq<Tree>, base: nat)
    requires AllWellFormed(items)
    ensures var ns := NodesOf(items, base);
            ValuesOf(items) == seq(|ns|, i requires 0 <= i < |ns| => ns[i].value)
  {
  }

  lemma NodesApart(items: seq<Tree>, data: seq<byte>, base: nat)
    requires AllWellFormed(items) && At(data, base, PrintItems(items))
    ensures var ns := NodesOf(items, base);
            && (forall i :: 0 <= i < |ns| ==> base <= ns[i].start && ns[i].end <= base + |PrintItems(items)|)
            && (forall i, j :: 0 <= i < j < |ns| ==> ns[i].end <= ns[j].start)
  {
    var ns := NodesOf(items, base);
    forall i | 0 <= i < |ns| ensures base <= ns[i].start && ns[i].end <= base + |PrintItems(items)| {
      ItemBounds(items, data, base, i, |items|);
      assert items[..|items|] == items;
    }
    forall i, j | 0 <= i < j < |ns| ensures ns[i].end <= ns[j].start {
      ItemBounds(items, data, base, i, j);
    }
  }

  lemma ItemBounds(items: seq<Tree>, data: seq<byte>, base: nat, i: nat, j: nat)
    requires AllWellFormed(items) && At(data, base, PrintItems(items)) && i < j <= |items|
    ensures var n := NodesOf(items, base)[i];
            base + |PrintItems(items[..i])| <= n.start && n.end <= base + |PrintItems(items[..j])|
  {
    var next := ItemAt(data, base, items, i, base + |PrintItems(items[..i])|);
    ItemsLength(items, i + 1, j);
  }

  lemma DictLocated(entries: seq<Entry>, data: seq<byte>, start: nat)
    requires EntriesWellFormed(entries)
    requires At(data, start, Print(TDict(entries))) && At(data, start + 1, PrintEntries(entries))
    requires DecodesTo(Print(TDict(entries)), ValueOf(TDict(entries)))
    requires var base := start + 1;
             forall i :: 0 <= i < |entries| ==> Located(EntryNodeOf(entries, i, base), data)
    ensures Located(NodeOf(TDict(entries), start), data)
  {
    hide WellFormed, MapOf, DictNodesOf, PrintEntries, ParseAll;
    DictNodesApart(entries, data, start + 1);
    DictNodesMirror(entries, start + 1);
  }

  lemma InnerAt(data: seq<byte>, start: nat, token: byte, inner: seq<byte>)
    requires At(data, start, [token] + inner + [TOKEN_END])
    ensures At(data, start + 1, inner)
  {
    hide Located, WellFormed, DictNodesOf, NodeOf, PrintEntries, At;
    AtSplit(data, start, [token] + inner, [TOKEN_END]);
    AtSplit(data, start, [token], inner);
  }

  lemma {:induction false} ItemsLength(items: seq<Tree>, i: nat, j: nat)
    requires i <= j <= |items|
    ensures |PrintItems(items[..i])| <= |PrintItems(items[..j])|
    decreases j - i
  {
    if i < j {
      ItemsLength(items, i, j - 1);
      assert items[..j][..j - 1] == items[..j - 1];
    }
  }

  lemma {:induction false} EntriesLength(entries: seq<Entry>, i: nat, j: nat)
    requires i <= j <= |entries|
    ensures |PrintEntries(entries[..i])| <= |PrintEntries(entries[..j])|
    decreases j - i
  {
    if i < j {
      EntriesLength(entries, i, j - 1);
      assert entries[..j][..j - 1] == entries[..j - 1];
    }
  }

  /** A dictionary keeps one entry per key: where its node came from. */
  lemma {:induction false} DictNodeAt(entries: seq<Entry>, base: nat, k: seq<byte>) returns (i: nat)
    requires EntriesWellFormed(entries) && k in DictNodesOf(entries, base)
    ensures i < |entries| && entries[i].key == k
    ensures DictNodesOf(entries, base)[k] == EntryNodeOf(entries, i, base)
  {
    hide WellFormed, NodeOf;
    var n := |entries| - 1;
    if entries[n].key == k {
      i := n;
    } else {
      i := DictNodeAt(entries[..n], base, k);
      assert entries[..n][..i] == entries[..i];
    }
  }

  lemma {:induction false} DictNodesMirror(entries: seq<Entry>, base: nat)
    requires EntriesWellFormed(entries)
    ensures var nodes := DictNodesOf(entries, base);
            MapOf(entries) == map k | k in nodes :: nodes[k].value
  {
    if entries != [] {
      DictNodesMirror(entries[..|entries| - 1], base);
    }
  }

  lemma DictNodesApart(entries: seq<Entry>, data: seq<byte>, base: nat)
    requires EntriesWellFormed(entries) && At(data, base, PrintEntries(entries))
    requires forall i :: 0 <= i < |entries| ==> Located(EntryNodeOf(entries, i, base), data)
    ensures var ns := DictNodesOf(entries, base);
            && (forall k :: k in ns ==> Located(ns[k], data))
            && (forall k :: k in ns ==> base < ns[k].start && ns[k].end <= base + |PrintEntries(entries)|)
            && (forall j, k :: j in ns && k in ns && j != k ==> Disjoint(ns[j], ns[k]))
  {
    var ns := DictNodesOf(entries, base);
    forall k | k in ns
      ensures Located(ns[k], data) && base < ns[k].start && ns[k].end <= base + |PrintEntries(entries)|
    {
      var i := DictNodeAt(entries, base, k);
      EntryBounds(entries, data, base, i, |entries|);
      assert entries[..|entries|] == entries;
    }
    forall j, k | j in ns && k in ns && j != k ensures Disjoint(ns[j], ns[k]) {
      var x := DictNodeAt(entries, base, j);
      var y := DictNodeAt(entries, base, k);
      if x < y { EntryBounds(entries, data, base, x, y); } else { EntryBounds(entries, data, base, y, x); }
    }
  }

  lemma EntryBounds(entries: seq<Entry>, data: seq<byte>, base: nat, i: nat, j: nat)
    requires EntriesWellFormed(entries) && At(data, base, PrintEntries(entries)) && i < j <= |entries|
    ensures var n := EntryNodeOf(entries, i, base);
            base + |PrintEntries(entries[..i])| < n.start && n.end <= base + |PrintEntries(entries[..j])|
  {
    var mid, next := EntryAt(data, base, entries, i, base + |PrintEntries(entries[..i])|);
    EntriesLength(entries, i + 1, j);
  }

  /** The bytes hashed for the info-hash: the span of a dictionary value decodes, by itself,
      to that value. */
  lemma RawSliceOfDictValue(x: seq<byte>, key: seq<byte>)
    requires ParseAll(x).Ok? && WellFormed(ParseAll(x).value)
    requires var root := NodeOf(ParseAll(x).value, 0); key in root.dict
    ensures var root := NodeOf(ParseAll(x).value, 0);
            var child := root.dict[key];
            && 0 < child.start < child.end < |x|
            && root.value.Dict? && key in root.value.entries
            && DecodesTo(x[child.start..child.end], root.value.entries[key])
  {
    var t := ParseAll(x).value;
    AcceptsExactlyTheGrammar(x);
    NodeLocated(t, x, 0);
  }

  // ---------- the decoder ----------

  ghost predicate Agrees(p: Parsed<Tree>, start: nat, r: Result<Node>, pos: nat) {
    match p
    case Ok(t, next) => WellFormed(t) && r == Success(NodeOf(t, start)) && pos == next
    case Err(e) => r == Failure(e)
  }

  lemma ScanLengthStep(data: seq<byte>, pos: nat)
    requires pos <= |data|
    ensures ScanLength(data, pos)
         == if pos == |data| then Err(UnexpectedEOF) else if data[pos] == COLON then Ok((), pos)
            else if !IsDigit(data[pos]) then Err(BadLengthByte) else ScanLength(data, pos + 1)
  {
  }

  lemma ScanEndStep(data: seq<byte>, pos: nat)
    requires pos <= |data|
    ensures ScanEnd(data, pos)
         == if pos == |data| then Err(UnexpectedEOF) else if data[pos] == TOKEN_END then Ok((), pos)
            else ScanEnd(data, pos + 1)
  {
  }

  lemma StringRead(data: seq<byte>, start: nat, b: seq<byte>, next: nat)
    requires start < |data| && IsDigit(data[start]) && ParseString(data, start) == Ok(TStr(b), next)
    ensures Agrees(ParseString(data, start), start, Success(Node(Str(b), start, next, map[], [])), next)
  {
    hide ScanLength, Digits, Atoi;
    ParseStringSound(data, start);
    assert |data[start..next]| == next - start;
  }

  lemma IntegerRead(data: seq<byte>, start: nat, text: seq<byte>, next: nat)
    requires start < |data| && data[start] == TOKEN_INT && ParseInteger(data, start + 1) == Ok(TInt(text), next)
    ensures ParseInt64(text).Some?
    ensures Agrees(ParseInteger(data, start + 1), start,
                   Success(Node(Int(ParseInt64(text).value), start, next, map[], [])), next)
  {
    hide ScanEnd, ParseInt64;
    ParseIntegerSound(data, start);
    assert |data[start..next]| == next - start;
  }

  class Decoder {
    const data: seq<byte>
    var pos: nat

    constructor (data: seq<byte>)
      ensures this.data == data && pos == 0
    {
      this.data := data;
      pos := 0;
    }

    method ReadByte() returns (b: byte)
      requires pos < |data|
      modifies this
      ensures b == data[old(pos)] && pos == old(pos) + 1
    {
      b := data[pos];
      pos := pos + 1;
    }

    method DecodeValue() returns (r: Result<Node>)
      requires pos <= |data|
      modifies this
      ensures pos <= |data|
      ensures Agrees(ParseValue(data, old(pos)), old(pos), r, pos)
      decreases |data| - pos, 1
    {
      if pos >= |data| {
        return Failure(UnexpectedEOF);
      }
      var start := pos;
      var b := ReadByte();
      if IsDigit(b) {
        r := DecodeString(start, b);
      } else if b == TOKEN_INT {
        r := DecodeInt(start);
      } else if b == TOKEN_LIST {
        r := DecodeList(start);
      } else if b == TOKEN_DICT {
        r := DecodeDict(start);
      } else {
        return Failure(UnknownToken);
      }
    }

    method DecodeString(start: nat, first: byte) returns (r: Result<Node>)
      requires start < |data| && pos == start + 1
      requires first == data[start] && IsDigit(first)
      modifies this
      ensures pos <= |data|
      ensures Agrees(ParseString(data, start), start, r, pos)
    {
      hide ScanLength, Atoi, NodeOf, WellFormed, Print;
      var lengthStr := [first];
      while true
        invariant start < pos <= |data|
        invariant lengthStr == data[start..pos] && AllDigits(lengthStr)
        invariant ScanLength(data, start + 1) == ScanLength(data, pos)
        decreases |data| - pos
      {
        ScanLengthStep(data, pos);
        if pos >= |data| {
          return Failure(UnexpectedEOF);
        }
        var b := ReadByte();
        if b == COLON {
          break;
        }
        if !IsDigit(b) {
          return Failure(BadLengthByte);
        }
        lengthStr := lengthStr + [b];
      }
      if |lengthStr| > 1 && lengthStr[0] == ZERO {
        return Failure(LengthLeadingZero);
      }
      var length := Atoi(lengthStr);
      if length.None? {
        return Failure(LengthOutOfRange);
      }
      if |data| - pos < length.value {
        return Failure(UnexpectedEOF);
      }
      var end := pos + length.value;
      var value := data[pos..end];
      pos := end;
      StringRead(data, start, value, end);
      return Success(Node(Str(value), start, end, map[], []));
    }

    method DecodeInt(start: nat) returns (r: Result<Node>)
      requires start < |data| && pos == start + 1 && data[start] == TOKEN_INT
      modifies this
      ensures pos <= |data|
      ensures Agrees(ParseInteger(data, start + 1), start, r, pos)
    {
      hide ScanEnd, ParseInt64, NodeOf, WellFormed, Print;
      var buf := [];
      while true
        invariant start < pos <= |data|
        invariant buf == data[start + 1..pos]
        invariant ScanEnd(data, start + 1) == ScanEnd(data, pos)
        decreases |data| - pos
      {
        ScanEndStep(data, pos);
        if pos >= |data| {
          return Failure(UnexpectedEOF);
        }
        var b := ReadByte();
        if b == TOKEN_END {
          break;
        }
        buf := buf + [b];
      }
      if |buf| == 0 {
        return Failure(EmptyInteger);
      }
      if |buf| > 1 && buf[0] == ZERO {
        return Failure(IntegerLeadingZero);
      }
      if |buf| > 1 && buf[0] == MINUS && buf[1] == ZERO {
        return Failure(NegativeZero);
      }
      var value := ParseInt64(buf);
      if value.None? {
        return Failure(BadInteger);
      }
      IntegerRead(data, start, buf, pos);
      return Success(Node(Int(value.value), start, pos, map[], []));
    }

    method DecodeList(start: nat) returns (r: Result<Node>)
      requires start < |data| && pos == start + 1 && data[start] == TOKEN_LIST
      modifies this
      ensures pos <= |data|
      ensures Agrees(ParseValue(data, start), start, r, pos)
      decreases |data| - pos, 2
    {
      hide ParseItems, ParseValue, ItemsRead, NodesOf, ValuesOf, NodeOf, WellFormed, Print;
      var result, nodes := [], [];
      ghost var acc: seq<Tree> := [];
      NoItems(data, start + 1);
      while true
        invariant start < pos <= |data|
        invariant ItemsRead(data, start + 1, pos, acc) && AllWellFormed(acc)
        invariant result == ValuesOf(acc) && nodes == NodesOf(acc, start + 1)
        decreases |data| - pos
      {
        ItemsTurn(data, start, pos, acc);
        if pos >= |data| {
          return Failure(UnexpectedEOF);
        }
        if data[pos] == TOKEN_END {
          pos := pos + 1;
          break;
        }
        ghost var before := pos;
        var node := DecodeValue();
        if node.Failure? {
          return node;
        }
        result := result + [node.value.value];
        nodes := nodes + [node.value];
        acc := ItemTurn(data, start + 1, before, pos, acc);
      }
      ListDone(data, start, acc, pos);
      return Success(Node(List(result), start, pos, map[], nodes));
    }

    method DecodeDict(start: nat) returns (r: Result<Node>)
      requires start < |data| && pos == start + 1 && data[start] == TOKEN_DICT
      modifies this
      ensures pos <= |data|
      ensures Agrees(ParseValue(data, start), start, r, pos)
      decreases |data| - pos, 2
    {
      hide ParseEntries, ParseValue, EntriesRead, DictNodesOf, MapOf, NodeOf, WellFormed, Print;
      var result, nodes := map[], map[];
      ghost var acc: seq<Entry> := [];
      NoEntries(data, start + 1);
      while true
        invariant start < pos <= |data|
        invariant EntriesRead(data, start + 1, pos, acc) && EntriesWellFormed(acc)
        invariant result == MapOf(acc) && nodes == DictNodesOf(acc, start + 1)
        decreases |data| - pos
      {
        EntriesTurn(data, start, pos, acc);
        if pos >= |data| {
          return Failure(UnexpectedEOF);
        }
        if data[pos] == TOKEN_END {
          pos := pos + 1;
          break;
        }
        ghost var before := pos;
        var keyNode := DecodeValue();
        if keyNode.Failure? {
          return keyNode;
        }
        if !keyNode.value.value.Str? {
          return Failure(KeyNotString);
        }
        ghost var mid := pos;
        var valueNode := DecodeValue();
        if valueNode.Failure? {
          return valueNode;
        }
        var key := keyNode.value.value.bytes;
        result := result[key := valueNode.value.value];
        nodes := nodes[key := valueNode.value];
        acc := EntryTurn(data, start + 1, before, mid, pos, acc);
      }
      DictDone(data, start, acc, pos);
      return Success(Node(Dict(result), start, pos, nodes, []));
    }
  }

  // ---------- the loops' invariants, one turn at a time ----------

  ghost predicate ItemsRead(data: seq<byte>, base: nat, pos: nat, acc: seq<Tree>)
    requires base <= pos <= |data|
  {
    && ParseItems(data, base, []) == ParseItems(data, pos, acc)
    && AllWellFormed(acc)
    && data[base..pos] == PrintItems(acc)
  }

  lemma NoItems(data: seq<byte>, base: nat)
    requires base <= |data|
    ensures ItemsRead(data, base, base, []) && ValuesOf([]) == [] && NodesOf([], base) == []
  {
  }

  /** What ends the loop in an error ends the list in it. */
  lemma ItemsTurn(data: seq<byte>, start: nat, pos: nat, acc: seq<Tree>)
    requires start < pos <= |data| && data[start] == TOKEN_LIST && ItemsRead(data, start + 1, pos, acc)
    ensures pos == |data| ==> ParseValue(data, start) == Err(UnexpectedEOF)
    ensures pos < |data| && data[pos] != TOKEN_END && ParseValue(data, pos).Err? ==>
              ParseValue(data, start) == Err(ParseValue(data, pos).error)
  {
  }

  lemma ItemTurn(data: seq<byte>, base: nat, pos: nat, next: nat, acc: seq<Tree>) returns (acc': seq<Tree>)
    requires base <= pos < |data| && data[pos] != TOKEN_END && ItemsRead(data, base, pos, acc)
    requires ParseValue(data, pos).Ok? && ParseValue(data, pos).next == next
    ensures ItemsRead(data, base, next, acc') && AllWellFormed(acc')
    ensures var t := ParseValue(data, pos).value;
            && WellFormed(t)
            && ValuesOf(acc') == ValuesOf(acc) + [ValueOf(t)]
            && NodesOf(acc', base) == NodesOf(acc, base) + [NodeOf(t, pos)]
  {
    var t := ParseValue(data, pos).value;
    acc' := acc + [t];
    ParseValueSound(data, pos);
    ItemsSnoc(data, base, pos, next, acc, t);
    ItemsStep(data, pos, acc, next, t);
    ValuesSnoc(acc, t);
    NodesSnoc(acc, t, base);
  }

  lemma NodesSnoc(acc: seq<Tree>, t: Tree, base: nat)
    requires AllWellFormed(acc) && WellFormed(t)
    ensures NodesOf(acc + [t], base) == NodesOf(acc, base) + [NodeOf(t, base + |PrintItems(acc)|)]
  {
    var ns, last := NodesOf(acc, base), ItemNodeOf(acc + [t], |acc|, base);
    forall i | 0 <= i < |acc| ensures NodesOf(acc + [t], base)[i] == ns[i] {
      NodeKept(acc, t, base, i);
    }
    assert (acc + [t])[..|acc|] == acc;
    AppendedAt(NodesOf(acc + [t], base), ns, last);
  }

  lemma NodeKept(acc: seq<Tree>, t: Tree, base: nat, i: nat)
    requires AllWellFormed(acc) && WellFormed(t) && i < |acc|
    ensures ItemNodeOf(acc + [t], i, base) == ItemNodeOf(acc, i, base)
  {
    assert (acc + [t])[..i] == acc[..i];
  }

  lemma AppendedAt(longer: seq<Node>, shorter: seq<Node>, last: Node)
    requires |longer| == |shorter| + 1 && longer[|shorter|] == last
    requires forall i :: 0 <= i < |shorter| ==> longer[i] == shorter[i]
    ensures longer == shorter + [last]
  {
  }

  lemma ValuesSnoc(acc: seq<Tree>, t: Tree)
    requires AllWellFormed(acc) && WellFormed(t)
    ensures ValuesOf(acc + [t]) == ValuesOf(acc) + [ValueOf(t)]
  {
    var longer := ValuesOf(acc + [t]);
    assert forall i :: 0 <= i < |acc| ==> longer[i] == ValuesOf(acc)[i];
  }

  lemma ListDone(data: seq<byte>, start: nat, items: seq<Tree>, next: nat)
    requires start + 1 < next <= |data| && data[start] == TOKEN_LIST && data[next - 1] == TOKEN_END
    requires ItemsRead(data, start + 1, next - 1, items)
    ensures AllWellFormed(items)
    ensures Agrees(ParseValue(data, start), start,
                   Success(Node(List(ValuesOf(items)), start, next, map[], NodesOf(items, start + 1))), next)
  {
    Bracketed(data, start, next, TOKEN_LIST, PrintItems(items));
    assert |data[start..next]| == next - start;
  }

  ghost predicate EntriesRead(data: seq<byte>, base: nat, pos: nat, acc: seq<Entry>)
    requires base <= pos <= |data|
  {
    && ParseEntries(data, base, []) == ParseEntries(data, pos, acc)
    && EntriesWellFormed(acc)
    && data[base..pos] == PrintEntries(acc)
  }

  lemma NoEntries(data: seq<byte>, base: nat)
    requires base <= |data|
    ensures EntriesRead(data, base, base, []) && MapOf([]) == map[] && DictNodesOf([], base) == map[]
  {
  }

  /** What ends the loop in an error ends the dictionary in it. */
  lemma EntriesTurn(data: seq<byte>, start: nat, pos: nat, acc: seq<Entry>)
    requires start < pos <= |data| && data[start] == TOKEN_DICT && EntriesRead(data, start + 1, pos, acc)
    ensures pos == |data| ==> ParseValue(data, start) == Err(UnexpectedEOF)
    ensures pos < |data| && data[pos] != TOKEN_END ==>
              match ParseValue(data, pos)
              case Err(e) => ParseValue(data, start) == Err(e)
              case Ok(k, mid) =>
                if !k.TStr? then ParseValue(data, start) == Err(KeyNotString)
                else ParseValue(data, mid).Err? ==> ParseValue(data, start) == Err(ParseValue(data, mid).error)
  {
  }

  lemma EntryTurn(data: seq<byte>, base: nat, pos: nat, mid: nat, next: nat, acc: seq<Entry>)
    returns (acc': seq<Entry>)
    requires base <= pos < |data| && data[pos] != TOKEN_END && EntriesRead(data, base, pos, acc)
    requires ParseValue(data, pos).Ok? && ParseValue(data, pos).next == mid && ParseValue(data, pos).value.TStr?
    requires ParseValue(data, mid).Ok? && ParseValue(data, mid).next == next
    ensures EntriesRead(data, base, next, acc') && EntriesWellFormed(acc')
    ensures var key, t := ParseValue(data, pos).value.bytes, ParseValue(data, mid).value;
            && WellFormed(t)
            && MapOf(acc') == MapOf(acc)[key := ValueOf(t)]
            && DictNodesOf(acc', base) == DictNodesOf(acc, base)[key := NodeOf(t, mid)]
  {
    hide ParseEntries, ParseValue, WellFormed, MapOf, DictNodesOf, NodeOf, Print, PrintEntries;
    var e := Entry(ParseValue(data, pos).value.bytes, ParseValue(data, mid).value);
    acc' := acc + [e];
    EntryReadTurn(data, base, pos, mid, next, acc, e);
    DictSnoc(acc, e, base);
  }

  lemma EntryReadTurn(data: seq<byte>, base: nat, pos: nat, mid: nat, next: nat, acc: seq<Entry>, e: Entry)
    requires base <= pos < |data| && data[pos] != TOKEN_END && EntriesRead(data, base, pos, acc)
    requires ParseValue(data, pos) == Ok(TStr(e.key), mid) && ParseValue(data, mid) == Ok(e.val, next)
    ensures |e.key| <= MAX_INT64 && WellFormed(e.val) && next <= |data|
    ensures EntriesRead(data, base, next, acc + [e])
    ensures mid == base + |PrintEntries(acc)| + |PrintStr(e.key)|
  {
    EntryRead(data, pos, mid, next, e);
    EntriesSnoc(data, base, pos, next, acc, e);
    EntriesStep(data, pos, acc, mid, next, e);
    EntryPlace(data, base, pos, mid, acc, e.key);
  }

  lemma EntryRead(data: seq<byte>, pos: nat, mid: nat, next: nat, e: Entry)
    requires pos < |data| && ParseValue(data, pos) == Ok(TStr(e.key), mid)
    requires ParseValue(data, mid) == Ok(e.val, next)
    ensures pos < mid < next <= |data| && |e.key| <= MAX_INT64 && WellFormed(e.val)
    ensures data[pos..mid] == PrintStr(e.key) && data[pos..next] == PrintEntry(e)
  {
    KeyRead(data, pos, mid, e.key);
    ParseValueSound(data, mid);
    Joined(data, pos, mid, next, PrintStr(e.key), Print(e.val));
  }

  lemma KeyRead(data: seq<byte>, pos: nat, mid: nat, key: seq<byte>)
    requires pos < |data| && ParseValue(data, pos) == Ok(TStr(key), mid)
    ensures pos < mid <= |data| && |key| <= MAX_INT64 && data[pos..mid] == PrintStr(key)
  {
    ParseValueSound(data, pos);
  }

  lemma Joined(data: seq<byte>, pos: nat, mid: nat, next: nat, a: seq<byte>, b: seq<byte>)
    requires pos <= mid <= next <= |data| && data[pos..mid] == a && data[mid..next] == b
    ensures data[pos..next] == a + b
  {
    assert data[pos..next] == data[pos..mid] + data[mid..next];
  }

  lemma EntryPlace(data: seq<byte>, base: nat, pos: nat, mid: nat, acc: seq<Entry>, key: seq<byte>)
    requires base <= pos <= mid <= |data|
    requires data[base..pos] == PrintEntries(acc) && data[pos..mid] == PrintStr(key)
    ensures mid == base + |PrintEntries(acc)| + |PrintStr(key)|
  {
    assert |data[base..pos]| == pos - base && |data[pos..mid]| == mid - pos;
  }

  lemma DictSnoc(acc: seq<Entry>, e: Entry, base: nat)
    requires EntriesWellFormed(acc) && |e.key| <= MAX_INT64 && WellFormed(e.val)
    ensures MapOf(acc + [e]) == MapOf(acc)[e.key := ValueOf(e.val)]
    ensures DictNodesOf(acc + [e], base)
         == DictNodesOf(acc, base)[e.key := NodeOf(e.val, base + |PrintEntries(acc)| + |PrintStr(e.key)|)]
  {
    assert (acc + [e])[..|acc|] == acc;
  }

  lemma DictDone(data: seq<byte>, start: nat, entries: seq<Entry>, next: nat)
    requires start + 1 < next <= |data| && data[start] == TOKEN_DICT && data[next - 1] == TOKEN_END
    requires EntriesRead(data, start + 1, next - 1, entries)
    ensures EntriesWellFormed(entries)
    ensures Agrees(ParseValue(data, start), start,
                   Success(Node(Dict(MapOf(entries)), start, next, DictNodesOf(entries, start + 1), [])), next)
  {
    Bracketed(data, start, next, TOKEN_DICT, PrintEntries(entries));
    assert |data[start..next]| == next - start;
  }

  /** The whole input as one node. */
  method DecodeWithRaw(data: seq<byte>) returns (r: Result<Node>)
    ensures r.Success? <==> ParseAll(data).Ok?
    ensures r.Failure? ==> ParseAll(data) == Err(r.error)
    ensures r.Success? ==> WellFormed(ParseAll(data).value) && r.value == NodeOf(ParseAll(data).value, 0)
    ensures r.Success? ==> Located(r.value, data) && r.value.start == 0 && r.value.end == |data|
  {
    var d := new Decoder(data);
    r := d.DecodeValue();
    if r.Success? {
      if d.pos != |data| {
        return Failure(TrailingData);
      }
      AcceptsExactlyTheGrammar(data);
      NodeLocated(ParseAll(data).value, data, 0);
    }
  }
}
