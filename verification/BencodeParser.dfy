/** The decoder's algorithm as a function on positions, and its two halves of correctness with
    respect to the grammar: it accepts only spellings of trees, and it accepts all of them. */
module BencodeParser {
  import opened Bytes
  import opened Strconv
  import opened BencodeGrammar

  datatype DecodeError =
    | UnexpectedEOF
    | UnknownToken
    | BadLengthByte
    | LengthLeadingZero
    | LengthOutOfRange
    | EmptyInteger
    | IntegerLeadingZero
    | NegativeZero
    | BadInteger
    | KeyNotString
    | TrailingData

  /** A parsed item and the position just after it, or the first error met. */
  datatype Parsed<+T> = Ok(value: T, next: nat) | Err(error: DecodeError)

  /** The ':' that ends a string length; only digits may precede it. */
  function ScanLength(data: seq<byte>, pos: nat): (r: Parsed<()>)
    requires pos <= |data|
    ensures r.Ok? ==> pos <= r.next < |data| && data[r.next] == COLON && AllDigits(data[pos..r.next])
    decreases |data| - pos
  {
    if pos == |data| then Err(UnexpectedEOF)
    else if data[pos] == COLON then Ok((), pos)
    else if !IsDigit(data[pos]) then Err(BadLengthByte)
    else ScanLength(data, pos + 1)
  }

  function ParseString(data: seq<byte>, start: nat): (r: Parsed<Tree>)
    requires start < |data| && IsDigit(data[start])
    ensures r.Ok? ==> start < r.next <= |data|
  {
    match ScanLength(data, start + 1)
    case Err(e) => Err(e)
    case Ok(_, colon) =>
      var text := data[start..colon];
      if |text| > 1 && text[0] == ZERO then Err(LengthLeadingZero)
      else
        match Atoi(text)
        case None => Err(LengthOutOfRange)
        case Some(n) =>
          if |data| - (colon + 1) < n then Err(UnexpectedEOF)
          else Ok(TStr(data[colon + 1..colon + 1 + n]), colon + 1 + n)
  }

  /** The first 'e' at or after pos. */
  function ScanEnd(data: seq<byte>, pos: nat): (r: Parsed<()>)
    requires pos <= |data|
    ensures r.Ok? ==> pos <= r.next < |data| && data[r.next] == TOKEN_END && TOKEN_END !in data[pos..r.next]
    decreases |data| - pos
  {
    if pos == |data| then Err(UnexpectedEOF)
    else if data[pos] == TOKEN_END then Ok((), pos)
    else ScanEnd(data, pos + 1)
  }

  /** pos is just after the 'i'. */
  function ParseInteger(data: seq<byte>, pos: nat): (r: Parsed<Tree>)
    requires pos <= |data|
    ensures r.Ok? ==> pos < r.next <= |data|
  {
    match ScanEnd(data, pos)
    case Err(e) => Err(e)
    case Ok(_, end) =>
      var text := data[pos..end];
      if text == [] then Err(EmptyInteger)
      else if |text| > 1 && text[0] == ZERO then Err(IntegerLeadingZero)
      else if |text| > 1 && text[0] == MINUS && text[1] == ZERO then Err(NegativeZero)
      else if ParseInt64(text).None? then Err(BadInteger)
      else Ok(TInt(text), end + 1)
  }

  function ParseValue(data: seq<byte>, pos: nat): (r: Parsed<Tree>)
    requires pos <= |data|
    ensures r.Ok? ==> pos < r.next <= |data|
    decreases |data| - pos, 0
  {
    if pos == |data| then Err(UnexpectedEOF)
    else if IsDigit(data[pos]) then ParseString(data, pos)
    else if data[pos] == TOKEN_INT then ParseInteger(data, pos + 1)
    else if data[pos] == TOKEN_LIST then
      match ParseItems(data, pos + 1, [])
      case Err(e) => Err(e)
      case Ok(items, next) => Ok(TList(items), next)
    else if data[pos] == TOKEN_DICT then
      match ParseEntries(data, pos + 1, [])
      case Err(e) => Err(e)
      case Ok(entries, next) => Ok(TDict(entries), next)
    else Err(UnknownToken)
  }

  function ParseItems(data: seq<byte>, pos: nat, acc: seq<Tree>): (r: Parsed<seq<Tree>>)
    requires pos <= |data|
    ensures r.Ok? ==> pos < r.next <= |data|
    decreases |data| - pos, 1
  {
    if pos == |data| then Err(UnexpectedEOF)
    else if data[pos] == TOKEN_END then Ok(acc, pos + 1)
    else
      match ParseValue(data, pos)
      case Err(e) => Err(e)
      case Ok(t, next) => ParseItems(data, next, acc + [t])
  }

  function ParseEntries(data: seq<byte>, pos: nat, acc: seq<Entry>): (r: Parsed<seq<Entry>>)
    requires pos <= |data|
    ensures r.Ok? ==> pos < r.next <= |data|
    decreases |data| - pos, 1
  {
    if pos == |data| then Err(UnexpectedEOF)
    else if data[pos] == TOKEN_END then Ok(acc, pos + 1)
    else
      match ParseValue(data, pos)
      case Err(e) => Err(e)
      case Ok(k, mid) =>
        if !k.TStr? then Err(KeyNotString)
        else
          match ParseValue(data, mid)
          case Err(e) => Err(e)
          case Ok(v, next) => ParseEntries(data, next, acc + [Entry(k.bytes, v)])
  }

  /** The whole input must be one value. */
  function ParseAll(data: seq<byte>): Parsed<Tree> {
    match ParseValue(data, 0)
    case Err(e) => Err(e)
    case Ok(t, next) => if next != |data| then Err(TrailingData) else Ok(t, next)
  }

  // ---------- soundness: what is accepted is a spelling of the tree returned ----------

  lemma {:induction false} ParseValueSound(data: seq<byte>, pos: nat)
    requires pos <= |data|
    ensures var r := ParseValue(data, pos);
            r.Ok? ==> WellFormed(r.value) && data[pos..r.next] == Print(r.value)
    decreases |data| - pos, 0
  {
    hide ParseItems, ParseEntries, ParseString, ParseInteger;
    if pos < |data| && ParseValue(data, pos).Ok? {
      if IsDigit(data[pos]) {
        ParseStringSound(data, pos);
      } else if data[pos] == TOKEN_INT {
        ParseIntegerSound(data, pos);
      } else if data[pos] == TOKEN_LIST {
        var r := ParseItems(data, pos + 1, []);
        ParseItemsSound(data, pos + 1, pos + 1, []);
        Bracketed(data, pos, r.next, TOKEN_LIST, PrintItems(r.value));
      } else {
        var r := ParseEntries(data, pos + 1, []);
        ParseEntriesSound(data, pos + 1, pos + 1, []);
        Bracketed(data, pos, r.next, TOKEN_DICT, PrintEntries(r.value));
      }
    }
  }

  lemma Bracketed(data: seq<byte>, pos: nat, next: nat, token: byte, inner: seq<byte>)
    requires pos + 1 < next <= |data|
    requires data[pos] == token && data[next - 1] == TOKEN_END && data[pos + 1..next - 1] == inner
    ensures data[pos..next] == [token] + inner + [TOKEN_END]
  {
  }

  lemma ParseIntegerSound(data: seq<byte>, pos: nat)
    requires pos < |data| && data[pos] == TOKEN_INT
    ensures var r := ParseInteger(data, pos + 1);
            r.Ok? ==> WellFormed(r.value) && data[pos..r.next] == Print(r.value)
  {
    var r := ParseInteger(data, pos + 1);
    if r.Ok? {
      Bracketed(data, pos, r.next, TOKEN_INT, r.value.text);
    }
  }

  lemma ParseStringSound(data: seq<byte>, start: nat)
    requires start < |data| && IsDigit(data[start])
    ensures var r := ParseString(data, start);
            r.Ok? ==> WellFormed(r.value) && data[start..r.next] == Print(r.value)
  {
    hide ScanLength, Digits;
    var r := ParseString(data, start);
    if r.Ok? {
      var colon := ScanLength(data, start + 1).next;
      var text := data[start..colon];
      assert text == [data[start]] + data[start + 1..colon];
      DigitsOfNumber(text);
      assert Digits(|r.value.bytes|) == text;
      Spliced(data, start, colon, r.next);
    }
  }

  lemma Spliced(data: seq<byte>, start: nat, colon: nat, next: nat)
    requires start <= colon < next <= |data| && data[colon] == COLON
    ensures data[start..next] == data[start..colon] + [COLON] + data[colon + 1..next]
  {
  }

  lemma {:induction false} ParseItemsSound(data: seq<byte>, base: nat, pos: nat, acc: seq<Tree>)
    requires base <= pos <= |data|
    requires AllWellFormed(acc) && data[base..pos] == PrintItems(acc)
    ensures var r := ParseItems(data, pos, acc);
            r.Ok? ==>
              && AllWellFormed(r.value)
              && data[base..r.next - 1] == PrintItems(r.value)
              && data[r.next - 1] == TOKEN_END
    decreases |data| - pos, 2
  {
    hide ParseValue, Print, PrintItems, WellFormed;
    if pos < |data| && data[pos] != TOKEN_END && ParseValue(data, pos).Ok? {
      var p := ParseValue(data, pos);
      ParseValueSound(data, pos);
      ItemsSnoc(data, base, pos, p.next, acc, p.value);
      ParseItemsSound(data, base, p.next, acc + [p.value]);
    }
  }

  lemma ItemsSnoc(data: seq<byte>, base: nat, pos: nat, next: nat, acc: seq<Tree>, t: Tree)
    requires base <= pos <= next <= |data|
    requires data[base..pos] == PrintItems(acc) && data[pos..next] == Print(t)
    ensures data[base..next] == PrintItems(acc + [t])
  {
    assert (acc + [t])[..|acc|] == acc;
    assert data[base..next] == data[base..pos] + data[pos..next];
  }

  /** The outcome of a dictionary's loop, if one, covers the spelling of its entries and an 'e'. */
  ghost predicate EntriesSpelled(data: seq<byte>, base: nat, r: Parsed<seq<Entry>>) {
    r.Ok? ==>
      && base < r.next <= |data|
      && EntriesWellFormed(r.value)
      && data[base..r.next - 1] == PrintEntries(r.value)
      && data[r.next - 1] == TOKEN_END
  }

  lemma {:induction false} ParseEntriesSound(data: seq<byte>, base: nat, pos: nat, acc: seq<Entry>)
    requires base <= pos <= |data|
    requires EntriesWellFormed(acc) && data[base..pos] == PrintEntries(acc)
    ensures EntriesSpelled(data, base, ParseEntries(data, pos, acc))
    decreases |data| - pos, 2
  {
    hide ParseValue, PrintEntry, PrintEntries, WellFormed;
    if pos < |data| && data[pos] != TOKEN_END && ParseEntries(data, pos, acc).Ok? {
      var e, next := EntrySound(data, pos, acc);
      EntriesSnoc(data, base, pos, next, acc, e);
      ParseEntriesSound(data, base, next, acc + [e]);
    }
  }

  /** One turn of the dictionary loop. */
  lemma {:induction false} EntrySound(data: seq<byte>, pos: nat, acc: seq<Entry>) returns (e: Entry, next: nat)
    requires pos < |data| && data[pos] != TOKEN_END && ParseEntries(data, pos, acc).Ok?
    ensures pos < next <= |data| && data[pos..next] == PrintEntry(e)
    ensures |e.key| <= MAX_INT64 && WellFormed(e.val)
    ensures ParseEntries(data, pos, acc) == ParseEntries(data, next, acc + [e])
    decreases |data| - pos, 1
  {
    hide PrintStr, Digits;
    var k := ParseValue(data, pos);
    ParseValueSound(data, pos);
    var v := ParseValue(data, k.next);
    ParseValueSound(data, k.next);
    e, next := Entry(k.value.bytes, v.value), v.next;
    assert data[pos..next] == data[pos..k.next] + data[k.next..next];
  }

  lemma EntriesSnoc(data: seq<byte>, base: nat, pos: nat, next: nat, acc: seq<Entry>, e: Entry)
    requires base <= pos <= next <= |data|
    requires data[base..pos] == PrintEntries(acc) && data[pos..next] == PrintEntry(e)
    requires EntriesWellFormed(acc) && |e.key| <= MAX_INT64 && WellFormed(e.val)
    ensures data[base..next] == PrintEntries(acc + [e])
    ensures EntriesWellFormed(acc + [e])
  {
    assert (acc + [e])[..|acc|] == acc;
    assert data[base..next] == data[base..pos] + data[pos..next];
  }

  // ---------- completeness: every spelling of a tree is accepted, whatever follows it ----------

  /** s stands at pos in data. */
  ghost predicate At(data: seq<byte>, pos: nat, s: seq<byte>) {
    pos + |s| <= |data| && data[pos..pos + |s|] == s
  }

  lemma AtSplit(data: seq<byte>, pos: nat, a: seq<byte>, b: seq<byte>)
    requires At(data, pos, a + b)
    ensures At(data, pos, a) && At(data, pos + |a|, b)
  {
    assert a == (a + b)[..|a|] && b == (a + b)[|a|..];
  }

  lemma {:induction false} ParseValueComplete(data: seq<byte>, pos: nat, t: Tree)
    requires WellFormed(t) && At(data, pos, Print(t))
    ensures ParseValue(data, pos) == Ok(t, pos + |Print(t)|)
    decreases t, 1, 0
  {
    hide ParseItems, ParseEntries, ParseString, ParseInteger, PrintStr;
    PrintNonEmpty(t);
    assert data[pos] == Print(t)[0];
    match t
    case TStr(b) =>
      ParseStringComplete(data, pos, b);
    case TInt(text) =>
      ParseIntegerComplete(data, pos, text);
    case TList(items) =>
      AtSplit(data, pos, [TOKEN_LIST] + PrintItems(items), [TOKEN_END]);
      AtSplit(data, pos, [TOKEN_LIST], PrintItems(items));
      ParseItemsComplete(data, pos + 1, t, 0, pos + 1);
    case TDict(entries) =>
      AtSplit(data, pos, [TOKEN_DICT] + PrintEntries(entries), [TOKEN_END]);
      AtSplit(data, pos, [TOKEN_DICT], PrintEntries(entries));
      ParseEntriesComplete(data, pos + 1, t, 0, pos + 1);
  }

  lemma {:induction false} ScanLengthComplete(data: seq<byte>, pos: nat, colon: nat)
    requires pos <= colon < |data| && data[colon] == COLON && AllDigits(data[pos..colon])
    ensures ScanLength(data, pos) == Ok((), colon)
    decreases colon - pos
  {
    if pos < colon {
      assert data[pos] == data[pos..colon][0];
      assert data[pos + 1..colon] == data[pos..colon][1..];
      ScanLengthComplete(data, pos + 1, colon);
    }
  }

  lemma ParseStringComplete(data: seq<byte>, pos: nat, b: seq<byte>)
    requires |b| <= MAX_INT64 && At(data, pos, PrintStr(b))
    ensures pos < |data| && IsDigit(data[pos])
    ensures ParseString(data, pos) == Ok(TStr(b), pos + |PrintStr(b)|)
  {
    hide ScanLength, Digits, At;
    var text := Digits(|b|);
    NumberOfDigits(|b|);
    AtSplit(data, pos, text + [COLON], b);
    AtSplit(data, pos, text, [COLON]);
    var colon := pos + |text|;
    assert data[pos] == text[0];
    assert data[pos + 1..colon] == text[1..];
    assert data[colon] == data[colon..colon + 1][0];
    ScanLengthComplete(data, pos + 1, colon);
  }

  lemma {:induction false} ScanEndComplete(data: seq<byte>, pos: nat, end: nat)
    requires pos <= end < |data| && data[end] == TOKEN_END && TOKEN_END !in data[pos..end]
    ensures ScanEnd(data, pos) == Ok((), end)
    decreases end - pos
  {
    if pos < end {
      assert data[pos] == data[pos..end][0];
      assert data[pos + 1..end] == data[pos..end][1..];
      ScanEndComplete(data, pos + 1, end);
    }
  }

  lemma ParseIntegerComplete(data: seq<byte>, pos: nat, text: seq<byte>)
    requires IntText(text) && At(data, pos, [TOKEN_INT] + text + [TOKEN_END])
    ensures ParseInteger(data, pos + 1) == Ok(TInt(text), pos + |text| + 2)
  {
    hide ScanEnd, ParseInt64;
    AtSplit(data, pos, [TOKEN_INT] + text, [TOKEN_END]);
    AtSplit(data, pos, [TOKEN_INT], text);
    var end := pos + 1 + |text|;
    assert data[end] == data[end..end + 1][0];
    assert data[pos + 1..end] == text;
    NoEndInText(text);
    ScanEndComplete(data, pos + 1, end);
  }

  lemma NoEndInText(text: seq<byte>)
    requires ParseInt64(text).Some?
    ensures TOKEN_END !in text
  {
    assert text == [text[0]] + text[1..];
  }

  lemma {:induction false} ParseItemsComplete(data: seq<byte>, base: nat, t: Tree, k: nat, pos: nat)
    requires t.TList? && WellFormed(t) && k <= |t.items|
    requires At(data, base, PrintItems(t.items))
    requires pos == base + |PrintItems(t.items[..k])|
    requires var end := base + |PrintItems(t.items)|; end < |data| && data[end] == TOKEN_END
    ensures pos <= |data|
    ensures ParseItems(data, pos, t.items[..k]) == Ok(t.items, base + |PrintItems(t.items)| + 1)
    decreases t, 0, |t.items| - k
  {
    hide ParseValue, Print, PrintItems, At;
    var items := t.items;
    if k == |items| {
      assert items[..k] == items;
    } else {
      var next := ItemAt(data, base, items, k, pos);
      ParseValueComplete(data, pos, items[k]);
      ItemsStep(data, pos, items[..k], next, items[k]);
      assert items[..k + 1] == items[..k] + [items[k]];
      ParseItemsComplete(data, base, t, k + 1, next);
    }
  }

  lemma ItemsStep(data: seq<byte>, pos: nat, acc: seq<Tree>, next: nat, t: Tree)
    requires pos < |data| && data[pos] != TOKEN_END
    requires ParseValue(data, pos) == Ok(t, next)
    ensures ParseItems(data, pos, acc) == ParseItems(data, next, acc + [t])
  {
  }

  lemma ItemAt(data: seq<byte>, base: nat, items: seq<Tree>, k: nat, pos: nat) returns (next: nat)
    requires k < |items| && At(data, base, PrintItems(items))
    requires pos == base + |PrintItems(items[..k])|
    ensures At(data, pos, Print(items[k])) && next == pos + |Print(items[k])|
    ensures next == base + |PrintItems(items[..k + 1])|
    ensures pos < |data| && data[pos] != TOKEN_END
  {
    hide Print, PrintItems;
    ItemsPrefix(items, k);
    var whole, upto := PrintItems(items), PrintItems(items[..k + 1]);
    AtSplit(data, base, upto, whole[|upto|..]) by { assert whole == upto + whole[|upto|..]; }
    AtSplit(data, base, PrintItems(items[..k]), Print(items[k]));
    PrintNonEmpty(items[k]);
    assert data[pos] == Print(items[k])[0];
    next := pos + |Print(items[k])|;
  }

  /** PrintItems of a prefix is a prefix. */
  lemma {:induction false} ItemsPrefix(items: seq<Tree>, k: nat)
    requires k < |items|
    ensures PrintItems(items[..k]) + Print(items[k]) == PrintItems(items[..k + 1]) <= PrintItems(items)
  {
    assert items[..k + 1][..k] == items[..k];
    if k + 1 == |items| {
      assert items[..k + 1] == items;
    } else {
      var init := items[..|items| - 1];
      assert init[..k] == items[..k] && init[..k + 1] == items[..k + 1];
      ItemsPrefix(init, k);
    }
  }

  lemma {:induction false} EntriesPrefix(entries: seq<Entry>, k: nat)
    requires k < |entries|
    ensures PrintEntries(entries[..k]) + PrintEntry(entries[k])
         == PrintEntries(entries[..k + 1]) <= PrintEntries(entries)
  {
    assert entries[..k + 1][..k] == entries[..k];
    if k + 1 == |entries| {
      assert entries[..k + 1] == entries;
    } else {
      var init := entries[..|entries| - 1];
      assert init[..k] == entries[..k] && init[..k + 1] == entries[..k + 1];
      EntriesPrefix(init, k);
    }
  }

  lemma {:induction false} ParseEntriesComplete(data: seq<byte>, base: nat, t: Tree, k: nat, pos: nat)
    requires t.TDict? && WellFormed(t) && k <= |t.entries|
    requires At(data, base, PrintEntries(t.entries))
    requires pos == base + |PrintEntries(t.entries[..k])|
    requires var end := base + |PrintEntries(t.entries)|; end < |data| && data[end] == TOKEN_END
    ensures pos <= |data|
    ensures ParseEntries(data, pos, t.entries[..k]) == Ok(t.entries, base + |PrintEntries(t.entries)| + 1)
    decreases t, 0, |t.entries| - k
  {
    hide ParseValue, Print, PrintStr, PrintEntries, At;
    var entries := t.entries;
    if k == |entries| {
      assert entries[..k] == entries;
    } else {
      var e, acc := entries[k], entries[..k];
      var mid, next := EntryAt(data, base, entries, k, pos);
      EntryComplete(data, pos, mid, acc, e);
      assert entries[..k + 1] == acc + [e];
      ParseEntriesComplete(data, base, t, k + 1, next);
    }
  }

  lemma {:induction false} EntryComplete(data: seq<byte>, pos: nat, mid: nat, acc: seq<Entry>, e: Entry)
    requires |e.key| <= MAX_INT64 && WellFormed(e.val)
    requires At(data, pos, PrintStr(e.key)) && mid == pos + |PrintStr(e.key)| && At(data, mid, Print(e.val))
    ensures pos <= |data| && mid + |Print(e.val)| <= |data|
    ensures ParseEntries(data, pos, acc) == ParseEntries(data, mid + |Print(e.val)|, acc + [e])
    decreases e.val, 2, 0
  {
    hide ParseValue, ParseEntries, Print, PrintStr, WellFormed;
    ParseKeyComplete(data, pos, e.key);
    ParseValueComplete(data, mid, e.val);
    EntriesStep(data, pos, acc, mid, mid + |Print(e.val)|, e);
  }

  lemma ParseKeyComplete(data: seq<byte>, pos: nat, key: seq<byte>)
    requires |key| <= MAX_INT64 && At(data, pos, PrintStr(key))
    ensures pos < |data| && data[pos] != TOKEN_END
    ensures ParseValue(data, pos) == Ok(TStr(key), pos + |PrintStr(key)|)
  {
    ParseStringComplete(data, pos, key);
  }

  lemma EntriesStep(data: seq<byte>, pos: nat, acc: seq<Entry>, mid: nat, next: nat, e: Entry)
    requires pos < |data| && data[pos] != TOKEN_END
    requires ParseValue(data, pos) == Ok(TStr(e.key), mid)
    requires ParseValue(data, mid) == Ok(e.val, next)
    ensures ParseEntries(data, pos, acc) == ParseEntries(data, next, acc + [e])
  {
  }

  lemma EntryAt(data: seq<byte>, base: nat, entries: seq<Entry>, k: nat, pos: nat) returns (mid: nat, next: nat)
    requires k < |entries| && At(data, base, PrintEntries(entries))
    requires pos == base + |PrintEntries(entries[..k])|
    ensures At(data, pos, PrintStr(entries[k].key)) && mid == pos + |PrintStr(entries[k].key)|
    ensures At(data, mid, Print(entries[k].val)) && next == mid + |Print(entries[k].val)|
    ensures next == base + |PrintEntries(entries[..k + 1])|
  {
    hide Print, PrintStr, PrintEntries;
    EntriesPrefix(entries, k);
    var e := entries[k];
    var whole, upto := PrintEntries(entries), PrintEntries(entries[..k + 1]);
    AtSplit(data, base, upto, whole[|upto|..]) by { assert whole == upto + whole[|upto|..]; }
    AtSplit(data, base, PrintEntries(entries[..k]), PrintEntry(e));
    AtSplit(data, pos, PrintStr(e.key), Print(e.val));
    mid := pos + |PrintStr(e.key)|;
    next := mid + |Print(e.val)|;
  }

  /** Acceptance, exactly: the decoder takes x iff x spells some well-formed tree. */
  lemma AcceptsExactlyTheGrammar(x: seq<byte>)
    ensures ParseAll(x).Ok? <==> exists t :: WellFormed(t) && Print(t) == x
    ensures forall t :: WellFormed(t) && Print(t) == x ==> ParseAll(x) == Ok(t, |x|)
  {
    if ParseAll(x).Ok? {
      ParseValueSound(x, 0);
      assert x[0..|x|] == x;
    }
    forall t | WellFormed(t) && Print(t) == x ensures ParseAll(x) == Ok(t, |x|) {
      ParseValueComplete(x, 0, t);
    }
  }

  /** Two well-formed trees never share a spelling, nor does one's spelling extend another's. */
  lemma Unambiguous(t: Tree, u: Tree)
    requires WellFormed(t) && WellFormed(u)
    requires Print(t) <= Print(u)
    ensures t == u
  {
    ParseValueComplete(Print(u), 0, t);
    ParseValueComplete(Print(u), 0, u);
  }
}
