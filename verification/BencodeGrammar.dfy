/** Bencoding as a grammar (BEP 3, section "bencoding"), the reference both the decoder and
    the encoder are measured against. A `Tree` is a parse tree that keeps what a value forgets:
    the text of integers, and the order and repetition of dictionary entries. */
module BencodeGrammar {
  import opened Bytes
  import opened Seqs
  import opened Strconv

  const COLON: byte := 58
  const TOKEN_DICT: byte := 100
  const TOKEN_END: byte := 101
  const TOKEN_INT: byte := 105
  const TOKEN_LIST: byte := 108

  /** What decoding returns and encoding takes. */
  datatype Value =
    | Str(bytes: seq<byte>)
    | Int(i: int)
    | List(items: seq<Value>)
    | Dict(entries: map<seq<byte>, Value>)

  datatype Tree =
    | TStr(bytes: seq<byte>)
    | TInt(text: seq<byte>)
    | TList(items: seq<Tree>)
    | TDict(entries: seq<Entry>)

  datatype Entry = Entry(key: seq<byte>, val: Tree)

  // ---------- meaning and spelling of a tree ----------

  ghost function ValueOf(t: Tree): Value
    requires WellFormed(t)
  {
    match t
    case TStr(b) => Str(b)
    case TInt(text) => Int(ParseInt64(text).value)
    case TList(items) => List(ValuesOf(items))
    case TDict(entries) => Dict(MapOf(entries))
  }

  ghost function ValuesOf(items: seq<Tree>): seq<Value>
    requires AllWellFormed(items)
  {
    seq(|items|, i requires 0 <= i < |items| => ValueOf(items[i]))
  }

  /** Later entries override earlier ones with the same key. */
  ghost function MapOf(entries: seq<Entry>): map<seq<byte>, Value>
    requires EntriesWellFormed(entries)
  {
    if entries == [] then map[]
    else
      var last := entries[|entries| - 1];
      MapOf(entries[..|entries| - 1])[last.key := ValueOf(last.val)]
  }

  function PrintStr(b: seq<byte>): seq<byte> {
    Digits(|b|) + [COLON] + b
  }

  function Print(t: Tree): seq<byte> {
    match t
    case TStr(b) => PrintStr(b)
    case TInt(text) => [TOKEN_INT] + text + [TOKEN_END]
    case TList(items) => [TOKEN_LIST] + PrintItems(items) + [TOKEN_END]
    case TDict(entries) => [TOKEN_DICT] + PrintEntries(entries) + [TOKEN_END]
  }

  function PrintItems(items: seq<Tree>): seq<byte> {
    if items == [] then [] else PrintItems(items[..|items| - 1]) + Print(items[|items| - 1])
  }

  function PrintEntry(e: Entry): seq<byte> {
    PrintStr(e.key) + Print(e.val)
  }

  function PrintEntries(entries: seq<Entry>): seq<byte> {
    if entries == [] then []
    else PrintEntries(entries[..|entries| - 1]) + PrintEntry(entries[|entries| - 1])
  }

  // ---------- which trees are legal ----------

  /** Integer texts the decoder takes: an `int64`, an optional sign, no leading zero, no "-0".
      After '+' anything that is all digits passes, as ParseInt sees it. */
  ghost predicate IntText(text: seq<byte>) {
    && text != []
    && !(|text| > 1 && text[0] == ZERO)
    && !(|text| > 1 && text[0] == MINUS && text[1] == ZERO)
    && ParseInt64(text).Some?
  }

  ghost predicate WellFormed(t: Tree) {
    match t
    case TStr(b) => |b| <= MAX_INT64
    case TInt(text) => IntText(text)
    case TList(items) => AllWellFormed(items)
    case TDict(entries) => EntriesWellFormed(entries)
  }

  ghost predicate AllWellFormed(items: seq<Tree>) {
    forall i :: 0 <= i < |items| ==> WellFormed(items[i])
  }

  ghost predicate EntriesWellFormed(entries: seq<Entry>) {
    forall i :: 0 <= i < |entries| ==> |entries[i].key| <= MAX_INT64 && WellFormed(entries[i].val)
  }

  ghost function Keys(entries: seq<Entry>): seq<seq<byte>> {
    seq(|entries|, i requires 0 <= i < |entries| => entries[i].key)
  }

  /** Every dictionary's keys strictly ascend, and no integer carries a '+'. */
  ghost predicate Canonical(t: Tree) {
    match t
    case TStr(_) => true
    case TInt(text) => text != [] ==> text[0] != PLUS
    case TList(items) => forall i :: 0 <= i < |items| ==> Canonical(items[i])
    case TDict(entries) =>
      && Ascending(Keys(entries))
      && forall i :: 0 <= i < |entries| ==> Canonical(entries[i].val)
  }

  /** What Go's types guarantee of a value: lengths are `int`s and integers are `int64`s. */
  ghost predicate Representable(v: Value) {
    match v
    case Str(b) => |b| <= MAX_INT64
    case Int(i) => MIN_INT64 <= i <= MAX_INT64
    case List(items) => forall i :: 0 <= i < |items| ==> Representable(items[i])
    case Dict(m) => forall k :: k in m ==> |k| <= MAX_INT64 && Representable(m[k])
  }

  // ---------- small facts ----------

  lemma PrintNonEmpty(t: Tree)
    ensures |Print(t)| >= 2
    ensures t.TStr? ==> IsDigit(Print(t)[0])
    ensures t.TInt? ==> Print(t)[0] == TOKEN_INT
    ensures t.TList? ==> Print(t)[0] == TOKEN_LIST
    ensures t.TDict? ==> Print(t)[0] == TOKEN_DICT
  {
    if t.TStr? { NumberOfDigits(|t.bytes|); }
  }

  lemma {:induction false} MapOfKeys(entries: seq<Entry>)
    requires EntriesWellFormed(entries)
    ensures MapOf(entries).Keys == Elements(Keys(entries))
  {
    if entries == [] {
    } else {
      var init, last := entries[..|entries| - 1], entries[|entries| - 1];
      MapOfKeys(init);
      assert Keys(entries) == Keys(init) + [last.key];
    }
  }
}
