/** The parts of Go's `strconv` the codec relies on: base-10 text of machine integers. */
module Strconv {
  import opened Bytes
  import opened Wrappers

  const PLUS: byte := 43
  const MINUS: byte := 45
  const ZERO: byte := 48

  predicate IsDigit(b: byte) {
    ZERO <= b < ZERO + 10
  }

  predicate AllDigits(s: seq<byte>) {
    forall i :: 0 <= i < |s| ==> IsDigit(s[i])
  }

  /** No superfluous leading zero. */
  predicate Minimal(s: seq<byte>) {
    s != [] && AllDigits(s) && (|s| > 1 ==> s[0] != ZERO)
  }

  function Digits(n: nat): seq<byte> {
    if n < 10 then [ZERO + n as byte] else Digits(n / 10) + [ZERO + (n % 10) as byte]
  }

  function Number(s: seq<byte>): nat
    requires AllDigits(s)
  {
    if s == [] then 0 else 10 * Number(s[..|s| - 1]) + (s[|s| - 1] - ZERO) as nat
  }

  lemma {:induction false} NumberOfDigits(n: nat)
    ensures Minimal(Digits(n))
    ensures Number(Digits(n)) == n
    ensures n > 0 ==> Digits(n)[0] != ZERO
  {
    if n >= 10 {
      NumberOfDigits(n / 10);
      var init := Digits(n / 10);
      assert Digits(n)[..|Digits(n)| - 1] == init;
      assert Digits(n)[0] == init[0];
    } else {
      assert Number([]) == 0;
    }
  }

  lemma {:induction false} DigitsOfNumber(s: seq<byte>)
    requires Minimal(s)
    ensures Digits(Number(s)) == s
    ensures s[0] != ZERO ==> Number(s) > 0
  {
    var init := s[..|s| - 1];
    assert s == init + [s[|s| - 1]];
    if init == [] {
      assert Number(init) == 0;
    } else {
      assert init[0] == s[0];
      DigitsOfNumber(init);
      assert Number(s) / 10 == Number(init);
    }
  }

  /** `strconv.Atoi` on a non-empty text of digits: a range error above the largest `int`. */
  function Atoi(s: seq<byte>): Option<nat>
    requires AllDigits(s)
  {
    if Number(s) <= MAX_INT64 then Some(Number(s)) else None
  }

  /** `strconv.ParseInt(s, 10, 64)`: one optional sign, then digits, then the range check. */
  function ParseInt64(s: seq<byte>): Option<int> {
    var signed := s != [] && (s[0] == PLUS || s[0] == MINUS);
    var digits := if signed then s[1..] else s;
    if digits == [] || !AllDigits(digits) then None
    else
      var n: int := Number(digits);
      var i := if s[0] == MINUS then -n else n;
      if MIN_INT64 <= i <= MAX_INT64 then Some(i) else None
  }

  /** What a text is read as: digits stand for their number, a '+' in front changes nothing and a '-'
      negates it, within 64 bits; everything else is an error. */
  lemma ParseInt64Exact(s: seq<byte>)
    ensures s != [] && AllDigits(s) ==>
              ParseInt64(s) == if Number(s) <= 0x7FFF_FFFF_FFFF_FFFF then Some(Number(s)) else None
    ensures |s| > 1 && s[0] == '+' as byte && AllDigits(s[1..]) ==> ParseInt64(s) == ParseInt64(s[1..])
    ensures |s| > 1 && s[0] == '-' as byte && AllDigits(s[1..]) ==>
              var n: int := Number(s[1..]);
              ParseInt64(s) == if n <= 0x8000_0000_0000_0000 then Some(-n) else None
    ensures s == [] || !(AllDigits(s[1..]) && (IsDigit(s[0]) || (|s| > 1 && s[0] in {'+' as byte, '-' as byte})))
            ==> ParseInt64(s) == None
  {
  }

  /** `%d` of an `int64`. */
  function FormatInt(i: int): seq<byte> {
    if i < 0 then [MINUS] + Digits(-i) else Digits(i)
  }
}
