/** C strings and the few library functions on them that the modelled code relies on.
    A string is a sequence of characters; the terminating zero is the end of the sequence,
    and a byte is the character with that code. */
module Text {

  datatype Option<+T> = None | Some(value: T)

  const NUL: char := 0 as char

  /** tolower in the "C" locale. */
  function LowerChar(c: char): char {
    if 'A' <= c <= 'Z' then (c as int + 32) as char else c
  }

  function Lower(s: string): (r: string)
    ensures |r| == |s|
  {
    seq(|s|, i requires 0 <= i < |s| => LowerChar(s[i]))
  }

  /** The sign of strcmp. */
  function StrCmp(a: string, b: string): int {
    if a == "" then (if b == "" then 0 else -1)
    else if b == "" then 1
    else if a[0] < b[0] then -1
    else if a[0] > b[0] then 1
    else StrCmp(a[1..], b[1..])
  }

  /** compare_strings: strcmp, or the same after tolower on both sides. */
  function CompareStrings(a: string, b: string, caseSensitive: bool): int {
    if caseSensitive then StrCmp(a, b) else StrCmp(Lower(a), Lower(b))
  }

  /** Two keys name the same member. */
  predicate SameKey(a: string, b: string, caseSensitive: bool) {
    if caseSensitive then a == b else Lower(a) == Lower(b)
  }

  /** No two different keys of the set differ only in letter case. */
  ghost predicate CaseDistinct(keys: set<string>) {
    forall a, b :: a in keys && b in keys && Lower(a) == Lower(b) ==> a == b
  }

  /** Comparing keys of the set, with or without regard to case, tells different keys apart. */
  ghost predicate ToldApart(keys: set<string>, caseSensitive: bool) {
    caseSensitive || CaseDistinct(keys)
  }

  /** No other key of the set differs from this one in letter case only. */
  ghost predicate OnlyKey(key: string, keys: set<string>) {
    forall k :: k in keys && Lower(k) == Lower(key) ==> k == key
  }

  const UPPER_LETTERS: string := "ABCDEFGHIJKLMNOPQRSTUVWXYZ"
  const LOWER_LETTERS: string := "abcdefghijklmnopqrstuvwxyz"

  /** The letters of the first row change, each to the one below it. */
  lemma LowerRows(i: nat)
    requires i < 26
    ensures LowerChar(UPPER_LETTERS[i]) == LOWER_LETTERS[i]
  {
  }

  /** No other character changes. */
  lemma LowerOthers(c: char)
    requires LowerChar(c) != c
    ensures exists i :: 0 <= i < 26 && c == UPPER_LETTERS[i]
  {
    assert c == UPPER_LETTERS[c as int - 'A' as int];
  }

  /** The first different character decides, by its code, and a beginning comes before what it begins. */
  lemma {:induction false} StrCmpDecided(a: string, x: char, b: string, y: char, c: string)
    ensures x < y ==> StrCmp(a + ([x] + b), a + ([y] + c)) < 0
    ensures StrCmp(a, a + ([x] + b)) < 0
    decreases |a|
  {
    if a == "" {
      assert a + ([x] + b) == [x] + b && a + ([y] + c) == [y] + c;
    } else {
      StrCmpDecided(a[1..], x, b, y, c);
      assert (a + ([x] + b))[1..] == a[1..] + ([x] + b) && (a + ([y] + c))[1..] == a[1..] + ([y] + c);
    }
  }

  lemma LowerCons(s: string)
    requires s != ""
    ensures Lower(s) == [LowerChar(s[0])] + Lower(s[1..])
  {
  }

  lemma {:induction false} StrCmpZero(a: string, b: string)
    ensures StrCmp(a, b) == 0 <==> a == b
  {
    if a != "" && b != "" && a[0] == b[0] {
      StrCmpZero(a[1..], b[1..]);
      assert a == [a[0]] + a[1..] && b == [b[0]] + b[1..];
    }
  }

  lemma {:induction false} StrCmpAntisymmetric(a: string, b: string)
    ensures StrCmp(a, b) == -StrCmp(b, a)
  {
    if a != "" && b != "" && a[0] == b[0] {
      StrCmpAntisymmetric(a[1..], b[1..]);
    }
  }

  lemma {:induction false} StrCmpTransitive(a: string, b: string, c: string)
    requires StrCmp(a, b) <= 0 && StrCmp(b, c) <= 0
    ensures StrCmp(a, c) <= 0
    ensures StrCmp(a, b) < 0 || StrCmp(b, c) < 0 ==> StrCmp(a, c) < 0
  {
    if a != "" && b != "" && c != "" && a[0] == b[0] == c[0] {
      StrCmpTransitive(a[1..], b[1..], c[1..]);
    }
  }

  /** compare_strings is a total preorder whose zeros are the keys that name the same member. */
  lemma CompareStringsOrder(a: string, b: string, c: string, cs: bool)
    ensures CompareStrings(a, b, cs) == 0 <==> SameKey(a, b, cs)
    ensures CompareStrings(a, b, cs) == -CompareStrings(b, a, cs)
    ensures CompareStrings(a, b, cs) <= 0 && CompareStrings(b, c, cs) <= 0 ==> CompareStrings(a, c, cs) <= 0
    ensures CompareStrings(a, b, cs) <= 0 && CompareStrings(b, c, cs) <= 0
            && (CompareStrings(a, b, cs) < 0 || CompareStrings(b, c, cs) < 0)
            ==> CompareStrings(a, c, cs) < 0
  {
    var (x, y, z) := if cs then (a, b, c) else (Lower(a), Lower(b), Lower(c));
    StrCmpZero(x, y);
    StrCmpAntisymmetric(x, y);
    if StrCmp(x, y) <= 0 && StrCmp(y, z) <= 0 {
      StrCmpTransitive(x, y, z);
    }
  }

  function Max(a: nat, b: nat): nat { if a > b then a else b }

  lemma AppendAssociative<T>(a: seq<T>, b: seq<T>, c: seq<T>)
    ensures a + (b + c) == (a + b) + c
  {
  }

  // ----- decimal text of naturals (sprintf "%lu") -----

  function Digit(d: nat): char
    requires d < 10
  {
    ('0' as int + d) as char
  }

  predicate IsDigit(c: char) { '0' <= c <= '9' }

  predicate AllDigits(s: string) {
    forall i :: 0 <= i < |s| ==> IsDigit(s[i])
  }

  function DigitValue(c: char): nat
    requires IsDigit(c)
  {
    c as int - '0' as int
  }

  function Decimal(n: nat): (s: string)
    ensures s != "" && forall i :: 0 <= i < |s| ==> IsDigit(s[i])
    ensures n > 0 ==> s[0] != '0'
    ensures n == 0 ==> s == "0"
  {
    if n < 10 then [Digit(n)] else Decimal(n / 10) + [Digit(n % 10)]
  }

  /** The number a run of digits stands for. */
  function DecimalValue(s: string): nat
    requires forall i :: 0 <= i < |s| ==> IsDigit(s[i])
  {
    if s == "" then 0 else 10 * DecimalValue(s[..|s| - 1]) + DigitValue(s[|s| - 1])
  }

  lemma {:induction false} DecimalRoundTrip(n: nat)
    ensures DecimalValue(Decimal(n)) == n
  {
    if n >= 10 {
      var s := Decimal(n);
      assert s[..|s| - 1] == Decimal(n / 10);
      DecimalRoundTrip(n / 10);
    } else {
      assert Decimal(n)[..0] == "";
    }
  }
}
