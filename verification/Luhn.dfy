/**
 The Luhn check on card numbers (detection/regex_patterns.py) and the guarantees that Annex B of
 ISO/IEC 7812-1 relies on: which single-digit errors and transpositions it detects.
 */
module Luhn {
  import opened Text

  type Digit = d: int | 0 <= d < 10

  function DigitsOf(s: string): (ds: seq<Digit>)
    ensures |ds| <= |s|
  {
    if s == "" then []
    else if IsDigit(s[0]) then [s[0] as int - '0' as int] + DigitsOf(s[1..])
    else DigitsOf(s[1..])
  }

  /** What one digit adds to the checksum; every second digit from the right is doubled. */
  function Term(d: Digit, isSecond: bool): nat {
    if isSecond then d * 2 / 10 + d * 2 % 10 else d
  }

  /** The checksum of `ds` when its last digit has parity `isSecond`. */
  function Checksum(ds: seq<Digit>, isSecond: bool): nat {
    if ds == [] then 0 else Term(ds[|ds| - 1], isSecond) + Checksum(ds[..|ds| - 1], !isSecond)
  }

  predicate Accepts(card: string) {
    var ds := DigitsOf(card);
    13 <= |ds| <= 19 && Checksum(ds, false) % 10 == 0
  }

  method LuhnChecksum(card: string) returns (valid: bool)
    ensures valid == Accepts(card)
  {
    var digits := DigitsOf(card);
    if |digits| < 13 || |digits| > 19 {
      return false;
    }
    var checksum, isSecond := 0, false;
    var i := |digits|;
    assert digits[..i] == digits;
    while i > 0
      invariant 0 <= i <= |digits|
      invariant checksum + Checksum(digits[..i], isSecond) == Checksum(digits, false)
    {
      i := i - 1;
      assert digits[..i + 1][..i] == digits[..i];
      var d: int := digits[i];
      if isSecond {
        var doubled := d * 2;
        checksum := checksum + doubled / 10 + doubled % 10;
      } else {
        checksum := checksum + d;
      }
      isSecond := !isSecond;
    }
    valid := checksum % 10 == 0;
  }

  // ----- Changing digits changes the sum by known amounts -----

  /** Whether the digit at `i` is one of those doubled. */
  predicate Doubled(n: nat, i: nat, isSecond: bool) {
    ((n - 1 - i) % 2 == 1) != isSecond
  }

  lemma DoubledStep(n: nat, i: nat, isSecond: bool)
    requires i + 1 < n
    ensures Doubled(n - 1, i, !isSecond) == Doubled(n, i, isSecond)
  {
  }

  lemma {:induction false} ReplaceDigit(ds: seq<Digit>, isSecond: bool, i: nat, d: Digit)
    requires i < |ds|
    ensures var doubled := Doubled(|ds|, i, isSecond);
            Checksum(ds[i := d], isSecond) == Checksum(ds, isSecond) - Term(ds[i], doubled) + Term(d, doubled)
  {
    var n := |ds|;
    if i == n - 1 {
      assert ds[i := d][..n - 1] == ds[..n - 1];
    } else {
      assert ds[i := d][..n - 1] == ds[..n - 1][i := d];
      ReplaceDigit(ds[..n - 1], !isSecond, i, d);
      DoubledStep(n, i, isSecond);
    }
  }

  lemma TermIsLinear(d: Digit, isSecond: bool)
    ensures Term(d, isSecond) == if !isSecond then d else if d < 5 then 2 * d else 2 * d - 9
  {
  }

  /** A sum stays divisible by 10 after a change of less than 10 only if nothing changed. */
  lemma SmallChangeShows(sum: int, change: int)
    requires sum % 10 == 0 && -10 < change < 10
    ensures (sum + change) % 10 == 0 <==> change == 0
  {
  }

  lemma ErrorIsVisible(sum: int, a: Digit, b: Digit, isSecond: bool)
    requires sum % 10 == 0 && a != b
    ensures (sum - Term(a, isSecond) + Term(b, isSecond)) % 10 != 0
  {
    TermIsLinear(a, isSecond);
    TermIsLinear(b, isSecond);
    SmallChangeShows(sum, Term(b, isSecond) - Term(a, isSecond));
  }

  /** Two neighbours contribute the same after a swap only if they are equal or are 0 and 9. */
  lemma SwapIsVisible(sum: int, a: Digit, b: Digit, isSecond: bool)
    requires sum % 10 == 0
    ensures (sum - Term(a, isSecond) + Term(b, isSecond) - Term(b, !isSecond) + Term(a, !isSecond)) % 10 == 0
       <==> a == b || (a == 0 && b == 9) || (a == 9 && b == 0)
  {
    TermIsLinear(a, isSecond);
    TermIsLinear(b, isSecond);
    TermIsLinear(a, !isSecond);
    TermIsLinear(b, !isSecond);
    SmallChangeShows(sum, Term(b, isSecond) - Term(a, isSecond) + Term(a, !isSecond) - Term(b, !isSecond));
  }

  // ----- How edits of the text reach the digits -----

  lemma {:induction false} DigitsConcat(s: string, t: string)
    ensures DigitsOf(s + t) == DigitsOf(s) + DigitsOf(t)
  {
    if s == "" {
      assert s + t == t;
    } else {
      assert (s + t)[1..] == s[1..] + t;
      DigitsConcat(s[1..], t);
    }
  }

  lemma OneDigit(c: char)
    requires IsDigit(c)
    ensures DigitsOf([c]) == [c as int - '0' as int]
  {
    assert [c][1..] == "";
  }

  lemma CutAt(s: string, i: nat)
    requires i < |s|
    ensures s == s[..i] + [s[i]] + s[i + 1..]
  {
  }

  lemma {:induction false} DigitBetween(a: string, c: char, b: string)
    requires IsDigit(c)
    ensures DigitsOf(a + [c] + b) == DigitsOf(a) + [c as int - '0' as int] + DigitsOf(b)
  {
    DigitsConcat(a + [c], b);
    DigitsConcat(a, [c]);
    OneDigit(c);
  }

  lemma {:induction false} DigitAt(s: string, i: nat)
    requires i < |s| && IsDigit(s[i])
    ensures DigitsOf(s) == DigitsOf(s[..i]) + [s[i] as int - '0' as int] + DigitsOf(s[i + 1..])
  {
    var a, c, b := s[..i], s[i], s[i + 1..];
    CutAt(s, i);
    DigitBetween(a, c, b);
  }

  lemma ReplaceCharacter(s: string, i: nat, c: char) returns (k: nat)
    requires i < |s| && IsDigit(s[i]) && IsDigit(c)
    ensures k == |DigitsOf(s[..i])| < |DigitsOf(s)|
    ensures DigitsOf(s)[k] == s[i] as int - '0' as int
    ensures DigitsOf(s[i := c]) == DigitsOf(s)[k := c as int - '0' as int]
  {
    k := |DigitsOf(s[..i])|;
    DigitAt(s, i);
    DigitAt(s[i := c], i);
    assert s[i := c][..i] == s[..i] && s[i := c][i + 1..] == s[i + 1..];
  }

  // ----- The guarantees on digit sequences -----

  lemma DigitErrorIsDetected(ds: seq<Digit>, k: nat, d: Digit)
    requires Checksum(ds, false) % 10 == 0 && k < |ds| && d != ds[k]
    ensures Checksum(ds[k := d], false) % 10 != 0
  {
    ReplaceDigit(ds, false, k, d);
    ErrorIsVisible(Checksum(ds, false), ds[k], d, Doubled(|ds|, k, false));
  }

  lemma DigitSwapIsDetectedIff(ds: seq<Digit>, k: nat)
    requires Checksum(ds, false) % 10 == 0 && k + 1 < |ds|
    ensures Checksum(ds[k := ds[k + 1]][k + 1 := ds[k]], false) % 10 == 0
       <==> ds[k] == ds[k + 1] || (ds[k] == 0 && ds[k + 1] == 9) || (ds[k] == 9 && ds[k + 1] == 0)
  {
    var isSecond := Doubled(|ds|, k, false);
    assert Doubled(|ds|, k + 1, false) == !isSecond;
    ReplaceDigit(ds, false, k, ds[k + 1]);
    ReplaceDigit(ds[k := ds[k + 1]], false, k + 1, ds[k]);
    SwapIsVisible(Checksum(ds, false), ds[k], ds[k + 1], isSecond);
  }

  // ----- The guarantees on card numbers as written -----

  /** Changing any one digit of a valid number, separators untouched, makes it invalid. */
  lemma SingleErrorIsDetected(card: string, i: nat, c: char)
    requires Accepts(card)
    requires i < |card| && IsDigit(card[i]) && IsDigit(c) && c != card[i]
    ensures !Accepts(card[i := c])
  {
    var k := ReplaceCharacter(card, i, c);
    DigitErrorIsDetected(DigitsOf(card), k, c as int - '0' as int);
  }

  lemma SwapCharacters(card: string, i: nat, j: nat) returns (k: nat)
    requires i < j < |card| && IsDigit(card[i]) && IsDigit(card[j]) && DigitsOf(card[i + 1..j]) == []
    ensures k + 1 < |DigitsOf(card)|
    ensures DigitsOf(card)[k] == card[i] as int - '0' as int
    ensures DigitsOf(card)[k + 1] == card[j] as int - '0' as int
    ensures DigitsOf(card[i := card[j]][j := card[i]])
         == DigitsOf(card)[k := card[j] as int - '0' as int][k + 1 := card[i] as int - '0' as int]
  {
    var mid := card[i := card[j]];
    k := ReplaceCharacter(card, i, card[j]);
    var l := ReplaceCharacter(mid, j, card[i]);
    DigitAt(mid[..j], i);
    assert mid[..j][..i] == card[..i] && mid[..j][i + 1..] == card[i + 1..j];
  }

  /** Swapping two neighbouring digits goes unnoticed exactly when they are equal or are 0 and 9. */
  lemma TranspositionIsDetectedIff(card: string, i: nat, j: nat)
    requires Accepts(card)
    requires i < j < |card| && IsDigit(card[i]) && IsDigit(card[j]) && DigitsOf(card[i + 1..j]) == []
    ensures Accepts(card[i := card[j]][j := card[i]])
       <==> card[i] == card[j] || (card[i] == '0' && card[j] == '9') || (card[i] == '9' && card[j] == '0')
  {
    var k := SwapCharacters(card, i, j);
    DigitSwapIsDetectedIff(DigitsOf(card), k);
  }

  lemma AppendDigit(payload: string, c: char)
    requires IsDigit(c)
    ensures var ds := DigitsOf(payload + [c]);
            && |ds| == |DigitsOf(payload)| + 1
            && Checksum(ds, false) == c as int - '0' as int + Checksum(DigitsOf(payload), true)
  {
    DigitsConcat(payload, [c]);
    OneDigit(c);
    var ds := DigitsOf(payload + [c]);
    assert ds[..|ds| - 1] == DigitsOf(payload);
  }

  /** The only digit that completes `payload`. */
  function CheckDigit(payload: string): Digit {
    (10 - Checksum(DigitsOf(payload), true) % 10) % 10
  }

  lemma Complement(rest: nat, d: Digit)
    ensures (d + rest) % 10 == 0 <==> d == (10 - rest % 10) % 10
  {
  }

  /** Every payload of 12 to 18 digits has exactly one check digit. */
  lemma CheckDigitIsUnique(payload: string, c: char)
    requires 12 <= |DigitsOf(payload)| <= 18 && IsDigit(c)
    ensures Accepts(payload + [c]) <==> c as int - '0' as int == CheckDigit(payload)
  {
    AppendDigit(payload, c);
    Complement(Checksum(DigitsOf(payload), true), c as int - '0' as int);
  }

  // ----- The table of the standard -----

  /** The table by which ISO/IEC 7812-1 replaces every second digit: its double, with the digits of the double added. */
  function FromTheTable(d: Digit): Digit {
    [0, 2, 4, 6, 8, 1, 3, 5, 7, 9][d]
  }

  /** The sum from the digit at `i` on; places count from the right, and `isSecond` says if the last one is replaced. */
  function TableSum(ds: seq<Digit>, i: nat, isSecond: bool): nat
    requires i <= |ds|
    decreases |ds| - i
  {
    if i == |ds| then 0
    else (if ((|ds| - i) % 2 == 1) != isSecond then ds[i] else FromTheTable(ds[i])) + TableSum(ds, i + 1, isSecond)
  }

  /** The same sum over all digits but the last, whose places move on by one. */
  lemma {:induction false} LastTerm(ds: seq<Digit>, i: nat, isSecond: bool)
    requires i < |ds|
    ensures TableSum(ds, i, isSecond)
         == TableSum(ds[..|ds| - 1], i, !isSecond) + (if isSecond then FromTheTable(ds[|ds| - 1]) else ds[|ds| - 1])
    decreases |ds| - i
  {
    if i < |ds| - 1 {
      LastTerm(ds, i + 1, isSecond);
      assert ds[..|ds| - 1][i] == ds[i];
    }
  }

  lemma TermIsFromTheTable(d: Digit)
    ensures Term(d, true) == FromTheTable(d) && Term(d, false) == d
  {
  }

  lemma {:induction false} ChecksumIsTheTableSum(ds: seq<Digit>, isSecond: bool)
    ensures Checksum(ds, isSecond) == TableSum(ds, 0, isSecond)
  {
    if ds != [] {
      ChecksumIsTheTableSum(ds[..|ds| - 1], !isSecond);
      LastTerm(ds, 0, isSecond);
      TermIsFromTheTable(ds[|ds| - 1]);
    }
  }

  /** How many characters are digits. */
  function CountDigits(s: string): nat {
    if s == "" then 0 else (if '0' <= s[0] <= '9' then 1 else 0) + CountDigits(s[1..])
  }

  lemma {:induction false} DigitsAreCounted(s: string)
    ensures |DigitsOf(s)| == CountDigits(s)
  {
    if s != "" {
      DigitsAreCounted(s[1..]);
    }
  }

  /** A text is accepted exactly if it has 13 to 19 digits and their sum by the table is divisible by ten. */
  lemma AcceptedIffTheTableSays(card: string)
    ensures Accepts(card) <==> 13 <= CountDigits(card) <= 19 && TableSum(DigitsOf(card), 0, false) % 10 == 0
  {
    DigitsAreCounted(card);
    ChecksumIsTheTableSum(DigitsOf(card), false);
  }
}
