/** Characters, case and decimal numbers, for ASCII text. */
module Text {

  predicate IsDigit(c: char) {
    '0' <= c <= '9'
  }

  lemma DigitIs(c: char)
    ensures IsDigit(c) <==> c in "0123456789"
  {
    var digits := "0123456789";
    if IsDigit(c) {
      assert digits[c as int - '0' as int] == c;
    }
  }

  /** Case folding of ASCII letters. */
  function Fold(c: char): char {
    if 'A' <= c <= 'Z' then c - 'A' + 'a' else c
  }

  function FoldAll(s: string): (r: string)
    ensures |r| == |s| && forall i :: 0 <= i < |s| ==> r[i] == Fold(s[i])
  {
    seq(|s|, i requires 0 <= i < |s| => Fold(s[i]))
  }

  function Decimal(n: nat): string {
    var digit := [['0', '1', '2', '3', '4', '5', '6', '7', '8', '9'][n % 10]];
    if n < 10 then digit else Decimal(n / 10) + digit
  }

  /** The 26 letters become their small forms, and nothing else changes. */
  lemma FoldIs(c: char)
    ensures forall i :: 0 <= i < 26 && c == "ABCDEFGHIJKLMNOPQRSTUVWXYZ"[i] ==> Fold(c) == "abcdefghijklmnopqrstuvwxyz"[i]
    ensures (forall i :: 0 <= i < 26 ==> c != "ABCDEFGHIJKLMNOPQRSTUVWXYZ"[i]) ==> Fold(c) == c
  {
    var upper := "ABCDEFGHIJKLMNOPQRSTUVWXYZ";
    if 'A' <= c <= 'Z' {
      assert upper[c as int - 'A' as int] == c;
    }
  }

  /** The number that a row of decimal digits denotes. */
  function NumberOf(s: string): int {
    if s == "" then 0 else 10 * NumberOf(s[..|s| - 1]) + (s[|s| - 1] as int - '0' as int)
  }

  /** Digits only, without a leading zero, and denoting `n`. */
  lemma {:induction false} DecimalDenotes(n: nat)
    ensures Decimal(n) != "" && NumberOf(Decimal(n)) == n
    ensures forall i :: 0 <= i < |Decimal(n)| ==> '0' <= Decimal(n)[i] <= '9'
    ensures |Decimal(n)| > 1 ==> Decimal(n)[0] != '0'
    ensures n > 0 ==> Decimal(n)[0] != '0'
  {
    var digit := ['0', '1', '2', '3', '4', '5', '6', '7', '8', '9'][n % 10];
    assert digit as int - '0' as int == n % 10;
    if n < 10 {
      assert Decimal(n) == [digit] && [digit][..0] == "";
      assert NumberOf("") == 0;
    } else {
      DecimalDenotes(n / 10);
      var s := Decimal(n);
      assert s == Decimal(n / 10) + [digit] && s[..|s| - 1] == Decimal(n / 10);
    }
  }
}
