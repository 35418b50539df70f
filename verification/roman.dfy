/** The Roman-numeral test of the scored-token filter:
    `re.fullmatch(r"^(?=[MDCLXVI])M{0,4}(CM|CD|D?C{0,3})(XC|XL|L?X{0,3})(IX|IV|V?I{0,3})$", k, re.IGNORECASE)`.
    The pattern is four groups of alternatives read one after the other; a
    full match exists iff some choice of one alternative per group spells the
    whole (upper-cased) token.  The lookahead only demands a first letter. */
module Roman {
  import opened Text

  /** The alternatives of each group, listed by the digit they stand for. */
  const Thousands: seq<string> := ["", "M", "MM", "MMM", "MMMM"]
  const Hundreds: seq<string> := ["", "C", "CC", "CCC", "CD", "D", "DC", "DCC", "DCCC", "CM"]
  const Tens: seq<string> := ["", "X", "XX", "XXX", "XL", "L", "LX", "LXX", "LXXX", "XC"]
  const Ones: seq<string> := ["", "I", "II", "III", "IV", "V", "VI", "VII", "VIII", "IX"]
  const Groups: seq<seq<string>> := [Thousands, Hundreds, Tens, Ones]

  predicate IsRomanLetter(c: char)
  {
    c == 'M' || c == 'D' || c == 'C' || c == 'L' || c == 'X' || c == 'V' || c == 'I'
  }

  predicate RomanLetters(s: string)
  {
    forall i :: 0 <= i < |s| ==> IsRomanLetter(s[i])
  }

  function Concat(parts: seq<string>): string
  {
    if |parts| == 0 then "" else parts[0] + Concat(parts[1..])
  }

  /** The backtracking search of the regular-expression engine: can `s` be
      spelled by alternative `i` or a later one of the first group, followed
      by a match of the remaining groups? */
  function Match(s: string, groups: seq<seq<string>>, i: nat): bool
    decreases |groups|, if |groups| > 0 && i < |groups[0]| then |groups[0]| - i else 0
  {
    if |groups| == 0 then s == ""
    else if i >= |groups[0]| then false
    else
      var alt := groups[0][i];
      (StartsWith(s, alt) && Match(s[|alt|..], groups[1..], 0)) || Match(s, groups, i + 1)
  }

  /** The token is a Roman numeral, ignoring case. */
  predicate IsRoman(k: string)
  {
    |k| > 0 && IsRomanLetter(UpperChar(k[0])) && Match(Upper(k), Groups, 0)
  }

  /** `a` is alternative `i` or a later one of `group`. */
  predicate AltFrom(group: seq<string>, i: nat, a: string)
  {
    exists m :: i <= m < |group| && group[m] == a
  }

  /** A match is one alternative per group, spelling the whole string. */
  lemma {:induction false} MatchParts(s: string, groups: seq<seq<string>>, i: nat) returns (parts: seq<string>)
    requires Match(s, groups, i)
    ensures |parts| == |groups| && Concat(parts) == s
    ensures forall j :: 0 <= j < |groups| ==> parts[j] in groups[j]
    ensures |groups| > 0 ==> AltFrom(groups[0], i, parts[0])
    decreases |groups|, if |groups| > 0 && i < |groups[0]| then |groups[0]| - i else 0
  {
    if |groups| == 0 {
      parts := [];
    } else {
      var alt := groups[0][i];
      if StartsWith(s, alt) && Match(s[|alt|..], groups[1..], 0) {
        var rest := MatchParts(s[|alt|..], groups[1..], 0);
        parts := [alt] + rest;
        assert parts[1..] == rest;
        assert s == alt + s[|alt|..];
        forall j | 1 <= j < |groups| ensures parts[j] in groups[j] {
          assert parts[j] == rest[j - 1] && groups[j] == groups[1..][j - 1];
        }
      } else {
        parts := MatchParts(s, groups, i + 1);
      }
    }
  }

  /** Any choice of one alternative per group is found by the search. */
  lemma {:induction false} PartsMatch(parts: seq<string>, groups: seq<seq<string>>, i: nat)
    requires |parts| == |groups|
    requires forall j :: 0 <= j < |groups| ==> parts[j] in groups[j]
    requires |groups| > 0 ==> AltFrom(groups[0], i, parts[0])
    ensures Match(Concat(parts), groups, i)
    decreases |groups|, if |groups| > 0 && i < |groups[0]| then |groups[0]| - i else 0
  {
    if |groups| > 0 {
      var s := Concat(parts);
      var alt := groups[0][i];
      if parts[0] == alt {
        forall j | 0 <= j < |groups[1..]| ensures parts[1..][j] in groups[1..][j] {
          assert parts[1..][j] == parts[j + 1];
        }
        PartsMatch(parts[1..], groups[1..], 0);
        assert s[..|alt|] == alt && s[|alt|..] == Concat(parts[1..]);
      } else {
        PartsMatch(parts, groups, i + 1);
      }
    }
  }

  /** `n`, for 0 <= n <= 4999, written one alternative per decimal digit. */
  function ToRoman(n: nat): (r: string)
    requires n <= 4999
  {
    Concat(DigitParts(n))
  }

  lemma GroupsLetters()
    ensures forall j, a :: 0 <= j < |Groups| && a in Groups[j] ==> RomanLetters(a)
  {
    assert forall a :: a in Thousands ==> RomanLetters(a);
    assert forall a :: a in Hundreds ==> RomanLetters(a);
    assert forall a :: a in Tens ==> RomanLetters(a);
    assert forall a :: a in Ones ==> RomanLetters(a);
  }

  lemma {:induction false} ConcatLetters(parts: seq<string>)
    requires forall j :: 0 <= j < |parts| ==> RomanLetters(parts[j])
    ensures RomanLetters(Concat(parts))
    decreases |parts|
  {
    if |parts| > 0 {
      ConcatLetters(parts[1..]);
    }
  }

  lemma {:induction false} ConcatEmpty(parts: seq<string>)
    ensures Concat(parts) == "" <==> forall j :: 0 <= j < |parts| ==> parts[j] == ""
    decreases |parts|
  {
    if |parts| > 0 {
      ConcatEmpty(parts[1..]);
      assert forall j :: 1 <= j < |parts| ==> parts[j] == parts[1..][j - 1];
    }
  }

  /** Only the first alternative of a group is empty. */
  lemma OnlyZeroEmpty()
    ensures forall j, d :: 0 <= j < |Groups| && 0 < d < |Groups[j]| ==> Groups[j][d] != ""
  {
    assert forall d :: 0 < d < |Thousands| ==> Thousands[d] != "";
    assert forall d :: 0 < d < |Hundreds| ==> Hundreds[d] != "";
    assert forall d :: 0 < d < |Tens| ==> Tens[d] != "";
    assert forall d :: 0 < d < |Ones| ==> Ones[d] != "";
  }

  /** The alternatives chosen for `n`, one per digit. */
  function DigitParts(n: nat): (r: seq<string>)
    requires n <= 4999
    ensures |r| == |Groups| && forall j :: 0 <= j < |Groups| ==> r[j] in Groups[j]
  {
    [Thousands[n / 1000], Hundreds[n / 100 % 10], Tens[n / 10 % 10], Ones[n % 10]]
  }

  lemma DigitsZero(n: nat)
    requires n <= 4999 && n / 1000 == 0 && n / 100 % 10 == 0 && n / 10 % 10 == 0 && n % 10 == 0
    ensures n == 0
  {
    assert n < 1000;
    assert n / 100 < 10;
    assert n < 100;
    assert n / 10 < 10;
    assert n < 10;
  }

  /** Only zero is written as the empty string. */
  lemma ToRomanEmpty(n: nat)
    requires n <= 4999 && ToRoman(n) == ""
    ensures n == 0
  {
    var parts := DigitParts(n);
    ConcatEmpty(parts);
    OnlyZeroEmpty();
    assert parts[0] == "" && parts[1] == "" && parts[2] == "" && parts[3] == "";
    DigitsZero(n);
  }

  /** Every numeral from 1 to 4999 is recognised, in upper or lower case. */
  lemma NumeralIsRoman(k: string, n: nat)
    requires 1 <= n <= 4999 && Upper(k) == ToRoman(n)
    ensures IsRoman(k)
  {
    var parts := DigitParts(n);
    assert AltFrom(Groups[0], 0, parts[0]);
    PartsMatch(parts, Groups, 0);
    GroupsLetters();
    ConcatLetters(parts);
    if k == [] {
      ToRomanEmpty(n);
    }
    assert Upper(k)[0] == UpperChar(k[0]);
  }

  lemma Div10(q: nat, r: nat)
    requires r < 10
    ensures (10 * q + r) / 10 == q && (10 * q + r) % 10 == r
  {
  }

  lemma DigitsOf(a: nat, b: nat, c: nat, d: nat)
    requires a <= 4 && b <= 9 && c <= 9 && d <= 9
    ensures var n := 1000 * a + 100 * b + 10 * c + d;
      n <= 4999 && n / 1000 == a && n / 100 % 10 == b && n / 10 % 10 == c && n % 10 == d
  {
    var n := 1000 * a + 100 * b + 10 * c + d;
    Div10(100 * a + 10 * b + c, d);
    Div10(10 * a + b, c);
    Div10(a, b);
    assert n / 10 == 100 * a + 10 * b + c;
    assert n / 100 == (n / 10) / 10;
    assert n / 1000 == (n / 100) / 10;
  }

  lemma IndexIn(group: seq<string>, a: string) returns (d: nat)
    requires a in group
    ensures d < |group| && group[d] == a
  {
    d :| 0 <= d < |group| && group[d] == a;
  }

  /** One alternative per group is the writing of some number up to 4999. */
  lemma PartsValue(parts: seq<string>) returns (n: nat)
    requires |parts| == |Groups| && forall j :: 0 <= j < |Groups| ==> parts[j] in Groups[j]
    ensures n <= 4999 && DigitParts(n) == parts
  {
    var a := IndexIn(Thousands, parts[0]);
    var b := IndexIn(Hundreds, parts[1]);
    var c := IndexIn(Tens, parts[2]);
    var d := IndexIn(Ones, parts[3]);
    n := 1000 * a + 100 * b + 10 * c + d;
    DigitsOf(a, b, c, d);
    var r := DigitParts(n);
    assert r[0] == parts[0] && r[1] == parts[1] && r[2] == parts[2] && r[3] == parts[3];
  }

  /** Every recognised token is a numeral from 1 to 4999: the returned `n`. */
  lemma RomanValue(k: string) returns (n: nat)
    requires IsRoman(k)
    ensures 1 <= n <= 4999 && Upper(k) == ToRoman(n)
  {
    var parts := MatchParts(Upper(k), Groups, 0);
    n := PartsValue(parts);
    if n == 0 {
      ToRomanEmptyZero();
    }
  }

  lemma ToRomanEmptyZero()
    ensures ToRoman(0) == ""
  {
    ConcatEmpty(DigitParts(0));
  }

  /** An ordinary word that spells a numeral is recognised: "mix" is
      M (1000) followed by IX (9). */
  lemma MixIsRoman()
    ensures IsRoman("mix")
  {
    var parts := ["M", "", "", "IX"];
    assert parts[0] == Thousands[1] && parts[1] == Hundreds[0] && parts[2] == Tens[0] && parts[3] == Ones[9];
    assert AltFrom(Groups[0], 0, parts[0]);
    PartsMatch(parts, Groups, 0);
    assert Concat(parts) == "MIX";
    assert Upper("mix") == "MIX";
  }
}
