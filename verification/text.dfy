/** Python string primitives the scripts lean on: `strip`, `find`, `rfind`,
    `startswith`/`endswith`, `split`, `join`, `lower` and the character
    classes.  Character classes are the ASCII ones except `IsSpace`, which is
    Python's full `str.isspace` list. */
module Text {

  datatype Option<+T> = None | Some(value: T)

  /** Python's `str.isspace`: the whitespace `str.strip()` removes. */
  predicate IsSpace(c: char)
  {
    ('\U{9}' <= c <= '\U{D}') || ('\U{1C}' <= c <= '\U{20}') || c == '\U{85}' || c == '\U{A0}'
    || c == '\U{1680}' || ('\U{2000}' <= c <= '\U{200A}') || c == '\U{2028}' || c == '\U{2029}'
    || c == '\U{202F}' || c == '\U{205F}' || c == '\U{3000}'
  }

  predicate IsDigit(c: char) { '0' <= c <= '9' }
  predicate IsUpper(c: char) { 'A' <= c <= 'Z' }
  predicate IsLower(c: char) { 'a' <= c <= 'z' }
  predicate IsAlpha(c: char) { IsUpper(c) || IsLower(c) }
  predicate IsAlnum(c: char) { IsAlpha(c) || IsDigit(c) }

  /** `str.lower` on one character. */
  function LowerChar(c: char): (r: char)
    ensures IsUpper(c) ==> IsLower(r) && r as int == c as int + 32
    ensures !IsUpper(c) ==> r == c
  {
    if IsUpper(c) then (c as int + 32) as char else c
  }

  /** `str.lower`. */
  function Lower(s: string): (r: string)
    ensures |r| == |s|
    ensures forall i :: 0 <= i < |s| ==> r[i] == LowerChar(s[i])
  {
    if |s| == 0 then [] else [LowerChar(s[0])] + Lower(s[1..])
  }

  /** `str.upper` on one character. */
  function UpperChar(c: char): (r: char)
    ensures IsLower(c) ==> IsUpper(r) && r as int == c as int - 32
    ensures !IsLower(c) ==> r == c
  {
    if IsLower(c) then (c as int - 32) as char else c
  }

  /** `str.upper`. */
  function Upper(s: string): (r: string)
    ensures |r| == |s|
    ensures forall i :: 0 <= i < |s| ==> r[i] == UpperChar(s[i])
  {
    seq(|s|, i requires 0 <= i < |s| => UpperChar(s[i]))
  }

  predicate AllSpace(s: string)
  {
    forall i :: 0 <= i < |s| ==> IsSpace(s[i])
  }

  /** Whether `pat` occurs in `s` starting at index `i`. */
  predicate OccursAt(s: string, pat: string, i: int)
  {
    0 <= i && i + |pat| <= |s| && s[i..i + |pat|] == pat
  }

  predicate Contains(s: string, pat: string)
  {
    exists i | 0 <= i <= |s| :: OccursAt(s, pat, i)
  }

  predicate StartsWith(s: string, pre: string)
  {
    |pre| <= |s| && s[..|pre|] == pre
  }

  predicate EndsWith(s: string, suf: string)
  {
    |suf| <= |s| && s[|s| - |suf|..] == suf
  }

  /** A string ends with whatever was appended to it. */
  lemma EndsWithAppended(s: string, suf: string)
    ensures EndsWith(s + suf, suf)
  {
    assert (s + suf)[|s|..] == suf;
  }

  /** `str.lstrip()`. */
  function LStrip(s: string): (r: string)
    ensures |r| <= |s| && r == s[|s| - |r|..]
    ensures |r| > 0 ==> !IsSpace(r[0])
    ensures AllSpace(s[..|s| - |r|])
    decreases |s|
  {
    if |s| > 0 && IsSpace(s[0]) then
      var r := LStrip(s[1..]);
      var n := |s| - |r|;
      assert s[1..][|s| - 1 - |r|..] == s[n..];
      assert forall i :: 1 <= i < n ==> s[..n][i] == s[1..][..n - 1][i - 1];
      r
    else s
  }

  /** `str.rstrip()`. */
  function RStrip(s: string): (r: string)
    ensures |r| <= |s| && r == s[..|r|]
    ensures |r| > 0 ==> !IsSpace(r[|r| - 1])
    ensures AllSpace(s[|r|..])
    decreases |s|
  {
    if |s| > 0 && IsSpace(s[|s| - 1]) then
      var r := RStrip(s[..|s| - 1]);
      assert s[..|s| - 1][..|r|] == s[..|r|];
      assert forall i :: 0 <= i < |s| - 1 - |r| ==> s[|r|..][i] == s[..|s| - 1][|r|..][i];
      r
    else s
  }

  /** `str.strip()`: drops the leading and the trailing whitespace. */
  function Strip(s: string): (r: string)
    ensures |r| <= |s|
    ensures |r| > 0 ==> !IsSpace(r[0]) && !IsSpace(r[|r| - 1])
  {
    LStrip(RStrip(s))
  }

  /** What `Strip` keeps is a slice of its input with only whitespace around it. */
  lemma StripSlice(s: string) returns (i: nat)
    ensures i + |Strip(s)| <= |s| && Strip(s) == s[i..i + |Strip(s)|]
    ensures AllSpace(s[..i]) && AllSpace(s[i + |Strip(s)|..])
  {
    var t := RStrip(s);
    var r := LStrip(t);
    i := |t| - |r|;
    assert r == s[i..i + |r|];
    assert s[i + |r|..] == s[|t|..];
    assert s[..i] == t[..i];
  }

  /** Strip removes exactly the whitespace: the result is empty iff the input is all whitespace. */
  lemma StripEmptyIffAllSpace(s: string)
    ensures Strip(s) == [] <==> AllSpace(s)
  {
    var r := Strip(s);
    var i := StripSlice(s);
    if r == [] {
      forall k | 0 <= k < |s| ensures IsSpace(s[k]) {
        if k < i { assert s[k] == s[..i][k]; } else { assert s[k] == s[i..][k - i]; }
      }
    } else {
      assert s[i] == r[0];
    }
  }

  /** `str.strip(ch)` for one character: drops every leading and trailing `ch`. */
  function StripChar(s: string, ch: char): (r: string)
    ensures |r| <= |s|
    ensures |r| > 0 ==> r[0] != ch && r[|r| - 1] != ch
    ensures forall k :: 0 <= k < |r| ==> r[k] in s
    decreases |s|
  {
    if |s| > 0 && s[0] == ch then StripChar(s[1..], ch)
    else if |s| > 0 && s[|s| - 1] == ch then StripChar(s[..|s| - 1], ch)
    else s
  }

  /** `s.find(pat, start)`: the first occurrence at or after `start`. */
  function FindFrom(s: string, pat: string, start: nat): (r: Option<nat>)
    ensures r.Some? ==> start <= r.value && OccursAt(s, pat, r.value)
    ensures r.Some? ==> forall j :: start <= j < r.value ==> !OccursAt(s, pat, j)
    ensures r.None? ==> forall j :: start <= j ==> !OccursAt(s, pat, j)
    decreases |s| - start
  {
    if start + |pat| > |s| then None
    else if s[start..start + |pat|] == pat then Some(start)
    else FindFrom(s, pat, start + 1)
  }

  /** `s.find(pat)`. */
  function Find(s: string, pat: string): (r: Option<nat>)
    ensures r.Some? ==> OccursAt(s, pat, r.value)
    ensures r.Some? ==> forall j :: 0 <= j < r.value ==> !OccursAt(s, pat, j)
    ensures r.None? <==> !Contains(s, pat)
  {
    FindFrom(s, pat, 0)
  }

  function RFindBelow(s: string, pat: string, bound: nat): (r: Option<nat>)
    ensures r.Some? ==> r.value < bound && OccursAt(s, pat, r.value)
    ensures r.Some? ==> forall j :: r.value < j < bound ==> !OccursAt(s, pat, j)
    ensures r.None? ==> forall j :: 0 <= j < bound ==> !OccursAt(s, pat, j)
  {
    if bound == 0 then None
    else if OccursAt(s, pat, bound - 1) then Some(bound - 1)
    else RFindBelow(s, pat, bound - 1)
  }

  /** `s.rfind(pat)`: the last occurrence. */
  function RFind(s: string, pat: string): (r: Option<nat>)
    ensures r.Some? ==> OccursAt(s, pat, r.value)
    ensures r.Some? ==> forall j :: r.value < j ==> !OccursAt(s, pat, j)
    ensures r.None? <==> !Contains(s, pat)
  {
    RFindBelow(s, pat, |s| + 1)
  }

  /** `sep.join(parts)`. */
  function Join(parts: seq<string>, sep: string): (r: string)
  {
    if |parts| == 0 then ""
    else if |parts| == 1 then parts[0]
    else parts[0] + sep + Join(parts[1..], sep)
  }

  /** `s.split(sep)` for a one-character separator: never empty, one more piece than separators. */
  function Split(s: string, sep: char): (r: seq<string>)
    ensures |r| >= 1
    ensures forall k, j :: 0 <= k < |r| && 0 <= j < |r[k]| ==> r[k][j] != sep
  {
    SplitFrom(s, sep, [])
  }

  function SplitFrom(s: string, sep: char, acc: string): (r: seq<string>)
    requires forall j :: 0 <= j < |acc| ==> acc[j] != sep
    ensures |r| >= 1
    ensures forall k, j :: 0 <= k < |r| && 0 <= j < |r[k]| ==> r[k][j] != sep
    decreases |s|
  {
    if |s| == 0 then [acc]
    else if s[0] == sep then [acc] + SplitFrom(s[1..], sep, [])
    else SplitFrom(s[1..], sep, acc + [s[0]])
  }

  lemma {:induction false} SplitFromJoin(s: string, sep: char, acc: string)
    requires forall j :: 0 <= j < |acc| ==> acc[j] != sep
    ensures Join(SplitFrom(s, sep, acc), [sep]) == acc + s
    decreases |s|
  {
    if |s| == 0 {
    } else if s[0] == sep {
      SplitFromJoin(s[1..], sep, []);
      var rest := SplitFrom(s[1..], sep, []);
      assert SplitFrom(s, sep, acc) == [acc] + rest;
      assert ([acc] + rest)[1..] == rest;
      assert s == [sep] + s[1..];
    } else {
      SplitFromJoin(s[1..], sep, acc + [s[0]]);
      assert acc + [s[0]] + s[1..] == acc + s;
    }
  }

  /** Splitting on a character and joining back with it gives the input back. */
  lemma SplitJoin(s: string, sep: char)
    ensures Join(Split(s, sep), [sep]) == s
  {
    SplitFromJoin(s, sep, []);
  }

  /** The first index of character `c` in `s`, as `s.index(c)` finds it. */
  function IndexOf(s: string, c: char): (r: Option<nat>)
    ensures r.None? <==> c !in s
    ensures r.Some? ==> r.value < |s| && s[r.value] == c && c !in s[..r.value]
  {
    if |s| == 0 then None
    else if s[0] == c then Some(0)
    else
      var r := IndexOf(s[1..], c);
      if r.None? then None
      else
        assert s[..r.value + 1] == [s[0]] + s[1..][..r.value];
        Some(r.value + 1)
  }

  /** The first index is the only index of `c` with no `c` before it. */
  lemma {:induction false} IndexOfUnique(s: string, c: char, p: nat)
    requires p < |s| && s[p] == c && forall k :: 0 <= k < p ==> s[k] != c
    ensures IndexOf(s, c) == Some(p)
  {
    assert s[p] in s;
    var q := IndexOf(s, c).value;
    forall k | 0 <= k < q ensures s[k] != c {
      assert s[k] == s[..q][k];
    }
  }

  /** The first occurrence of `c` in a concatenation is in the left part when
      `c` occurs there, and otherwise is the right part's shifted. */
  lemma {:induction false} IndexOfConcat(u: string, w: string, c: char)
    ensures IndexOf(u + w, c) ==
              if c in u then IndexOf(u, c)
              else match IndexOf(w, c)
                case None => None
                case Some(p) => Some(|u| + p)
  {
    if c in u {
      IndexOfLeft(u, w, c);
    } else {
      match IndexOf(w, c)
      case None => IndexOfNeither(u, w, c);
      case Some(p) => IndexOfRightAt(u, w, c, p);
    }
  }

  lemma {:induction false} IndexOfNeither(u: string, w: string, c: char)
    requires c !in u && c !in w
    ensures IndexOf(u + w, c) == None
  {
    forall k | 0 <= k < |u + w| ensures (u + w)[k] != c {
      if k < |u| { assert (u + w)[k] == u[k]; } else { assert (u + w)[k] == w[k - |u|]; }
    }
    assert c !in u + w;
  }

  lemma {:induction false} IndexOfLeft(u: string, w: string, c: char)
    requires c in u
    ensures IndexOf(u + w, c) == IndexOf(u, c)
  {
    var p := IndexOf(u, c).value;
    forall k | 0 <= k < p ensures (u + w)[k] != c {
      assert (u + w)[k] == u[k] == u[..p][k];
    }
    IndexOfUnique(u + w, c, p);
  }

  lemma {:induction false} IndexOfRightAt(u: string, w: string, c: char, p: nat)
    requires c !in u && IndexOf(w, c) == Some(p)
    ensures IndexOf(u + w, c) == Some(|u| + p)
  {
    NoCharBefore(u, w, c, p);
    IndexOfShifted(u, w, c, p);
  }

  lemma {:induction false} NoCharBefore(u: string, w: string, c: char, p: nat)
    requires c !in u && p <= |w| && c !in w[..p]
    ensures forall k :: 0 <= k < |u| + p ==> (u + w)[k] != c
  {
    forall k | 0 <= k < |u| + p ensures (u + w)[k] != c {
      if k < |u| {
        assert (u + w)[k] == u[k];
      } else {
        var j := k - |u|;
        assert w[..p][j] == w[j];
        assert (u + w)[k] == w[j];
      }
    }
  }

  lemma {:induction false} IndexOfShifted(u: string, w: string, c: char, p: nat)
    requires p < |w| && w[p] == c
    requires forall k :: 0 <= k < |u| + p ==> (u + w)[k] != c
    ensures IndexOf(u + w, c) == Some(|u| + p)
  {
    assert (u + w)[|u| + p] == w[p];
    IndexOfUnique(u + w, c, |u| + p);
  }

  /** A string without the separator splits into itself alone. */
  lemma SplitNoSep(s: string, sep: char)
    requires sep !in s
    ensures Split(s, sep) == [s]
  {
    SplitFromNoSep(s, sep, []);
    assert [] + s == s;
  }

  lemma {:induction false} SplitFromNoSep(s: string, sep: char, acc: string)
    requires sep !in s
    requires forall j :: 0 <= j < |acc| ==> acc[j] != sep
    ensures SplitFrom(s, sep, acc) == [acc + s]
    decreases |s|
  {
    if |s| == 0 {
      assert acc + s == acc;
    } else {
      assert s[0] != sep;
      assert sep !in s[1..];
      SplitFromNoSep(s[1..], sep, acc + [s[0]]);
      assert acc + [s[0]] + s[1..] == acc + s;
    }
  }

  /** Splitting at a separator splits the two sides independently. */
  lemma SplitConcat(s: string, t: string, sep: char)
    ensures Split(s + [sep] + t, sep) == Split(s, sep) + Split(t, sep)
  {
    SplitFromConcat(s, t, sep, []);
  }

  lemma {:induction false} SplitFromConcat(s: string, t: string, sep: char, acc: string)
    requires forall j :: 0 <= j < |acc| ==> acc[j] != sep
    ensures SplitFrom(s + [sep] + t, sep, acc) == SplitFrom(s, sep, acc) + SplitFrom(t, sep, [])
    decreases |s|
  {
    if |s| == 0 {
      assert s + [sep] + t == [sep] + t;
      assert ([sep] + t)[1..] == t;
    } else {
      assert (s + [sep] + t)[0] == s[0];
      assert (s + [sep] + t)[1..] == s[1..] + [sep] + t;
      if s[0] == sep {
        SplitFromConcat(s[1..], t, sep, []);
      } else {
        SplitFromConcat(s[1..], t, sep, acc + [s[0]]);
      }
    }
  }
}
