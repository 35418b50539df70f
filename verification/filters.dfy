/** The two vocabulary filters: `filter_tokens`, which cleans the token
    frequency table of underscore debris, capital codes and long or
    phone-number-like digit runs, and the scored-token filter, which keeps the
    scored tokens of more than two characters that are not Roman numerals.
    Both write their result sorted by a value, descending and stable. */
module Filters {
  import opened Text
  import opened Dicts
  import Roman

  // ---------------------------------------------------------------------------
  // Python's string tests, ASCII

  /** `str.isupper`: some uppercase letter and no lowercase one. */
  predicate IsUpperStr(s: string)
  {
    (exists i :: 0 <= i < |s| && IsUpper(s[i])) && forall i :: 0 <= i < |s| ==> !IsLower(s[i])
  }

  /** `str.isalnum`: non-empty, letters and digits only. */
  predicate IsAlnumStr(s: string)
  {
    |s| > 0 && forall i :: 0 <= i < |s| ==> IsAlnum(s[i])
  }

  /** `str.isdigit`: non-empty, digits only. */
  predicate IsDigitStr(s: string)
  {
    |s| > 0 && forall i :: 0 <= i < |s| ==> IsDigit(s[i])
  }

  predicate AnyDigit(s: string)
  {
    exists i :: 0 <= i < |s| && IsDigit(s[i])
  }

  // ---------------------------------------------------------------------------
  // filter_tokens

  /** Neither starts nor ends with an underscore. */
  predicate NoEdgeUnderscore(t: string)
  {
    !StartsWith(t, "_") && !EndsWith(t, "_")
  }

  lemma StripCharKeeps(s: string, ch: char)
    requires |s| == 0 || (s[0] != ch && s[|s| - 1] != ch)
    ensures StripChar(s, ch) == s
  {
  }

  /** A token left as it was had no edge underscores to strip. */
  lemma StrippedOrSame(token: string, t: string)
    requires t == token || t == StripChar(token, '_')
    requires |t| == 0 || (t[0] != '_' && t[|t| - 1] != '_')
    ensures t == StripChar(token, '_')
  {
    if t == token {
      StripCharKeeps(token, '_');
    }
  }

  lemma EdgeUnderscore(s: string)
    ensures StartsWith(s, "_") <==> |s| > 0 && s[0] == '_'
    ensures EndsWith(s, "_") <==> |s| > 0 && s[|s| - 1] == '_'
  {
    if |s| > 0 {
      assert s[..1] == [s[0]] && s[|s| - 1..] == [s[|s| - 1]];
    }
  }

  /** What the loop body of `filter_tokens` makes of one token: the key it is
      stored under, or `None` when it is skipped.  Apart from "_" itself a
      kept token is the token with its edge underscores stripped. */
  function Clean(token: string): (r: Option<string>)
    ensures r.Some? ==> r.value == "_" || NoEdgeUnderscore(r.value)
    ensures r.Some? && token != "_" ==> r.value == StripChar(token, '_')
  {
    EdgeUnderscore(token);
    var t := if StartsWith(token, "_") && EndsWith(token, "_") then StripChar(token, '_') else token;
    EdgeUnderscore(t);
    if token == "_" then Some(token)
    else if StartsWith(t, "_") || EndsWith(t, "_") then None
    else if IsUpperStr(t) && IsAlnumStr(t) && AnyDigit(t) then None
    else if IsDigitStr(t) && |t| >= 50 then None
    else if IsDigitStr(t) && (|t| == 7 || |t| == 10) then None
    else
      StrippedOrSame(token, t);
      Some(t)
  }

  /** A token of digits is kept, unchanged, iff it has fewer than 50 digits
      and neither 7 nor 10. */
  lemma CleanDigits(d: string)
    requires IsDigitStr(d)
    ensures Clean(d) == Some(d) <==> |d| < 50 && |d| != 7 && |d| != 10
    ensures Clean(d) != Some(d) ==> Clean(d) == None
  {
    EdgeUnderscore(d);
    assert forall i :: 0 <= i < |d| ==> !IsUpper(d[i]);
  }

  /** A code of capital letters and digits, with at least one of each, is dropped. */
  lemma CleanCodes(t: string, i: nat, j: nat)
    requires forall k :: 0 <= k < |t| ==> IsUpper(t[k]) || IsDigit(t[k])
    requires i < |t| && IsUpper(t[i]) && j < |t| && IsDigit(t[j])
    ensures Clean(t) == None
  {
    EdgeUnderscore(t);
  }

  /** An ordinary word, one with a lowercase letter and no underscore at its
      edges, is kept unchanged. */
  lemma CleanWords(t: string, i: nat)
    requires i < |t| && IsLower(t[i]) && NoEdgeUnderscore(t)
    ensures Clean(t) == Some(t)
  {
    EdgeUnderscore(t);
  }

  lemma StripWrapped(t: string)
    requires |t| > 0 && t[0] != '_' && t[|t| - 1] != '_'
    ensures StripChar("_" + t + "_", '_') == t
  {
    var u := "_" + t + "_";
    assert u[1..] == t + "_";
    assert (t + "_")[..|t|] == t;
    StripCharKeeps(t, '_');
  }

  /** A word wrapped in single underscores, like `_vk_`, is kept without them. */
  lemma CleanStrips(t: string, i: nat)
    requires i < |t| && IsLower(t[i]) && NoEdgeUnderscore(t)
    ensures Clean("_" + t + "_") == Some(t)
  {
    EdgeUnderscore(t);
    var u := "_" + t + "_";
    EdgeUnderscore(u);
    StripWrapped(t);
    assert !IsUpperStr(t) && !IsDigitStr(t);
  }

  /** The cases the source's comments name: `Zamudio_` and `_hi` are dropped. */
  lemma CleanDropsExample()
    ensures Clean("Zamudio_") == None && Clean("_hi") == None
  {
    EdgeUnderscore("Zamudio_");
    EdgeUnderscore("_hi");
  }

  /** `filter_tokens`: every token is cleaned and, unless skipped, assigned
      its frequency under the cleaned key, in the table's order. */
  function FilterTokens(d: Items<int>): (r: Items<int>)
    ensures DistinctKeys(r)
  {
    if |d| == 0 then []
    else
      var r := FilterTokens(d[..|d| - 1]);
      var x := d[|d| - 1];
      match Clean(x.0)
      case None => r
      case Some(t) =>
        PutDistinct(r, t, x.1);
        Put(r, t, x.1)
  }

  /** The frequency of the last token that cleans to `k`. */
  function LastCleaningTo(d: Items<int>, k: string): Option<int>
  {
    if |d| == 0 then None
    else if Clean(d[|d| - 1].0) == Some(k) then Some(d[|d| - 1].1)
    else LastCleaningTo(d[..|d| - 1], k)
  }

  /** The filtered table holds, under each key, the frequency of the last
      token that cleans to that key, and no other key.  Tokens cleaning to the
      same key are not summed: the later one wins. */
  lemma {:induction false} FilterTokensGet(d: Items<int>, k: string)
    ensures Get(FilterTokens(d), k) == LastCleaningTo(d, k)
    decreases |d|
  {
    if |d| > 0 {
      FilterTokensGet(d[..|d| - 1], k);
      var x := d[|d| - 1];
      if Clean(x.0).Some? {
        PutGet(FilterTokens(d[..|d| - 1]), Clean(x.0).value, x.1, k);
      }
    }
  }

  /** Apart from "_", no key of the filtered table starts or ends with an underscore. */
  lemma {:induction false} FilterTokensKeys(d: Items<int>, k: string)
    requires k in KeysOf(FilterTokens(d)) && k != "_"
    ensures NoEdgeUnderscore(k)
    decreases |d|
  {
    FilterTokensGet(d, k);
    GetSpec(FilterTokens(d), k);
    LastCleaningToClean(d, k);
  }

  lemma {:induction false} LastCleaningToClean(d: Items<int>, k: string)
    requires LastCleaningTo(d, k).Some?
    ensures exists i :: 0 <= i < |d| && Clean(d[i].0) == Some(k)
    decreases |d|
  {
    if Clean(d[|d| - 1].0) != Some(k) {
      LastCleaningToClean(d[..|d| - 1], k);
      var i :| 0 <= i < |d| - 1 && Clean(d[..|d| - 1][i].0) == Some(k);
      assert d[..|d| - 1][i] == d[i];
    }
  }

  function Frequency(item: (string, int)): real
  {
    item.1 as real
  }

  /** The filtered tokens sorted by frequency, highest first. */
  function FilteredTokenFrequencies(d: Items<int>): (r: Items<int>)
  {
    SortedDict(FilterTokens(d), Frequency)
  }

  /** The written table is the filtered table reordered: the same items,
      frequencies non-increasing, tokens of equal frequency in table order. */
  lemma FilteredTokenFrequenciesSorted(d: Items<int>, f: real)
    ensures multiset(FilteredTokenFrequencies(d)) == multiset(FilterTokens(d))
    ensures Descending(FilteredTokenFrequencies(d), Frequency)
    ensures WithKey(FilteredTokenFrequencies(d), Frequency, f) == WithKey(FilterTokens(d), Frequency, f)
  {
    SortedDictSorts(FilterTokens(d), Frequency, f);
  }

  // ---------------------------------------------------------------------------
  // The scored-token filter

  /** A scored token's record: its score (JSON `null` is `None`) and frequency. */
  datatype Scored = Scored(score: Option<real>, frequency: int)

  /** The condition of the dictionary comprehension. */
  predicate Keep(item: (string, Scored))
  {
    item.1.score.Some? && |item.0| > 2 && !Roman.IsRoman(item.0)
  }

  /** The comprehension: the kept items, in order. */
  function FilterScored(d: Items<Scored>): (r: Items<Scored>)
    ensures |r| <= |d|
    ensures forall x :: x in r <==> x in d && Keep(x)
  {
    if |d| == 0 then []
    else
      var r := FilterScored(d[..|d| - 1]);
      assert d == d[..|d| - 1] + [d[|d| - 1]];
      if Keep(d[|d| - 1]) then r + [d[|d| - 1]] else r
  }

  /** A kept item's score; the comprehension has removed every null score. */
  function Score(item: (string, Scored)): real
  {
    if item.1.score.Some? then item.1.score.value else 0.0
  }

  /** Kept words are neither short nor numerals: a short token or a word like
      "mix" never survives. */
  lemma FilterScoredDrops(d: Items<Scored>, x: (string, Scored), n: nat)
    requires x in FilterScored(d)
    ensures |x.0| > 2 && x.1.score.Some?
    ensures 1 <= n <= 4999 ==> Upper(x.0) != Roman.ToRoman(n)
  {
    if 1 <= n <= 4999 && Upper(x.0) == Roman.ToRoman(n) {
      Roman.NumeralIsRoman(x.0, n);
    }
  }

  /** `dict(sorted(filtered_data.items(), key=lambda item: item[1]["score"], reverse=True))`. */
  function SortedScored(d: Items<Scored>): (r: Items<Scored>)
  {
    SortedDict(FilterScored(d), Score)
  }

  lemma {:induction false} FilterScoredDistinct(d: Items<Scored>)
    requires DistinctKeys(d)
    ensures DistinctKeys(FilterScored(d))
    decreases |d|
  {
    if |d| > 0 {
      var init := d[..|d| - 1];
      assert DistinctKeys(init) by {
        forall i, j | 0 <= i < j < |init| ensures init[i].0 != init[j].0 {
          assert init[i] == d[i] && init[j] == d[j];
        }
      }
      FilterScoredDistinct(init);
      var r := FilterScored(init);
      forall i | 0 <= i < |r| ensures r[i].0 != d[|d| - 1].0 {
        assert r[i] in r;
        var m :| 0 <= m < |init| && init[m] == r[i];
      }
    }
  }

  /** The written table is the kept items reordered by score, highest first,
      items of equal score in their original order. */
  lemma SortedScoredSorted(d: Items<Scored>, s: real)
    requires DistinctKeys(d)
    ensures multiset(SortedScored(d)) == multiset(FilterScored(d))
    ensures Descending(SortedScored(d), Score)
    ensures WithKey(SortedScored(d), Score, s) == WithKey(FilterScored(d), Score, s)
  {
    FilterScoredDistinct(d);
    SortedDictSorts(FilterScored(d), Score, s);
  }

  /** An item counted by the closing report. */
  predicate Popular(item: (string, Scored))
  {
    item.1.frequency > 1 && item.1.score.Some? && item.1.score.value > 1.0
  }

  /** `sum(1 for v in sorted_data.values() if v["frequency"] > 1 and v["score"] > 1)`. */
  function CountPopular(s: Items<Scored>): (r: nat)
    ensures r <= |s|
  {
    if |s| == 0 then 0 else (if Popular(s[0]) then 1 else 0) + CountPopular(s[1..])
  }

  lemma {:induction false} CountPopularInsert(x: (string, Scored), s: Items<Scored>)
    ensures CountPopular(Insert(x, s, Score)) == CountPopular(s) + (if Popular(x) then 1 else 0)
    decreases |s|
  {
    if |s| > 0 && Score(s[0]) > Score(x) {
      CountPopularInsert(x, s[1..]);
      assert ([s[0]] + Insert(x, s[1..], Score))[1..] == Insert(x, s[1..], Score);
    } else if |s| > 0 {
      assert ([x] + s)[1..] == s;
    }
  }

  /** Sorting does not change the count. */
  lemma {:induction false} CountPopularSorted(s: Items<Scored>)
    ensures CountPopular(SortDesc(s, Score)) == CountPopular(s)
    decreases |s|
  {
    if |s| > 0 {
      CountPopularSorted(s[1..]);
      CountPopularInsert(s[0], SortDesc(s[1..], Score));
    }
  }

  /** The reported count is the number of kept items with frequency and score
      above 1, counted on the unsorted table. */
  lemma ReportedCount(d: Items<Scored>)
    requires DistinctKeys(d)
    ensures CountPopular(SortedScored(d)) == CountPopular(FilterScored(d))
  {
    FilterScoredDistinct(d);
    SortedDictSorts(FilterScored(d), Score, 0.0);
    CountPopularSorted(FilterScored(d));
  }
}
