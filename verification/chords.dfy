/** The chord generator of `Chording/generateChord.py`: a word's chord is
    its first distinct letters, adjusted when it spells a dictionary word, and
    a word list gets chords that were not handed out before.  The dictionary
    (the word corpus the script downloads) is a parameter. */
module Chords {
  import opened Text

  /** The distinct letters of `s` in order of first occurrence. */
  function Dedup(s: string): (r: string)
    ensures forall c :: c in r <==> c in s
    ensures forall i, j :: 0 <= i < j < |r| ==> r[i] != r[j]
    ensures |r| <= |s|
  {
    if |s| == 0 then []
    else
      var d := Dedup(s[..|s| - 1]);
      assert forall c :: c in s <==> c in s[..|s| - 1] || c == s[|s| - 1] by {
        assert s == s[..|s| - 1] + [s[|s| - 1]];
      }
      if s[|s| - 1] in d then d else d + [s[|s| - 1]]
  }

  /** The first loop of `generate_chord` from letter `i` on, with `acc` the
      letters collected so far: a letter not yet collected is appended, and
      the loop stops once `m` letters are collected. */
  function Shorthand(word: string, m: nat, i: nat, acc: string): string
    requires i <= |word|
    decreases |word| - i
  {
    if i == |word| then acc
    else
      var acc1 := if word[i] in acc then acc else acc + [word[i]];
      if |acc1| == m then acc1 else Shorthand(word, m, i + 1, acc1)
  }

  /** How many of `n` distinct letters a limit of `m` keeps (0 never stops the loop). */
  function Limit(m: nat, n: nat): nat
  {
    if m == 0 || n < m then n else m
  }

  /** `''.join(shorthand)`: the uncorrected chord. */
  function Prefix(word: string, m: nat): (r: string)
    ensures forall i, j :: 0 <= i < j < |r| ==> r[i] != r[j]
    ensures forall c :: c in r ==> c in word
    ensures word != "" ==> |r| > 0
  {
    assert word[..0] == [];
    ShorthandIsDedup(word, m, 0, []);
    assert word != "" ==> word[0] in Dedup(word);
    Shorthand(word, m, 0, [])
  }

  lemma DedupStep(s: string, i: nat)
    requires i < |s|
    ensures Dedup(s[..i + 1]) == if s[i] in Dedup(s[..i]) then Dedup(s[..i]) else Dedup(s[..i]) + [s[i]]
  {
    assert s[..i + 1][..i] == s[..i];
  }

  /** The distinct letters of a prefix of `s` start the distinct letters of `s`. */
  lemma {:induction false} DedupPrefix(s: string, i: nat)
    requires i <= |s|
    ensures |Dedup(s[..i])| <= |Dedup(s)| && Dedup(s)[..|Dedup(s[..i])|] == Dedup(s[..i])
    decreases |s|
  {
    if i < |s| {
      var init := s[..|s| - 1];
      DedupPrefix(init, i);
      assert init[..i] == s[..i];
      assert s[..|s|] == s;
      DedupStep(s, |s| - 1);
    } else {
      assert s[..i] == s;
    }
  }

  /** The loop collects letters exactly as `Dedup` does until it has `m`. */
  lemma {:induction false} ShorthandIsDedup(word: string, m: nat, i: nat, acc: string)
    requires i <= |word| && acc == Dedup(word[..i]) && (m == 0 || |acc| < m)
    ensures Shorthand(word, m, i, acc) == Dedup(word)[..Limit(m, |Dedup(word)|)]
    decreases |word| - i
  {
    if i == |word| {
      assert word[..i] == word;
    } else {
      DedupStep(word, i);
      var acc1 := if word[i] in acc then acc else acc + [word[i]];
      DedupPrefix(word, i + 1);
      if |acc1| != m {
        ShorthandIsDedup(word, m, i + 1, acc1);
      }
    }
  }

  /** The uncorrected chord is the first `m` distinct letters of the word in
      order of first occurrence (all of them when there are fewer). */
  lemma PrefixIsDistinctLetters(word: string, m: nat)
    ensures Prefix(word, m) == Dedup(word)[..Limit(m, |Dedup(word)|)]
  {
    assert word[..0] == [];
    ShorthandIsDedup(word, m, 0, []);
  }

  /** The first letter of `word` missing from `p`, if any. */
  function FirstAbsent(word: string, p: string): (r: Option<char>)
    ensures r.None? <==> forall c :: c in word ==> c in p
    ensures r.Some? ==> r.value in word && r.value !in p
  {
    if |word| == 0 then None
    else if word[0] !in p then Some(word[0])
    else
      assert forall c :: c in word <==> c == word[0] || c in word[1..] by {
        assert word == [word[0]] + word[1..];
      }
      FirstAbsent(word[1..], p)
  }

  /** `generate_chord`: the first `m` distinct letters; when they spell a
      dictionary word, the last one is replaced by the first letter of the
      word not among them, and if the result is still a dictionary word it
      is rotated left by one.  An empty word whose (empty) chord is in the
      dictionary makes the rotation index an empty string, which the source
      does not survive. */
  function GenerateChord(word: string, m: nat, dict: set<string>): (r: string)
    requires word != "" || "" !in dict
    ensures Prefix(word, m) !in dict ==> r == Prefix(word, m)
    ensures word != "" && Prefix(word, m) in dict ==>
              var q := Replace(word, Prefix(word, m));
              r == if q in dict then Rotate(q) else q
    ensures |r| == |Prefix(word, m)|
    ensures forall c :: c in r ==> c in word
    ensures forall i, j :: 0 <= i < j < |r| ==> r[i] != r[j]
  {
    var p := Prefix(word, m);
    PrefixIsDistinctLetters(word, m);
    assert forall c :: c in p ==> c in Dedup(word);
    if p !in dict then p
    else if word == "" then assert false; p
    else
      assert word[0] in Dedup(word);
      var q := Replace(word, p);
      if q in dict then Rotate(q) else q
  }

  /** The replacement step: the last letter gives way to the first letter of
      the word missing from the chord. */
  function Replace(word: string, p: string): (r: string)
    requires |p| > 0
    requires forall i, j :: 0 <= i < j < |p| ==> p[i] != p[j]
    ensures |r| == |p|
    ensures forall c :: c in r ==> c in p || c in word
    ensures forall i, j :: 0 <= i < j < |r| ==> r[i] != r[j]
    ensures FirstAbsent(word, p).None? ==> r == p
    ensures FirstAbsent(word, p).Some? ==> r[..|r| - 1] == p[..|p| - 1] && r[|r| - 1] == FirstAbsent(word, p).value
  {
    match FirstAbsent(word, p)
    case None => p
    case Some(c) =>
      assert forall x :: x in p[..|p| - 1] ==> x in p;
      p[..|p| - 1] + [c]
  }

  /** `result[1:] + result[0]`. */
  function Rotate(q: string): (r: string)
    requires |q| > 0
    requires forall i, j :: 0 <= i < j < |q| ==> q[i] != q[j]
    ensures |r| == |q| && multiset(r) == multiset(q)
    ensures forall i, j :: 0 <= i < j < |r| ==> r[i] != r[j]
    ensures r[|r| - 1] == q[0] && r[..|r| - 1] == q[1..]
  {
    assert q == [q[0]] + q[1..];
    q[1..] + [q[0]]
  }

  // ---------------------------------------------------------------------------
  // create_chords

  /** The chords assigned so far and the set of chords handed out. */
  datatype Assignment = Assignment(chords: map<string, string>, used: set<string>)

  /** The `while max_length <= len(word)` loop from length `ml` on: the first
      generated chord not yet handed out, and the length the loop stopped at. */
  function FirstFree(word: string, dict: set<string>, used: set<string>, ml: nat): (r: (Option<string>, nat))
    requires ml >= 1
    ensures r.0.Some? ==> ml <= r.1 <= |word| && r.0.value == GenerateChord(word, r.1, dict) && r.0.value !in used
    ensures r.0.None? ==> r.1 == if ml <= |word| then |word| + 1 else ml
    ensures forall l :: ml <= l < r.1 && l <= |word| ==> GenerateChord(word, l, dict) in used
    decreases |word| + 1 - ml
  {
    if ml > |word| then (None, ml)
    else
      var chord := GenerateChord(word, ml, dict);
      if chord !in used then (Some(chord), ml) else FirstFree(word, dict, used, ml + 1)
  }

  /** One pass of the `for word in word_list` loop.  A word that already has
      a chord keeps it unless the loop finds a fresh one; otherwise the
      fallback is the word cut at the length the loop stopped at. */
  function AddWord(a: Assignment, word: string, dict: set<string>): (r: Assignment)
    ensures r.chords.Keys == a.chords.Keys + {word}
    ensures a.used <= r.used
    ensures forall w :: w in a.chords && w != word ==> r.chords[w] == a.chords[w]
  {
    var found := FirstFree(word, dict, a.used, 2);
    if found.0.Some? then Assignment(a.chords[word := found.0.value], a.used + {found.0.value})
    else if word in a.chords then a
    else
      var fallback := word[..if found.1 <= |word| then found.1 else |word|];
      Assignment(a.chords[word := fallback], a.used + {fallback})
  }

  /** `create_chords`. */
  function CreateChords(words: seq<string>, dict: set<string>): (r: Assignment)
    ensures r.chords.Keys == set w | w in words
  {
    if |words| == 0 then Assignment(map[], {})
    else
      var init := words[..|words| - 1];
      var r := AddWord(CreateChords(init, dict), words[|words| - 1], dict);
      assert forall w :: w in words <==> w in init || w == words[|words| - 1] by {
        assert words == init + [words[|words| - 1]];
      }
      r
  }

  /** The bookkeeping `create_chords` keeps: every chord is handed out and
      made of letters of its word. */
  ghost predicate Sound(a: Assignment)
  {
    forall w :: w in a.chords ==> a.chords[w] in a.used && forall c :: c in a.chords[w] ==> c in w
  }

  /** A chord the loop assigns was not handed out before, so it differs from
      every chord already assigned; when the loop finds none the fallback is
      the whole word, since the loop stops past the word's length. */
  lemma AddWordFresh(a: Assignment, word: string, dict: set<string>)
    requires Sound(a)
    ensures var found := FirstFree(word, dict, a.used, 2);
      && (found.0.Some? ==> AddWord(a, word, dict).chords[word] == found.0.value
                            && forall w :: w in a.chords && w != word ==> a.chords[w] != found.0.value)
      && (found.0.None? && word !in a.chords ==> AddWord(a, word, dict).chords[word] == word)
    ensures Sound(AddWord(a, word, dict))
  {
    var found := FirstFree(word, dict, a.used, 2);
    if found.0.None? {
      assert word[..if found.1 <= |word| then found.1 else |word|] == word;
    }
  }

  /** Every chord `create_chords` returns is made of letters of its word, and
      was handed out. */
  lemma {:induction false} CreateChordsSound(words: seq<string>, dict: set<string>)
    ensures Sound(CreateChords(words, dict))
    decreases |words|
  {
    if |words| > 0 {
      CreateChordsSound(words[..|words| - 1], dict);
      AddWordFresh(CreateChords(words[..|words| - 1], dict), words[|words| - 1], dict);
    }
  }

  /** `create_chords(["apple", "apply"])` with no dictionary words: the second
      word's two-letter chord is taken, so it gets three letters. */
  lemma CreateChordsExample()
    ensures CreateChords(["apple", "apply"], {}).chords == map["apple" := "ap", "apply" := "apl"]
  {
    assert Prefix("apple", 2) == "ap" by {
      assert Shorthand("apple", 2, 1, "a") == "ap";
    }
    assert Prefix("apply", 2) == "ap" by {
      assert Shorthand("apply", 2, 1, "a") == "ap";
    }
    assert Prefix("apply", 3) == "apl" by {
      assert "apply"[2] in "ap";
      assert Shorthand("apply", 3, 2, "ap") == Shorthand("apply", 3, 3, "ap");
      assert "apply"[3] !in "ap";
      assert Shorthand("apply", 3, 3, "ap") == "apl";
    }
    var a1 := CreateChords(["apple"], {});
    assert ["apple", "apply"][..1] == ["apple"];
    assert ["apple"][..0] == [];
    assert a1 == Assignment(map["apple" := "ap"], {"ap"});
    assert FirstFree("apply", {}, {"ap"}, 3) == (Some("apl"), 3);
    assert FirstFree("apply", {}, {"ap"}, 2) == (Some("apl"), 3);
  }

  /** "little" with "li" and "lt" in the dictionary: the first letter missing
      from "li" is "t", and "lt" is a word too, so it turns into "tl". */
  lemma GenerateChordExample()
    ensures GenerateChord("little", 2, {"li", "lt"}) == "tl"
  {
    var d := {"li", "lt"};
    LittlePrefix();
    LittleReplace();
    assert "li" in d && "lt" in d;
    assert Rotate("lt") == "tl";
  }

  lemma LittlePrefix()
    ensures Prefix("little", 2) == "li"
  {
    assert Shorthand("little", 2, 1, "l") == "li";
  }

  lemma LittleReplace()
    ensures Replace("little", "li") == "lt"
  {
    var w := "little";
    assert w[0] in "li" && w[1] in "li" && w[2] !in "li";
    assert FirstAbsent(w[2..], "li") == Some('t');
    assert FirstAbsent(w[1..], "li") == FirstAbsent(w[2..], "li");
  }
}
