/** The harvester's boilerplate-stripping normaliser (`process_text`, identical
    in the German and the English harvester): drop the Project Gutenberg header,
    cut the footer, cut trailing licence blocks, strip, and collapse every run of
    three or more newlines to exactly two. */
module Normalizer {
  import opened Text

  const StartMarkers: seq<string> := [
    "*** START OF THIS PROJECT GUTENBERG",
    "*** START OF THE PROJECT GUTENBERG"
  ]

  const EndMarkers: seq<string> := [
    "*** END OF THIS PROJECT GUTENBERG",
    "*** END OF THE PROJECT GUTENBERG"
  ]

  const LicenseMarkers: seq<string> := [
    "End of the Project Gutenberg",
    "End of Project Gutenberg",
    "*** END OF THIS PROJECT GUTENBERG",
    "*** END OF THE PROJECT GUTENBERG"
  ]

  /** `markers[k]` is the first marker, in list order, that occurs in `text`. */
  predicate FirstListed(text: string, markers: seq<string>, k: int)
  {
    0 <= k < |markers| && Contains(text, markers[k])
    && forall j :: 0 <= j < k ==> !Contains(text, markers[j])
  }

  predicate NoneOccurs(text: string, markers: seq<string>)
  {
    forall k :: 0 <= k < |markers| ==> !Contains(text, markers[k])
  }

  /** `p` is the first occurrence of `m` in `text`. */
  ghost predicate FirstOccurrence(text: string, m: string, p: int)
  {
    OccursAt(text, m, p) && forall j :: 0 <= j < p ==> !OccursAt(text, m, j)
  }

  /** `p` is the last occurrence of `m` in `text`. */
  ghost predicate LastOccurrence(text: string, m: string, p: int)
  {
    OccursAt(text, m, p) && forall j :: p < j ==> !OccursAt(text, m, j)
  }

  /** The position of the first occurrence of the first listed marker that occurs
      (the `for marker in markers: pos = text.find(marker); if pos != -1: break` loop). */
  function FirstListedPos(text: string, markers: seq<string>): (r: Option<nat>)
    ensures r.None? <==> NoneOccurs(text, markers)
    ensures r.Some? ==> exists k :: FirstListed(text, markers, k) && FirstOccurrence(text, markers[k], r.value)
  {
    if |markers| == 0 then None
    else
      match Find(text, markers[0])
      case Some(p) =>
        assert FirstListed(text, markers, 0);
        Some(p)
      case None =>
        var r := FirstListedPos(text, markers[1..]);
        assert r.Some? ==> exists k :: FirstListed(text, markers, k) && FirstOccurrence(text, markers[k], r.value) by {
          if r.Some? {
            var k :| FirstListed(text, markers[1..], k) && FirstOccurrence(text, markers[1..][k], r.value);
            assert FirstListed(text, markers, k + 1);
          }
        }
        r
  }

  /** What the header step leaves of `text` once the marker was found at `p`:
      everything after the first newline at or after `p`, or all of `text` when
      no newline follows (`find` gives -1 and -1 + 1 slices from 0). */
  ghost predicate HeaderCut(text: string, p: nat, r: string)
  {
    (exists q :: p <= q < |text| && text[q] == '\n' && (forall j :: p <= j < q ==> text[j] != '\n') && r == text[q + 1..])
    || ((forall j :: p <= j < |text| ==> text[j] != '\n') && r == text)
  }

  /** Header step: drop everything up to and including the line holding the first listed start marker. */
  function DropHeader(text: string, markers: seq<string>): (r: string)
    ensures NoneOccurs(text, markers) ==> r == text
    ensures |r| <= |text| && r == text[|text| - |r|..]
  {
    match FirstListedPos(text, markers)
    case None => text
    case Some(p) =>
      match FindFrom(text, "\n", p)
      case None => text
      case Some(q) => text[q + 1..]
  }

  /** Once the first listed start marker that occurs is found at `p`, the
      header step keeps what follows the first newline at or after `p`. */
  lemma DropHeaderCut(text: string, markers: seq<string>, k: nat, p: nat)
    requires FirstListed(text, markers, k) && FirstOccurrence(text, markers[k], p)
    ensures HeaderCut(text, p, DropHeader(text, markers))
  {
    FirstListedPosAt(text, markers, k, p);
    DropHeaderAt(text, markers, p);
  }

  lemma DropHeaderAt(text: string, markers: seq<string>, p: nat)
    requires FirstListedPos(text, markers) == Some(p)
    ensures HeaderCut(text, p, DropHeader(text, markers))
  {
    var r := DropHeader(text, markers);
    match FindFrom(text, "\n", p)
    case None =>
      assert r == text;
      NoNewlineBetween(text, p, |text|);
    case Some(q) =>
      assert r == text[q + 1..];
      assert text[q] == '\n' by { assert text[q..q + 1] == "\n"; }
      NoNewlineBetween(text, p, q);
      assert p <= q < |text| && text[q] == '\n' && (forall j :: p <= j < q ==> text[j] != '\n') && r == text[q + 1..];
  }

  /** The position the header step searches from is that of the first listed marker. */
  lemma FirstListedPosAt(text: string, markers: seq<string>, k: nat, p: nat)
    requires FirstListed(text, markers, k) && FirstOccurrence(text, markers[k], p)
    ensures FirstListedPos(text, markers) == Some(p)
  {
    var fp := FirstListedPos(text, markers);
    assert fp.Some?;
    FirstListedUnique(text, markers, fp.value);
    FirstOccurrenceUnique(text, markers, fp.value);
  }

  /** No one-character newline pattern occurs in `[p, q)`, so no character there is a newline. */
  lemma NoNewlineBetween(text: string, p: nat, q: nat)
    requires q <= |text| && forall j :: p <= j < q ==> !OccursAt(text, "\n", j)
    ensures forall j :: p <= j < q ==> text[j] != '\n'
  {
    forall j | p <= j < q ensures text[j] == '\n' ==> OccursAt(text, "\n", j) {
      assert text[j..j + 1] == [text[j]];
    }
  }

  lemma FirstListedUnique(text: string, markers: seq<string>, p: nat)
    requires exists k :: FirstListed(text, markers, k) && FirstOccurrence(text, markers[k], p)
    ensures forall k :: FirstListed(text, markers, k) ==> FirstOccurrence(text, markers[k], p)
  {
    var k0 :| FirstListed(text, markers, k0) && FirstOccurrence(text, markers[k0], p);
    forall k | FirstListed(text, markers, k) ensures FirstOccurrence(text, markers[k], p) {
    }
  }

  lemma FirstOccurrenceUnique(text: string, markers: seq<string>, p: nat)
    requires forall k :: FirstListed(text, markers, k) ==> FirstOccurrence(text, markers[k], p)
    ensures forall k, p' :: FirstListed(text, markers, k) && FirstOccurrence(text, markers[k], p') ==> p' == p
  {
  }

  /** Footer step: cut at the first occurrence of the first listed end marker. */
  function CutFooter(text: string, markers: seq<string>): (r: string)
    ensures |r| <= |text| && r == text[..|r|]
    ensures NoneOccurs(text, markers) ==> r == text
    ensures forall k :: FirstListed(text, markers, k) ==> FirstOccurrence(text, markers[k], |r|)
  {
    match FirstListedPos(text, markers)
    case None => text
    case Some(p) =>
      FirstListedUnique(text, markers, p);
      text[..p]
  }

  /** One licence step: truncate at the last occurrence of `m`, then strip. */
  function LicenseStep(text: string, m: string): (r: string)
    ensures !Contains(text, m) ==> r == text
    ensures Contains(text, m) ==> exists p :: LastOccurrence(text, m, p) && r == Strip(text[..p])
    ensures |r| <= |text|
  {
    match RFind(text, m)
    case None => text
    case Some(p) => Strip(text[..p])
  }

  /** Licence step: every marker in turn, in list order. */
  function StripLicense(text: string, markers: seq<string>): (r: string)
    ensures |r| <= |text|
    ensures NoneOccurs(text, markers) ==> r == text
    decreases |markers|
  {
    if |markers| == 0 then text
    else
      var t := LicenseStep(text, markers[0]);
      assert NoneOccurs(text, markers) ==> NoneOccurs(t, markers[1..]) by {
        if NoneOccurs(text, markers) {
          assert t == text;
          forall k | 0 <= k < |markers| - 1 ensures !Contains(t, markers[1..][k]) {
            assert markers[1..][k] == markers[k + 1];
          }
        }
      }
      StripLicense(t, markers[1..])
  }

  /** Length of the run of newlines `s` starts with. */
  function NewlineRun(s: string): (k: nat)
    ensures k <= |s|
    ensures forall j :: 0 <= j < k ==> s[j] == '\n'
    ensures k < |s| ==> s[k] != '\n'
  {
    if |s| > 0 && s[0] == '\n' then 1 + NewlineRun(s[1..]) else 0
  }

  /** `re.sub(r'\n{3,}', '\n\n', s)`: every maximal run of three or more newlines becomes two. */
  function Collapse(s: string): (r: string)
    decreases |s|
  {
    if |s| == 0 then ""
    else if s[0] != '\n' then [s[0]] + Collapse(s[1..])
    else
      var k := NewlineRun(s);
      (if k >= 3 then "\n\n" else s[..k]) + Collapse(s[k..])
  }

  /** No three consecutive newlines, stated on characters. */
  predicate NoTriple(s: string)
  {
    forall i :: 0 <= i < |s| - 2 ==> !(s[i] == '\n' && s[i + 1] == '\n' && s[i + 2] == '\n')
  }

  lemma NoTripleIsNotContains(s: string)
    ensures NoTriple(s) <==> !Contains(s, "\n\n\n")
  {
    forall i | OccursAt(s, "\n\n\n", i) ensures s[i] == '\n' && s[i + 1] == '\n' && s[i + 2] == '\n' {
      assert s[i..i + 3][0] == s[i] && s[i..i + 3][1] == s[i + 1] && s[i..i + 3][2] == s[i + 2];
    }
    forall i | 0 <= i <= |s| && OccursAt(s, "\n\n\n", i) ensures !NoTriple(s) {
      assert s[i] == '\n' && s[i + 1] == '\n' && s[i + 2] == '\n';
    }
    if !NoTriple(s) {
      var i :| 0 <= i < |s| - 2 && s[i] == '\n' && s[i + 1] == '\n' && s[i + 2] == '\n';
      assert s[i..i + 3] == "\n\n\n";
      assert OccursAt(s, "\n\n\n", i);
    }
  }

  lemma CollapseShape(s: string)
    ensures |Collapse(s)| <= |s|
    ensures |Collapse(s)| == 0 <==> |s| == 0
    ensures |s| > 0 && s[0] != '\n' ==> Collapse(s)[0] == s[0]
    ensures NoTriple(Collapse(s))
  {
    CollapseLength(s);
    CollapseNoTriple(s);
  }

  lemma {:induction false} CollapseLength(s: string)
    ensures |Collapse(s)| <= |s|
    ensures |Collapse(s)| == 0 <==> |s| == 0
    ensures |s| > 0 && s[0] != '\n' ==> Collapse(s)[0] == s[0]
    decreases |s|
  {
    if |s| > 0 {
      if s[0] != '\n' {
        CollapseLength(s[1..]);
      } else {
        CollapseLength(s[NewlineRun(s)..]);
      }
    }
  }

  lemma {:induction false} CollapseNoTriple(s: string)
    ensures NoTriple(Collapse(s))
    decreases |s|
  {
    if |s| == 0 {
    } else if s[0] != '\n' {
      CollapseNoTriple(s[1..]);
      NoTripleCons(s[0], Collapse(s[1..]));
    } else {
      var k := NewlineRun(s);
      CollapseNoTriple(s[k..]);
      CollapseLength(s[k..]);
      var pre: string := if k >= 3 then "\n\n" else s[..k];
      assert |pre| <= 2 && forall j :: 0 <= j < |pre| ==> pre[j] == '\n';
      NoTripleAfterShortRun(pre, Collapse(s[k..]));
    }
  }

  /** A character in front of a string without triples adds none unless it is a newline. */
  lemma NoTripleCons(c: char, rest: string)
    requires c != '\n' && NoTriple(rest)
    ensures NoTriple([c] + rest)
  {
    var r := [c] + rest;
    forall i | 0 <= i < |r| - 2 ensures !(r[i] == '\n' && r[i + 1] == '\n' && r[i + 2] == '\n') {
      if i > 0 { assert r[i] == rest[i - 1] && r[i + 1] == rest[i] && r[i + 2] == rest[i + 1]; }
    }
  }

  /** At most two newlines in front of a string without triples that does not
      start with a newline add none. */
  lemma NoTripleAfterShortRun(pre: string, rest: string)
    requires |pre| <= 2 && forall j :: 0 <= j < |pre| ==> pre[j] == '\n'
    requires NoTriple(rest) && (|rest| > 0 ==> rest[0] != '\n')
    ensures NoTriple(pre + rest)
  {
    var r := pre + rest;
    forall i | 0 <= i < |r| - 2 ensures !(r[i] == '\n' && r[i + 1] == '\n' && r[i + 2] == '\n') {
      if i >= |pre| {
        assert r[i] == rest[i - |pre|] && r[i + 1] == rest[i - |pre| + 1] && r[i + 2] == rest[i - |pre| + 2];
      } else if i + 1 == |pre| {
        assert r[i + 1] == rest[0];
      } else {
        assert r[i + 2] == rest[0];
      }
    }
  }

  lemma {:induction false} CollapseSnoc(s: string, c: char)
    requires c != '\n'
    ensures Collapse(s + [c]) == Collapse(s) + [c]
    decreases |s|
  {
    var t := s + [c];
    if |s| == 0 {
      assert Collapse(t) == [c] + Collapse([]);
    } else if s[0] != '\n' {
      assert t[1..] == s[1..] + [c];
      CollapseSnoc(s[1..], c);
    } else {
      var k := NewlineRun(s);
      NewlineRunSnoc(s, c);
      assert t[..k] == s[..k];
      assert t[k..] == s[k..] + [c];
      CollapseSnoc(s[k..], c);
    }
  }

  lemma {:induction false} NewlineRunSnoc(s: string, c: char)
    requires c != '\n'
    ensures NewlineRun(s + [c]) == NewlineRun(s)
    decreases |s|
  {
    if |s| > 0 && s[0] == '\n' {
      assert (s + [c])[1..] == s[1..] + [c];
      NewlineRunSnoc(s[1..], c);
    }
  }

  /** A string that ends in a character other than a newline keeps that last character. */
  lemma CollapseKeepsLast(s: string)
    requires |s| > 0 && s[|s| - 1] != '\n'
    ensures |Collapse(s)| > 0 && Collapse(s)[|Collapse(s)| - 1] == s[|s| - 1]
  {
    assert s == s[..|s| - 1] + [s[|s| - 1]];
    CollapseSnoc(s[..|s| - 1], s[|s| - 1]);
  }

  /** Collapsing changes nothing once there is no run of three newlines. */
  lemma LongRunStartsWithTriple(s: string)
    ensures NewlineRun(s) >= 3 ==> |s| >= 3 && s[0] == '\n' && s[1] == '\n' && s[2] == '\n'
  {
  }

  lemma {:induction false} CollapseFixesNoTriple(s: string)
    requires NoTriple(s)
    ensures Collapse(s) == s
    decreases |s|
  {
    if |s| == 0 {
    } else if s[0] != '\n' {
      assert NoTriple(s[1..]) by {
        forall i | 0 <= i < |s[1..]| - 2 ensures !(s[1..][i] == '\n' && s[1..][i + 1] == '\n' && s[1..][i + 2] == '\n') {
          assert s[1..][i] == s[i + 1] && s[1..][i + 1] == s[i + 2] && s[1..][i + 2] == s[i + 3];
        }
      }
      CollapseFixesNoTriple(s[1..]);
      assert s == [s[0]] + s[1..];
    } else {
      var k := NewlineRun(s);
      LongRunStartsWithTriple(s);
      assert k < 3;
      assert NoTriple(s[k..]) by {
        forall i | 0 <= i < |s[k..]| - 2 ensures !(s[k..][i] == '\n' && s[k..][i + 1] == '\n' && s[k..][i + 2] == '\n') {
          assert s[k..][i] == s[i + k] && s[k..][i + 1] == s[i + k + 1] && s[k..][i + 2] == s[i + k + 2];
        }
      }
      CollapseFixesNoTriple(s[k..]);
      assert s == s[..k] + s[k..];
    }
  }

  /** Collapsing twice is collapsing once. */
  lemma CollapseIdempotent(s: string)
    ensures Collapse(Collapse(s)) == Collapse(s)
  {
    CollapseShape(s);
    CollapseFixesNoTriple(Collapse(s));
  }

  /** The last line of `process_text`: strip, then collapse newline runs. */
  function Tidy(t: string): (r: string)
    ensures !Contains(r, "\n\n\n")
    ensures |r| > 0 ==> !IsSpace(r[0]) && !IsSpace(r[|r| - 1])
    ensures |r| <= |t|
  {
    var s := Strip(t);
    CollapseShape(s);
    NoTripleIsNotContains(Collapse(s));
    if |s| > 0 then
      CollapseKeepsLast(s);
      Collapse(s)
    else Collapse(s)
  }

  /** `process_text`: header, footer, licence, then strip and collapse. */
  function ProcessText(text: string): (r: string)
    ensures !Contains(r, "\n\n\n")
    ensures |r| > 0 ==> !IsSpace(r[0]) && !IsSpace(r[|r| - 1])
    ensures |r| <= |text|
  {
    Tidy(StripLicense(CutFooter(DropHeader(text, StartMarkers), EndMarkers), LicenseMarkers))
  }

  lemma AbsentInSuffix(text: string, m: string, a: nat)
    requires a <= |text| && !Contains(text, m)
    ensures !Contains(text[a..], m)
  {
    forall i | OccursAt(text[a..], m, i) ensures false {
      assert text[a..][i..i + |m|] == text[a + i..a + i + |m|];
      assert OccursAt(text, m, a + i);
    }
  }

  lemma AbsentInPrefix(text: string, m: string, b: nat)
    requires b <= |text| && !Contains(text, m)
    ensures !Contains(text[..b], m)
  {
    forall i | OccursAt(text[..b], m, i) ensures false {
      assert text[..b][i..i + |m|] == text[i..i + |m|];
      assert OccursAt(text, m, i);
    }
  }

  /** Without any marker the normaliser only strips and collapses newline runs. */
  lemma ProcessTextWithoutMarkers(text: string)
    requires NoneOccurs(text, StartMarkers) && NoneOccurs(text, EndMarkers) && NoneOccurs(text, LicenseMarkers)
    ensures ProcessText(text) == Collapse(Strip(text))
  {
  }

  /** The normaliser's output is a fixed point of the newline collapse. */
  lemma ProcessTextCollapsed(text: string)
    ensures Collapse(ProcessText(text)) == ProcessText(text)
  {
    NoTripleIsNotContains(ProcessText(text));
    CollapseFixesNoTriple(ProcessText(text));
  }
}
