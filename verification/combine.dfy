/** The combining step of the Gutenberg corpus: every `.txt` file of the
    book folder is stripped, cut to a size budget, framed with its file name,
    and the framed texts are joined with newlines into one file.  Reading a
    file is a parameter: `None` stands for a read or decode error. */
module Combine {
  import opened Text

  /** `max_size`: 5 MiB. */
  const MaxSize: nat := 5 * 1024 * 1024

  /** `BATCH_SIZE`: files handed to the thread pool at a time. */
  const BatchSize: nat := 1000

  /** `source_folder`. */
  const Folder: string := "gutenberg_books"

  /** The number of bytes UTF-8 spends on `c`. */
  function Utf8Len(c: char): (n: nat)
    ensures 1 <= n <= 4 && (n == 1 <==> c as int < 0x80)
  {
    if c as int < 0x80 then 1
    else if c as int < 0x800 then 2
    else if c as int < 0x1_0000 then 3
    else 4
  }

  /** `len(s.encode('utf-8'))`. */
  function Utf8Size(s: string): (n: nat)
    ensures |s| <= n <= 4 * |s|
  {
    if |s| == 0 then 0 else Utf8Size(s[..|s| - 1]) + Utf8Len(s[|s| - 1])
  }

  /** Longer prefixes never encode shorter. */
  lemma {:induction false} Utf8SizePrefix(s: string, n: nat)
    requires n <= |s|
    ensures Utf8Size(s[..n]) <= Utf8Size(s)
    decreases |s|
  {
    if n < |s| {
      Utf8SizePrefix(s[..|s| - 1], n);
      assert s[..|s| - 1][..n] == s[..n];
    } else {
      assert s[..n] == s;
    }
  }

  /** The length of the longest prefix of `s` that encodes in at most `budget` bytes. */
  function FitLength(s: string, budget: nat): (n: nat)
    ensures n <= |s| && Utf8Size(s[..n]) <= budget
    ensures n < |s| ==> Utf8Size(s[..n + 1]) > budget
  {
    if Utf8Size(s) <= budget then
      assert s[..|s|] == s;
      |s|
    else
      var init := s[..|s| - 1];
      var n := FitLength(init, budget);
      assert init[..n] == s[..n];
      if n < |init| then
        assert init[..n + 1] == s[..n + 1];
        n
      else
        assert s[..n + 1] == s;
        n
  }

  /** `os.path.basename(path)`: what follows the last `/`. */
  function Basename(path: string): (r: string)
    ensures |r| <= |path| && EndsWith(path, r)
  {
    match RFind(path, "/")
    case None => path
    case Some(i) => path[i + 1..]
  }

  lemma BasenameJoined(name: string)
    requires forall i :: 0 <= i < |name| ==> name[i] != '/'
    ensures Basename(Folder + "/" + name) == name
  {
    var path := Folder + "/" + name;
    assert OccursAt(path, "/", |Folder|);
    forall j | |Folder| < j
      ensures !OccursAt(path, "/", j)
    {
      if j < |path| {
        assert path[j..j + 1][0] == path[j] == name[j - |Folder| - 1];
      }
    }
  }

  /** A file listed in the book folder is framed with its own name, by the
      script as written and by the corrected cut alike. */
  lemma FramedByName(name: string, raw: string)
    requires forall i :: 0 <= i < |name| ==> name[i] != '/'
    ensures ProcessFileAsWritten(Folder + "/" + name, Some(raw)) == Header(name) + BodyAsWritten(raw) + Footer(name)
    ensures ProcessFile(Folder + "/" + name, Some(raw)) == Header(name) + Body(raw) + Footer(name)
  {
    BasenameJoined(name);
  }

  function Header(base: string): string
  {
    "--- Start of " + base + " ---\n"
  }

  function Footer(base: string): string
  {
    "\n--- End of " + base + " ---\n\n"
  }

  /** The stripped text, cut to the longest prefix that encodes within `MaxSize` bytes. */
  function Body(raw: string): (b: string)
    ensures Utf8Size(b) <= MaxSize && StartsWith(Strip(raw), b)
    ensures b == Strip(raw) <==> Utf8Size(Strip(raw)) <= MaxSize
    ensures |b| < |Strip(raw)| ==> Utf8Size(Strip(raw)[..|b| + 1]) > MaxSize
  {
    Cut(Strip(raw), MaxSize)
  }

  /** The longest prefix of `s` that encodes within `budget` bytes. */
  function Cut(s: string, budget: nat): (b: string)
    ensures Utf8Size(b) <= budget && StartsWith(s, b)
    ensures b == s <==> Utf8Size(s) <= budget
    ensures |b| < |s| ==> Utf8Size(s[..|b| + 1]) > budget
  {
    var n := FitLength(s, budget);
    assert s[..|s|] == s;
    s[..n]
  }

  /** `process_file` with the truncation done in bytes, as its comment
      intends: the stripped content, cut to fit `MaxSize` bytes, framed by a
      start line and an end line naming the file; "" when the file cannot be
      read.  The combined file is built with `ProcessFileAsWritten`. */
  function ProcessFile(path: string, content: Option<string>): (r: string)
    ensures content.None? ==> r == ""
  {
    match content
    case None => ""
    case Some(raw) => Header(Basename(path)) + Body(raw) + Footer(Basename(path))
  }

  /** With the corrected cut, too, the text between the start line and the end
      line is exactly the body, now within `MaxSize` bytes. */
  lemma UnframeCorrected(path: string, raw: string)
    ensures var r, h, f := ProcessFile(path, Some(raw)), Header(Basename(path)), Footer(Basename(path));
      StartsWith(r, h) && EndsWith(r, f) && |h| + |f| <= |r| && r[|h|..|r| - |f|] == Body(raw)
      && Utf8Size(r[|h|..|r| - |f|]) <= MaxSize
  {
    var r, h, f := ProcessFile(path, Some(raw)), Header(Basename(path)), Footer(Basename(path));
    assert r == h + Body(raw) + f;
    assert r[..|h|] == h;
    assert r[|r| - |f|..] == f;
    assert r[|h|..|r| - |f|] == Body(raw);
  }

  // ---------------------------------------------------------------------------
  // The truncation as written

  /** The body as the script cuts it: a stripped text over `MaxSize` bytes
      keeps its first `MaxSize` characters, a cut counted in characters
      although the budget is in bytes. */
  function BodyAsWritten(raw: string): (b: string)
    ensures StartsWith(Strip(raw), b) && |b| <= MaxSize
    ensures Utf8Size(Strip(raw)) <= MaxSize ==> b == Strip(raw)
    ensures Utf8Size(Strip(raw)) > MaxSize && MaxSize < |Strip(raw)| ==> |b| == MaxSize
    ensures Utf8Size(Strip(raw)) > MaxSize && |Strip(raw)| <= MaxSize ==> b == Strip(raw)
  {
    var s := Strip(raw);
    if |s| > 0 && Utf8Size(s) > MaxSize then
      if MaxSize < |s| then s[..MaxSize] else s
    else s
  }

  /** `process_file` as the scripts write it: the stripped content, cut by
      `BodyAsWritten`, framed by a start line and an end line naming the file;
      "" when the file cannot be read or decoded. */
  function ProcessFileAsWritten(path: string, content: Option<string>): (r: string)
    ensures content.None? ==> r == ""
    ensures content.Some? ==>
              StartsWith(r, Header(Basename(path))) && EndsWith(r, Footer(Basename(path)))
  {
    match content
    case None => ""
    case Some(raw) =>
      var h, f := Header(Basename(path)), Footer(Basename(path));
      var r := h + BodyAsWritten(raw) + f;
      assert r[..|h|] == h && r[|r| - |f|..] == f;
      r
  }

  /** The framing can be taken off again: between the start line and the end
      line lies exactly the body as the script cuts it. */
  lemma Unframe(path: string, raw: string)
    ensures var r, h, f := ProcessFileAsWritten(path, Some(raw)), Header(Basename(path)), Footer(Basename(path));
      |h| + |f| <= |r| && r[|h|..|r| - |f|] == BodyAsWritten(raw)
  {
    var r, h, f := ProcessFileAsWritten(path, Some(raw)), Header(Basename(path)), Footer(Basename(path));
    assert r == h + BodyAsWritten(raw) + f;
    assert r[|h|..|r| - |f|] == BodyAsWritten(raw);
  }

  /** The byte cut never keeps more than the character cut: the corrected
      body is a prefix of the written one, and the two agree on a text within
      budget. */
  lemma BodyCutIsPrefix(raw: string)
    ensures StartsWith(BodyAsWritten(raw), Body(raw))
    ensures Utf8Size(Strip(raw)) <= MaxSize ==> BodyAsWritten(raw) == Body(raw)
  {
    var s, b, w := Strip(raw), Body(raw), BodyAsWritten(raw);
    assert |b| <= Utf8Size(b) <= MaxSize;
    assert b == s[..|b|];
    assert w == s[..|w|];
    if |w| < |s| {
      assert |w| == MaxSize;
      assert w[..|b|] == s[..|b|];
    }
  }

  lemma {:induction false} Utf8SizeAscii(s: string)
    requires forall i :: 0 <= i < |s| ==> s[i] as int < 0x80
    ensures Utf8Size(s) == |s|
    decreases |s|
  {
    if |s| > 0 {
      Utf8SizeAscii(s[..|s| - 1]);
    }
  }

  /** On ASCII text characters are bytes, and the two cuts agree. */
  lemma AsciiCutsAgree(path: string, raw: string)
    requires forall i :: 0 <= i < |Strip(raw)| ==> Strip(raw)[i] as int < 0x80
    ensures ProcessFileAsWritten(path, Some(raw)) == ProcessFile(path, Some(raw))
  {
    AsciiBodiesAgree(Strip(raw));
  }

  lemma AsciiBodiesAgree(s: string)
    requires forall i :: 0 <= i < |s| ==> s[i] as int < 0x80
    ensures (if |s| > 0 && Utf8Size(s) > MaxSize then (if MaxSize < |s| then s[..MaxSize] else s) else s) == Cut(s, MaxSize)
  {
    Utf8SizeAscii(s);
    AsciiCut(s, MaxSize);
  }

  /** On ASCII text the byte cut is the character cut. */
  lemma AsciiCut(s: string, budget: nat)
    requires forall i :: 0 <= i < |s| ==> s[i] as int < 0x80
    ensures Cut(s, budget) == if budget < |s| then s[..budget] else s
  {
    Utf8SizeAscii(s);
    var b := Cut(s, budget);
    if budget < |s| {
      var n := |b|;
      assert b == s[..n];
      Utf8SizeAscii(s[..n]);
      if n < budget {
        Utf8SizeAscii(s[..n + 1]);
      }
    }
  }

  /** `n` copies of `c`. */
  function Repeat(c: char, n: nat): (s: string)
    ensures |s| == n && forall i :: 0 <= i < n ==> s[i] == c
  {
    seq(n, _ => c)
  }

  lemma {:induction false} Utf8SizeRepeat(c: char, n: nat)
    ensures Utf8Size(Repeat(c, n)) == n * Utf8Len(c)
    decreases n
  {
    if n > 0 {
      Utf8SizeRepeat(c, n - 1);
      assert Repeat(c, n)[..n - 1] == Repeat(c, n - 1);
    }
  }

  /** A book of `MaxSize` copies of "é" is over budget, yet the character cut
      keeps all of it: `2 * MaxSize` bytes remain. */
  lemma AsWrittenOverBudget()
    ensures var raw := Repeat('é', MaxSize);
      Utf8Size(BodyAsWritten(raw)) == 2 * MaxSize && Utf8Size(Body(raw)) <= MaxSize
  {
    var raw := Repeat('é', MaxSize);
    assert !IsSpace(raw[0]) && !IsSpace(raw[|raw| - 1]);
    Utf8SizeRepeat('é', MaxSize);
  }

  // ---------------------------------------------------------------------------
  // Combining the folder

  /** `[os.path.join(source_folder, f) for f in os.listdir(source_folder) if f.endswith('.txt')]`. */
  function TxtFiles(names: seq<string>): (r: seq<string>)
    ensures |r| <= |names|
    ensures forall p :: p in r <==> exists n :: n in names && EndsWith(n, ".txt") && p == Folder + "/" + n
  {
    if |names| == 0 then []
    else
      var rest := TxtFiles(names[1..]);
      assert forall n :: n in names[1..] ==> n in names;
      assert forall n :: n in names ==> n == names[0] || n in names[1..];
      if EndsWith(names[0], ".txt") then [Folder + "/" + names[0]] + rest else rest
  }

  /** The script's result for every file, in listing order. */
  function Results(files: seq<string>, read: string -> Option<string>): (r: seq<string>)
    ensures |r| == |files| && forall i :: 0 <= i < |files| ==> r[i] == ProcessFileAsWritten(files[i], read(files[i]))
  {
    seq(|files|, i requires 0 <= i < |files| => ProcessFileAsWritten(files[i], read(files[i])))
  }

  /** The thread pool: batches of `BatchSize` files are mapped in turn,
      `map` yielding each batch's results in the order of the batch.  The
      results come out one per file, in listing order. */
  method MapInBatches(files: seq<string>, process: string -> string) returns (results: seq<string>)
    ensures |results| == |files|
    ensures forall k :: 0 <= k < |files| ==> results[k] == process(files[k])
  {
    results := [];
    var i := 0;
    while i < |files|
      invariant i <= |files| && |results| == i
      invariant forall k :: 0 <= k < i ==> results[k] == process(files[k])
      decreases |files| - i
    {
      var end := if i + BatchSize < |files| then i + BatchSize else |files|;
      var batch := files[i..end];
      var j := 0;
      while j < |batch|
        invariant j <= |batch| && |results| == i + j
        invariant forall k :: 0 <= k < i + j ==> results[k] == process(files[k])
      {
        results := results + [process(batch[j])];
        j := j + 1;
      }
      i := end;
    }
  }

  /** The script: the results of all `.txt` files, joined with newlines. */
  method CombineFolder(names: seq<string>, read: string -> Option<string>) returns (output: string)
    ensures output == Join(Results(TxtFiles(names), read), "\n")
  {
    var files := TxtFiles(names);
    var combined := MapInBatches(files, f => ProcessFileAsWritten(f, read(f)));
    assert combined == Results(files, read);
    output := Join(combined, "\n");
  }
}
