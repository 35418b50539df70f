/** `tokenize_text_in_chunks`: the token pattern
    `\b\w+(?:'\w+)?\b|[<string.punctuation>]` applied with `re.findall` to
    each line, and the buffered output that writes the tokens one per line,
    `chunk_size` input lines at a time.  Word characters are the ASCII ones. */
module Tokenize {
  import opened Text

  /** `\w`. */
  predicate IsWord(c: char)
  {
    IsAlnum(c) || c == '_'
  }

  /** A character of `string.punctuation`. */
  predicate IsPunct(c: char)
  {
    ('!' <= c <= '/') || (':' <= c <= '@') || ('[' <= c <= '`') || ('{' <= c <= '~')
  }

  /** Neither kind of character: never part of a token. */
  predicate Other(c: char)
  {
    !IsWord(c) && !IsPunct(c)
  }

  predicate AllOther(s: string, a: int, b: int)
    requires 0 <= a && b <= |s|
  {
    forall i :: a <= i < b ==> Other(s[i])
  }

  predicate WordRun(s: string, a: int, b: int)
    requires 0 <= a <= b <= |s|
  {
    a < b && forall i :: a <= i < b ==> IsWord(s[i])
  }

  /** `\b` before position `p`, for a word character at `p`. */
  predicate StartsWord(s: string, p: int)
    requires 0 <= p < |s|
  {
    p == 0 || !IsWord(s[p - 1])
  }

  /** The end of the run of word characters starting at `p`. */
  function RunEnd(s: string, p: nat): (e: nat)
    requires p <= |s|
    ensures p <= e <= |s| && (e == |s| || !IsWord(s[e]))
    ensures forall i :: p <= i < e ==> IsWord(s[i])
    decreases |s| - p
  {
    if p < |s| && IsWord(s[p]) then RunEnd(s, p + 1) else p
  }

  /** A match of the first alternative: a word, or two words joined by one apostrophe. */
  predicate WordToken(s: string, a: int, b: int)
    requires 0 <= a <= b <= |s|
  {
    WordRun(s, a, b) || exists m :: a < m < b - 1 && WordRun(s, a, m) && s[m] == '\'' && WordRun(s, m + 1, b)
  }

  /** A match of the second alternative: one punctuation character. */
  predicate PunctToken(s: string, a: int, b: int)
    requires 0 <= a <= b <= |s|
  {
    b == a + 1 && IsPunct(s[a])
  }

  /** Where the search may resume: never inside a run of word characters. */
  predicate Resumable(s: string, p: nat)
  {
    p == 0 || p >= |s| || !IsWord(s[p - 1]) || !IsWord(s[p])
  }

  /** The end of the word match starting at `p`: the run of word characters,
      extended over an apostrophe and a second run when one follows. */
  function WordEnd(s: string, p: nat): (e: nat)
    requires p < |s| && IsWord(s[p])
    ensures p < e <= |s| && WordToken(s, p, e) && (e == |s| || !IsWord(s[e]))
  {
    var e := RunEnd(s, p);
    if e + 1 < |s| && s[e] == '\'' && IsWord(s[e + 1]) then
      var e2 := RunEnd(s, e + 1);
      assert WordRun(s, p, e) && WordRun(s, e + 1, e2);
      e2
    else
      assert WordRun(s, p, e);
      e
  }

  /** `re.findall` from position `p`: the spans of the matches, left to right. */
  function Scan(s: string, p: nat): (r: seq<(nat, nat)>)
    requires p <= |s|
    ensures forall j :: 0 <= j < |r| ==> p <= r[j].0 < r[j].1 <= |s|
    ensures forall j :: 0 <= j < |r| - 1 ==> r[j].1 <= r[j + 1].0
    decreases |s| - p
  {
    if p == |s| then []
    else if IsWord(s[p]) && StartsWord(s, p) then
      var e := WordEnd(s, p);
      [(p, e)] + Scan(s, e)
    else if IsPunct(s[p]) then [(p, p + 1)] + Scan(s, p + 1)
    else Scan(s, p + 1)
  }

  /** Every match is a word token, maximal on both sides, or one punctuation character. */
  lemma {:induction false} ScanShapes(s: string, p: nat, j: nat)
    requires p <= |s| && j < |Scan(s, p)|
    ensures var (a, b) := Scan(s, p)[j];
      (WordToken(s, a, b) && StartsWord(s, a) && (b == |s| || !IsWord(s[b]))) || PunctToken(s, a, b)
    decreases |s| - p
  {
    var r := Scan(s, p);
    if IsWord(s[p]) && StartsWord(s, p) {
      var e := WordEnd(s, p);
      if j > 0 {
        ScanShapes(s, e, j - 1);
        assert r[j] == Scan(s, e)[j - 1];
      }
    } else if IsPunct(s[p]) {
      if j > 0 {
        ScanShapes(s, p + 1, j - 1);
        assert r[j] == Scan(s, p + 1)[j - 1];
      }
    } else {
      ScanShapes(s, p + 1, j);
    }
  }

  /** Nothing but characters of neither kind lies before the first match. */
  lemma {:induction false} ScanSkipsOther(s: string, p: nat)
    requires p <= |s| && Resumable(s, p)
    ensures var r := Scan(s, p); if |r| == 0 then AllOther(s, p, |s|) else AllOther(s, p, r[0].0)
    decreases |s| - p
  {
    if p < |s| && !(IsWord(s[p]) && StartsWord(s, p)) && !IsPunct(s[p]) {
      assert !IsWord(s[p]);
      ScanSkipsOther(s, p + 1);
    }
  }

  /** Between two consecutive matches, and after the last one, lie only
      characters of neither kind: every word and punctuation character of
      the line is part of some token. */
  lemma {:induction false} ScanGaps(s: string, p: nat, j: nat)
    requires p <= |s| && Resumable(s, p) && j < |Scan(s, p)|
    ensures var r := Scan(s, p);
      if j + 1 < |r| then AllOther(s, r[j].1, r[j + 1].0) else AllOther(s, r[j].1, |s|)
    decreases |s| - p, 1
  {
    if IsWord(s[p]) && StartsWord(s, p) {
      ScanGapsAfter(s, p, WordEnd(s, p), j);
    } else if IsPunct(s[p]) {
      assert !IsWord(s[p]);
      ScanGapsAfter(s, p, p + 1, j);
    } else {
      assert !IsWord(s[p]);
      ScanGaps(s, p + 1, j);
    }
  }

  /** The gaps after a first match `(p, e)`, the search resuming at `e`. */
  lemma {:induction false} ScanGapsAfter(s: string, p: nat, e: nat, j: nat)
    requires p < e <= |s| && Resumable(s, e) && Scan(s, p) == [(p, e)] + Scan(s, e) && j < |Scan(s, p)|
    ensures var r := Scan(s, p);
      if j + 1 < |r| then AllOther(s, r[j].1, r[j + 1].0) else AllOther(s, r[j].1, |s|)
    decreases |s| - p, 0
  {
    var r, t := Scan(s, p), Scan(s, e);
    if j > 0 {
      ScanGaps(s, e, j - 1);
      assert r[j] == t[j - 1];
      if j + 1 < |r| { assert r[j + 1] == t[j]; }
    } else {
      ScanSkipsOther(s, e);
      if |t| > 0 { assert r[1] == t[0]; }
    }
  }

  /** The matched substrings of `s`. */
  function Texts(s: string, spans: seq<(nat, nat)>): (r: seq<string>)
    requires forall j :: 0 <= j < |spans| ==> spans[j].0 <= spans[j].1 <= |s|
    ensures |r| == |spans|
  {
    if |spans| == 0 then [] else [s[spans[0].0..spans[0].1]] + Texts(s, spans[1..])
  }

  lemma {:induction false} TextsAt(s: string, spans: seq<(nat, nat)>, j: nat)
    requires forall j :: 0 <= j < |spans| ==> spans[j].0 <= spans[j].1 <= |s|
    requires j < |spans|
    ensures Texts(s, spans)[j] == s[spans[j].0..spans[j].1]
    decreases j
  {
    if j > 0 {
      TextsAt(s, spans[1..], j - 1);
    }
  }

  /** `re.findall(pattern, line)`. */
  function Tokenize(line: string): (r: seq<string>)
  {
    Texts(line, Scan(line, 0))
  }

  /** A word or punctuation match holds no character of neither kind. */
  lemma MatchChars(s: string, a: nat, b: nat)
    requires a <= b <= |s| && (WordToken(s, a, b) || PunctToken(s, a, b))
    ensures forall i :: a <= i < b ==> !Other(s[i])
  {
    if !PunctToken(s, a, b) && !WordRun(s, a, b) {
      var m :| a < m < b - 1 && WordRun(s, a, m) && s[m] == '\'' && WordRun(s, m + 1, b);
      assert forall i :: a <= i < b ==> IsWord(s[i]) || i == m;
    }
  }

  /** Tokens are non-empty and hold no character of neither kind. */
  lemma TokenChars(line: string, j: nat)
    requires j < |Tokenize(line)|
    ensures var t := Tokenize(line)[j]; |t| > 0 && forall i :: 0 <= i < |t| ==> !Other(t[i])
  {
    var spans := Scan(line, 0);
    var (a, b) := spans[j];
    TextsAt(line, spans, j);
    ScanShapes(line, 0, j);
    MatchChars(line, a, b);
    assert Tokenize(line)[j] == line[a..b];
  }

  // ---------------------------------------------------------------------------
  // Chunked output

  /** The tokens of each line. */
  function LineTokens(lines: seq<string>): (r: seq<seq<string>>)
    ensures |r| == |lines| && forall i :: 0 <= i < |lines| ==> r[i] == Tokenize(lines[i])
  {
    seq(|lines|, i requires 0 <= i < |lines| => Tokenize(lines[i]))
  }

  /** The tokens of lines `lo` to `hi - 1`, in order. */
  function Between(ts: seq<seq<string>>, lo: nat, hi: nat): (r: seq<string>)
    requires lo <= hi <= |ts|
    decreases hi
  {
    if lo == hi then [] else Between(ts, lo, hi - 1) + ts[hi - 1]
  }

  /** The tokens of consecutive runs of lines are the tokens of the whole run. */
  lemma {:induction false} BetweenSplit(ts: seq<seq<string>>, lo: nat, mid: nat, hi: nat)
    requires lo <= mid <= hi <= |ts|
    ensures Between(ts, lo, hi) == Between(ts, lo, mid) + Between(ts, mid, hi)
    decreases hi
  {
    if mid < hi {
      BetweenSplit(ts, lo, mid, hi - 1);
    }
  }

  /** Each token followed by a newline. */
  function Terminated(tokens: seq<string>): string
  {
    if |tokens| == 0 then "" else tokens[0] + "\n" + Terminated(tokens[1..])
  }

  lemma {:induction false} TerminatedConcat(a: seq<string>, b: seq<string>)
    ensures Terminated(a + b) == Terminated(a) + Terminated(b)
    decreases |a|
  {
    if |a| == 0 {
      assert a + b == b;
    } else {
      TerminatedConcat(a[1..], b);
      assert (a + b)[1..] == a[1..] + b;
    }
  }

  /** `'\n'.join(buffer) + '\n'`: the tokens one per line, or a lone newline
      for an empty buffer. */
  function Flush(buffer: seq<string>): (r: string)
    ensures |buffer| == 0 ==> r == "\n"
  {
    Join(buffer, "\n") + "\n"
  }

  lemma {:induction false} FlushTerminated(buffer: seq<string>)
    requires |buffer| > 0
    ensures Flush(buffer) == Terminated(buffer)
    decreases |buffer|
  {
    if |buffer| > 1 {
      FlushTerminated(buffer[1..]);
    }
  }

  /** What the flushes of the first `m` lines write, `m` a multiple of `k`. */
  function Flushes(ts: seq<seq<string>>, k: nat, m: nat): string
    requires k > 0 && m <= |ts|
    decreases m
  {
    if m < k then "" else Flushes(ts, k, m - k) + Flush(Between(ts, m - k, m))
  }

  /** The end of the last whole chunk of `k` lines among `n`. */
  function WholeEnd(n: nat, k: nat): (e: nat)
    requires k > 0
    ensures e <= n < e + k
  {
    if n < k then 0 else WholeEnd(n - k, k) + k
  }

  /** The output for chunk size `k > 0`, given the tokens of each line: the
      flushes of the whole chunks, then the tokens of the remaining lines if
      there are any. */
  function ChunkedOutput(ts: seq<seq<string>>, k: nat): string
    requires k > 0
  {
    var full := WholeEnd(|ts|, k);
    var rest := Between(ts, full, |ts|);
    Flushes(ts, k, full) + if |rest| > 0 then Flush(rest) else ""
  }

  lemma {:induction false} MulMono(k: nat, a: nat, b: nat)
    requires a <= b
    ensures k * a <= k * b
    decreases b - a
  {
    if a < b {
      MulMono(k, a + 1, b);
      assert k * (a + 1) == k * a + k;
    }
  }

  lemma MulSucc(q: nat, k: nat)
    ensures (q + 1) * k == q * k + k
  {
  }

  /** Python's `//` and `%` on naturals: the quotient and remainder are the only ones. */
  lemma DivModUnique(x: nat, k: nat, q: nat, r: nat)
    requires k > 0 && r < k && x == q * k + r
    ensures x / k == q && x % k == r
  {
    var q', r' := x / k, x % k;
    assert x == k * q' + r';
    if q' > q {
      MulMono(k, q + 1, q');
    } else if q' < q {
      MulMono(k, q' + 1, q);
    }
  }

  /** `m` is a multiple of `k`, counted up in steps of `k`. */
  predicate Multiple(m: nat, k: nat)
    requires k > 0
    decreases m
  {
    m == 0 || (m >= k && Multiple(m - k, k))
  }

  lemma {:induction false} MultipleOf(q: nat, k: nat)
    requires k > 0
    ensures Multiple(q * k, k)
    decreases q
  {
    if q > 0 {
      MulSucc(q - 1, k);
      MultipleOf(q - 1, k);
    }
  }

  lemma {:induction false} QuotientOf(m: nat, k: nat) returns (q: nat)
    requires k > 0 && Multiple(m, k)
    ensures m == q * k
    decreases m
  {
    if m == 0 {
      q := 0;
    } else {
      var q' := QuotientOf(m - k, k);
      MulSucc(q', k);
      q := q' + 1;
    }
  }

  /** Line `i` of a chunk that starts at a multiple of `k` ends the chunk
      exactly when `(i + 1) % k == 0`. */
  lemma ChunkEnd(start: nat, i: nat, k: nat)
    requires k > 0 && Multiple(start, k) && start <= i < start + k
    ensures (i + 1) % k == 0 <==> i + 1 == start + k
  {
    var q := QuotientOf(start, k);
    if i + 1 < start + k {
      DivModUnique(i + 1, k, q, i + 1 - start);
    } else {
      MulSucc(q, k);
      DivModUnique(i + 1, k, q + 1, 0);
    }
  }

  /** The chunk the loop is in at the end is the one after the last whole chunk. */
  lemma {:induction false} LastChunk(start: nat, n: nat, k: nat)
    requires k > 0 && Multiple(start, k) && start <= n < start + k
    ensures WholeEnd(n, k) == start
    decreases start
  {
    if start > 0 {
      LastChunk(start - k, n - k, k);
    }
  }


  lemma {:induction false} WholeChunks(n: nat, k: nat)
    requires k > 0
    ensures Multiple(WholeEnd(n, k), k)
    decreases n
  {
    if n >= k {
      WholeChunks(n - k, k);
    }
  }


  /** The writer after `i` lines: the buffer holds the tokens since the last
      whole chunk, which starts at `start`, and everything before it is written. */
  predicate Progress(ts: seq<seq<string>>, k: nat, i: nat, start: nat, buffer: seq<string>, out: string)
    requires k > 0
  {
    start <= i <= |ts| && i - start < k && Multiple(start, k) &&
    buffer == Between(ts, start, i) && out == Flushes(ts, k, start)
  }

  /** One more line: its tokens join the buffer, which is written out when
      the line ends a chunk. */
  lemma ProgressStep(ts: seq<seq<string>>, k: nat, i: nat, start: nat, buffer: seq<string>, out: string)
    requires k > 0 && i < |ts| && Progress(ts, k, i, start, buffer, out)
    ensures (i + 1) % k == 0 ==> Progress(ts, k, i + 1, i + 1, [], out + Flush(buffer + ts[i]))
    ensures (i + 1) % k != 0 ==> Progress(ts, k, i + 1, start, buffer + ts[i], out)
  {
    assert buffer + ts[i] == Between(ts, start, i + 1);
    ChunkEnd(start, i, k);
    if i + 1 == start + k {
      assert Flushes(ts, k, i + 1) == out + Flush(buffer + ts[i]);
      assert Multiple(i + 1, k);
    }
  }


  /** After the last line, what remains in the buffer is the tail of the output. */
  lemma ProgressDone(ts: seq<seq<string>>, k: nat, start: nat, buffer: seq<string>, out: string)
    requires k > 0 && Progress(ts, k, |ts|, start, buffer, out)
    ensures ChunkedOutput(ts, k) == out + if |buffer| > 0 then Flush(buffer) else ""
  {
    LastChunk(start, |ts|, k);
  }

  /** The writing loop of `tokenize_text_in_chunks`, given the tokens of each
      line: line `i`'s tokens join the buffer, which is written one token per
      line when `(i + 1) % k == 0`, and once more at the end if not empty. */
  method WriteChunks(ts: seq<seq<string>>, k: nat) returns (out: string)
    requires k > 0
    ensures out == ChunkedOutput(ts, k)
  {
    out := "";
    var buffer: seq<string> := [];
    var start := 0;
    var i := 0;
    while i < |ts|
      invariant i <= |ts| && Progress(ts, k, i, start, buffer, out)
    {
      ProgressStep(ts, k, i, start, buffer, out);
      buffer := buffer + ts[i];
      if (i + 1) % k == 0 {
        out := out + Flush(buffer);
        buffer := [];
        start := i + 1;
      }
      i := i + 1;
    }
    ProgressDone(ts, k, start, buffer, out);
    if |buffer| > 0 {
      out := out + Flush(buffer);
    }
  }

  /** `tokenize_text_in_chunks` over the lines of the input file.  With a
      chunk size of 0 the first line's `(i + 1) % chunk_size` raises, the
      handler reports it, and the output file stays empty.  Otherwise, when
      every whole chunk has a token, the file holds every token of the input
      on a line of its own. */
  method TokenizeInChunks(lines: seq<string>, k: nat) returns (out: string, failed: bool)
    ensures k == 0 ==> out == "" && (failed <==> |lines| > 0)
    ensures k > 0 ==> !failed && out == ChunkedOutput(LineTokens(lines), k)
    ensures k > 0 && ChunksHaveTokens(LineTokens(lines), k) ==> out == Terminated(Between(LineTokens(lines), 0, |lines|))
  {
    if k == 0 {
      return "", |lines| > 0;
    }
    var ts := LineTokens(lines);
    out := WriteChunks(ts, k);
    failed := false;
    if ChunksHaveTokens(ts, k) {
      ChunkedOutputTokens(ts, k);
    }
  }

  /** Each chunk of `k` lines that ends at or before line `m`, counting back
      from `m`, has a token. */
  predicate TokensUpTo(ts: seq<seq<string>>, k: nat, m: nat)
    requires k > 0 && m <= |ts|
    decreases m
  {
    m < k || (Between(ts, m - k, m) != [] && TokensUpTo(ts, k, m - k))
  }

  /** Every whole chunk of `k` lines has a token. */
  predicate ChunksHaveTokens(ts: seq<seq<string>>, k: nat)
    requires k > 0
  {
    TokensUpTo(ts, k, WholeEnd(|ts|, k))
  }

  lemma {:induction false} FlushesTerminated(ts: seq<seq<string>>, k: nat, m: nat)
    requires k > 0 && m <= |ts| && Multiple(m, k) && TokensUpTo(ts, k, m)
    ensures Flushes(ts, k, m) == Terminated(Between(ts, 0, m))
    decreases m
  {
    if m > 0 {
      var a, b := Between(ts, 0, m - k), Between(ts, m - k, m);
      assert Flushes(ts, k, m) == Flushes(ts, k, m - k) + Flush(b);
      assert Flushes(ts, k, m - k) == Terminated(a) by {
        FlushesTerminated(ts, k, m - k);
      }
      assert Flush(b) == Terminated(b) by {
        FlushTerminated(b);
      }
      assert Terminated(a) + Terminated(b) == Terminated(Between(ts, 0, m)) by {
        BetweenSplit(ts, 0, m - k, m);
        TerminatedConcat(a, b);
      }
    }
  }


  /** When every whole chunk has a token the output is every token of the
      file followed by a newline, whatever the chunk size. */
  lemma ChunkedOutputTokens(ts: seq<seq<string>>, k: nat)
    requires k > 0 && ChunksHaveTokens(ts, k)
    ensures ChunkedOutput(ts, k) == Terminated(Between(ts, 0, |ts|))
  {
    var full := WholeEnd(|ts|, k);
    var head, rest := Between(ts, 0, full), Between(ts, full, |ts|);
    var tail := if |rest| > 0 then Flush(rest) else "";
    assert ChunkedOutput(ts, k) == Flushes(ts, k, full) + tail;
    assert Flushes(ts, k, full) == Terminated(head) by {
      WholeChunks(|ts|, k);
      FlushesTerminated(ts, k, full);
    }
    assert tail == Terminated(rest) by {
      if |rest| > 0 {
        FlushTerminated(rest);
      }
    }
    assert Terminated(head) + Terminated(rest) == Terminated(Between(ts, 0, |ts|)) by {
      BetweenSplit(ts, 0, full, |ts|);
      TerminatedConcat(head, rest);
    }
  }


}
