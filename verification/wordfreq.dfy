/** `compute_token_frequency_json`: count the lines of the token file, each
    with its surrounding whitespace stripped, reading `chunk_size` lines at a
    time into a `Counter`, then write the counts sorted by count, highest
    first.  The file is the sequence of its lines. */
module WordCount {
  import opened Text
  import opened Dicts

  /** `counter[k] += 1`: a new key starts at 1, at the end of the counter. */
  function Bump(c: Items<int>, k: string): (r: Items<int>)
  {
    Put(c, k, Inc(Get(c, k)))
  }

  /** The count after one more occurrence. */
  function Inc(v: Option<int>): int
  {
    match v
    case None => 1
    case Some(n) => n + 1
  }

  /** `(line.strip() for line in lines)`. */
  function Stripped(lines: seq<string>): (r: seq<string>)
    ensures |r| == |lines| && forall i :: 0 <= i < |lines| ==> r[i] == Strip(lines[i])
  {
    seq(|lines|, i requires 0 <= i < |lines| => Strip(lines[i]))
  }

  lemma StrippedSplit(lines: seq<string>, n: nat)
    requires n <= |lines|
    ensures Stripped(lines) == Stripped(lines[..n]) + Stripped(lines[n..])
  {
  }

  /** `token_counts.update(keys)`. */
  function Update(c: Items<int>, keys: seq<string>): (r: Items<int>)
  {
    if |keys| == 0 then c
    else Bump(Update(c, keys[..|keys| - 1]), keys[|keys| - 1])
  }

  /** The number of times `k` occurs in `keys`. */
  function Occurrences(keys: seq<string>, k: string): (r: nat)
    ensures r <= |keys|
  {
    if |keys| == 0 then 0
    else Occurrences(keys[..|keys| - 1], k) + (if keys[|keys| - 1] == k then 1 else 0)
  }

  /** A count `n` added to what a counter holds. */
  function Plus(v: Option<int>, n: nat): Option<int>
  {
    match v
    case None => if n == 0 then None else Some(n)
    case Some(m) => Some(m + n)
  }

  /** Bumping `k` adds one to `k`'s count and leaves every other key alone. */
  lemma BumpGet(c: Items<int>, k: string, x: string)
    ensures Get(Bump(c, k), x) == if x == k then Plus(Get(c, x), 1) else Get(c, x)
  {
    PutGet(c, k, Inc(Get(c, k)), x);
  }

  lemma PlusZero(v: Option<int>)
    ensures Plus(v, 0) == v
  {
  }

  lemma PlusStep(v: Option<int>, n: nat)
    ensures Plus(Plus(v, n), 1) == Plus(v, n + 1)
  {
  }

  lemma {:induction false} UpdateGet(c: Items<int>, keys: seq<string>, k: string)
    ensures Get(Update(c, keys), k) == Plus(Get(c, k), Occurrences(keys, k))
    decreases |keys|
  {
    if |keys| == 0 {
      PlusZero(Get(c, k));
    } else {
      var init := keys[..|keys| - 1];
      var last := keys[|keys| - 1];
      var before := Update(c, init);
      UpdateGet(c, init, k);
      BumpGet(before, last, k);
      PlusStep(Get(c, k), Occurrences(init, k));
    }
  }

  /** Updating with two runs of lines is updating with both. */
  lemma {:induction false} UpdateConcat(c: Items<int>, a: seq<string>, b: seq<string>)
    ensures Update(Update(c, a), b) == Update(c, a + b)
    decreases |b|
  {
    if |b| == 0 {
      assert a + b == a;
    } else {
      var init := b[..|b| - 1];
      var ab := a + b;
      UpdateConcat(c, a, init);
      assert ab[..|ab| - 1] == a + init;
      assert ab[|ab| - 1] == b[|b| - 1];
      assert Update(c, ab) == Bump(Update(c, a + init), b[|b| - 1]);
      assert Update(Update(c, a), b) == Bump(Update(Update(c, a), init), b[|b| - 1]);
    }
  }

  /** The reading loop: `islice` hands over `size` lines at a time until none are left. */
  function ReadChunks(c: Items<int>, lines: seq<string>, size: nat): (r: Items<int>)
    requires size > 0
    decreases |lines|
  {
    if |lines| == 0 then c
    else
      var n := if size < |lines| then size else |lines|;
      ReadChunks(Update(c, Stripped(lines[..n])), lines[n..], size)
  }

  /** The counter built from the file.  With `chunk_size` 0, `islice` returns
      no lines and the loop stops at once. */
  function CountFile(lines: seq<string>, size: nat): (r: Items<int>)
  {
    if size == 0 then [] else ReadChunks([], lines, size)
  }

  lemma {:induction false} ReadChunksUpdate(c: Items<int>, lines: seq<string>, size: nat)
    requires size > 0
    ensures ReadChunks(c, lines, size) == Update(c, Stripped(lines))
    decreases |lines|
  {
    if |lines| > 0 {
      var n := if size < |lines| then size else |lines|;
      var head := Stripped(lines[..n]);
      var rest := lines[n..];
      ReadChunksUpdate(Update(c, head), rest, size);
      UpdateConcat(c, head, Stripped(rest));
      StrippedSplit(lines, n);
    }
  }

  /** The counts do not depend on the chunk size, as long as it is positive,
      and count every line under its stripped form: a key is present iff a
      line strips to it, and then holds the number of such lines. */
  lemma CountFileCounts(lines: seq<string>, size: nat, k: string)
    requires size > 0
    ensures CountFile(lines, size) == Update([], Stripped(lines))
    ensures var n := Occurrences(Stripped(lines), k); Get(CountFile(lines, size), k) == if n == 0 then None else Some(n)
  {
    ReadChunksUpdate([], lines, size);
    UpdateGet([], Stripped(lines), k);
  }

  /** The keys in order of first appearance, without repeats. */
  function FirstSeen(keys: seq<string>): (r: seq<string>)
  {
    if |keys| == 0 then []
    else
      var r := FirstSeen(keys[..|keys| - 1]);
      var k := keys[|keys| - 1];
      if k in r then r else r + [k]
  }

  /** The counter's keys are the counted keys in first-seen order. */
  lemma {:induction false} UpdateKeys(keys: seq<string>)
    ensures KeysOf(Update([], keys)) == FirstSeen(keys)
    decreases |keys|
  {
    if |keys| > 0 {
      var c := Update([], keys[..|keys| - 1]);
      UpdateKeys(keys[..|keys| - 1]);
      PutKeys(c, keys[|keys| - 1], Inc(Get(c, keys[|keys| - 1])));
    }
  }

  /** The sum of a counter's counts. */
  function Total(d: Items<int>): int
  {
    if |d| == 0 then 0 else d[0].1 + Total(d[1..])
  }

  /** Assigning `v` to `k` replaces `k`'s count, or adds one. */
  lemma {:induction false} PutTotal(d: Items<int>, k: string, v: int)
    ensures Total(Put(d, k, v)) == Total(d) + v - match Get(d, k) case None => 0 case Some(m) => m
    decreases |d|
  {
    if |d| > 0 && d[0].0 != k {
      PutTotal(d[1..], k, v);
      assert ([d[0]] + Put(d[1..], k, v))[1..] == Put(d[1..], k, v);
    } else if |d| > 0 {
      assert ([(k, v)] + d[1..])[1..] == d[1..];
    }
  }

  /** The counts add up to the number of lines. */
  lemma {:induction false} UpdateTotal(keys: seq<string>)
    ensures Total(Update([], keys)) == |keys|
    decreases |keys|
  {
    if |keys| > 0 {
      var c := Update([], keys[..|keys| - 1]);
      UpdateTotal(keys[..|keys| - 1]);
      PutTotal(c, keys[|keys| - 1], Inc(Get(c, keys[|keys| - 1])));
    }
  }

  function Count(item: (string, int)): real
  {
    item.1 as real
  }

  /** `dict(sorted(token_counts.items(), key=lambda item: item[1], reverse=True))`. */
  function TokenFrequencies(lines: seq<string>, size: nat): (r: Items<int>)
  {
    SortedDict(CountFile(lines, size), Count)
  }

  /** The written table holds the counter's items, counts non-increasing,
      and keys of equal count in first-seen order. */
  lemma TokenFrequenciesSorted(lines: seq<string>, size: nat, n: real)
    requires size > 0
    ensures multiset(TokenFrequencies(lines, size)) == multiset(Update([], Stripped(lines)))
    ensures Descending(TokenFrequencies(lines, size), Count)
    ensures WithKey(TokenFrequencies(lines, size), Count, n) == WithKey(Update([], Stripped(lines)), Count, n)
    ensures KeysOf(Update([], Stripped(lines))) == FirstSeen(Stripped(lines))
    ensures Total(TokenFrequencies(lines, size)) == |lines|
  {
    var keys := Stripped(lines);
    ReadChunksUpdate([], lines, size);
    UpdateDistinct(keys);
    SortedDictSorts(Update([], keys), Count, n);
    UpdateKeys(keys);
    UpdateTotal(keys);
    TotalSorted(Update([], keys));
  }

  lemma {:induction false} UpdateDistinct(keys: seq<string>)
    ensures DistinctKeys(Update([], keys))
    decreases |keys|
  {
    if |keys| > 0 {
      var c := Update([], keys[..|keys| - 1]);
      UpdateDistinct(keys[..|keys| - 1]);
      PutDistinct(c, keys[|keys| - 1], Inc(Get(c, keys[|keys| - 1])));
    }
  }

  lemma {:induction false} TotalInsert(x: (string, int), s: Items<int>)
    ensures Total(Insert(x, s, Count)) == Total(s) + x.1
    decreases |s|
  {
    if |s| > 0 && Count(s[0]) > Count(x) {
      TotalInsert(x, s[1..]);
      assert ([s[0]] + Insert(x, s[1..], Count))[1..] == Insert(x, s[1..], Count);
    } else if |s| > 0 {
      assert ([x] + s)[1..] == s;
    }
  }

  /** Sorting a counter keeps its total. */
  lemma {:induction false} TotalSorted(s: Items<int>)
    ensures Total(SortDesc(s, Count)) == Total(s)
    decreases |s|
  {
    if |s| > 0 {
      TotalSorted(s[1..]);
      TotalInsert(s[0], SortDesc(s[1..], Count));
    }
  }
}
