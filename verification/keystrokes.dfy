/** `analyzeWord`: the keystroke statistics of a word on a keyboard layout.
    The layout is its metrics map, from a character to the key that types it;
    characters the map lacks are skipped. */
module Keystrokes {
  import opened Text

  /** `'l-pinky' ... 'r-pinky'` and `'thumb'`. */
  datatype Finger = LPinky | LRing | LMiddle | LPoint | RPoint | RMiddle | RRing | RPinky | Thumb

  /** A key's hand; `NoHand` is the layout's `false`. */
  datatype Hand = Left | Right | NoHand

  /** The four rows the finger counts track. */
  type Row = r: int | 0 <= r < 4

  datatype KeyMetrics = KeyMetrics(effort: real, distance: real, finger: Finger, hand: Hand, row: Row)

  /** `data`, before it is handed to `Stats`: `counts[f][r]` is finger `f`'s
      use of row `r`, fingers in the order `l-pinky` to `r-pinky`. */
  datatype WordData = WordData(
    effort: real,
    distance: real,
    position: nat,
    counts: seq<seq<nat>>,
    sameFinger: nat,
    handAlternation: real,
    rowChange: real)

  /** The column of a non-thumb finger in `counts`. */
  function FingerIndex(f: Finger): (i: nat)
    requires f != Thumb
    ensures i < 8
  {
    match f
    case LPinky => 0
    case LRing => 1
    case LMiddle => 2
    case LPoint => 3
    case RPoint => 4
    case RMiddle => 5
    case RRing => 6
    case RPinky => 7
  }

  lemma FingerIndexInjective(f: Finger, g: Finger)
    requires f != Thumb && g != Thumb && FingerIndex(f) == FingerIndex(g)
    ensures f == g
  {
  }

  /** Eight fingers, four rows, all zero. */
  function ZeroCounts(): (c: seq<seq<nat>>)
    ensures |c| == 8 && forall i :: 0 <= i < 8 ==> |c[i]| == 4 && forall r :: 0 <= r < 4 ==> c[i][r] == 0
  {
    seq(8, _ => [0, 0, 0, 0])
  }

  predicate Grid(c: seq<seq<nat>>)
  {
    |c| == 8 && forall i :: 0 <= i < 8 ==> |c[i]| == 4
  }

  // ---------------------------------------------------------------------------
  // Reference definitions over the keys found, in order

  /** The keys of the characters the map knows, in order. */
  function Found(metrics: map<char, KeyMetrics>, word: string): (ks: seq<KeyMetrics>)
    ensures |ks| <= |word|
  {
    if |word| == 0 then []
    else
      var ks := Found(metrics, word[..|word| - 1]);
      var c := word[|word| - 1];
      if c in metrics then ks + [metrics[c]] else ks
  }

  function SumEffort(ks: seq<KeyMetrics>): real
  {
    if |ks| == 0 then 0.0 else SumEffort(ks[..|ks| - 1]) + ks[|ks| - 1].effort
  }

  function SumDistance(ks: seq<KeyMetrics>): real
  {
    if |ks| == 0 then 0.0 else SumDistance(ks[..|ks| - 1]) + ks[|ks| - 1].distance
  }

  /** How many keys are typed by finger `f` on row `r`. */
  function Uses(ks: seq<KeyMetrics>, f: Finger, r: int): nat
  {
    if |ks| == 0 then 0
    else Uses(ks[..|ks| - 1], f, r) + if ks[|ks| - 1].finger == f && ks[|ks| - 1].row == r then 1 else 0
  }

  /** How many keys are not typed by a thumb. */
  function NonThumb(ks: seq<KeyMetrics>): nat
  {
    if |ks| == 0 then 0
    else NonThumb(ks[..|ks| - 1]) + if ks[|ks| - 1].finger != Thumb then 1 else 0
  }

  /** How many consecutive keys are typed by the same non-thumb finger. */
  function SameFingerPairs(ks: seq<KeyMetrics>): nat
  {
    if |ks| < 2 then 0
    else
      var a, b := ks[|ks| - 2], ks[|ks| - 1];
      SameFingerPairs(ks[..|ks| - 1]) + if a.finger == b.finger && b.finger != Thumb then 1 else 0
  }

  /** How many consecutive keys are typed by the same hand, `false` excepted. */
  function SameHandPairs(ks: seq<KeyMetrics>): nat
  {
    if |ks| < 2 then 0
    else
      var a, b := ks[|ks| - 2], ks[|ks| - 1];
      SameHandPairs(ks[..|ks| - 1]) + if a.hand == b.hand && b.hand != NoHand then 1 else 0
  }

  function Abs(x: int): nat
  {
    if x < 0 then -x else x
  }

  /** The rows travelled between consecutive keys. */
  function RowTravel(ks: seq<KeyMetrics>): nat
  {
    if |ks| < 2 then 0
    else RowTravel(ks[..|ks| - 1]) + Abs(ks[|ks| - 1].row - ks[|ks| - 2].row)
  }

  // ---------------------------------------------------------------------------
  // The loop of `analyzeWord`

  /** The loop state: `data` and `prevKey`. */
  datatype Tally = Tally(data: WordData, prev: Option<KeyMetrics>)

  /** One character found in the map, with key `k`. */
  function Step(t: Tally, k: KeyMetrics): (r: Tally)
    requires Grid(t.data.counts)
    ensures Grid(r.data.counts) && r.prev == Some(k)
  {
    var d := t.data;
    var counts :=
      if k.finger != Thumb then
        var i := FingerIndex(k.finger);
        d.counts[i := d.counts[i][k.row := d.counts[i][k.row] + 1]]
      else d.counts;
    var (same, hand, row) :=
      match t.prev
      case None => (d.sameFinger, d.handAlternation, d.rowChange)
      case Some(p) =>
        (d.sameFinger + (if k.finger == p.finger && k.finger != Thumb then 1 else 0),
         d.handAlternation + (if k.hand == p.hand && k.hand != NoHand then 0.5 else 0.0),
         d.rowChange + (if k.row != p.row then Abs(k.row - p.row) as real * 0.5 else 0.0));
    Tally(WordData(d.effort + k.effort, d.distance + k.distance, d.position + 1, counts, same, hand, row), Some(k))
  }

  function Initial(): Tally
  {
    Tally(WordData(0.0, 0.0, 0, ZeroCounts(), 0, 0.0, 0.0), None)
  }

  /** The statistics equal the reference sums over the keys found. */
  predicate Accounts(t: Tally, ks: seq<KeyMetrics>)
  {
    var d := t.data;
    Grid(d.counts) &&
    t.prev == (if |ks| == 0 then None else Some(ks[|ks| - 1])) &&
    d.effort == SumEffort(ks) && d.distance == SumDistance(ks) && d.position == |ks| &&
    (forall f: Finger, r: Row :: f != Thumb ==> d.counts[FingerIndex(f)][r] == Uses(ks, f, r)) &&
    d.sameFinger == SameFingerPairs(ks) &&
    d.handAlternation == 0.5 * SameHandPairs(ks) as real &&
    d.rowChange == 0.5 * RowTravel(ks) as real
  }

  lemma StepAccounts(t: Tally, ks: seq<KeyMetrics>, k: KeyMetrics)
    requires Accounts(t, ks)
    ensures Accounts(Step(t, k), ks + [k])
  {
    var ks' := ks + [k];
    assert ks'[..|ks'| - 1] == ks;
    var d, d' := t.data, Step(t, k).data;
    forall f: Finger, r: Row | f != Thumb
      ensures d'.counts[FingerIndex(f)][r] == Uses(ks', f, r)
    {
      if k.finger != Thumb && FingerIndex(f) == FingerIndex(k.finger) {
        FingerIndexInjective(f, k.finger);
      }
    }
  }

  /** The loop over the characters of `word`. */
  function Run(metrics: map<char, KeyMetrics>, word: string): (t: Tally)
    ensures Accounts(t, Found(metrics, word))
  {
    if |word| == 0 then Initial()
    else
      var t := Run(metrics, word[..|word| - 1]);
      var c := word[|word| - 1];
      if c in metrics then
        StepAccounts(t, Found(metrics, word[..|word| - 1]), metrics[c]);
        Step(t, metrics[c])
      else t
  }

  /** `analyzeWord(layout, word)`, up to the `Stats` wrapper: effort and
      distance are the sums over the keys found, position counts them, the
      counts tally finger and row, and the overheads count consecutive keys
      on the same finger, on the same hand, and the rows travelled, halved. */
  function AnalyzeWord(metrics: map<char, KeyMetrics>, word: string): (d: WordData)
    ensures var ks := Found(metrics, word);
      d.effort == SumEffort(ks) && d.distance == SumDistance(ks) && d.position == |ks| &&
      Grid(d.counts) &&
      (forall f: Finger, r: Row :: f != Thumb ==> d.counts[FingerIndex(f)][r] == Uses(ks, f, r)) &&
      d.sameFinger == SameFingerPairs(ks) &&
      d.handAlternation == 0.5 * SameHandPairs(ks) as real &&
      d.rowChange == 0.5 * RowTravel(ks) as real
  {
    Run(metrics, word).data
  }

  // ---------------------------------------------------------------------------
  // Properties

  /** A character the map lacks contributes no key. */
  lemma {:induction false} FoundSkips(metrics: map<char, KeyMetrics>, a: string, c: char, b: string)
    requires c !in metrics
    ensures Found(metrics, a + [c] + b) == Found(metrics, a + b)
    decreases |b|
  {
    var w1, w2 := a + [c] + b, a + b;
    if |b| == 0 {
      assert w1[..|w1| - 1] == a && w1[|w1| - 1] == c;
      assert w2 == a;
    } else {
      var init := b[..|b| - 1];
      FoundSkips(metrics, a, c, init);
      assert w1[..|w1| - 1] == a + [c] + init && w1[|w1| - 1] == b[|b| - 1];
      assert w2[..|w2| - 1] == a + init && w2[|w2| - 1] == b[|b| - 1];
    }
  }

  /** A character the map lacks changes nothing: the word is analysed as if
      it were not there. */
  lemma UnknownSkipped(metrics: map<char, KeyMetrics>, a: string, c: char, b: string)
    requires c !in metrics
    ensures AnalyzeWord(metrics, a + [c] + b) == AnalyzeWord(metrics, a + b)
  {
    FoundSkips(metrics, a, c, b);
    RunFound(metrics, a + [c] + b, a + b);
  }


  /** The analysis depends on the word only through the keys found. */
  lemma RunFound(metrics: map<char, KeyMetrics>, w1: string, w2: string)
    requires Found(metrics, w1) == Found(metrics, w2)
    ensures AnalyzeWord(metrics, w1) == AnalyzeWord(metrics, w2)
  {
    var ks := Found(metrics, w1);
    var d1, d2 := AnalyzeWord(metrics, w1), AnalyzeWord(metrics, w2);
    forall i | 0 <= i < 8 ensures d1.counts[i] == d2.counts[i] {
      var f := [LPinky, LRing, LMiddle, LPoint, RPoint, RMiddle, RRing, RPinky][i];
      assert FingerIndex(f) == i;
      forall r: Row ensures d1.counts[i][r] == d2.counts[i][r] {
        assert d1.counts[FingerIndex(f)][r] == Uses(ks, f, r);
      }
    }
  }

  /** At most one same-finger pair per key after the first. */
  lemma {:induction false} SameFingerBound(ks: seq<KeyMetrics>)
    ensures SameFingerPairs(ks) <= if |ks| == 0 then 0 else |ks| - 1
    decreases |ks|
  {
    if |ks| >= 2 {
      SameFingerBound(ks[..|ks| - 1]);
    }
  }

  /** The same-finger overhead is at most the position less one. */
  lemma SameFingerOverheadBound(metrics: map<char, KeyMetrics>, word: string)
    ensures var d := AnalyzeWord(metrics, word); d.sameFinger <= if d.position == 0 then 0 else d.position - 1
  {
    SameFingerBound(Found(metrics, word));
  }

  function RowSum(row: seq<nat>): nat
  {
    if |row| == 0 then 0 else RowSum(row[..|row| - 1]) + row[|row| - 1]
  }

  /** The sum of all finger counts. */
  function CountsTotal(c: seq<seq<nat>>): nat
  {
    if |c| == 0 then 0 else CountsTotal(c[..|c| - 1]) + RowSum(c[|c| - 1])
  }

  lemma {:induction false} RowSumBump(row: seq<nat>, r: nat)
    requires r < |row|
    ensures RowSum(row[r := row[r] + 1]) == RowSum(row) + 1
    decreases |row|
  {
    var row' := row[r := row[r] + 1];
    if r < |row| - 1 {
      RowSumBump(row[..|row| - 1], r);
      assert row'[..|row'| - 1] == row[..|row| - 1][r := row[r] + 1];
    } else {
      assert row'[..|row'| - 1] == row[..|row| - 1];
    }
  }

  lemma {:induction false} CountsTotalBump(c: seq<seq<nat>>, i: nat, row: seq<nat>)
    requires i < |c| && |row| == |c[i]| && RowSum(row) == RowSum(c[i]) + 1
    ensures CountsTotal(c[i := row]) == CountsTotal(c) + 1
    decreases |c|
  {
    var c' := c[i := row];
    if i < |c| - 1 {
      CountsTotalBump(c[..|c| - 1], i, row);
      assert c'[..|c'| - 1] == c[..|c| - 1][i := row];
    } else {
      assert c'[..|c'| - 1] == c[..|c| - 1];
    }
  }

  lemma {:induction false} RowSumZero(row: seq<nat>)
    requires forall r :: 0 <= r < |row| ==> row[r] == 0
    ensures RowSum(row) == 0
    decreases |row|
  {
    if |row| > 0 {
      RowSumZero(row[..|row| - 1]);
    }
  }

  lemma {:induction false} CountsTotalZero(c: seq<seq<nat>>)
    requires forall i, r :: 0 <= i < |c| && 0 <= r < |c[i]| ==> c[i][r] == 0
    ensures CountsTotal(c) == 0
    decreases |c|
  {
    if |c| > 0 {
      RowSumZero(c[|c| - 1]);
      CountsTotalZero(c[..|c| - 1]);
    }
  }


  /** The finger counts add up to the number of non-thumb keys found. */
  lemma {:induction false} CountsTotalRun(metrics: map<char, KeyMetrics>, word: string)
    ensures CountsTotal(Run(metrics, word).data.counts) == NonThumb(Found(metrics, word))
    decreases |word|
  {
    if |word| == 0 {
      CountsTotalZero(ZeroCounts());
    } else {
      var init := word[..|word| - 1];
      var c := word[|word| - 1];
      CountsTotalRun(metrics, init);
      if c in metrics {
        StepTotal(Run(metrics, init), Found(metrics, init), metrics[c]);
      }
    }
  }

  /** One more key adds one to the counts unless a thumb types it. */
  lemma StepTotal(t: Tally, ks: seq<KeyMetrics>, k: KeyMetrics)
    requires Grid(t.data.counts) && CountsTotal(t.data.counts) == NonThumb(ks)
    ensures CountsTotal(Step(t, k).data.counts) == NonThumb(ks + [k])
  {
    assert (ks + [k])[..|ks|] == ks;
    if k.finger != Thumb {
      var i := FingerIndex(k.finger);
      var counts := t.data.counts;
      RowSumBump(counts[i], k.row);
      CountsTotalBump(counts, i, counts[i][k.row := counts[i][k.row] + 1]);
    }
  }


  lemma CountsTotalWord(metrics: map<char, KeyMetrics>, word: string)
    ensures CountsTotal(AnalyzeWord(metrics, word).counts) == NonThumb(Found(metrics, word))
  {
    CountsTotalRun(metrics, word);
  }
}
