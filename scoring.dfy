/** The scoring engine: the per-position letter-count table built from the
    surviving candidates, the score of one word against it, the ranking order
    of scored words, and the maximum score used to normalise a score. */
module Scoring {
  import opened Ascii
  import opened UniqueVector

  datatype Option<T> = None | Some(value: T)

  /** One std::map<char, int> of letter counts per position. */
  type ScoreTable = seq<map<char, int>>

  /** std::pair<int, std::string>: a candidate and its score. */
  datatype ScoredWord = ScoredWord(score: int, word: string)

  function Min(a: nat, b: nat): nat {
    if a <= b then a else b
  }

  function Max(a: int, b: int): int {
    if a <= b then b else a
  }

  /** The count `m[c]`, reading 0 for a letter the map does not hold. */
  function Lookup(m: map<char, int>, c: char): int {
    if c in m then m[c] else 0
  }

  // ------------------------------------------------------------ the table

  /** `m[c]++` on a std::map, which first inserts 0 for a missing key. */
  function Bump(m: map<char, int>, c: char): map<char, int> {
    m[c := Lookup(m, c) + 1]
  }

  /** The table after the increments for positions 0..j-1 of `word`. */
  function AddPositions(t: ScoreTable, word: string, j: nat): (r: ScoreTable)
    requires j <= |t| && j <= |word|
    ensures |r| == |t|
  {
    if j == 0 then t
    else
      var p := AddPositions(t, word, j - 1);
      p[j - 1 := Bump(p[j - 1], word[j - 1])]
  }

  /** The increments for one word: every position below both the table size
      and the word's length. */
  function AddWord(t: ScoreTable, word: string): (r: ScoreTable)
    ensures |r| == |t|
  {
    AddPositions(t, word, Min(|t|, |word|))
  }

  function EmptyTable(n: nat): (t: ScoreTable)
    ensures |t| == n
  {
    seq(n, i => map[])
  }

  /** buildScoreTable: `wordSize` empty maps, then each word's increments in
      candidate order. */
  function TableOf(words: seq<string>, wordSize: nat): (t: ScoreTable)
    ensures |t| == wordSize
  {
    if words == [] then EmptyTable(wordSize)
    else AddWord(TableOf(words[..|words| - 1], wordSize), words[|words| - 1])
  }

  /** The number of words that have letter `c` at position `i`. */
  function CountAt(words: seq<string>, i: nat, c: char): nat {
    if words == [] then 0
    else
      var last := words[|words| - 1];
      CountAt(words[..|words| - 1], i, c) + (if i < |last| && last[i] == c then 1 else 0)
  }

  lemma {:induction false} AddPositionsAt(t: ScoreTable, word: string, j: nat, i: nat)
    requires j <= |t| && j <= |word| && i < |t|
    ensures AddPositions(t, word, j)[i] == if i < j then Bump(t[i], word[i]) else t[i]
  {
    if j > 0 {
      AddPositionsAt(t, word, j - 1, i);
    }
  }

  /** Every entry of the table is the number of candidates with that letter at
      that position; a letter is a key exactly when that number is positive. */
  lemma {:induction false} TableCounts(words: seq<string>, wordSize: nat, i: nat, c: char)
    requires i < wordSize
    ensures Lookup(TableOf(words, wordSize)[i], c) == CountAt(words, i, c)
    ensures c in TableOf(words, wordSize)[i] <==> CountAt(words, i, c) > 0
  {
    if words != [] {
      var init := words[..|words| - 1];
      var last := words[|words| - 1];
      TableCounts(init, wordSize, i, c);
      var t := TableOf(init, wordSize);
      AddPositionsAt(t, last, Min(|t|, |last|), i);
    }
  }

  /** A word of the list counts at each of its positions. */
  lemma {:induction false} CountAtPositive(words: seq<string>, w: string, i: nat)
    requires w in words && i < |w|
    ensures CountAt(words, i, w[i]) > 0
  {
    var init := words[..|words| - 1];
    if w != words[|words| - 1] {
      assert words == init + [words[|words| - 1]];
      CountAtPositive(init, w, i);
    }
  }

  /** A positive count has a word behind it. */
  lemma {:induction false} CountAtWitness(words: seq<string>, i: nat, c: char)
    requires CountAt(words, i, c) > 0
    ensures exists w :: w in words && i < |w| && w[i] == c
  {
    var init := words[..|words| - 1];
    var last := words[|words| - 1];
    if !(i < |last| && last[i] == c) {
      CountAtWitness(init, i, c);
      var w :| w in init && i < |w| && w[i] == c;
      assert w in words;
    }
  }

  /** The sum of `Lookup(m, c)` over the characters with codes lo..hi-1. */
  function ColumnTotal(m: map<char, int>, lo: int, hi: int): int
    requires 0 <= lo <= hi <= 0xD800
    decreases hi - lo
  {
    if hi == lo then 0 else ColumnTotal(m, lo, hi - 1) + Lookup(m, (hi - 1) as char)
  }

  /** The sum of `CountAt(words, i, c)` over the characters with codes lo..hi-1. */
  function CountRange(words: seq<string>, i: nat, lo: int, hi: int): nat
    requires 0 <= lo <= hi <= 0xD800
    decreases hi - lo
  {
    if hi == lo then 0 else CountRange(words, i, lo, hi - 1) + CountAt(words, i, (hi - 1) as char)
  }

  lemma {:induction false} ColumnTotalIsCountRange(words: seq<string>, wordSize: nat, i: nat, lo: int, hi: int)
    requires i < wordSize && 0 <= lo <= hi <= 0xD800
    ensures ColumnTotal(TableOf(words, wordSize)[i], lo, hi) == CountRange(words, i, lo, hi)
    decreases hi - lo
  {
    if hi != lo {
      ColumnTotalIsCountRange(words, wordSize, i, lo, hi - 1);
      TableCounts(words, wordSize, i, (hi - 1) as char);
    }
  }

  lemma {:induction false} CountRangeStep(words: seq<string>, i: nat, lo: int, hi: int)
    requires words != [] && 0 <= lo <= hi <= 0xD800
    ensures var last := words[|words| - 1];
      CountRange(words, i, lo, hi)
        == CountRange(words[..|words| - 1], i, lo, hi)
           + (if i < |last| && lo <= last[i] as int < hi then 1 else 0)
    decreases hi - lo
  {
    if hi != lo {
      CountRangeStep(words, i, lo, hi - 1);
    }
  }

  lemma {:induction false} CountRangeNoWords(i: nat, lo: int, hi: int)
    requires 0 <= lo <= hi <= 0xD800
    ensures CountRange([], i, lo, hi) == 0
    decreases hi - lo
  {
    if hi != lo {
      CountRangeNoWords(i, lo, hi - 1);
    }
  }

  lemma {:induction false} CountRangeLetters(words: seq<string>, i: nat)
    requires forall w :: w in words ==> i < |w| && IsUpperLetter(w[i])
    ensures CountRange(words, i, 'A' as int, 'Z' as int + 1) == |words|
  {
    if words != [] {
      var init := words[..|words| - 1];
      assert forall w :: w in init ==> w in words;
      CountRangeLetters(init, i);
      CountRangeStep(words, i, 'A' as int, 'Z' as int + 1);
      var last := words[|words| - 1];
      assert last in words;
      assert i < |last| && 'A' as int <= last[i] as int < 'Z' as int + 1;
    } else {
      CountRangeNoWords(i, 'A' as int, 'Z' as int + 1);
    }
  }

  /** Over candidates of `wordSize` upper-case letters, every key of a
      position's map is a letter and the counts of a position add up to the
      number of candidates. */
  lemma ColumnSumsToCandidates(words: seq<string>, wordSize: nat, i: nat)
    requires i < wordSize
    requires forall w :: w in words ==> |w| == wordSize && AllUpperLetters(w)
    ensures forall c :: c in TableOf(words, wordSize)[i] ==> IsUpperLetter(c)
    ensures ColumnTotal(TableOf(words, wordSize)[i], 'A' as int, 'Z' as int + 1) == |words|
  {
    forall c | c in TableOf(words, wordSize)[i] ensures IsUpperLetter(c) {
      TableCounts(words, wordSize, i, c);
      CountAtWitness(words, i, c);
    }
    ColumnTotalIsCountRange(words, wordSize, i, 'A' as int, 'Z' as int + 1);
    CountRangeLetters(words, i);
  }

  // ------------------------------------------------------------ one word

  /** The positional sum over positions 0..k-1; None when some letter is not
      a key of its position's map (where std::map::at throws). */
  function PositionalSum(t: ScoreTable, word: string, k: nat): (r: Option<int>)
    requires k <= |t| && k <= |word|
    ensures r.Some? <==> forall j :: 0 <= j < k ==> word[j] in t[j]
  {
    if k == 0 then Some(0)
    else
      match PositionalSum(t, word, k - 1)
      case None => None
      case Some(s) => if word[k - 1] in t[k - 1] then Some(s + t[k - 1][word[k - 1]]) else None
  }

  /** scoreWord: the positional sum over the first min(wordSize, |word|)
      positions; when fewer distinct letters than |word| were seen, the sum
      and the number of missing distinct letters go through `penalty` (the
      floating-point multiplication by 1 - 0.2k and truncation). */
  function ScoreWord(t: ScoreTable, wordSize: nat, penalty: (int, nat) -> int, word: string): (r: Option<int>)
    requires wordSize <= |t|
    ensures r.Some? <==> forall j :: 0 <= j < Min(wordSize, |word|) ==> word[j] in t[j]
  {
    var lim := Min(wordSize, |word|);
    match PositionalSum(t, word, lim)
    case None => None
    case Some(raw) =>
      var distinct := |Elems(word[..lim])|;
      Some(if distinct < |word| then penalty(raw, |word| - distinct) else raw)
  }

  /** For a word no longer than the word size, the penalty is skipped
      exactly when no letter repeats: an all-distinct word scores its raw
      positional sum, and otherwise the penalty is applied with the number of
      repeated letters, which is then positive. */
  lemma PenaltyOnlyForRepeats(t: ScoreTable, wordSize: nat, penalty: (int, nat) -> int, word: string)
    requires wordSize <= |t| && |word| <= wordSize
    requires PositionalSum(t, word, |word|).Some?
    ensures NoDuplicates(word) ==> ScoreWord(t, wordSize, penalty, word) == PositionalSum(t, word, |word|)
    ensures !NoDuplicates(word) ==>
      && 0 < |word| - |Elems(word)|
      && ScoreWord(t, wordSize, penalty, word)
         == Some(penalty(PositionalSum(t, word, |word|).value, |word| - |Elems(word)|))
  {
    assert word[..|word|] == word;
    DistinctCount(word);
  }

  /** Scored against the table of the candidates, a candidate's lookups all
      succeed. */
  lemma CandidateLookupsSucceed(words: seq<string>, wordSize: nat, penalty: (int, nat) -> int, w: string)
    requires w in words
    ensures ScoreWord(TableOf(words, wordSize), wordSize, penalty, w).Some?
  {
    forall j | 0 <= j < Min(wordSize, |w|) ensures w[j] in TableOf(words, wordSize)[j] {
      CountAtPositive(words, w, j);
      TableCounts(words, wordSize, j, w[j]);
    }
  }

  // ------------------------------------------------------------ the maximum

  /** The largest count of a position (0 for an empty map). */
  ghost function MaxCount(m: map<char, int>): (r: int)
    ensures r >= 0 && forall c :: c in m ==> m[c] <= r
    ensures r == 0 || r in m.Values
    decreases |m|
  {
    if |m| == 0 then 0
    else
      var c :| c in m;
      var rest := MaxCount(m - {c});
      assert forall d :: d in m && d != c ==> d in m - {c} && (m - {c})[d] == m[d];
      assert rest != 0 ==> rest in m.Values by {
        if rest != 0 {
          var d :| d in m - {c} && (m - {c})[d] == rest;
          assert m[d] == rest;
        }
      }
      Max(m[c], rest)
  }

  /** Those two properties determine the maximum. */
  lemma MaxCountUnique(m: map<char, int>, x: int)
    requires x >= 0 && forall c :: c in m ==> m[c] <= x
    requires x == 0 || x in m.Values
    ensures x == MaxCount(m)
  {
  }

  /** The sum of the maxima of positions 0..k-1. */
  ghost function MaxScoreUpTo(t: ScoreTable, k: nat): int
    requires k <= |t|
  {
    if k == 0 then 0 else MaxScoreUpTo(t, k - 1) + MaxCount(t[k - 1])
  }

  /** calculateMaxScore: the sum over all positions of the largest count. */
  ghost function MaxScore(t: ScoreTable): int {
    MaxScoreUpTo(t, |t|)
  }

  lemma {:induction false} MaxScoreUpToMonotone(t: ScoreTable, k: nat, l: nat)
    requires k <= l <= |t|
    ensures 0 <= MaxScoreUpTo(t, k) <= MaxScoreUpTo(t, l)
    decreases l
  {
    if k < l {
      MaxScoreUpToMonotone(t, k, l - 1);
    } else if k > 0 {
      MaxScoreUpToMonotone(t, 0, k - 1);
    }
  }

  lemma {:induction false} PositionalSumBelowMax(t: ScoreTable, word: string, k: nat)
    requires k <= |t| && k <= |word| && PositionalSum(t, word, k).Some?
    ensures PositionalSum(t, word, k).value <= MaxScoreUpTo(t, k)
  {
    if k > 0 {
      PositionalSumBelowMax(t, word, k - 1);
    }
  }

  /** No word's unpenalised positional sum exceeds the maximum score. */
  lemma RawScoreAtMostMax(t: ScoreTable, wordSize: nat, word: string)
    requires wordSize <= |t|
    requires PositionalSum(t, word, Min(wordSize, |word|)).Some?
    ensures PositionalSum(t, word, Min(wordSize, |word|)).value <= MaxScore(t)
  {
    var k := Min(wordSize, |word|);
    PositionalSumBelowMax(t, word, k);
    MaxScoreUpToMonotone(t, k, |t|);
  }

  lemma {:induction false} EmptyTableMaxUpTo(n: nat, k: nat)
    requires k <= n
    ensures MaxScoreUpTo(EmptyTable(n), k) == 0
  {
    if k > 0 {
      EmptyTableMaxUpTo(n, k - 1);
      var m := EmptyTable(n)[k - 1];
      assert m == map[];
      assert m.Values == {};
    }
  }

  /** With no candidates the maximum score is 0. */
  lemma NoCandidatesMaxZero(wordSize: nat)
    ensures MaxScore(TableOf([], wordSize)) == 0
  {
    EmptyTableMaxUpTo(wordSize, wordSize);
  }

  // ------------------------------------------------------------ the ranking

  /** std::string operator<: lexicographic, a proper prefix first. */
  predicate LexLess(a: string, b: string) {
    if a == [] then b != []
    else b != [] && (if a[0] != b[0] then a[0] < b[0] else LexLess(a[1..], b[1..]))
  }

  lemma {:induction false} LexLessIrreflexive(a: string)
    ensures !LexLess(a, a)
  {
    if a != [] {
      LexLessIrreflexive(a[1..]);
    }
  }

  lemma {:induction false} LexLessTransitive(a: string, b: string, c: string)
    requires LexLess(a, b) && LexLess(b, c)
    ensures LexLess(a, c)
  {
    if a != [] && a[0] == b[0] && b[0] == c[0] {
      LexLessTransitive(a[1..], b[1..], c[1..]);
    }
  }

  lemma {:induction false} LexLessTotal(a: string, b: string)
    ensures a == b || LexLess(a, b) || LexLess(b, a)
  {
    if a != [] && b != [] && a[0] == b[0] {
      LexLessTotal(a[1..], b[1..]);
      assert a == [a[0]] + a[1..] && b == [b[0]] + b[1..];
    }
  }

  /** The comparator given to std::sort: higher score first, and among equal
      scores the lexicographically smaller word first. */
  predicate RanksBefore(x: ScoredWord, y: ScoredWord) {
    if x.score == y.score then LexLess(x.word, y.word) else x.score > y.score
  }

  /** The comparator is a strict total order on scored words. */
  lemma RanksBeforeOrder(x: ScoredWord, y: ScoredWord, z: ScoredWord)
    ensures !RanksBefore(x, x)
    ensures x == y || RanksBefore(x, y) || RanksBefore(y, x)
    ensures RanksBefore(x, y) && RanksBefore(y, z) ==> RanksBefore(x, z)
  {
    LexLessIrreflexive(x.word);
    LexLessTotal(x.word, y.word);
    if RanksBefore(x, y) && RanksBefore(y, z) && x.score == y.score == z.score {
      LexLessTransitive(x.word, y.word, z.word);
    }
  }

  /** "Not after" is transitive. */
  lemma NotBeforeTransitive(x: ScoredWord, y: ScoredWord, z: ScoredWord)
    requires !RanksBefore(y, x) && !RanksBefore(z, y)
    ensures !RanksBefore(z, x)
  {
    RanksBeforeOrder(x, y, z);
    RanksBeforeOrder(z, x, y);
    RanksBeforeOrder(y, z, x);
  }

  predicate Ranked(s: seq<ScoredWord>) {
    forall i, j :: 0 <= i < j < |s| ==> !RanksBefore(s[j], s[i])
  }

  lemma PrependRanked(x: ScoredWord, s: seq<ScoredWord>)
    requires Ranked(s)
    requires forall y :: y in multiset(s) ==> !RanksBefore(y, x)
    ensures Ranked([x] + s)
  {
  }

  lemma RankedTail(s: seq<ScoredWord>)
    requires Ranked(s) && s != []
    ensures Ranked(s[1..])
  {
  }

  /** `x` goes after the head: the head stays first. */
  lemma InsertAfterHead(x: ScoredWord, s: seq<ScoredWord>, rest: seq<ScoredWord>)
    requires Ranked(s) && s != [] && RanksBefore(s[0], x)
    requires Ranked(rest) && multiset(rest) == multiset(s[1..]) + multiset{x}
    ensures Ranked([s[0]] + rest)
    ensures multiset([s[0]] + rest) == multiset(s) + multiset{x}
  {
    assert s == [s[0]] + s[1..];
    forall y | y in multiset(rest) ensures !RanksBefore(y, s[0]) {
      if y == x {
        RanksBeforeOrder(s[0], x, s[0]);
      } else {
        assert y in multiset(s[1..]);
        var k :| 0 <= k < |s[1..]| && s[1..][k] == y;
        assert s[k + 1] == y;
      }
    }
    PrependRanked(s[0], rest);
  }

  /** `x` goes before the head: the whole sequence follows it. */
  lemma InsertAtHead(x: ScoredWord, s: seq<ScoredWord>)
    requires Ranked(s) && s != [] && !RanksBefore(s[0], x)
    ensures Ranked([x] + s)
  {
    forall y | y in multiset(s) ensures !RanksBefore(y, x) {
      var k :| 0 <= k < |s| && s[k] == y;
      if k > 0 {
        NotBeforeTransitive(x, s[0], y);
      }
    }
    PrependRanked(x, s);
  }

  /** Insertion of one scored word into a ranked sequence. */
  function InsertRanked(x: ScoredWord, s: seq<ScoredWord>): (r: seq<ScoredWord>)
    requires Ranked(s)
    ensures Ranked(r) && multiset(r) == multiset(s) + multiset{x}
  {
    if s == [] then [x]
    else if RanksBefore(s[0], x) then
      RankedTail(s);
      var rest := InsertRanked(x, s[1..]);
      InsertAfterHead(x, s, rest);
      [s[0]] + rest
    else
      InsertAtHead(x, s);
      [x] + s
  }

  /** The sorted order std::sort produces with that comparator. */
  function SortRanked(s: seq<ScoredWord>): (r: seq<ScoredWord>)
    ensures Ranked(r) && multiset(r) == multiset(s)
  {
    if s == [] then []
    else
      assert s == [s[0]] + s[1..];
      InsertRanked(s[0], SortRanked(s[1..]))
  }

  /** Two ranked arrangements of the same scored words start alike. */
  lemma RankedHeadsEqual(a: seq<ScoredWord>, b: seq<ScoredWord>)
    requires Ranked(a) && Ranked(b) && multiset(a) == multiset(b) && a != [] && b != []
    ensures a[0] == b[0]
  {
    assert a[0] in multiset(b);
    var j :| 0 <= j < |b| && b[j] == a[0];
    assert b[0] in multiset(a);
    var i :| 0 <= i < |a| && a[i] == b[0];
    RanksBeforeOrder(a[0], b[0], a[0]);
  }

  /** Two ranked arrangements of the same scored words are equal: the
      comparator is total, so the sorted result does not depend on the
      algorithm or on its stability. */
  lemma {:induction false} RankedUnique(a: seq<ScoredWord>, b: seq<ScoredWord>)
    requires Ranked(a) && Ranked(b) && multiset(a) == multiset(b)
    ensures a == b
  {
    assert |a| == |multiset(a)| == |multiset(b)| == |b|;
    if a != [] {
      RankedHeadsEqual(a, b);
      assert a == [a[0]] + a[1..] && b == [b[0]] + b[1..];
      assert multiset(a[1..]) == multiset(b[1..]) by {
        assert multiset(a) == multiset{a[0]} + multiset(a[1..]);
        assert multiset(b) == multiset{b[0]} + multiset(b[1..]);
        forall y ensures multiset(a[1..])[y] == multiset(b[1..])[y] {
          assert multiset(a)[y] == multiset(b)[y];
        }
      }
      RankedTail(a);
      RankedTail(b);
      RankedUnique(a[1..], b[1..]);
    }
  }

  /** Each candidate paired with its score, in candidate order. */
  function ScoredPairs(t: ScoreTable, wordSize: nat, penalty: (int, nat) -> int, words: seq<string>): seq<ScoredWord>
    requires wordSize <= |t|
    requires forall w :: w in words ==> ScoreWord(t, wordSize, penalty, w).Some?
  {
    seq(|words|, k requires 0 <= k < |words| => ScoredWord(ScoreWord(t, wordSize, penalty, words[k]).value, words[k]))
  }

  /** Position 0 of the table of CRANE, SLATE, TRACE counts C, S and T once. */
  lemma ExampleFirstColumn()
    ensures TableOf(["CRANE", "SLATE", "TRACE"], 5)[0] == map['C' := 1, 'S' := 1, 'T' := 1]
  {
    var words := ["CRANE", "SLATE", "TRACE"];
    var expected := map['C' := 1, 'S' := 1, 'T' := 1];
    var t := TableOf(words, 5)[0];
    assert words[..2] == ["CRANE", "SLATE"] && words[..2][..1] == ["CRANE"] && words[..2][..1][..0] == [];
    assert "CRANE"[0] == 'C' && "SLATE"[0] == 'S' && "TRACE"[0] == 'T';
    forall c ensures Lookup(t, c) == Lookup(expected, c) && (c in t <==> c in expected) {
      TableCounts(words, 5, 0, c);
      assert CountAt([], 0, c) == 0;
      assert CountAt(["CRANE"], 0, c) == (if c == 'C' then 1 else 0);
      assert CountAt(["CRANE", "SLATE"], 0, c) == (if c == 'C' then 1 else 0) + (if c == 'S' then 1 else 0);
      assert CountAt(words, 0, c) == (if c == 'C' then 1 else 0) + (if c == 'S' then 1 else 0)
                                     + (if c == 'T' then 1 else 0);
    }
    assert t.Keys == expected.Keys;
  }
}
