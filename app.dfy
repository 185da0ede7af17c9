/** A model of the local table-of-contents ranker and of the routing step that
    runs before the language-model call in the Medi-Partner assistant (app.py).

    The model has three parts:
    - the tokenizer: `set(re.findall(WORD, s))` with the character class
      `[一-龠ぁ-んァ-ンA-Za-z0-9]`, modelled by `Runs` and `Tokens`;
    - the ranker `find_relevant_sections`, modelled by the method
      `FindRelevantSections` and proved against the specification `Rank`;
    - the decision logic of `get_text_response_gemini` before the external
      call, modelled by the function `Decide`.
*/
module App {

  // ---------------------------------------------------------------------------
  // Tokenizer
  // ---------------------------------------------------------------------------

  /** The character class `[一-龠ぁ-んァ-ンA-Za-z0-9]`: CJK ideographs
      U+4E00..U+9FA0, hiragana U+3041..U+3093, katakana U+30A1..U+30F3,
      ASCII letters and digits. Everything else (the long-vowel mark ー U+30FC,
      ヴ U+30F4, 々 U+3005, brackets, spaces, punctuation) separates words. */
  predicate IsWordChar(c: char) {
    ('一' <= c <= '龠') ||
    ('ぁ' <= c <= 'ん') ||
    ('ァ' <= c <= 'ン') ||
    ('A' <= c <= 'Z') || ('a' <= c <= 'z') || ('0' <= c <= '9')
  }

  predicate AllWordChars(w: string) {
    forall k :: 0 <= k < |w| ==> IsWordChar(w[k])
  }

  /** Length of the longest prefix of `s` made of word characters. */
  function RunLength(s: string): (n: nat)
    ensures n <= |s|
    ensures AllWordChars(s[..n])
    ensures n == |s| || !IsWordChar(s[n])
  {
    if s == [] || !IsWordChar(s[0]) then 0 else 1 + RunLength(s[1..])
  }

  /** `re.findall(WORD, s)`: the maximal runs of word characters of `s`,
      left to right. */
  function Runs(s: string): (r: seq<string>)
    ensures forall k :: 0 <= k < |r| ==> |r[k]| > 0 && AllWordChars(r[k])
    decreases |s|
  {
    if s == [] then []
    else if !IsWordChar(s[0]) then Runs(s[1..])
    else
      var n := RunLength(s);
      [s[..n]] + Runs(s[n..])
  }

  /** `set(re.findall(WORD, s))`. */
  function Tokens(s: string): set<string> {
    set k | 0 <= k < |Runs(s)| :: Runs(s)[k]
  }

  /** `w` occurs in `s` at index `i` as a maximal run of word characters:
      non-empty, only word characters, and bounded on both sides by the
      ends of `s` or by separators. This is the independent reading of
      what the regular expression matches. */
  ghost predicate IsRunAt(s: string, i: int, w: string) {
    0 <= i && i + |w| <= |s| && |w| > 0 &&
    s[i..i + |w|] == w && AllWordChars(w) &&
    (i == 0 || !IsWordChar(s[i - 1])) &&
    (i + |w| == |s| || !IsWordChar(s[i + |w|]))
  }

  /** A maximal run of a suffix `s[d..]` is a maximal run of `s` when the
      character before the suffix, if any, is a separator. */
  lemma ShiftRun(s: string, d: nat, i: int, w: string)
    requires d <= |s| && IsRunAt(s[d..], i, w)
    requires i > 0 || d == 0 || !IsWordChar(s[d - 1])
    ensures IsRunAt(s, i + d, w)
  {
    assert s[d..][i..i + |w|] == s[i + d..i + d + |w|];
    if i > 0 { assert s[d..][i - 1] == s[i + d - 1]; }
    if i + |w| < |s[d..]| { assert s[d..][i + |w|] == s[i + d + |w|]; }
  }

  /** A maximal run of `s` that starts at or after `d` is one of `s[d..]`. */
  lemma UnshiftRun(s: string, d: nat, i: int, w: string)
    requires IsRunAt(s, i, w) && d <= i
    ensures IsRunAt(s[d..], i - d, w)
  {
    assert s[d..][i - d..i - d + |w|] == s[i..i + |w|];
    if i > d { assert s[d..][i - d - 1] == s[i - 1]; }
    if i + |w| < |s| { assert s[d..][i - d + |w|] == s[i + |w|]; }
  }

  lemma {:induction false} RunsAreMaximal(s: string, w: string)
    requires w in Runs(s)
    ensures exists i :: IsRunAt(s, i, w)
    decreases |s|
  {
    if !IsWordChar(s[0]) {
      assert w in Runs(s[1..]);
      RunsAreMaximal(s[1..], w);
      var i :| IsRunAt(s[1..], i, w);
      ShiftRun(s, 1, i, w);
    } else {
      var n := RunLength(s);
      assert Runs(s) == [s[..n]] + Runs(s[n..]);
      if w == s[..n] {
        assert s[0..0 + |w|] == s[..n];
        assert IsRunAt(s, 0, w);
      } else {
        assert w in Runs(s[n..]);
        RunsAreMaximal(s[n..], w);
        var i :| IsRunAt(s[n..], i, w);
        assert s[n..] != [] && s[n..][0] == s[n];
        assert i != 0;
        ShiftRun(s, n, i, w);
      }
    }
  }

  lemma {:induction false} MaximalRunsAreFound(s: string, i: int, w: string)
    requires IsRunAt(s, i, w)
    ensures w in Runs(s)
    decreases |s|
  {
    if i == 0 {
      assert w[0] == s[0];
      assert s[..|w|] == w;
      RunLengthOfRun(s, |w|);
      assert Runs(s) == [s[..|w|]] + Runs(s[|w|..]);
    } else if !IsWordChar(s[0]) {
      UnshiftRun(s, 1, i, w);
      MaximalRunsAreFound(s[1..], i - 1, w);
      assert Runs(s) == Runs(s[1..]);
    } else {
      var n := RunLength(s);
      assert forall k :: 0 <= k < n ==> s[k] == s[..n][k];
      assert n < i;
      UnshiftRun(s, n, i, w);
      MaximalRunsAreFound(s[n..], i - n, w);
      assert Runs(s) == [s[..n]] + Runs(s[n..]);
    }
  }

  /** A maximal run at the front of `s` is exactly what `RunLength` measures. */
  lemma {:induction false} RunLengthOfRun(s: string, m: nat)
    requires m <= |s| && AllWordChars(s[..m])
    requires m == |s| || !IsWordChar(s[m])
    ensures RunLength(s) == m
    decreases m
  {
    if m > 0 {
      assert s[..m][0] == s[0];
      assert s[1..][..m - 1] == s[..m][1..];
      RunLengthOfRun(s[1..], m - 1);
    }
  }

  /** The tokens of `s` are exactly its maximal runs of word characters. */
  lemma TokensAreMaximalRuns(s: string, w: string)
    ensures w in Tokens(s) <==> exists i :: IsRunAt(s, i, w)
  {
    if w in Tokens(s) {
      RunsAreMaximal(s, w);
    }
    if exists i :: IsRunAt(s, i, w) {
      var i :| IsRunAt(s, i, w);
      MaximalRunsAreFound(s, i, w);
    }
  }

  /** A text without any word character has no tokens, and conversely. */
  lemma {:induction false} NoWordCharsNoTokens(s: string)
    ensures Tokens(s) == {} <==> forall k :: 0 <= k < |s| ==> !IsWordChar(s[k])
    decreases |s|
  {
    if s != [] {
      NoWordCharsNoTokens(s[1..]);
      if IsWordChar(s[0]) {
        assert Runs(s)[0] in Tokens(s);
      } else {
        assert forall k :: 1 <= k < |s| ==> s[k] == s[1..][k - 1];
      }
    }
  }

  /** A separator splits the token sequence: the runs of `a + [c] + b` are
      those of `a` followed by those of `b`. */
  lemma {:induction false} RunsSplitAtSeparator(a: string, c: char, b: string)
    requires !IsWordChar(c)
    ensures Runs(a + [c] + b) == Runs(a) + Runs(b)
    decreases |a|
  {
    var s := a + [c] + b;
    if a == [] {
      assert s[1..] == b;
    } else if !IsWordChar(a[0]) {
      assert s[1..] == a[1..] + [c] + b;
      RunsSplitAtSeparator(a[1..], c, b);
    } else {
      var n := RunLength(a);
      assert s[..n] == a[..n];
      RunLengthOfRun(s, n);
      assert s[n..] == a[n..] + [c] + b;
      RunsSplitAtSeparator(a[n..], c, b);
    }
  }

  /** Repeating the text, separated by a space, adds no token. */
  lemma RepeatedTextSameTokens(s: string)
    ensures Tokens(s + " " + s) == Tokens(s)
  {
    RunsSplitAtSeparator(s, ' ', s);
    assert s + " " + s == s + [' '] + s;
    var r := Runs(s);
    forall w | w in Tokens(s + " " + s) ensures w in Tokens(s) {
      var k :| 0 <= k < |r + r| && (r + r)[k] == w;
      if k >= |r| { assert r[k - |r|] == w; }
    }
    forall w | w in Tokens(s) ensures w in Tokens(s + " " + s) {
      var k :| 0 <= k < |r| && r[k] == w;
      assert (r + r)[k] == w;
    }
  }

  /** A non-empty word is its own only run. */
  lemma {:induction false} SingleWordRuns(w: string)
    requires |w| > 0 && AllWordChars(w)
    ensures Runs(w) == [w]
  {
    RunLengthOfRun(w, |w|);
    assert w[..|w|] == w;
    assert w[|w|..] == [];
  }

  /** The long-vowel mark ー is outside the character class, so the title
      マスターメニュー yields the words マスタ and メニュ. */
  lemma LongVowelSeparates()
    ensures Runs("マスターメニュー") == ["マスタ", "メニュ"]
  {
    MenuRuns();
    SingleWordRuns("マスタ");
    RunsSplitAtSeparator("マスタ", 'ー', "メニュー");
    assert "マスタ" + ['ー'] + "メニュー" == "マスターメニュー";
  }

  lemma MenuRuns()
    ensures Runs("メニュー") == ["メニュ"]
  {
    SingleWordRuns("メニュ");
    RunsSplitAtSeparator("メニュ", 'ー', "");
    assert "メニュ" + ['ー'] + "" == "メニュー";
  }

  // ---------------------------------------------------------------------------
  // Scoring
  // ---------------------------------------------------------------------------

  /** A table-of-contents entry `(key, title)`; a table is a sequence of
      entries in the dictionary's insertion order. */
  type Entry = (string, string)

  /** `f"{key} {section}"`. */
  function Label(e: Entry): string {
    e.0 + " " + e.1
  }

  /** `len(query_words.intersection(section_words))`. */
  function Score(queryWords: set<string>, title: string): nat {
    |queryWords * Tokens(title)|
  }

  lemma {:induction false} SubsetCardinality<T>(a: set<T>, b: set<T>)
    requires a <= b
    ensures |a| <= |b|
    decreases |b|
  {
    if a != {} {
      var x :| x in a;
      SubsetCardinality(a - {x}, b - {x});
    }
  }

  /** A score counts distinct shared tokens: it is positive exactly when the
      query and the title share a token, and it is bounded by the number of
      distinct tokens on either side. */
  lemma ScoreMeaning(query: string, title: string)
    ensures Score(Tokens(query), title) <= |Tokens(query)|
    ensures Score(Tokens(query), title) <= |Tokens(title)|
    ensures Score(Tokens(query), title) > 0 <==>
              exists w :: w in Tokens(query) && w in Tokens(title)
  {
    var shared := Tokens(query) * Tokens(title);
    SubsetCardinality(shared, Tokens(query));
    SubsetCardinality(shared, Tokens(title));
    if exists w :: w in Tokens(query) && w in Tokens(title) {
      var w :| w in Tokens(query) && w in Tokens(title);
      assert w in shared;
    }
  }

  /** Repeating a word in the query or in the title does not raise the score. */
  /** The elements of a concatenation are the elements of its parts. */
  lemma ElementsOfConcat(x: seq<string>, y: seq<string>)
    ensures (set k | 0 <= k < |x + y| :: (x + y)[k])
         == (set k | 0 <= k < |x| :: x[k]) + (set k | 0 <= k < |y| :: y[k])
  {
    var xy := x + y;
    var ex, ey, exy := (set k | 0 <= k < |x| :: x[k]), (set k | 0 <= k < |y| :: y[k]),
                       (set k | 0 <= k < |xy| :: xy[k]);
    forall w | w in exy ensures w in ex + ey {
      var k :| 0 <= k < |xy| && xy[k] == w;
      if k >= |x| { assert y[k - |x|] == w; }
    }
    forall w | w in ex ensures w in exy {
      var k :| 0 <= k < |x| && x[k] == w;
      assert xy[k] == w;
    }
    forall w | w in ey ensures w in exy {
      var k :| 0 <= k < |y| && y[k] == w;
      assert xy[|x| + k] == w;
    }
  }

  /** A separator splits the token set: the tokens of `a + [c] + b` are
      those of `a` together with those of `b`. */
  lemma TokensSplitAtSeparator(a: string, c: char, b: string)
    requires !IsWordChar(c)
    ensures Tokens(a + [c] + b) == Tokens(a) + Tokens(b)
  {
    RunsSplitAtSeparator(a, c, b);
    ElementsOfConcat(Runs(a), Runs(b));
  }

  /** A token is its own only token. */
  lemma TokenOfToken(s: string, w: string)
    requires w in Tokens(s)
    ensures Tokens(w) == {w}
  {
    var k :| 0 <= k < |Runs(s)| && Runs(s)[k] == w;
    SingleWordRuns(w);
    assert Runs(w)[0] == w;
  }

  /** Appending, after a space, a word that is already a token of a text
      leaves the text's tokens unchanged. */
  lemma RepeatedWordSameTokens(s: string, w: string)
    requires w in Tokens(s)
    ensures Tokens(s + " " + w) == Tokens(s)
  {
    TokenOfToken(s, w);
    TokensSplitAtSeparator(s, ' ', w);
    assert s + " " + w == s + [' '] + w;
    assert Tokens(s) + {w} == Tokens(s);
  }

  /** Repeating one word that is already in the query or in the title does
      not change the score. */
  lemma ScoreIgnoresRepeatedWord(query: string, title: string, w: string)
    ensures w in Tokens(query) ==>
              Score(Tokens(query + " " + w), title) == Score(Tokens(query), title)
    ensures w in Tokens(title) ==>
              Score(Tokens(query), title + " " + w) == Score(Tokens(query), title)
  {
    if w in Tokens(query) {
      RepeatedWordSameTokens(query, w);
    }
    if w in Tokens(title) {
      RepeatedWordSameTokens(title, w);
    }
  }

  /** Repeating the whole query or the whole title does not change the score. */
  lemma ScoreIgnoresRepetition(query: string, title: string)
    ensures Score(Tokens(query + " " + query), title) == Score(Tokens(query), title)
    ensures Score(Tokens(query), title + " " + title) == Score(Tokens(query), title)
  {
    RepeatedTextSameTokens(query);
    RepeatedTextSameTokens(title);
  }

  // ---------------------------------------------------------------------------
  // Ranking specification
  // ---------------------------------------------------------------------------

  /** The number of labels returned: `scores[:3]`. */
  const Limit: nat := 3

  /** The `scores` list after the loop over `toc.items()`: one
      `(score, label)` pair per entry with a positive score, in table order. */
  function Scored(queryWords: set<string>, toc: seq<Entry>): seq<(nat, string)>
  {
    if toc == [] then []
    else
      var e := toc[|toc| - 1];
      var score := Score(queryWords, e.1);
      Scored(queryWords, toc[..|toc| - 1]) + (if score > 0 then [(score, Label(e))] else [])
  }

  ghost predicate SortedDesc(s: seq<(nat, string)>) {
    forall i, j :: 0 <= i < j < |s| ==> s[i].0 >= s[j].0
  }

  /** Inserts `x` after every element whose score is at least `x`'s. */
  function Insert(t: seq<(nat, string)>, x: (nat, string)): seq<(nat, string)>
  {
    if t == [] then [x]
    else if t[0].0 >= x.0 then [t[0]] + Insert(t[1..], x)
    else [x] + t
  }

  /** `scores.sort(key=lambda x: x[0], reverse=True)`: a stable sort by
      descending score, written as insertion of each element in turn. */
  function SortDesc(s: seq<(nat, string)>): seq<(nat, string)>
  {
    if s == [] then []
    else Insert(SortDesc(s[..|s| - 1]), s[|s| - 1])
  }

  /** `scores[:3]` after sorting. */
  function RankScored(queryWords: set<string>, toc: seq<Entry>): seq<(nat, string)>
  {
    var sorted := SortDesc(Scored(queryWords, toc));
    sorted[..if |sorted| < Limit then |sorted| else Limit]
  }

  /** `[section for score, section in ...]`. */
  function Labels(s: seq<(nat, string)>): seq<string>
  {
    seq(|s|, k requires 0 <= k < |s| => s[k].1)
  }

  /** What `find_relevant_sections(query, toc)` returns. */
  function Rank(query: string, toc: seq<Entry>): seq<string> {
    Labels(RankScored(Tokens(query), toc))
  }

  /** The elements of `s` with score `k`, in order. */
  function WithScore(s: seq<(nat, string)>, k: nat): seq<(nat, string)> {
    if s == [] then []
    else (if s[0].0 == k then [s[0]] else []) + WithScore(s[1..], k)
  }

  /** Independent description of the tie class of score `k`: the labels of
      the table entries whose score is `k`, in table order. */
  function EntriesWithScore(queryWords: set<string>, toc: seq<Entry>, k: nat): seq<string> {
    if toc == [] then []
    else
      var e := toc[|toc| - 1];
      EntriesWithScore(queryWords, toc[..|toc| - 1], k) +
        (if Score(queryWords, e.1) == k then [Label(e)] else [])
  }

  /** The table indices whose entry scores above zero. */
  function PositiveEntries(queryWords: set<string>, toc: seq<Entry>): set<nat> {
    set j | 0 <= j < |toc| && Score(queryWords, toc[j].1) > 0
  }

  // ---------------------------------------------------------------------------
  // Lemmas about the ranking specification
  // ---------------------------------------------------------------------------

  lemma {:induction false} ScoredMembers(queryWords: set<string>, toc: seq<Entry>, x: (nat, string))
    ensures x in Scored(queryWords, toc) <==>
              exists j :: 0 <= j < |toc| && Score(queryWords, toc[j].1) > 0 &&
                          x == (Score(queryWords, toc[j].1), Label(toc[j]))
    decreases |toc|
  {
    if toc != [] {
      var n := |toc| - 1;
      var init := toc[..n];
      var last := Score(queryWords, toc[n].1);
      ScoredMembers(queryWords, init, x);
      assert Scored(queryWords, toc)
          == Scored(queryWords, init) + (if last > 0 then [(last, Label(toc[n]))] else []);
      if x in Scored(queryWords, toc) && x !in Scored(queryWords, init) {
        assert last > 0 && x == (last, Label(toc[n]));
      }
      if j :| 0 <= j < |toc| && Score(queryWords, toc[j].1) > 0 &&
              x == (Score(queryWords, toc[j].1), Label(toc[j])) {
        if j < n { assert init[j] == toc[j]; }
      }
    }
  }

  lemma {:induction false} ScoredCount(queryWords: set<string>, toc: seq<Entry>)
    ensures |Scored(queryWords, toc)| == |PositiveEntries(queryWords, toc)|
    decreases |toc|
  {
    if toc != [] {
      var n := |toc| - 1;
      var init := toc[..n];
      ScoredCount(queryWords, init);
      var all, before := PositiveEntries(queryWords, toc), PositiveEntries(queryWords, init);
      assert n !in before;
      forall j ensures j in all <==> j in before || (j == n && Score(queryWords, toc[n].1) > 0) {
        if 0 <= j < n { assert init[j] == toc[j]; }
      }
      if Score(queryWords, toc[n].1) > 0 {
        assert all == before + {n};
      } else {
        assert all == before;
      }
    }
  }

  /** Insertion adds exactly the inserted element. */
  lemma {:induction false} InsertPermutes(t: seq<(nat, string)>, x: (nat, string))
    ensures multiset(Insert(t, x)) == multiset(t) + multiset{x}
    decreases |t|
  {
    if t != [] && t[0].0 >= x.0 {
      InsertPermutes(t[1..], x);
      assert t == [t[0]] + t[1..];
    }
  }

  lemma {:induction false} InsertSorted(t: seq<(nat, string)>, x: (nat, string))
    requires SortedDesc(t)
    ensures SortedDesc(Insert(t, x))
    decreases |t|
  {
    if t != [] && t[0].0 >= x.0 {
      InsertSorted(t[1..], x);
      InsertPermutes(t[1..], x);
      var r := Insert(t[1..], x);
      forall y | y in r ensures t[0].0 >= y.0 {
        assert y in multiset(r);
        if y != x { assert y in multiset(t[1..]); }
      }
    }
  }

  lemma {:induction false} WithScoreAppend(s: seq<(nat, string)>, x: (nat, string), k: nat)
    ensures WithScore(s + [x], k) == WithScore(s, k) + (if x.0 == k then [x] else [])
    decreases |s|
  {
    if s != [] {
      assert (s + [x])[1..] == s[1..] + [x];
      WithScoreAppend(s[1..], x, k);
    }
  }

  lemma {:induction false} WithScoreAbsent(t: seq<(nat, string)>, k: nat)
    requires forall i :: 0 <= i < |t| ==> t[i].0 != k
    ensures WithScore(t, k) == []
    decreases |t|
  {
    if t != [] { WithScoreAbsent(t[1..], k); }
  }

  lemma WithScoreCons(y: (nat, string), r: seq<(nat, string)>, k: nat)
    ensures WithScore([y] + r, k) == (if y.0 == k then [y] else []) + WithScore(r, k)
  {
    assert ([y] + r)[1..] == r;
  }

  lemma SortedTail(t: seq<(nat, string)>)
    requires SortedDesc(t) && t != []
    ensures SortedDesc(t[1..])
  {
    forall i, j | 0 <= i < j < |t| - 1 ensures t[1..][i].0 >= t[1..][j].0 {
      assert t[1..][i] == t[i + 1] && t[1..][j] == t[j + 1];
    }
  }

  lemma {:induction false} WithScoreInsert(t: seq<(nat, string)>, x: (nat, string), k: nat)
    requires SortedDesc(t)
    ensures WithScore(Insert(t, x), k) == WithScore(t, k) + (if x.0 == k then [x] else [])
    decreases |t|
  {
    if t == [] {
      WithScoreCons(x, [], k);
    } else if t[0].0 >= x.0 {
      SortedTail(t);
      WithScoreInsert(t[1..], x, k);
      WithScoreInsertAfterHead(t, x, k);
    } else {
      WithScoreInsertAtHead(t, x, k);
    }
  }

  /** Step of `WithScoreInsert` when `x` goes after the head of `t`. */
  lemma WithScoreInsertAfterHead(t: seq<(nat, string)>, x: (nat, string), k: nat)
    requires t != [] && t[0].0 >= x.0
    requires WithScore(Insert(t[1..], x), k) == WithScore(t[1..], k) + (if x.0 == k then [x] else [])
    ensures WithScore(Insert(t, x), k) == WithScore(t, k) + (if x.0 == k then [x] else [])
  {
    var r := Insert(t[1..], x);
    var head := if t[0].0 == k then [t[0]] else [];
    var own := if x.0 == k then [x] else [];
    var rest := WithScore(t[1..], k);
    assert Insert(t, x) == [t[0]] + r;
    WithScoreCons(t[0], r, k);
    assert WithScore(t, k) == head + rest;
    assert WithScore(Insert(t, x), k) == head + (rest + own);
    assert head + (rest + own) == (head + rest) + own;
  }

  /** Step of `WithScoreInsert` when `x` goes in front of a sorted `t`. */
  lemma WithScoreInsertAtHead(t: seq<(nat, string)>, x: (nat, string), k: nat)
    requires SortedDesc(t) && t != [] && t[0].0 < x.0
    ensures WithScore(Insert(t, x), k) == WithScore(t, k) + (if x.0 == k then [x] else [])
  {
    assert Insert(t, x) == [x] + t;
    WithScoreCons(x, t, k);
    if x.0 == k {
      assert forall i :: 0 <= i < |t| ==> t[i].0 <= t[0].0;
      WithScoreAbsent(t, k);
    }
  }

  /** `SortDesc` is a stable sort: the result is ordered by descending score,
      is a permutation of the input, and keeps the input order within every
      score. */
  lemma {:induction false} SortDescIsStableSort(s: seq<(nat, string)>)
    ensures SortedDesc(SortDesc(s))
    ensures multiset(SortDesc(s)) == multiset(s)
    ensures forall k :: WithScore(SortDesc(s), k) == WithScore(s, k)
    decreases |s|
  {
    if s != [] {
      var init, last := s[..|s| - 1], s[|s| - 1];
      SortDescIsStableSort(init);
      InsertSorted(SortDesc(init), last);
      InsertPermutes(SortDesc(init), last);
      assert s == init + [last];
      forall k ensures WithScore(SortDesc(s), k) == WithScore(s, k) {
        WithScoreInsert(SortDesc(init), last, k);
        WithScoreAppend(init, last, k);
      }
    }
  }

  lemma {:induction false} WithScoreOfPrefix(s: seq<(nat, string)>, m: nat, k: nat)
    requires m <= |s|
    ensures WithScore(s[..m], k) <= WithScore(s, k)
    decreases |s|
  {
    if m > 0 {
      assert s[..m][1..] == s[1..][..m - 1];
      WithScoreOfPrefix(s[1..], m - 1, k);
    }
  }

  lemma {:induction false} LabelsOfScored(queryWords: set<string>, toc: seq<Entry>, k: nat)
    requires k > 0
    ensures Labels(WithScore(Scored(queryWords, toc), k)) == EntriesWithScore(queryWords, toc, k)
    decreases |toc|
  {
    if toc != [] {
      var init, e := toc[..|toc| - 1], toc[|toc| - 1];
      LabelsOfScored(queryWords, init, k);
      var score := Score(queryWords, e.1);
      var before := Scored(queryWords, init);
      var a := WithScore(before, k);
      if score > 0 {
        var x := (score, Label(e));
        assert Scored(queryWords, toc) == before + [x];
        WithScoreAppend(before, x, k);
        if score == k {
          assert Labels(a + [x]) == Labels(a) + [x.1];
        }
      } else {
        assert Scored(queryWords, toc) == before;
      }
    }
  }

  /** Bound and completeness: the ranker returns `min(3, n)` labels, where `n`
      is the number of entries sharing a token with the query. */
  lemma RankLength(query: string, toc: seq<Entry>)
    ensures var n := |PositiveEntries(Tokens(query), toc)|;
            |Rank(query, toc)| == (if n < Limit then n else Limit)
    ensures |Rank(query, toc)| <= 3
  {
    var qw := Tokens(query);
    ScoredCount(qw, toc);
    SortDescIsStableSort(Scored(qw, toc));
    assert |multiset(SortDesc(Scored(qw, toc)))| == |multiset(Scored(qw, toc))|;
  }

  /** Every returned pair is `(score, key + " " + title)` of an entry of the
      table whose title shares a token with the query. */
  lemma RankFromTable(query: string, toc: seq<Entry>, i: nat)
    requires i < |RankScored(Tokens(query), toc)|
    ensures var x := RankScored(Tokens(query), toc)[i];
            x.1 == Rank(query, toc)[i] &&
            exists j :: 0 <= j < |toc| && Score(Tokens(query), toc[j].1) > 0 &&
                        x == (Score(Tokens(query), toc[j].1), Label(toc[j]))
  {
    var qw := Tokens(query);
    var sorted := SortDesc(Scored(qw, toc));
    SortDescIsStableSort(Scored(qw, toc));
    var x := sorted[i];
    assert x in multiset(sorted);
    ScoredMembers(qw, toc, x);
  }

  /** Returned scores are non-increasing, and within one score the returned
      labels are the first ones of that score in table order. */
  lemma RankOrdered(query: string, toc: seq<Entry>)
    ensures SortedDesc(RankScored(Tokens(query), toc))
    ensures forall k :: k > 0 ==>
              Labels(WithScore(RankScored(Tokens(query), toc), k)) <=
              EntriesWithScore(Tokens(query), toc, k)
  {
    var qw := Tokens(query);
    var scored := Scored(qw, toc);
    var sorted := SortDesc(scored);
    SortDescIsStableSort(scored);
    var m := if |sorted| < Limit then |sorted| else Limit;
    forall k | k > 0
      ensures Labels(WithScore(RankScored(qw, toc), k)) <= EntriesWithScore(qw, toc, k)
    {
      WithScoreOfPrefix(sorted, m, k);
      LabelsOfScored(qw, toc, k);
      var a, b := WithScore(sorted[..m], k), WithScore(sorted, k);
      assert Labels(a) == Labels(b)[..|a|];
    }
  }

  /** An entry with a positive score that is left out scores no higher than
      any returned entry. */
  lemma RankKeepsBest(query: string, toc: seq<Entry>, j: nat)
    requires j < |toc| && Score(Tokens(query), toc[j].1) > 0
    ensures var x := (Score(Tokens(query), toc[j].1), Label(toc[j]));
            var top := RankScored(Tokens(query), toc);
            x in top || forall i :: 0 <= i < |top| ==> top[i].0 >= x.0
  {
    var qw := Tokens(query);
    var x := (Score(qw, toc[j].1), Label(toc[j]));
    var scored := Scored(qw, toc);
    ScoredMembers(qw, toc, x);
    SortDescIsStableSort(scored);
    assert x in multiset(SortDesc(scored));
    TopKeepsBest(SortDesc(scored), x);
  }

  /** Cutting a sorted list after `Limit` elements drops nothing that
      scores above a kept element. */
  lemma TopKeepsBest(sorted: seq<(nat, string)>, x: (nat, string))
    requires SortedDesc(sorted) && x in sorted
    ensures var top := sorted[..if |sorted| < Limit then |sorted| else Limit];
            x in top || forall i :: 0 <= i < |top| ==> top[i].0 >= x.0
  {
    var p :| 0 <= p < |sorted| && sorted[p] == x;
    var top := sorted[..if |sorted| < Limit then |sorted| else Limit];
    if p < |top| {
      assert top[p] == x;
    } else {
      forall i | 0 <= i < |top| ensures top[i].0 >= x.0 {
        assert top[i] == sorted[i];
      }
    }
  }

  /** A query without any word character matches nothing. */
  lemma NoWordQueryRanksNothing(query: string, toc: seq<Entry>)
    requires forall k :: 0 <= k < |query| ==> !IsWordChar(query[k])
    ensures Rank(query, toc) == []
  {
    NoWordCharsNoTokens(query);
    ScoredCount(Tokens(query), toc);
    assert PositiveEntries(Tokens(query), toc) == {};
  }

  // ---------------------------------------------------------------------------
  // The ranker
  // ---------------------------------------------------------------------------

  /** The insertion point for `x` in a descending run `t`: after the
      elements whose score is at least `x`'s, before the others. */
  lemma {:induction false} InsertAt(t: seq<(nat, string)>, x: (nat, string), p: nat)
    requires p <= |t|
    requires forall m :: 0 <= m < p ==> t[m].0 >= x.0
    requires forall m :: p <= m < |t| ==> t[m].0 < x.0
    ensures Insert(t, x) == t[..p] + [x] + t[p..]
    decreases |t|
  {
    if p > 0 {
      InsertAt(t[1..], x, p - 1);
      assert t[..p] == [t[0]] + t[1..][..p - 1];
    }
  }

  lemma InsertionPoint(t: seq<(nat, string)>, x: (nat, string), p: nat)
    requires SortedDesc(t) && p <= |t|
    requires p == 0 || t[p - 1].0 >= x.0
    requires forall m :: p <= m < |t| ==> t[m].0 < x.0
    ensures Insert(t, x) == t[..p] + [x] + t[p..]
    ensures SortedDesc(t[..p] + [x] + t[p..])
  {
    InsertAt(t, x, p);
    InsertSorted(t, x);
  }

  lemma SortDescSnoc(s: seq<(nat, string)>, i: nat)
    requires i < |s|
    ensures SortDesc(s[..i + 1]) == Insert(SortDesc(s[..i]), s[i])
  {
    assert s[..i + 1][..i] == s[..i];
  }

  /** `scores.sort(key=lambda x: x[0], reverse=True)`, as an insertion sort. */
  method SortByScore(scores: seq<(nat, string)>) returns (sorted: seq<(nat, string)>)
    ensures sorted == SortDesc(scores)
  {
    sorted := [];
    for i := 0 to |scores|
      invariant sorted == SortDesc(scores[..i])
      invariant SortedDesc(sorted)
    {
      var x := scores[i];
      var j := |sorted|;
      while j > 0 && sorted[j - 1].0 < x.0
        invariant 0 <= j <= |sorted|
        invariant forall m :: j <= m < |sorted| ==> sorted[m].0 < x.0
      {
        j := j - 1;
      }
      InsertionPoint(sorted, x, j);
      SortDescSnoc(scores, i);
      sorted := sorted[..j] + [x] + sorted[j..];
    }
    assert scores[..|scores|] == scores;
  }

  /** `find_relevant_sections(query, toc)`. */
  method FindRelevantSections(query: string, toc: seq<Entry>) returns (labels: seq<string>)
    ensures labels == Rank(query, toc)
    ensures |labels| <= Limit
  {
    var scores: seq<(nat, string)> := [];
    var queryWords := Tokens(query);
    for i := 0 to |toc|
      invariant scores == Scored(queryWords, toc[..i])
    {
      var (key, section) := toc[i];
      var sectionWords := Tokens(section);
      var score := |queryWords * sectionWords|;
      assert toc[..i + 1][..i] == toc[..i] && toc[..i + 1][i] == toc[i];
      assert score == Score(queryWords, toc[i].1) && key + " " + section == Label(toc[i]);
      if score > 0 {
        scores := scores + [(score, key + " " + section)];
      }
    }
    assert toc[..|toc|] == toc;
    scores := SortByScore(scores);
    var top := scores[..if |scores| < Limit then |scores| else Limit];
    labels := seq(|top|, k requires 0 <= k < |top| => top[k].1);
    assert top == RankScored(queryWords, toc);
    assert labels == Labels(top);
  }

  // ---------------------------------------------------------------------------
  // Manual selection
  // ---------------------------------------------------------------------------

  /** Python's `pat in s` on strings. */
  function Contains(s: string, pat: string): bool
    decreases |s|
  {
    if pat <= s then true
    else if s == [] then false
    else Contains(s[1..], pat)
  }

  /** `pat` occurs in `s` starting at index `i`. */
  ghost predicate OccursAt(s: string, pat: string, i: int) {
    0 <= i && i + |pat| <= |s| && s[i..i + |pat|] == pat
  }

  /** `pat` occurs somewhere in `s`. */
  ghost predicate OccursIn(s: string, pat: string) {
    exists i :: OccursAt(s, pat, i)
  }

  lemma OccursShift(s: string, pat: string, i: int)
    requires s != [] && OccursAt(s[1..], pat, i)
    ensures OccursAt(s, pat, i + 1)
  {
    assert s[1..][i..i + |pat|] == s[i + 1..i + 1 + |pat|];
  }

  lemma OccursUnshift(s: string, pat: string, i: int)
    requires OccursAt(s, pat, i) && i > 0
    ensures OccursAt(s[1..], pat, i - 1)
  {
    assert s[1..][i - 1..i - 1 + |pat|] == s[i..i + |pat|];
  }

  /** The recursive substring test agrees with the occurrence definition. */
  lemma {:induction false} ContainsMeansOccurs(s: string, pat: string)
    ensures Contains(s, pat) <==> OccursIn(s, pat)
    decreases |s|
  {
    if pat <= s {
      assert s[0..|pat|] == pat;
      assert OccursAt(s, pat, 0);
    } else if s != [] {
      ContainsMeansOccurs(s[1..], pat);
      if OccursIn(s[1..], pat) {
        var i :| OccursAt(s[1..], pat, i);
        OccursShift(s, pat, i);
      }
      if OccursIn(s, pat) {
        var i :| OccursAt(s, pat, i);
        if i > 0 { OccursUnshift(s, pat, i); }
      }
    }
  }

  /** The inpatient-indicating terms. */
  const InpatientKeywords: seq<string> := ["入院", "退院", "病棟", "入院料"]

  /** `any(keyword in prompt for keyword in keywords)`. */
  function AnyContained(prompt: string, keywords: seq<string>): bool {
    if keywords == [] then false
    else Contains(prompt, keywords[0]) || AnyContained(prompt, keywords[1..])
  }

  datatype ManualKind = Gairai | Nyuin

  /** `manual_type`. */
  function ManualName(kind: ManualKind): string {
    match kind
    case Gairai => "gairai"
    case Nyuin => "nyuin"
  }

  /** The table for each manual: `GAIRAI_TOC` and `NYUIN_TOC`. */
  function TableOf(kind: ManualKind): seq<Entry> {
    match kind
    case Gairai => GairaiToc
    case Nyuin => NyuinToc
  }

  /** The manual selection of `get_text_response_gemini`. */
  function SelectManual(prompt: string): ManualKind {
    if AnyContained(prompt, InpatientKeywords) then Nyuin else Gairai
  }

  lemma {:induction false} AnyContainedMeansSomeOccurs(prompt: string, keywords: seq<string>)
    ensures AnyContained(prompt, keywords) <==>
              exists n :: 0 <= n < |keywords| && OccursIn(prompt, keywords[n])
    decreases |keywords|
  {
    if keywords != [] {
      ContainsMeansOccurs(prompt, keywords[0]);
      AnyContainedMeansSomeOccurs(prompt, keywords[1..]);
      if exists n :: 0 <= n < |keywords| && OccursIn(prompt, keywords[n]) {
        var n :| 0 <= n < |keywords| && OccursIn(prompt, keywords[n]);
        if n > 0 { assert keywords[1..][n - 1] == keywords[n]; }
      }
      if exists n :: 0 <= n < |keywords[1..]| && OccursIn(prompt, keywords[1..][n]) {
        var n :| 0 <= n < |keywords[1..]| && OccursIn(prompt, keywords[1..][n]);
        assert keywords[1..][n] == keywords[n + 1];
      }
    }
  }

  /** The inpatient manual ("nyuin", `NYUIN_TOC`) is chosen exactly when one
      of the four terms occurs in the prompt; otherwise the outpatient
      manual ("gairai", `GAIRAI_TOC`) is. */
  lemma SelectManualSpec(prompt: string)
    ensures SelectManual(prompt) == Nyuin <==>
              OccursIn(prompt, "入院") || OccursIn(prompt, "退院") ||
              OccursIn(prompt, "病棟") || OccursIn(prompt, "入院料")
    ensures SelectManual(prompt) == Nyuin ==>
              ManualName(SelectManual(prompt)) == "nyuin" && TableOf(SelectManual(prompt)) == NyuinToc
    ensures SelectManual(prompt) != Nyuin ==>
              ManualName(SelectManual(prompt)) == "gairai" && TableOf(SelectManual(prompt)) == GairaiToc
  {
    AnyContainedMeansSomeOccurs(prompt, InpatientKeywords);
    var kw := InpatientKeywords;
    assert kw[0] == "入院" && kw[1] == "退院" && kw[2] == "病棟" && kw[3] == "入院料";
  }

  /** The fourth term adds nothing: every text containing 入院料 contains 入院. */
  lemma InpatientFeeTermIsSubsumed(prompt: string)
    ensures Contains(prompt, "入院料") ==> Contains(prompt, "入院")
  {
    ContainsMeansOccurs(prompt, "入院料");
    ContainsMeansOccurs(prompt, "入院");
    if Contains(prompt, "入院料") {
      var i :| OccursAt(prompt, "入院料", i);
      assert prompt[i..i + 2] == prompt[i..i + 3][..2];
      assert OccursAt(prompt, "入院", i);
    }
  }

  // ---------------------------------------------------------------------------
  // Decision before the external call
  // ---------------------------------------------------------------------------

  const ConfigErrorMessage: string := "エラー: 環境変数 GEMINI_API_KEY が設定されていません。"
  const NotFoundMessage: string := "関連するマニュアル項目が見つかりませんでした。質問を変えてお試しください。"
  const LabelSeparator: string := "\n- "

  /** Python's `sep.join(items)`. */
  function Join(items: seq<string>, sep: string): string {
    if items == [] then ""
    else if |items| == 1 then items[0]
    else items[0] + sep + Join(items[1..], sep)
  }

  /** Every joined item occurs in the joined text. */
  lemma {:induction false} JoinContainsItems(items: seq<string>, sep: string, n: nat)
    requires n < |items|
    ensures exists i :: OccursAt(Join(items, sep), items[n], i)
    decreases |items|
  {
    var j := Join(items, sep);
    if n == 0 {
      assert j[..|items[0]|] == items[0];
      assert OccursAt(j, items[0], 0);
    } else {
      JoinContainsItems(items[1..], sep, n - 1);
      var rest := Join(items[1..], sep);
      var i :| OccursAt(rest, items[1..][n - 1], i);
      var off := |items[0]| + |sep|;
      assert j == items[0] + sep + rest;
      assert j[off + i..off + i + |items[n]|] == rest[i..i + |items[n]|];
      assert OccursAt(j, items[n], off + i);
    }
  }

  /** The first part of `context_message`. */
  function Header(kind: ManualKind, prompt: string): string {
    "マニュアル種別: " + ManualName(kind) + "\nユーザーの質問: 「" + prompt + "」\n"
  }

  /** `context_message` once a non-empty list of labels has been appended. */
  function ContextMessage(kind: ManualKind, prompt: string, labels: seq<string>): string {
    Header(kind, prompt) + "\n関連マニュアル項目:" + LabelSeparator + Join(labels, LabelSeparator)
  }

  /** Every item of `items` occurs somewhere in `m`. */
  ghost predicate ListsAll(m: string, items: seq<string>) {
    forall n :: 0 <= n < |items| ==> OccursIn(m, items[n])
  }

  /** The context message starts with the header and contains every label. */
  lemma ContextMessageListsLabels(kind: ManualKind, prompt: string, labels: seq<string>)
    ensures var m := ContextMessage(kind, prompt, labels);
            var h := Header(kind, prompt);
            h <= m && "\n関連マニュアル項目:\n- " <= m[|h|..] && ListsAll(m[|h|..], labels)
  {
    var m := ContextMessage(kind, prompt, labels);
    var h := Header(kind, prompt);
    var joined := Join(labels, LabelSeparator);
    var intro := "\n関連マニュアル項目:" + LabelSeparator;
    assert m == h + (intro + joined);
    assert m[|h|..] == intro + joined;
    forall n | 0 <= n < |labels| ensures OccursIn(m[|h|..], labels[n]) {
      JoinContainsItems(labels, LabelSeparator, n);
      var i :| OccursAt(joined, labels[n], i);
      assert (intro + joined)[|intro| + i..|intro| + i + |labels[n]|] == joined[i..i + |labels[n]|];
      assert OccursAt(m[|h|..], labels[n], |intro| + i);
    }
  }

  /** What `get_text_response_gemini` settles before the external service:
      a configuration error, the fixed not-found reply, or the message that
      would be sent to the model. */
  datatype Outcome =
    | ConfigError(message: string)
    | NotFound(message: string)
    | CallModel(contextMessage: string)

  /** The steps of `get_text_response_gemini` up to the model call, with the
      presence of the API key given as `hasKey`. */
  function Decide(hasKey: bool, prompt: string): Outcome {
    if !hasKey then ConfigError(ConfigErrorMessage)
    else
      var kind := SelectManual(prompt);
      var labels := Rank(prompt, TableOf(kind));
      if labels == [] then NotFound(NotFoundMessage)
      else CallModel(ContextMessage(kind, prompt, labels))
  }

  /** The decision order: the key is checked first; then an empty ranking
      yields the fixed reply without a model call; otherwise the context
      message names the manual, quotes the prompt and lists every ranked
      label (at most three, each the label of an entry of the selected table). */
  lemma DecideSpec(hasKey: bool, prompt: string)
    ensures !hasKey ==> Decide(hasKey, prompt) == ConfigError(ConfigErrorMessage)
    ensures var kind := SelectManual(prompt);
            var labels := Rank(prompt, TableOf(kind));
            (hasKey && labels == [] ==> Decide(hasKey, prompt) == NotFound(NotFoundMessage)) &&
            (Decide(hasKey, prompt).CallModel? <==> hasKey && labels != []) &&
            (Decide(hasKey, prompt).CallModel? ==>
               var m := Decide(hasKey, prompt).contextMessage;
               var h := Header(kind, prompt);
               h <= m && "\n関連マニュアル項目:\n- " <= m[|h|..] &&
               1 <= |labels| <= Limit && ListsAll(m[|h|..], labels))
  {
    var kind := SelectManual(prompt);
    var labels := Rank(prompt, TableOf(kind));
    RankLength(prompt, TableOf(kind));
    ContextMessageListsLabels(kind, prompt, labels);
  }

  /** A prompt without any word character never reaches the model. */
  lemma NoWordPromptNeverCallsModel(hasKey: bool, prompt: string)
    requires forall k :: 0 <= k < |prompt| ==> !IsWordChar(prompt[k])
    ensures !Decide(hasKey, prompt).CallModel?
  {
    NoWordQueryRanksNothing(prompt, TableOf(SelectManual(prompt)));
  }

  // ---------------------------------------------------------------------------
  // The two tables of contents
  // ---------------------------------------------------------------------------

  /** `GAIRAI_TOC`, in insertion order. */
  const GairaiToc: seq<Entry> := [
    ("1.1", "glclient2について"), ("1.2", "マスターメニュー"), ("1.3", "業務メニュー"),
    ("2.1", "受付"), ("2.2", "登録(患者登録について)"), ("2.3", "照会"), ("2.4", "予約"),
    ("2.5", "診療行為"), ("2.6", "診療区分別の入力方法"), ("2.7", "病名"), ("2.8", "収納"),
    ("2.9", "会計照会"), ("2.10", "クライアント印刷"),
    ("3.1", "データチェック"), ("3.2", "明細書"), ("3.3", "請求管理"), ("3.4", "総括表・公費請求書"),
    ("3.5", "日次統計"), ("3.6", "月次統計"), ("3.7", "省庁対応"), ("3.8", "本院分院機能"),
    ("3.9", "治験"), ("3.10", "ユーザ管理"), ("3.11", "健康保険組合・共済組合への直接請求"),
    ("3.12", "公費記載順設定"), ("3.13", "労災レセプト電算処理システムについて"),
    ("3.14", "EFファイル・様式4"),
    ("4.1", "データ出力"), ("4.2", "外部媒体"), ("4.3", "マスタ更新"),
    ("5.1", "システム管理マスタ"), ("5.2", "点数マスタ"), ("5.3", "ユーザが自由に登録できるマスタについて"),
    ("5.4", "チェックマスタ"), ("5.5", "保険番号マスタ"), ("5.6", "保険者マスタ"), ("5.7", "人名辞書マスタ"),
    ("5.8", "薬剤情報マスタ"), ("5.9", "住所マスタ"), ("5.10", "ヘルプマスタ"),
    ("6.1", "付録1"), ("6.2", "付録2"), ("6.3", "付録3"), ("6.4", "付録4"), ("6.5", "付録5"),
    ("7.1", "対処事例1"), ("7.2", "対処事例2"), ("7.3", "対処事例3"),
    ("7.4", "新型コロナウイルス感染症に係るPCR検査")
  ]

  /** `NYUIN_TOC`, in insertion order. */
  const NyuinToc: seq<Entry> := [
    ("1.1", "入院業務メニュー"), ("1.2", "システム管理情報の登録について"), ("1.3", "システム管理情報の登録"),
    ("2.1", "入退院登録"), ("2.2", "入院会計照会について"), ("2.3", "入院診療行為入力"),
    ("2.4", "収納画面からの請求取消しについて"), ("2.5", "選定入院料について"),
    ("2.6", "90日を超える患者の入院料について"), ("2.7", "入院診療行為画面からの入院処方せん印刷について"),
    ("2.8", "入院診療行為画面からのお薬手帳等印刷について"), ("2.9", "標欠による減額"),
    ("2.10", "定数超過入院"), ("2.11", "短期滞在手術等基本料3について"),
    ("2.12", "急性増悪による介護病棟からの異動について"), ("2.13", "一般・療養相互算定について"),
    ("3.1", "入院定期請求"), ("3.2", "入院会計一括作成について"),
    ("4.1", "退院時仮計算について"), ("4.2", "患者照会について"),
    ("5.1", "レセプト作成について"), ("5.2", "入院レセプトのコメント自動記載について"),
    ("5.3", "福岡県の入院レセプト対応について"),
    ("6.1", "排他制御"),
    ("7.1", "入院登録時の訂正方法等について"), ("7.2", "出産育児一時金等の医療機関への直接支払制度"),
    ("7.3", "入院期間中の外来入力"), ("7.4", "医療観察法"), ("7.5", "入院オーダー"),
    ("7.6", "回復期リハビリテーション病棟入院料の疾患別リハビリテーション料包括入力"),
    ("7.7", "新型コロナウイルス感染症入院対応"),
    ("8.1", "日次統計帳票について"),
    ("9.1", "月次統計帳票について"),
    ("10.1", "入院室料加算の設定"), ("10.2", "入院食事療養費の設定（自賠責のみ）")
  ]
}
