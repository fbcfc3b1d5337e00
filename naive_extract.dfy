/** `naiveExtract`, the extractor the analysis action falls back on (convex/analysis.ts):
    the words of the post that match `/[a-z0-9+\-]{3,}/g` after lower-casing, without
    stop-words, the first 40 of them counted, sorted by count, the six most frequent
    turned into suggestions and sanitised; plus the first `@handle` of the text. */
module NaiveExtract {
  import opened Wrappers
  import opened Seqs
  import opened Text
  import opened Analysis

  // ------------------------------------------------------------------ tokenising

  /** The regular-expression class `[a-z0-9+\-]`. */
  predicate IsTokenChar(c: char) { IsLowerAlnum(c) || c == '+' || c == '-' }

  predicate AllTokenChars(s: string) {
    forall i | 0 <= i < |s| :: IsTokenChar(s[i])
  }

  /** A word the regular expression can match: three or more class characters. */
  predicate IsToken(w: string) { |w| >= 3 && AllTokenChars(w) }

  /** A finished run of class characters is a match when it is at least three long. */
  function Flush(run: string): seq<string> {
    if |run| >= 3 then [run] else []
  }

  /** The matches in `s`, given the run of class characters that ends just before `s`.
      The greedy global match takes each maximal run of at least three class characters. */
  function TokensFrom(s: string, run: string): seq<string>
    decreases |s|
  {
    if s == [] then Flush(run)
    else if IsTokenChar(s[0]) then TokensFrom(s[1..], run + [s[0]])
    else Flush(run) + TokensFrom(s[1..], [])
  }

  /** `s.match(/[a-z0-9+\-]{3,}/g) || []`. */
  function Tokens(s: string): seq<string> {
    TokensFrom(s, [])
  }

  /** Every match is a word of at least three class characters. */
  lemma {:induction false} TokensFromAreTokens(s: string, run: string)
    requires AllTokenChars(run)
    ensures forall k | 0 <= k < |TokensFrom(s, run)| :: IsToken(TokensFrom(s, run)[k])
    decreases |s|
  {
    if s != [] {
      if IsTokenChar(s[0]) {
        TokensFromAreTokens(s[1..], run + [s[0]]);
      } else {
        TokensFromAreTokens(s[1..], []);
      }
    }
  }

  lemma TokensAreTokens(s: string)
    ensures forall k | 0 <= k < |Tokens(s)| :: IsToken(Tokens(s)[k])
  {
    TokensFromAreTokens(s, []);
  }

  /** Class characters extend the current run. */
  lemma {:induction false} TokensFromWord(w: string, rest: string, run: string)
    requires AllTokenChars(w)
    ensures TokensFrom(w + rest, run) == TokensFrom(rest, run + w)
    decreases |w|
  {
    if w != [] {
      assert (w + rest)[0] == w[0] && IsTokenChar(w[0]);
      assert (w + rest)[1..] == w[1..] + rest;
      TokensFromWord(w[1..], rest, run + [w[0]]);
      assert w == [w[0]] + w[1..];
      assert run + [w[0]] + w[1..] == run + w;    } else {
      assert w + rest == rest && run + w == run;
    }
  }

  /** Tokenising words joined by spaces gives the words back. */
  lemma {:induction false} TokensOfSpacedWords(ws: seq<string>)
    requires forall k | 0 <= k < |ws| :: IsToken(ws[k])
    ensures Tokens(Join(ws, " ")) == ws
    decreases |ws|
  {
    if |ws| == 1 {
      var x := ws[0];
      TokensFromWord(x, [], []);
      assert Join(ws, " ") == x + [];
      assert [] + x == x;
      assert TokensFrom([], x) == [x];
    } else if |ws| > 1 {
      var rest := Join(ws[1..], " ");
      assert Join(ws, " ") == ws[0] + (" " + rest);
      TokensFromWord(ws[0], " " + rest, []);
      assert [] + ws[0] == ws[0];
      assert (" " + rest)[1..] == rest;
      TokensOfSpacedWords(ws[1..]);
      assert ws == [ws[0]] + ws[1..];
    }
  }

  /** `.filter((word) => !STOPWORDS.has(word))`. */
  function WithoutStopwords(ws: seq<string>): seq<string>
    decreases |ws|
  {
    if ws == [] then []
    else if IsStopword(ws[0]) then WithoutStopwords(ws[1..])
    else [ws[0]] + WithoutStopwords(ws[1..])
  }

  /** The filter keeps exactly the words that are not stop-words, in order. */
  lemma {:induction false} WithoutStopwordsKeeps(ws: seq<string>)
    ensures IsSubsequence(WithoutStopwords(ws), ws)
    ensures forall k | 0 <= k < |WithoutStopwords(ws)| :: !IsStopword(WithoutStopwords(ws)[k])
    ensures forall w | w in ws && !IsStopword(w) :: w in WithoutStopwords(ws)
    decreases |ws|
  {
    if ws != [] {
      WithoutStopwordsKeeps(ws[1..]);
      var rest := WithoutStopwords(ws[1..]);
      if !IsStopword(ws[0]) {
        assert WithoutStopwords(ws)[1..] == rest;
      }
      assert ws == [ws[0]] + ws[1..];
    }
  }

  const MaxWords := 40
  const MaxConcepts := 6

  /** The words that are counted: the first 40 non-stop-word matches of the lower-cased
      text. */
  function CandidateWords(text: string): seq<string> {
    Take(WithoutStopwords(Tokens(Lower(text))), MaxWords)
  }

  /** At most 40 words, each a match and none a stop-word. */
  lemma CandidateWordsAreTokens(text: string)
    ensures |CandidateWords(text)| <= MaxWords
    ensures forall k | 0 <= k < |CandidateWords(text)| ::
              IsToken(CandidateWords(text)[k]) && !IsStopword(CandidateWords(text)[k])
  {
    var ts := Tokens(Lower(text));
    TokensAreTokens(Lower(text));
    WithoutStopwordsKeeps(ts);
    SubsequenceElements(WithoutStopwords(ts), ts);
    var ws := CandidateWords(text);
    forall k | 0 <= k < |ws|
      ensures IsToken(ws[k]) && !IsStopword(ws[k])
    {
      assert ws[k] == WithoutStopwords(ts)[k];
      assert ws[k] in ts;
    }
  }

  // ------------------------------------------------------------------ counting

  /** How often `w` occurs in `ws`. */
  function Occurrences(ws: seq<string>, w: string): nat
    decreases |ws|
  {
    if ws == [] then 0
    else Occurrences(ws[..|ws| - 1], w) + (if ws[|ws| - 1] == w then 1 else 0)
  }

  lemma OccurrencesSnoc(ws: seq<string>, x: string, w: string)
    ensures Occurrences(ws + [x], w) == Occurrences(ws, w) + (if x == w then 1 else 0)
  {
    assert (ws + [x])[..|ws|] == ws;
  }

  lemma {:induction false} OccurrencesOfPresent(ws: seq<string>, w: string)
    ensures w in ws <==> Occurrences(ws, w) > 0
    decreases |ws|
  {
    if ws != [] {
      var init := ws[..|ws| - 1];
      OccurrencesOfPresent(init, w);
      assert ws == init + [ws[|ws| - 1]];
    }
  }

  /** A word and its count. */
  type Entry = (string, nat)

  /** `Array.from(counts.entries())` after the counting loop: each distinct word once, in
      order of first occurrence, with the number of times it occurs. */
  function Tallied(ws: seq<string>): seq<Entry> {
    var d := Dedup(ws);
    seq(|d|, k requires 0 <= k < |d| => (d[k], Occurrences(ws, d[k])))
  }

  /** The counting loop over a JavaScript `Map`, whose entries keep their insertion order
      (`order`). */
  method Tally(words: seq<string>) returns (entries: seq<Entry>)
    ensures entries == Tallied(words)
  {
    var counts: map<string, nat> := map[];
    var order: seq<string> := [];
    var i := 0;
    while i < |words|
      invariant 0 <= i <= |words|
      invariant order == Dedup(words[..i])
      invariant forall w :: w in counts <==> w in order
      invariant forall w | w in counts :: counts[w] == Occurrences(words[..i], w)
    {
      var word := words[i];
      assert words[..i + 1] == words[..i] + [word];
      assert (words[..i + 1])[..i] == words[..i];
      forall w
        ensures Occurrences(words[..i + 1], w) == Occurrences(words[..i], w) + (if word == w then 1 else 0)
      {
        OccurrencesSnoc(words[..i], word, w);
      }
      OccurrencesOfPresent(words[..i], word);
      var previous := if word in counts then counts[word] else 0;
      counts := counts[word := previous + 1];
      if word !in order {
        order := order + [word];
      }
      i := i + 1;
    }
    assert words[..|words|] == words;
    entries := seq(|order|, k requires 0 <= k < |order| => (order[k], counts[order[k]]));
  }

  /** The sum of the counts of `d` in `ws`. */
  function CountSum(d: seq<string>, ws: seq<string>): nat
    decreases |d|
  {
    if d == [] then 0 else CountSum(d[..|d| - 1], ws) + Occurrences(ws, d[|d| - 1])
  }

  lemma {:induction false} CountSumSnoc(d: seq<string>, ws: seq<string>, x: string)
    requires Distinct(d)
    ensures CountSum(d, ws + [x]) == CountSum(d, ws) + (if x in d then 1 else 0)
    decreases |d|
  {
    if d != [] {
      var init := d[..|d| - 1];
      var last := d[|d| - 1];
      assert d == init + [last];
      CountSumSnoc(init, ws, x);
      OccurrencesSnoc(ws, x, last);
      assert x in d <==> x in init || x == last;
    }
  }

  lemma CountSumAppend(d: seq<string>, ws: seq<string>, x: string)
    ensures CountSum(d + [x], ws) == CountSum(d, ws) + Occurrences(ws, x)
  {
    assert (d + [x])[..|d|] == d;
  }

  /** The counts add up to the number of words: every word is counted once. */
  lemma {:induction false} CountsAddUp(ws: seq<string>)
    ensures CountSum(Dedup(ws), ws) == |ws|
    decreases |ws|
  {
    if ws != [] {
      var init := ws[..|ws| - 1];
      var x := ws[|ws| - 1];
      assert ws == init + [x];
      var d := Dedup(init);
      CountsAddUp(init);
      CountSumSnoc(d, init, x);
      if x !in d {
        assert x !in init;
        CountSumAppend(d, ws, x);
        OccurrencesSnoc(init, x, x);
        OccurrencesOfPresent(init, x);
      }
    }
  }

  /** The tally lists each distinct word once, with a positive count, and the counts add
      up to the number of words. */
  lemma TalliedIsCount(ws: seq<string>)
    ensures Distinct(Tallied(ws)) && |Tallied(ws)| <= |ws|
    ensures forall k | 0 <= k < |Tallied(ws)| ::
              Tallied(ws)[k].0 in ws && Tallied(ws)[k].1 == Occurrences(ws, Tallied(ws)[k].0) >= 1
    ensures forall w | w in ws :: exists k | 0 <= k < |Tallied(ws)| :: Tallied(ws)[k].0 == w
    ensures CountSum(Dedup(ws), ws) == |ws|
  {
    var d := Dedup(ws);
    var t := Tallied(ws);
    forall k | 0 <= k < |t|
      ensures t[k].0 in ws && t[k].1 == Occurrences(ws, t[k].0) >= 1
    {
      assert d[k] in d;
      OccurrencesOfPresent(ws, d[k]);
    }
    forall w | w in ws
      ensures exists k | 0 <= k < |t| :: t[k].0 == w
    {
      var k :| 0 <= k < |d| && d[k] == w;
      assert t[k].0 == w;
    }
    CountsAddUp(ws);
  }

  // ------------------------------------------------------------------ sorting

  /** Inserts `e` in front of the first entry whose count is not larger. */
  function InsertByCount(e: Entry, sorted: seq<Entry>): seq<Entry>
    decreases |sorted|
  {
    if sorted == [] || sorted[0].1 <= e.1 then [e] + sorted
    else [sorted[0]] + InsertByCount(e, sorted[1..])
  }

  /** `.sort((a, b) => b[1] - a[1])`: a stable sort by decreasing count. */
  function SortByCount(es: seq<Entry>): seq<Entry>
    decreases |es|
  {
    if es == [] then [] else InsertByCount(es[0], SortByCount(es[1..]))
  }

  predicate SortedByCount(es: seq<Entry>) {
    forall i, j | 0 <= i < j < |es| :: es[i].1 >= es[j].1
  }

  /** The entries with count `c`, in order. */
  function WithCount(es: seq<Entry>, c: nat): seq<Entry>
    decreases |es|
  {
    if es == [] then []
    else if es[0].1 == c then [es[0]] + WithCount(es[1..], c)
    else WithCount(es[1..], c)
  }

  lemma {:induction false} InsertByCountPermutes(e: Entry, s: seq<Entry>)
    ensures multiset(InsertByCount(e, s)) == multiset(s) + multiset{e}
    decreases |s|
  {
    if s != [] && s[0].1 > e.1 {
      InsertByCountPermutes(e, s[1..]);
      assert s == [s[0]] + s[1..];
    }
  }

  lemma {:induction false} InsertByCountElements(e: Entry, s: seq<Entry>)
    ensures forall x | x in InsertByCount(e, s) :: x == e || x in s
    decreases |s|
  {
    if s != [] && s[0].1 > e.1 {
      InsertByCountElements(e, s[1..]);
    }
  }

  lemma {:induction false} InsertByCountSorted(e: Entry, s: seq<Entry>)
    requires SortedByCount(s)
    ensures SortedByCount(InsertByCount(e, s))
    decreases |s|
  {
    if s != [] && s[0].1 > e.1 {
      var rest := InsertByCount(e, s[1..]);
      InsertByCountSorted(e, s[1..]);
      InsertByCountElements(e, s[1..]);
      var r := InsertByCount(e, s);
      assert r == [s[0]] + rest;
      forall j | 1 <= j < |r|
        ensures r[0].1 >= r[j].1
      {
        assert r[j] == rest[j - 1];
        assert r[j] in rest;
        if r[j] != e {
          var k :| 0 <= k < |s[1..]| && s[1..][k] == r[j];
          assert s[k + 1] == r[j];
        }
      }
      forall i, j | 0 < i < j < |r|
        ensures r[i].1 >= r[j].1
      {
        assert r[i] == rest[i - 1] && r[j] == rest[j - 1];
      }
    }
  }

  lemma {:induction false} InsertByCountStable(e: Entry, s: seq<Entry>, c: nat)
    ensures WithCount(InsertByCount(e, s), c) == if e.1 == c then [e] + WithCount(s, c) else WithCount(s, c)
    decreases |s|
  {
    if s != [] && s[0].1 > e.1 {
      InsertByCountStable(e, s[1..], c);
      assert InsertByCount(e, s)[1..] == InsertByCount(e, s[1..]);
    } else {
      assert InsertByCount(e, s)[1..] == s;
    }
  }

  /** The sort orders by decreasing count, keeps the entries, and keeps the original
      order of entries with equal counts. */
  lemma {:induction false} SortByCountSpec(es: seq<Entry>)
    ensures SortedByCount(SortByCount(es))
    ensures multiset(SortByCount(es)) == multiset(es)
    ensures forall c: nat :: WithCount(SortByCount(es), c) == WithCount(es, c)
    decreases |es|
  {
    if es != [] {
      SortByCountSpec(es[1..]);
      InsertByCountSorted(es[0], SortByCount(es[1..]));
      InsertByCountPermutes(es[0], SortByCount(es[1..]));
      assert es == [es[0]] + es[1..];
      forall c: nat
        ensures WithCount(SortByCount(es), c) == WithCount(es, c)
      {
        InsertByCountStable(es[0], SortByCount(es[1..]), c);
      }
    }
  }

  // ------------------------------------------------------------------ suggestions

  /** `replace(/\+/g, " + ")`. */
  function SpacePluses(w: string): string
    decreases |w|
  {
    if w == [] then []
    else (if w[0] == '+' then " + " else [w[0]]) + SpacePluses(w[1..])
  }

  /** `word.charAt(0).toUpperCase() + word.slice(1)`. */
  function Capitalize(w: string): string {
    if w == [] then [] else [UpperChar(w[0])] + w[1..]
  }

  function CapitalizeAll(ws: seq<string>): seq<string>
    decreases |ws|
  {
    if ws == [] then [] else [Capitalize(ws[0])] + CapitalizeAll(ws[1..])
  }

  /** `toTitleCase`: split on single spaces, upper-case each first letter, join. */
  function ToTitleCase(s: string): string {
    Join(CapitalizeAll(Split(s, ' ')), " ")
  }

  /** Two strings that differ at most in letter case. */
  predicate SameUpToCase(a: string, b: string) {
    |a| == |b| && forall i | 0 <= i < |a| :: LowerChar(a[i]) == LowerChar(b[i])
  }

  lemma SameUpToCaseConcat(a: string, b: string, c: string, d: string)
    requires SameUpToCase(a, b) && SameUpToCase(c, d)
    ensures SameUpToCase(a + c, b + d)
  {
    assert forall i | |a| <= i < |a| + |c| :: (a + c)[i] == c[i - |a|] && (b + d)[i] == d[i - |a|];
  }

  lemma LowerOfUpperChar(c: char)
    ensures LowerChar(UpperChar(c)) == LowerChar(c)
  {
  }

  lemma CapitalizeSameUpToCase(w: string)
    ensures SameUpToCase(Capitalize(w), w)
  {
    if w != [] {
      LowerOfUpperChar(w[0]);
      assert forall i | 1 <= i < |w| :: Capitalize(w)[i] == w[i];
    }
  }

  lemma {:induction false} CapitalizeAllPointwise(ws: seq<string>)
    ensures |CapitalizeAll(ws)| == |ws|
    ensures forall k | 0 <= k < |ws| :: CapitalizeAll(ws)[k] == Capitalize(ws[k])
    decreases |ws|
  {
    if ws != [] {
      CapitalizeAllPointwise(ws[1..]);
    }
  }

  /** Joining pieces that agree up to case gives strings that agree up to case. */
  lemma {:induction false} JoinSameUpToCase(xs: seq<string>, ys: seq<string>)
    requires |xs| == |ys|
    requires forall k | 0 <= k < |xs| :: SameUpToCase(xs[k], ys[k])
    ensures SameUpToCase(Join(xs, " "), Join(ys, " "))
    decreases |xs|
  {
    if |xs| > 1 {
      JoinSameUpToCase(xs[1..], ys[1..]);
      var jx := Join(xs[1..], " ");
      var jy := Join(ys[1..], " ");
      SameUpToCaseConcat(" ", " ", jx, jy);
      SameUpToCaseConcat(xs[0], ys[0], " " + jx, " " + jy);
      assert Join(xs, " ") == xs[0] + (" " + jx);
      assert Join(ys, " ") == ys[0] + (" " + jy);
    }
  }

  lemma CapitalizeAllSameUpToCase(ws: seq<string>)
    ensures SameUpToCase(Join(CapitalizeAll(ws), " "), Join(ws, " "))
  {
    CapitalizeAllPointwise(ws);
    forall k | 0 <= k < |ws|
      ensures SameUpToCase(CapitalizeAll(ws)[k], ws[k])
    {
      CapitalizeSameUpToCase(ws[k]);
    }
    JoinSameUpToCase(CapitalizeAll(ws), ws);
  }

  /** Title-casing changes only letter case, so the normalised concept name, which the
      sanitiser judges, is that of the lower-case word. */
  lemma TitleCaseKeepsNormalizedName(s: string)
    ensures Lower(ToTitleCase(s)) == Lower(s)
    ensures NormalizeConceptName(ToTitleCase(s)) == NormalizeConceptName(s)
  {
    CapitalizeAllSameUpToCase(Split(s, ' '));
    JoinSplit(s, ' ');
    assert [' '] == " ";
  }

  /** `Math.min(0.9, 0.4 + count * 0.1)`, in exact tenths. */
  function Score(count: nat): real {
    (if 4 + count < 9 then 4 + count else 9) as real / 10.0
  }

  /** A word counted at least once scores between 0.5 and 0.9, and a larger count never
      scores lower. */
  lemma ScoreBounds(count: nat, other: nat)
    requires count >= 1
    ensures 0.5 <= Score(count) <= 0.9
    ensures other >= count ==> Score(other) >= Score(count)
  {
  }

  /** `` `Mentioned ${count}x in the post` ``. */
  function Rationale(count: nat): string {
    "Mentioned " + NatToString(count) + "x in the post"
  }

  function ToSuggestion(e: Entry): ConceptSuggestion {
    ConceptSuggestion(ToTitleCase(SpacePluses(e.0)), Rationale(e.1), Score(e.1), None, None)
  }

  function ToSuggestions(es: seq<Entry>): seq<ConceptSuggestion>
    decreases |es|
  {
    if es == [] then [] else [ToSuggestion(es[0])] + ToSuggestions(es[1..])
  }

  lemma {:induction false} ToSuggestionsPointwise(es: seq<Entry>)
    ensures |ToSuggestions(es)| == |es|
    ensures forall k | 0 <= k < |es| :: ToSuggestions(es)[k] == ToSuggestion(es[k])
    decreases |es|
  {
    if es != [] {
      ToSuggestionsPointwise(es[1..]);
    }
  }

  /** The six most frequent words, most frequent first, as suggestions (before
      sanitising). */
  function TopEntries(text: string): seq<Entry> {
    Take(SortByCount(Tallied(CandidateWords(text))), MaxConcepts)
  }

  function Candidates(text: string): seq<ConceptSuggestion> {
    ToSuggestions(TopEntries(text))
  }

  /** The top entries are tallied words with their true counts, at most six, most
      frequent first. */
  lemma TopEntriesSpec(text: string)
    ensures |TopEntries(text)| <= MaxConcepts
    ensures SortedByCount(TopEntries(text))
    ensures forall k | 0 <= k < |TopEntries(text)| ::
              TopEntries(text)[k] in Tallied(CandidateWords(text))
              && TopEntries(text)[k].1 == Occurrences(CandidateWords(text), TopEntries(text)[k].0) >= 1
  {
    var ws := CandidateWords(text);
    var t := Tallied(ws);
    var sorted := SortByCount(t);
    var top := TopEntries(text);
    SortByCountSpec(t);
    TalliedIsCount(ws);
    forall k | 0 <= k < |top|
      ensures top[k] in t && top[k].1 == Occurrences(ws, top[k].0) >= 1
    {
      assert top[k] == sorted[k];
      assert top[k] in multiset(sorted);
      assert top[k] in multiset(t);
      var m :| 0 <= m < |t| && t[m] == top[k];
    }
    forall i, j | 0 <= i < j < |top|
      ensures top[i].1 >= top[j].1
    {
      assert top[i] == sorted[i] && top[j] == sorted[j];
    }
  }

  /** At most six candidates, scores between 0.5 and 0.9 and not increasing, and each
      candidate is a counted word with its true count in the rationale and score. */
  lemma CandidatesSpec(text: string)
    ensures |Candidates(text)| <= MaxConcepts
    ensures forall k | 0 <= k < |Candidates(text)| :: 0.5 <= Candidates(text)[k].score <= 0.9
    ensures forall i, j | 0 <= i < j < |Candidates(text)| :: Candidates(text)[i].score >= Candidates(text)[j].score
    ensures forall k | 0 <= k < |Candidates(text)| ::
              exists e | e in Tallied(CandidateWords(text)) ::
                e.1 == Occurrences(CandidateWords(text), e.0) && Candidates(text)[k] == ToSuggestion(e)
  {
    var top := TopEntries(text);
    var cs := Candidates(text);
    TopEntriesSpec(text);
    ToSuggestionsPointwise(top);
    forall k | 0 <= k < |cs|
      ensures 0.5 <= cs[k].score <= 0.9
    {
      ScoreBounds(top[k].1, top[k].1);
    }
    forall i, j | 0 <= i < j < |cs|
      ensures cs[i].score >= cs[j].score
    {
      ScoreBounds(top[j].1, top[i].1);
    }
    forall k | 0 <= k < |cs|
      ensures exists e | e in Tallied(CandidateWords(text)) ::
                e.1 == Occurrences(CandidateWords(text), e.0) && cs[k] == ToSuggestion(e)
    {
      assert cs[k] == ToSuggestion(top[k]);
    }
  }

  // ------------------------------------------------------------------ author handle

  /** The longest prefix of `s` made of `[a-zA-Z0-9_]`. */
  function WordRun(s: string): string
    decreases |s|
  {
    if s != [] && IsWordChar(s[0]) then [s[0]] + WordRun(s[1..]) else []
  }

  lemma {:induction false} WordRunIsMaximalPrefix(s: string)
    ensures |WordRun(s)| <= |s| && WordRun(s) == s[..|WordRun(s)|]
    ensures forall i | 0 <= i < |WordRun(s)| :: IsWordChar(WordRun(s)[i])
    ensures |WordRun(s)| < |s| ==> !IsWordChar(s[|WordRun(s)|])
    decreases |s|
  {
    if s != [] && IsWordChar(s[0]) {
      WordRunIsMaximalPrefix(s[1..]);
    }
  }

  /** The index of the first `@` followed by a word character, or `|s|` when there is
      none. */
  function HandleStart(s: string): nat
    decreases |s|
  {
    if |s| < 2 then |s|
    else if s[0] == '@' && IsWordChar(s[1]) then 0
    else 1 + HandleStart(s[1..])
  }

  predicate HandleAt(s: string, i: int) {
    0 <= i && i + 1 < |s| && s[i] == '@' && IsWordChar(s[i + 1])
  }

  lemma {:induction false} HandleStartIsFirst(s: string)
    ensures HandleStart(s) <= |s|
    ensures HandleStart(s) < |s| ==> HandleAt(s, HandleStart(s))
    ensures forall j | 0 <= j < HandleStart(s) :: !HandleAt(s, j)
    decreases |s|
  {
    if |s| >= 2 && !(s[0] == '@' && IsWordChar(s[1])) {
      HandleStartIsFirst(s[1..]);
      forall j | 1 <= j < HandleStart(s)
        ensures !HandleAt(s, j)
      {
        assert HandleAt(s, j) <==> HandleAt(s[1..], j - 1);
      }
    }
  }

  /** `extractAuthorHandle`: the first match of `/@([a-zA-Z0-9_]{1,15})/`, without the `@`. */
  function ExtractAuthorHandle(text: string): Option<string> {
    var i := HandleStart(text);
    if i >= |text| then None else Some(Take(WordRun(text[i + 1..]), 15))
  }

  /** No handle exactly when no `@` in the text is followed by a word character. */
  lemma AuthorHandleAbsent(text: string)
    ensures ExtractAuthorHandle(text).None? <==> forall j | 0 <= j < |text| :: !HandleAt(text, j)
  {
    HandleStartIsFirst(text);
  }

  /** A handle is 1 to 15 word characters that follow the first `@` that is followed by a
      word character, and stops before 15 characters only where the word ends. */
  lemma AuthorHandleFound(text: string)
    requires ExtractAuthorHandle(text).Some?
    ensures var h := ExtractAuthorHandle(text).value;
            var i := HandleStart(text);
            && 1 <= |h| <= 15
            && (forall k | 0 <= k < |h| :: IsWordChar(h[k]))
            && HandleAt(text, i) && i + 1 + |h| <= |text| && text[i + 1..i + 1 + |h|] == h
            && (forall j | 0 <= j < i :: !HandleAt(text, j))
            && (|h| < 15 && i + 1 + |h| < |text| ==> !IsWordChar(text[i + 1 + |h|]))
  {
    HandleStartIsFirst(text);
    var i := HandleStart(text);
    var tail := text[i + 1..];
    var run := WordRun(tail);
    WordRunIsMaximalPrefix(tail);
    assert tail[0] == text[i + 1];
    var h := Take(run, 15);
    assert h == tail[..|h|];
    assert text[i + 1..i + 1 + |h|] == tail[..|h|];
    if |h| < 15 && i + 1 + |h| < |text| {
      assert |h| == |run|;
      assert tail[|h|] == text[i + 1 + |h|];
    }
  }

  // ------------------------------------------------------------------ naiveExtract

  /** `naiveExtract`. */
  method NaiveExtract(text: string, avoidConcepts: Option<seq<string>>) returns (r: AnalysisResult)
    ensures r.concepts == Sanitized(Candidates(text), avoidConcepts)
    ensures r.authorHandle == ExtractAuthorHandle(text)
    ensures |r.concepts| <= MaxConcepts
    ensures forall k | 0 <= k < |r.concepts| ::
              Acceptable(r.concepts[k], AvoidSet(avoidConcepts)) && 0.5 <= r.concepts[k].score <= 0.9
  {
    var words := CandidateWords(text);
    var entries := Tally(words);
    var concepts := ToSuggestions(Take(SortByCount(entries), MaxConcepts));
    var kept := SanitizeConcepts(concepts, avoidConcepts);
    r := AnalysisResult(kept, ExtractAuthorHandle(text));
    CandidatesSpec(text);
    SanitizedIsSubsequence(concepts, avoidConcepts);
    SanitizedAreAcceptableAndDistinct(concepts, avoidConcepts);
    SubsequenceElements(kept, concepts);
    SubsequenceLength(kept, concepts);
    forall k | 0 <= k < |kept|
      ensures 0.5 <= kept[k].score <= 0.9
    {
      assert kept[k] in concepts;
    }
  }
}
