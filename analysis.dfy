/** The concept-name policy of the analysis action: normalisation of concept names, the
    stop-word, weak-word and allow-list rules, and the sanitiser that filters extractor
    output (convex/analysis.ts). */
module Analysis {
  import opened Wrappers
  import opened Seqs
  import opened Text

  /** One extracted concept. Scores are kept exact; the source's floating point is not
      modelled. */
  datatype ConceptSuggestion = ConceptSuggestion(
    name: string,
    rationale: string,
    score: real,
    description: Option<string>,
    category: Option<string>)

  /** What an extractor returns. */
  datatype AnalysisResult = AnalysisResult(concepts: seq<ConceptSuggestion>, authorHandle: Option<string>)

  /** `STOPWORDS`, held as three displays of at most 21 words each, which keeps questions
      about literal words cheap for the solver. */
  predicate IsStopword(w: string) {
    w in StopwordsA || w in StopwordsB || w in StopwordsC
  }

  const StopwordsA: set<string> := {
    "the", "and", "for", "that", "with", "this", "from", "your", "into", "about", "also",
    "some", "like", "very", "really", "more", "most", "many", "much", "even", "then"
  }

  const StopwordsB: set<string> := {
    "than", "there", "here", "they", "them", "their", "these", "those", "its", "it's",
    "our", "we", "us", "you", "just", "when", "what", "which", "have", "will", "been"
  }

  const StopwordsC: set<string> := {
    "were", "are", "was", "not", "but", "can", "has", "out", "why", "how", "via"
  }

  /** `ALLOWED_SINGLE_WORDS`. */
  const AllowedSingleWords: set<string> := {
    "ai", "ml", "llm", "llms", "rag", "oauth", "tls", "http", "https", "rust", "python",
    "golang", "go", "java", "javascript", "typescript", "react", "docker", "kubernetes",
    "postgres", "redis", "graphql", "devops"
  }

  /** `WEAK_SINGLE_WORDS`. */
  const WeakSingleWords: set<string> := {
    "yup", "yeah", "yes", "no", "maybe", "trying", "made", "make", "built", "build",
    "myself", "self", "important", "tips", "way", "stuff", "things", "people", "someone",
    "anyone", "everyone"
  }

  // ---------------------------------------------------------------------------------
  // Normalisation: lower-case, every run of characters outside [a-z0-9] becomes one
  // space, then trim.
  // ---------------------------------------------------------------------------------

  /** Only `[a-z0-9]` and spaces, never two spaces in a row. */
  predicate SingleSpacedWords(s: string) {
    && (forall i | 0 <= i < |s| :: IsLowerAlnum(s[i]) || s[i] == ' ')
    && (forall i | 0 <= i < |s| - 1 :: s[i] == ' ' ==> s[i + 1] != ' ')
  }

  /** The shape of every normalised name. */
  predicate IsNormalName(s: string) {
    SingleSpacedWords(s) && (s != [] ==> s[0] != ' ' && s[|s| - 1] != ' ')
  }

  /** `replace(/[^a-z0-9]+/g, " ")`: each maximal run of other characters becomes one
      space. A character outside the class is dropped when the next one is outside too,
      and the last one of the run becomes the space. */
  function CollapseSeparators(s: string): string
    decreases |s|
  {
    if s == [] then []
    else if IsLowerAlnum(s[0]) then [s[0]] + CollapseSeparators(s[1..])
    else if |s| > 1 && !IsLowerAlnum(s[1]) then CollapseSeparators(s[1..])
    else [' '] + CollapseSeparators(s[1..])
  }

  /** The collapsed string has only `[a-z0-9]` and single spaces, and starts like `s`
      when `s` starts with a letter or digit. */
  lemma {:induction false} CollapseSeparatorsIsSingleSpaced(s: string)
    ensures SingleSpacedWords(CollapseSeparators(s))
    ensures s != [] ==> CollapseSeparators(s) != []
    ensures s != [] && IsLowerAlnum(s[0]) ==> CollapseSeparators(s)[0] == s[0]
    decreases |s|
  {
    if s != [] {
      CollapseSeparatorsIsSingleSpaced(s[1..]);
      var rest := CollapseSeparators(s[1..]);
      if IsLowerAlnum(s[0]) || !(|s| > 1 && !IsLowerAlnum(s[1])) {
        var c := if IsLowerAlnum(s[0]) then s[0] else ' ';
        assert CollapseSeparators(s) == [c] + rest;
        forall i | 0 <= i < |rest| + 1
          ensures ([c] + rest)[i] == if i == 0 then c else rest[i - 1]
        {
        }
      }
    }
  }

  /** `normalizeConceptName` (analysis.ts:158-160). */
  function NormalizeConceptName(value: string): string {
    Trim(CollapseSeparators(Lower(value)))
  }

  /** The normalised name consists of `[a-z0-9]` words separated by single spaces. */
  lemma NormalizedNameIsNormal(value: string)
    ensures IsNormalName(NormalizeConceptName(value))
  {
    var c := CollapseSeparators(Lower(value));
    CollapseSeparatorsIsSingleSpaced(Lower(value));
    TrimHasNoOuterSpace(c);
    TrimIsSlice(c);
    var k := |c| - |TrimStart(c)|;
    var t := Trim(c);
    assert t == c[k..k + |t|];
    assert forall i | 0 <= i < |t| :: t[i] == c[k + i];
    assert forall i | 0 <= i < |t| :: t[i] != ' ' || IsSpace(t[i]);
  }

  lemma {:induction false} CollapseOfSingleSpacedIsIdentity(s: string)
    requires SingleSpacedWords(s)
    ensures CollapseSeparators(s) == s
    decreases |s|
  {
    if s != [] {
      assert SingleSpacedWords(s[1..]);
      CollapseOfSingleSpacedIsIdentity(s[1..]);
    }
  }

  /** Normalising twice is the same as normalising once. */
  lemma NormalizeIdempotent(value: string)
    ensures NormalizeConceptName(NormalizeConceptName(value)) == NormalizeConceptName(value)
  {
    var n := NormalizeConceptName(value);
    NormalizedNameIsNormal(value);
    LowerOfLowerIsIdentity(n);
    CollapseOfSingleSpacedIsIdentity(n);
    TrimOfTrimmedIsIdentity(n);
  }

  // ---------------------------------------------------------------------------------
  // The name rules.
  // ---------------------------------------------------------------------------------

  /** The words of a normalised name: `split(" ").filter(Boolean)`. */
  function NameTokens(normalized: string): seq<string> {
    NonEmpty(Split(normalized, ' '))
  }

  /** `isBadConceptName` (analysis.ts:162-168): empty, or only stop words. */
  function IsBadConceptName(value: string): bool {
    if value == "" then true
    else
      var normalized := NormalizeConceptName(value);
      if normalized == "" then true
      else
        var tokens := NameTokens(normalized);
        |tokens| > 0 && AllStopwords(tokens)
  }

  /** `tokens.every(t => STOPWORDS.has(t))`. */
  predicate AllStopwords(tokens: seq<string>)
    decreases |tokens|
  {
    tokens == [] || (IsStopword(tokens[0]) && AllStopwords(tokens[1..]))
  }

  /** `isWeakSingleWord` (analysis.ts:170-181). */
  function IsWeakSingleWord(value: string): bool {
    var normalized := NormalizeConceptName(value);
    if normalized == "" then true
    else if ' ' in normalized then false
    else if IsStopword(normalized) || normalized in WeakSingleWords then true
    else if normalized in AllowedSingleWords then false
    else |normalized| < 4
  }

  /** Outside the three word lists, a single word is weak exactly when it is shorter than
      four characters; a name of several words never is. */
  lemma WeakSingleWordByLength(value: string)
    requires var n := NormalizeConceptName(value);
             n != "" && !IsStopword(n) && n !in WeakSingleWords && n !in AllowedSingleWords
    ensures IsWeakSingleWord(value) <==> ' ' !in NormalizeConceptName(value) && |NormalizeConceptName(value)| < 4
  {
  }

  lemma AllowedAreNotStopwordsA() ensures AllowedSingleWords !! StopwordsA {}
  lemma AllowedAreNotStopwordsB() ensures AllowedSingleWords !! StopwordsB {}
  lemma AllowedAreNotStopwordsC() ensures AllowedSingleWords !! StopwordsC {}
  lemma AllowedAreNotWeakListed() ensures AllowedSingleWords !! WeakSingleWords {}

  /** The allow list shares no word with the stop words or the weak list. */
  lemma AllowListDisjoint(w: string)
    requires w in AllowedSingleWords
    ensures !IsStopword(w) && w !in WeakSingleWords
  {
    AllowedAreNotStopwordsA();
    AllowedAreNotStopwordsB();
    AllowedAreNotStopwordsC();
    AllowedAreNotWeakListed();
  }

  /** No word is both allow-listed and weak-listed or a stop word, so the allow list wins
      for every one of its words, whatever its length. */
  lemma AllowListedWordsAreNeverWeak(value: string)
    requires NormalizeConceptName(value) in AllowedSingleWords
    ensures !IsWeakSingleWord(value)
  {
    AllowListDisjoint(NormalizeConceptName(value));
  }

  // ---------------------------------------------------------------------------------
  // The sanitiser (analysis.ts:183-207).
  // ---------------------------------------------------------------------------------

  /** The avoid set: the non-empty normalised avoid names. */
  function AvoidSet(avoidConcepts: Option<seq<string>>): set<string> {
    NormalizedSet(avoidConcepts.GetOr([]))
  }

  function NormalizedSet(names: seq<string>): set<string>
    decreases |names|
  {
    if names == [] then {}
    else
      var n := NormalizeConceptName(names[|names| - 1]);
      NormalizedSet(names[..|names| - 1]) + (if n == "" then {} else {n})
  }

  /** A name the sanitiser accepts on its own merits, before de-duplication. */
  predicate Acceptable(c: ConceptSuggestion, avoid: set<string>) {
    && !IsBadConceptName(c.name)
    && NormalizeConceptName(c.name) != ""
    && NormalizeConceptName(c.name) !in avoid
    && !IsWeakSingleWord(c.name)
  }

  function NameKey(c: ConceptSuggestion): string {
    NormalizeConceptName(c.name)
  }

  function AcceptableIn(avoid: set<string>): ConceptSuggestion -> bool {
    c => Acceptable(c, avoid)
  }

  /** Reference definition of the filter: left to right, keep an acceptable concept whose
      normalised name has not been kept before. */
  function Sanitized(cs: seq<ConceptSuggestion>, avoidConcepts: Option<seq<string>>): seq<ConceptSuggestion> {
    KeepFirstByKey(cs, NameKey, AcceptableIn(AvoidSet(avoidConcepts)), {})
  }

  /** `sanitizeConcepts`: the filter with its mutable `seen` set. */
  method SanitizeConcepts(concepts: seq<ConceptSuggestion>, avoidConcepts: Option<seq<string>>)
    returns (kept: seq<ConceptSuggestion>)
    ensures kept == Sanitized(concepts, avoidConcepts)
  {
    var seen: set<string> := {};
    var avoid := AvoidSet(avoidConcepts);
    ghost var ok := AcceptableIn(avoid);
    ghost var target := KeepFirstByKey(concepts, NameKey, ok, {});
    assert concepts[0..] == concepts;
    kept := [];
    var i := 0;
    while i < |concepts|
      invariant 0 <= i <= |concepts|
      invariant kept + KeepFirstByKey(concepts[i..], NameKey, ok, seen) == target
    {
      var concept := concepts[i];
      KeepFirstByKeyStep(concepts, i, NameKey, ok, seen);
      assert ok(concept) == Acceptable(concept, avoid);
      if IsBadConceptName(concept.name) {
        i := i + 1;
        continue;
      }
      var normalized := NormalizeConceptName(concept.name);
      if normalized == "" || normalized in seen || normalized in avoid {
        i := i + 1;
        continue;
      }
      if IsWeakSingleWord(concept.name) {
        i := i + 1;
        continue;
      }
      assert (kept + [concept]) + KeepFirstByKey(concepts[i + 1..], NameKey, ok, seen + {normalized})
          == kept + ([concept] + KeepFirstByKey(concepts[i + 1..], NameKey, ok, seen + {normalized}));
      seen := seen + {normalized};
      kept := kept + [concept];
      i := i + 1;
    }
  }

  /** The sanitiser keeps an order-preserving subsequence of its input. */
  lemma SanitizedIsSubsequence(cs: seq<ConceptSuggestion>, avoidConcepts: Option<seq<string>>)
    ensures IsSubsequence(Sanitized(cs, avoidConcepts), cs)
  {
    KeepFirstByKeyIsSubsequence(cs, NameKey, AcceptableIn(AvoidSet(avoidConcepts)), {});
  }

  /** No kept concept is empty, all stop words, weak, or on the avoid list, and no two
      kept concepts share a normalised name. */
  lemma SanitizedAreAcceptableAndDistinct(cs: seq<ConceptSuggestion>, avoidConcepts: Option<seq<string>>)
    ensures var r := Sanitized(cs, avoidConcepts);
      && (forall k | 0 <= k < |r| :: Acceptable(r[k], AvoidSet(avoidConcepts)))
      && (forall k, l | 0 <= k < l < |r| :: NameKey(r[k]) != NameKey(r[l]))
  {
    var ok := AcceptableIn(AvoidSet(avoidConcepts));
    KeepFirstByKeyOkAndDistinct(cs, NameKey, ok, {});
    var r := Sanitized(cs, avoidConcepts);
    forall k | 0 <= k < |r|
      ensures Acceptable(r[k], AvoidSet(avoidConcepts))
    {
      assert ok(r[k]);
    }
  }

  /** The first acceptable concept of each normalised name is kept: a rejected concept
      blocks nothing, because `seen` grows only when a concept is kept. */
  lemma SanitizedKeepsFirstOccurrence(cs: seq<ConceptSuggestion>, avoidConcepts: Option<seq<string>>, i: nat)
    requires i < |cs| && Acceptable(cs[i], AvoidSet(avoidConcepts))
    requires forall j | 0 <= j < i && Acceptable(cs[j], AvoidSet(avoidConcepts)) :: NameKey(cs[j]) != NameKey(cs[i])
    ensures cs[i] in Sanitized(cs, avoidConcepts)
  {
    KeepFirstByKeyKeepsFirst(cs, NameKey, AcceptableIn(AvoidSet(avoidConcepts)), {}, i);
  }

  function NameOnly(name: string): ConceptSuggestion {
    ConceptSuggestion(name, "", 0.0, None, None)
  }

  /** A normalised one-word name is its own single token. */
  lemma SingleWordTokens(n: string)
    requires n != "" && ' ' !in n
    ensures NameTokens(n) == [n]
  {
    SplitWithoutSeparator(n, ' ');
    assert NonEmpty([n]) == [n] + NonEmpty([n][1..]);
    assert [n][1..] == [];
  }

  /** A name whose lower-case form is already normal normalises to that form. */
  lemma NormalizeOfLowered(value: string, n: string)
    requires Lower(value) == n && IsNormalName(n)
    ensures NormalizeConceptName(value) == n
  {
    LowerOfLowerIsIdentity(n);
    CollapseOfSingleSpacedIsIdentity(n);
    TrimOfTrimmedIsIdentity(n);
  }

  /** A one-word name on the allow list passes the sanitiser's own checks, whatever its
      length. */
  lemma AllowListedNameIsAcceptable(c: ConceptSuggestion, avoid: set<string>)
    requires NormalizeConceptName(c.name) in AllowedSingleWords
    requires ' ' !in NormalizeConceptName(c.name) && NormalizeConceptName(c.name) !in avoid
    ensures Acceptable(c, avoid)
  {
    var n := NormalizeConceptName(c.name);
    AllowListDisjoint(n);
    assert n != "" by { assert "" !in AllowedSingleWords; }
    SingleWordTokens(n);
    assert !IsBadConceptName(c.name);
    assert !IsWeakSingleWord(c.name);
  }

  lemma ExampleAllowListed(name: string, n: string)
    requires Lower(name) == n && IsNormalName(n) && n in AllowedSingleWords && ' ' !in n
    ensures Acceptable(NameOnly(name), {}) && NameKey(NameOnly(name)) == n
  {
    NormalizeOfLowered(name, n);
    AllowListedNameIsAcceptable(NameOnly(name), {});
  }

  lemma ExampleDocker(c: ConceptSuggestion)
    requires c == NameOnly("Docker")
    ensures Acceptable(c, {}) && NameKey(c) == "docker"
  {
    ExampleAllowListed("Docker", "docker");
  }

  lemma ExampleAI(c: ConceptSuggestion)
    requires c == NameOnly("AI")
    ensures Acceptable(c, {}) && NameKey(c) == "ai"
  {
    ExampleAllowListed("AI", "ai");
  }

  /** A one-word name that is a stop word, weak-listed, or short and not allow-listed is
      rejected. */
  lemma WeakSingleWordIsRejected(c: ConceptSuggestion, avoid: set<string>)
    requires var n := NormalizeConceptName(c.name);
             n != "" && ' ' !in n && (IsStopword(n) || n in WeakSingleWords || (n !in AllowedSingleWords && |n| < 4))
    ensures !Acceptable(c, avoid)
  {
    assert IsWeakSingleWord(c.name);
  }

  lemma ExampleRejected(name: string, n: string)
    requires Lower(name) == n && IsNormalName(n) && n != "" && ' ' !in n
    requires IsStopword(n) || n in WeakSingleWords || (n !in AllowedSingleWords && |n| < 4)
    ensures !Acceptable(NameOnly(name), {})
  {
    NormalizeOfLowered(name, n);
    WeakSingleWordIsRejected(NameOnly(name), {});
  }

  lemma ExampleThe(c: ConceptSuggestion)
    requires c == NameOnly("the")
    ensures !Acceptable(c, {})
  {
    ExampleRejected("the", "the");
  }

  lemma ExampleYeah(c: ConceptSuggestion)
    requires c == NameOnly("yeah")
    ensures !Acceptable(c, {})
  {
    ExampleRejected("yeah", "yeah");
  }

  lemma ExampleK8(c: ConceptSuggestion)
    requires c == NameOnly("k8")
    ensures !Acceptable(c, {})
  {
    ExampleRejected("k8", "k8");
  }

  /** The filter on five elements of which the second and fourth pass with different keys. */
  lemma KeepSecondAndFourth<T, K>(xs: seq<T>, key: T -> K, ok: T -> bool)
    requires |xs| == 5 && !ok(xs[0]) && ok(xs[1]) && !ok(xs[2]) && ok(xs[3]) && !ok(xs[4])
    requires key(xs[1]) != key(xs[3])
    ensures KeepFirstByKey(xs, key, ok, {}) == [xs[1], xs[3]]
  {
    var s := {key(xs[1])};
    assert xs[4..][1..] == [];
    assert KeepFirstByKey(xs[4..], key, ok, s + {key(xs[3])}) == [];
    assert xs[3..][1..] == xs[4..];
    assert KeepFirstByKey(xs[3..], key, ok, s) == [xs[3]];
    assert xs[2..][1..] == xs[3..];
    assert xs[1..][1..] == xs[2..];
    assert {} + {key(xs[1])} == s;
    assert KeepFirstByKey(xs[1..], key, ok, {}) == [xs[1]] + KeepFirstByKey(xs[2..], key, ok, s);
    assert xs[1..] == xs[0..][1..] && xs[0..] == xs;
  }

  /** The worked example: a stop word, a weak-listed word and a short word are dropped,
      the allow-listed short word stays. */
  lemma SanitizeExample(cs: seq<ConceptSuggestion>)
    requires cs == [NameOnly("the"), NameOnly("Docker"), NameOnly("yeah"), NameOnly("AI"), NameOnly("k8")]
    ensures Sanitized(cs, None) == [NameOnly("Docker"), NameOnly("AI")]
  {
    ExampleThe(cs[0]);
    ExampleDocker(cs[1]);
    ExampleYeah(cs[2]);
    ExampleAI(cs[3]);
    ExampleK8(cs[4]);
    assert AvoidSet(None) == {};
    KeepSecondAndFourth(cs, NameKey, AcceptableIn(AvoidSet(None)));
  }
}
