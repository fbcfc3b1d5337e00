/** Sequence operations that the source performs with JavaScript array and string
    built-ins: `filter`, `slice`, `join`, `split`, `indexOf`, `new Set(...)`. */
module Seqs {

  /** No element occurs twice. */
  predicate Distinct<T(==)>(s: seq<T>) {
    forall i, j | 0 <= i < j < |s| :: s[i] != s[j]
  }

  /** `xs` is obtained from `ys` by deleting elements, keeping the order of the rest. */
  ghost predicate IsSubsequence<T>(xs: seq<T>, ys: seq<T>)
    decreases |ys|
  {
    if xs == [] then true
    else if ys == [] then false
    else (xs[0] == ys[0] && IsSubsequence(xs[1..], ys[1..])) || IsSubsequence(xs, ys[1..])
  }

  lemma {:induction false} SubsequenceOfSelf<T>(s: seq<T>)
    ensures IsSubsequence(s, s)
    decreases |s|
  {
    if s != [] {
      SubsequenceOfSelf(s[1..]);
    }
  }

  lemma {:induction false} SubsequenceElements<T>(xs: seq<T>, ys: seq<T>)
    requires IsSubsequence(xs, ys)
    ensures forall x | x in xs :: x in ys
    decreases |ys|
  {
    if xs != [] {
      if xs[0] == ys[0] && IsSubsequence(xs[1..], ys[1..]) {
        SubsequenceElements(xs[1..], ys[1..]);
        assert xs == [xs[0]] + xs[1..];
        assert ys == [ys[0]] + ys[1..];
      } else {
        SubsequenceElements(xs, ys[1..]);
      }
    }
  }

  lemma {:induction false} SubsequenceLength<T>(xs: seq<T>, ys: seq<T>)
    requires IsSubsequence(xs, ys)
    ensures |xs| <= |ys|
    decreases |ys|
  {
    if xs != [] {
      if xs[0] == ys[0] && IsSubsequence(xs[1..], ys[1..]) {
        SubsequenceLength(xs[1..], ys[1..]);
      } else {
        SubsequenceLength(xs, ys[1..]);
      }
    }
  }

  /** `Array.prototype.slice(0, n)`. */
  function Take<T>(s: seq<T>, n: nat): (r: seq<T>)
    ensures |r| == if n <= |s| then n else |s|
    ensures forall i | 0 <= i < |r| :: r[i] == s[i]
  {
    if n <= |s| then s[..n] else s
  }

  /** The elements in the opposite order: a descending index scan. */
  function Reverse<T>(s: seq<T>): (r: seq<T>)
    ensures |r| == |s|
    ensures forall i | 0 <= i < |s| :: r[i] == s[|s| - 1 - i]
    decreases |s|
  {
    if s == [] then [] else [s[|s| - 1]] + Reverse(s[..|s| - 1])
  }

  /** The last element of a strictly increasing sequence is its largest. */
  lemma LastIsLargest(s: seq<nat>)
    requires s != []
    requires forall i, j | 0 <= i < j < |s| :: s[i] < s[j]
    ensures forall x | x in s :: x <= s[|s| - 1]
  {
  }

  /** Of a strictly increasing sequence, `.order("desc").take(n)` gives at most `n`
      elements, largest first, and anything it leaves out is smaller than all `n` it
      gives. */
  lemma TakeLargest(s: seq<nat>, n: nat)
    requires forall i, j | 0 <= i < j < |s| :: s[i] < s[j]
    ensures var r := Take(Reverse(s), n);
            && |r| <= n
            && (forall x | x in r :: x in s)
            && (forall k, l | 0 <= k < l < |r| :: r[k] > r[l])
            && (forall x | x in s && x !in r :: |r| == n && forall k | 0 <= k < |r| :: r[k] > x)
  {
    var r := Take(Reverse(s), n);
    forall k | 0 <= k < |r|
      ensures r[k] == s[|s| - 1 - k]
    {
      assert r[k] == Reverse(s)[k];
    }
    forall j | 0 <= j < |s| && |s| - 1 - j < |r|
      ensures s[j] in r
    {
      assert r[|s| - 1 - j] == s[j];
    }
    forall x | x in s && x !in r
      ensures |r| == n && forall k | 0 <= k < |r| :: r[k] > x
    {
      var j :| 0 <= j < |s| && s[j] == x;
      assert |s| - 1 - j >= |r|;
      forall k | 0 <= k < |r|
        ensures r[k] > x
      {
        assert s[j] < s[|s| - 1 - k];
      }
    }
  }

  /** `Array.prototype.join(sep)`. */
  function Join(parts: seq<string>, sep: string): string
    decreases |parts|
  {
    if parts == [] then ""
    else if |parts| == 1 then parts[0]
    else parts[0] + sep + Join(parts[1..], sep)
  }

  /** `String.prototype.split(sep)` for a one-character separator: the pieces between
      consecutive separators, always at least one (the empty string splits to [""]). */
  function Split(s: string, sep: char): (r: seq<string>)
    decreases |s|
  {
    if s == [] then [""]
    else
      var rest := Split(s[1..], sep);
      if s[0] == sep then [""] + rest
      else [[s[0]] + rest[0]] + rest[1..]
  }

  /** There is always at least one piece, and no piece holds the separator. */
  lemma {:induction false} SplitPieces(s: string, sep: char)
    ensures |Split(s, sep)| >= 1
    ensures forall k | 0 <= k < |Split(s, sep)| :: sep !in Split(s, sep)[k]
    decreases |s|
  {
    if s != [] {
      SplitPieces(s[1..], sep);
    }
  }

  /** Splitting and joining with the same separator gives the string back. */
  lemma {:induction false} JoinSplit(s: string, sep: char)
    ensures Join(Split(s, sep), [sep]) == s
    decreases |s|
  {
    if s != [] {
      JoinSplit(s[1..], sep);
      SplitPieces(s[1..], sep);
      var rest := Split(s[1..], sep);
      var parts := Split(s, sep);
      if s[0] == sep {
        assert parts == [""] + rest;
        assert parts[1..] == rest;
        assert Join(parts, [sep]) == "" + [sep] + Join(rest, [sep]);
        assert s == [sep] + s[1..];
      } else if |rest| == 1 {
        assert parts == [[s[0]] + rest[0]];
        assert s == [s[0]] + s[1..];
      } else {
        assert parts == [[s[0]] + rest[0]] + rest[1..];
        assert parts[1..] == rest[1..];
        assert Join(rest, [sep]) == rest[0] + [sep] + Join(rest[1..], [sep]);
        assert s == [s[0]] + s[1..];
      }
    }
  }

  /** Appending a separator and a piece without separators appends that piece. */
  lemma {:induction false} SplitAppendPiece(s: string, sep: char, piece: string)
    requires sep !in piece
    ensures Split(s + [sep] + piece, sep) == Split(s, sep) + [piece]
    decreases |s|
  {
    if s == [] {
      assert s + [sep] + piece == [sep] + piece;
      SplitWithoutSeparator(piece, sep);
    } else {
      SplitAppendPiece(s[1..], sep, piece);
      assert (s + [sep] + piece)[1..] == s[1..] + [sep] + piece;
      SplitPieces(s[1..], sep);
    }
  }

  /** A string without the separator splits to itself alone. */
  lemma {:induction false} SplitWithoutSeparator(s: string, sep: char)
    requires sep !in s
    ensures Split(s, sep) == [s]
    decreases |s|
  {
    if s != [] {
      SplitWithoutSeparator(s[1..], sep);
      assert [s[0]] + s[1..] == s;
    }
  }

  /** `.filter(Boolean)` on strings: drops the empty strings. */
  function NonEmpty(parts: seq<string>): (r: seq<string>)
    decreases |parts|
  {
    if parts == [] then []
    else if parts[0] == "" then NonEmpty(parts[1..])
    else [parts[0]] + NonEmpty(parts[1..])
  }

  /** `NonEmpty` keeps exactly the non-empty strings, in order. */
  lemma {:induction false} NonEmptyKeepsNonEmpty(parts: seq<string>)
    ensures IsSubsequence(NonEmpty(parts), parts)
    ensures forall k | 0 <= k < |NonEmpty(parts)| :: NonEmpty(parts)[k] != ""
    ensures forall p | p in parts && p != "" :: p in NonEmpty(parts)
    decreases |parts|
  {
    if parts != [] {
      NonEmptyKeepsNonEmpty(parts[1..]);
      var rest := NonEmpty(parts[1..]);
      if parts[0] != "" {
        assert NonEmpty(parts) == [parts[0]] + rest;
        assert NonEmpty(parts)[1..] == rest;
      }
      assert parts == [parts[0]] + parts[1..];
    }
  }

  /** Strings that are all non-empty pass `NonEmpty` unchanged. */
  lemma {:induction false} NonEmptyOfNonEmpty(parts: seq<string>)
    requires forall k | 0 <= k < |parts| :: parts[k] != ""
    ensures NonEmpty(parts) == parts
    decreases |parts|
  {
    if parts != [] {
      NonEmptyOfNonEmpty(parts[1..]);
    }
  }

  /** `Array.prototype.indexOf`: the first index holding `x`, or -1. */
  function IndexOf<T(==)>(s: seq<T>, x: T): (i: int)
    ensures -1 <= i < |s|
    ensures i >= 0 ==> s[i] == x && x !in s[..i]
    ensures i == -1 <==> x !in s
    decreases |s|
  {
    if s == [] then -1
    else if s[0] == x then 0
    else
      var k := IndexOf(s[1..], x);
      assert s[1..][..if k < 0 then 0 else k] == s[1..if k < 0 then 1 else k + 1];
      if k < 0 then -1 else k + 1
  }

  /** `Array.from(new Set(s))`: the distinct elements in order of first occurrence. */
  function Dedup<T(==)>(s: seq<T>): (r: seq<T>)
    ensures Distinct(r)
    ensures forall x | x in r :: x in s
    ensures forall x | x in s :: x in r
    ensures |r| <= |s|
    decreases |s|
  {
    if s == [] then []
    else
      var d := Dedup(s[..|s| - 1]);
      var x := s[|s| - 1];
      assert s == s[..|s| - 1] + [x];
      if x in d then d else d + [x]
  }

  lemma IndexOfInPrefix<T>(s: seq<T>, m: nat, x: T)
    requires m <= |s| && x in s[..m]
    ensures IndexOf(s, x) == IndexOf(s[..m], x)
  {
    var i := IndexOf(s, x);
    var j := IndexOf(s[..m], x);
    assert s[..m][..j] == s[..j];
  }

  /** The elements of `Dedup(s)` are listed in the order in which they first occur in `s`. */
  lemma {:induction false} DedupFirstOccurrenceOrder<T>(s: seq<T>, i: nat, j: nat)
    requires i < j < |Dedup(s)|
    ensures IndexOf(s, Dedup(s)[i]) < IndexOf(s, Dedup(s)[j])
    decreases |s|
  {
    var n := |s| - 1;
    var d := Dedup(s[..n]);
    var x := s[n];
    assert Dedup(s)[i] in d by {
      if x !in d { assert Dedup(s) == d + [x]; }
    }
    assert s[..n + 1] == s;
    var a := Dedup(s)[i];
    var b := Dedup(s)[j];
    assert a in s[..n];
    IndexOfInPrefix(s, n, a);
    if x in d || j < |d| {
      assert Dedup(s)[i] == d[i] && Dedup(s)[j] == d[j];
      DedupFirstOccurrenceOrder(s[..n], i, j);
      IndexOfInPrefix(s, n, b);
    } else {
      assert b == x && x !in s[..n];
    }
  }

  /** Left to right, keeps an element that passes `ok` and whose key has not been kept
      before; `seen` holds the keys already kept. */
  function KeepFirstByKey<T, K>(xs: seq<T>, key: T -> K, ok: T -> bool, seen: set<K>): seq<T>
    decreases |xs|
  {
    if xs == [] then []
    else if ok(xs[0]) && key(xs[0]) !in seen then
      [xs[0]] + KeepFirstByKey(xs[1..], key, ok, seen + {key(xs[0])})
    else KeepFirstByKey(xs[1..], key, ok, seen)
  }

  /** One step of the filter, from position `i`. */
  lemma KeepFirstByKeyStep<T, K>(xs: seq<T>, i: nat, key: T -> K, ok: T -> bool, seen: set<K>)
    requires i < |xs|
    ensures KeepFirstByKey(xs[i..], key, ok, seen)
         == if ok(xs[i]) && key(xs[i]) !in seen
            then [xs[i]] + KeepFirstByKey(xs[i + 1..], key, ok, seen + {key(xs[i])})
            else KeepFirstByKey(xs[i + 1..], key, ok, seen)
  {
    assert xs[i..][1..] == xs[i + 1..];
  }

  lemma {:induction false} KeepFirstByKeyIsSubsequence<T, K>(xs: seq<T>, key: T -> K, ok: T -> bool, seen: set<K>)
    ensures IsSubsequence(KeepFirstByKey(xs, key, ok, seen), xs)
    decreases |xs|
  {
    if xs != [] {
      if ok(xs[0]) && key(xs[0]) !in seen {
        KeepFirstByKeyIsSubsequence(xs[1..], key, ok, seen + {key(xs[0])});
      } else {
        KeepFirstByKeyIsSubsequence(xs[1..], key, ok, seen);
      }
    }
  }

  lemma {:induction false} KeepFirstByKeyOkAndDistinct<T, K>(xs: seq<T>, key: T -> K, ok: T -> bool, seen: set<K>)
    ensures forall k | 0 <= k < |KeepFirstByKey(xs, key, ok, seen)| ::
              ok(KeepFirstByKey(xs, key, ok, seen)[k]) && key(KeepFirstByKey(xs, key, ok, seen)[k]) !in seen
    ensures forall k, l | 0 <= k < l < |KeepFirstByKey(xs, key, ok, seen)| ::
              key(KeepFirstByKey(xs, key, ok, seen)[k]) != key(KeepFirstByKey(xs, key, ok, seen)[l])
    decreases |xs|
  {
    if xs != [] {
      var r := KeepFirstByKey(xs, key, ok, seen);
      if ok(xs[0]) && key(xs[0]) !in seen {
        var seen' := seen + {key(xs[0])};
        var rest := KeepFirstByKey(xs[1..], key, ok, seen');
        KeepFirstByKeyOkAndDistinct(xs[1..], key, ok, seen');
        assert r == [xs[0]] + rest;
        forall k | 0 <= k < |r|
          ensures ok(r[k]) && key(r[k]) !in seen
        {
          if k > 0 { assert r[k] == rest[k - 1]; }
        }
        forall k, l | 0 <= k < l < |r|
          ensures key(r[k]) != key(r[l])
        {
          assert r[l] == rest[l - 1];
          if k > 0 { assert r[k] == rest[k - 1]; }
        }
      } else {
        KeepFirstByKeyOkAndDistinct(xs[1..], key, ok, seen);
      }
    }
  }

  /** An element is kept when it is the first one passing `ok` with its key. */
  lemma {:induction false} KeepFirstByKeyKeepsFirst<T, K>(xs: seq<T>, key: T -> K, ok: T -> bool, seen: set<K>, i: nat)
    requires i < |xs| && ok(xs[i]) && key(xs[i]) !in seen
    requires forall j | 0 <= j < i && ok(xs[j]) :: key(xs[j]) != key(xs[i])
    ensures xs[i] in KeepFirstByKey(xs, key, ok, seen)
    decreases |xs|
  {
    if i > 0 {
      var seen' := if ok(xs[0]) && key(xs[0]) !in seen then seen + {key(xs[0])} else seen;
      assert xs[1..][i - 1] == xs[i];
      KeepFirstByKeyKeepsFirst(xs[1..], key, ok, seen', i - 1);
    }
  }
}
