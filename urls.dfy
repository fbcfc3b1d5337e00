/** The parts of a URL the parsers read, and its path segments. `new URL(raw)` itself is
    not modelled: a URL is given already parsed, or as `None` when it would throw. */
module Urls {
  import opened Seqs

  /** `parsed.hostname` and `parsed.pathname`. */
  datatype UrlParts = UrlParts(hostname: string, pathname: string)

  /** `pathname.split("/").filter(Boolean)`. */
  function PathSegments(pathname: string): seq<string> {
    NonEmpty(Split(pathname, '/'))
  }

  /** A segment: non-empty and without a slash. */
  predicate IsSegment(s: string) {
    s != "" && '/' !in s
  }

  /** Every segment of a path is a segment. */
  lemma PathSegmentsSpec(pathname: string)
    ensures forall k | 0 <= k < |PathSegments(pathname)| :: IsSegment(PathSegments(pathname)[k])
  {
    var pieces := Split(pathname, '/');
    SplitPieces(pathname, '/');
    NonEmptyKeepsNonEmpty(pieces);
    SubsequenceElements(NonEmpty(pieces), pieces);
    forall k | 0 <= k < |PathSegments(pathname)|
      ensures '/' !in PathSegments(pathname)[k]
    {
      var seg := PathSegments(pathname)[k];
      assert seg in pieces;
      var j :| 0 <= j < |pieces| && pieces[j] == seg;
    }
  }

  /** The path with the given segments, each after a slash. */
  function PathOf(segs: seq<string>): string
    decreases |segs|
  {
    if segs == [] then "" else PathOf(segs[..|segs| - 1]) + "/" + segs[|segs| - 1]
  }

  lemma {:induction false} SplitPathOf(segs: seq<string>)
    requires forall k | 0 <= k < |segs| :: '/' !in segs[k]
    ensures Split(PathOf(segs), '/') == [""] + segs
    decreases |segs|
  {
    if segs != [] {
      var init := segs[..|segs| - 1];
      var last := segs[|segs| - 1];
      SplitPathOf(init);
      assert PathOf(segs) == PathOf(init) + ['/'] + last;
      SplitAppendPiece(PathOf(init), '/', last);
      assert [""] + init + [last] == [""] + segs;
    }
  }

  /** Parsing the path built from segments gives the segments back. */
  lemma PathOfSegments(segs: seq<string>)
    requires forall k | 0 <= k < |segs| :: IsSegment(segs[k])
    ensures PathSegments(PathOf(segs)) == segs
  {
    SplitPathOf(segs);
    NonEmptyOfNonEmpty(segs);
    assert ([""] + segs)[1..] == segs;
  }
}
