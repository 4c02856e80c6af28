/** The search filter of App.tsx:79-84: a link is kept when the lowercased query occurs
    in its lowercased title, in its description, or in one of its tags; the kept links
    stay in their order. */
module Search {
  import opened Wrappers
  import opened Text
  import opened Links

  /** `tags.some(tag => tag.toLowerCase().includes(q))`. */
  function SomeTagIncludes(tags: seq<string>, q: string): (b: bool)
    ensures b <==> exists i :: 0 <= i < |tags| && Includes(Lower(tags[i]), q)
  {
    if tags == [] then false
    else
      assert forall i :: 0 < i < |tags| ==> tags[1..][i - 1] == tags[i];
      Includes(Lower(tags[0]), q) || SomeTagIncludes(tags[1..], q)
  }

  /** The filter callback: `title.toLowerCase().includes(q) ||
      description?.toLowerCase().includes(q) || tags?.some(...)`, where `q` is the
      lowercased query and a missing description or tag list counts as no match. */
  predicate Matches(link: Link, query: string) {
    var q := Lower(query);
    || Includes(Lower(link.title), q)
    || (link.description.Some? && Includes(Lower(link.description.value), q))
    || (link.tags.Some? && SomeTagIncludes(link.tags.value, q))
  }

  /** `xs.filter(keep)`: the elements that `keep` accepts, in their order. */
  function Filter<T>(xs: seq<T>, keep: T -> bool): (kept: seq<T>)
    ensures |kept| <= |xs|
  {
    if xs == [] then []
    else (if keep(xs[0]) then [xs[0]] else []) + Filter(xs[1..], keep)
  }

  /** Everything kept comes from the list and is accepted, and everything accepted in the
      list is kept. */
  lemma {:induction false} FilterMembers<T>(xs: seq<T>, keep: T -> bool)
    ensures forall i :: 0 <= i < |Filter(xs, keep)| ==>
      Filter(xs, keep)[i] in xs && keep(Filter(xs, keep)[i])
    ensures forall i :: 0 <= i < |xs| && keep(xs[i]) ==> xs[i] in Filter(xs, keep)
  {
    if xs != [] {
      FilterMembers(xs[1..], keep);
      var keptRest := Filter(xs[1..], keep);
      var head := if keep(xs[0]) then [xs[0]] else [];
      var kept := head + keptRest;
      assert Filter(xs, keep) == kept;
      forall i | 0 <= i < |kept| ensures kept[i] in xs && keep(kept[i]) {
        if i >= |head| {
          assert kept[i] == keptRest[i - |head|];
        }
      }
      forall i | 0 < i < |xs| && keep(xs[i]) ensures xs[i] in kept {
        assert xs[1..][i - 1] == xs[i];
      }
    }
  }

  /** `links.filter(link => ...)` with the search query of App.tsx:79-84. */
  function FilterLinks(links: seq<Link>, query: string): (found: seq<Link>)
    ensures forall l :: l in found <==> l in links && Matches(l, query)
  {
    FilterMembers(links, l => Matches(l, query));
    Filter(links, l => Matches(l, query))
  }

  /** `sub` is `s` at the strictly increasing positions `idx`. */
  ghost predicate IsSubsequenceAt<T>(sub: seq<T>, s: seq<T>, idx: seq<int>) {
    && |idx| == |sub|
    && (forall k :: 0 <= k < |idx| ==> 0 <= idx[k] < |s| && sub[k] == s[idx[k]])
    && StrictlyIncreasing(idx)
  }

  predicate StrictlyIncreasing(idx: seq<int>) {
    forall k, m :: 0 <= k < m < |idx| ==> idx[k] < idx[m]
  }

  /** Every position moved one place to the right. */
  function Shifted(idx: seq<int>): (r: seq<int>)
    ensures |r| == |idx|
    ensures forall k :: 0 <= k < |idx| ==> r[k] == idx[k] + 1
  {
    seq(|idx|, k requires 0 <= k < |idx| => idx[k] + 1)
  }

  /** The positions of the elements that `keep` accepts, in increasing order. */
  function KeptPositions<T>(xs: seq<T>, keep: T -> bool): (idx: seq<int>)
    ensures forall k :: 0 <= k < |idx| ==> 0 <= idx[k] < |xs|
  {
    if xs == [] then []
    else (if keep(xs[0]) then [0] else []) + Shifted(KeptPositions(xs[1..], keep))
  }

  /** A position is listed exactly when `keep` accepts the element there. */
  lemma {:induction false} KeptPositionsExact<T>(xs: seq<T>, keep: T -> bool)
    ensures forall i :: 0 <= i < |xs| ==> (i in KeptPositions(xs, keep) <==> keep(xs[i]))
  {
    if xs != [] {
      KeptPositionsExact(xs[1..], keep);
      var rest := KeptPositions(xs[1..], keep);
      var shifted := Shifted(rest);
      assert KeptPositions(xs, keep) == (if keep(xs[0]) then [0] else []) + shifted;
      forall i | 0 < i < |xs|
        ensures i in KeptPositions(xs, keep) <==> keep(xs[i])
      {
        assert xs[1..][i - 1] == xs[i];
        if i - 1 in rest {
          var k :| 0 <= k < |rest| && rest[k] == i - 1;
          assert shifted[k] == i;
        }
        if i in shifted {
          var k :| 0 <= k < |shifted| && shifted[k] == i;
          assert rest[k] == i - 1;
        }
      }
    }
  }

  /** The positions are strictly increasing. */
  lemma {:induction false} KeptPositionsIncrease<T>(xs: seq<T>, keep: T -> bool)
    ensures StrictlyIncreasing(KeptPositions(xs, keep))
  {
    if xs != [] {
      KeptPositionsIncrease(xs[1..], keep);
      var rest := KeptPositions(xs[1..], keep);
      assert StrictlyIncreasing(rest);
      var head := if keep(xs[0]) then [0] else [];
      var idx := head + Shifted(rest);
      forall k, m | 0 <= k < m < |idx| ensures idx[k] < idx[m] {
        if k >= |head| {
          assert idx[k] == rest[k - |head|] + 1;
          assert idx[m] == rest[m - |head|] + 1;
          assert rest[k - |head|] < rest[m - |head|];
        } else {
          assert idx[k] == 0;
          assert idx[m] == rest[m - 1] + 1;
          assert rest[m - 1] >= 0;
        }
      }
    }
  }

  /** The filtered list holds the elements at the listed positions, one for one. */
  lemma {:induction false} FilterAtPositions<T>(xs: seq<T>, keep: T -> bool)
    ensures var idx := KeptPositions(xs, keep);
      && |idx| == |Filter(xs, keep)|
      && forall k :: 0 <= k < |idx| ==> Filter(xs, keep)[k] == xs[idx[k]]
  {
    if xs != [] {
      FilterAtPositions(xs[1..], keep);
      var rest := KeptPositions(xs[1..], keep);
      var head := if keep(xs[0]) then [0] else [];
      var idx := head + Shifted(rest);
      var keptRest := Filter(xs[1..], keep);
      forall k | 0 <= k < |idx|
        ensures Filter(xs, keep)[k] == xs[idx[k]]
      {
        if k >= |head| {
          assert idx[k] == rest[k - |head|] + 1;
          assert Filter(xs, keep)[k] == keptRest[k - |head|];
        }
      }
    }
  }

  /** The filtered list is the list at exactly the accepted positions, in their original
      order: nothing is reordered, duplicated, dropped or invented. */
  lemma FilterKeepsOrder<T>(xs: seq<T>, keep: T -> bool)
    ensures IsSubsequenceAt(Filter(xs, keep), xs, KeptPositions(xs, keep))
    ensures forall i :: 0 <= i < |xs| ==> (i in KeptPositions(xs, keep) <==> keep(xs[i]))
  {
    KeptPositionsExact(xs, keep);
    KeptPositionsIncrease(xs, keep);
    FilterAtPositions(xs, keep);
  }

  /** A callback that accepts everything keeps the whole list, in order. */
  lemma {:induction false} FilterKeepsAll<T>(xs: seq<T>, keep: T -> bool)
    requires forall x :: x in xs ==> keep(x)
    ensures Filter(xs, keep) == xs
  {
    if xs != [] {
      FilterKeepsAll(xs[1..], keep);
      assert [xs[0]] + xs[1..] == xs;
    }
  }

  /** Filtering the filtered list again changes nothing. */
  lemma FilterIdempotent<T>(xs: seq<T>, keep: T -> bool)
    ensures Filter(Filter(xs, keep), keep) == Filter(xs, keep)
  {
    FilterMembers(xs, keep);
    FilterKeepsAll(Filter(xs, keep), keep);
  }

  /** The search result lists exactly the matching links, at their positions, in order. */
  lemma SearchKeepsOrder(links: seq<Link>, query: string)
    ensures var keep := l => Matches(l, query);
      && IsSubsequenceAt(FilterLinks(links, query), links, KeptPositions(links, keep))
      && forall i :: 0 <= i < |links| ==> (i in KeptPositions(links, keep) <==> Matches(links[i], query))
  {
    FilterKeepsOrder(links, l => Matches(l, query));
  }

  /** An empty query matches every title, so it keeps every link, in order. */
  lemma EmptyQueryKeepsAll(links: seq<Link>)
    ensures FilterLinks(links, "") == links
  {
    forall l | l in links ensures Matches(l, "") {
      IncludesEmpty(Lower(l.title));
    }
    FilterKeepsAll(links, l => Matches(l, ""));
  }

  /** Searching the search result again with the same query changes nothing. */
  lemma SearchIdempotent(links: seq<Link>, query: string)
    ensures FilterLinks(FilterLinks(links, query), query) == FilterLinks(links, query)
  {
    FilterIdempotent(links, l => Matches(l, query));
  }
}
