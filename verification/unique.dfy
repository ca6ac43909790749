/** Order-preserving de-duplication. The scraper does this twice: once over
    the collected profile links (a `seen` set walked in order) and once per
    alternate location, where `lst.extend(x for x in alt if x not in lst)`
    appends each alternate entry only if the list, as it stands at that
    moment, does not already hold it. Both are the fold `AppendAbsent`.
 */
module Unique {

  predicate NoDups(xs: seq<string>) {
    forall i, j :: 0 <= i < j < |xs| ==> xs[i] != xs[j]
  }

  /** One step of the fold: append `x` unless the list already holds it. */
  function AddIfAbsent(acc: seq<string>, x: string): seq<string> {
    if x in acc then acc else acc + [x]
  }

  /** Appends the entries of `xs`, in order, each only if it is not yet in the
      growing list. */
  function AppendAbsent(acc: seq<string>, xs: seq<string>): seq<string>
    decreases |xs|
  {
    if xs == [] then acc else AppendAbsent(AddIfAbsent(acc, xs[0]), xs[1..])
  }

  /** The merge keeps `acc` as its prefix, adds at most the entries of `xs`,
      adds none twice and none already present, and loses nothing. */
  lemma {:induction false} AppendAbsentShape(acc: seq<string>, xs: seq<string>)
    ensures var r := AppendAbsent(acc, xs);
            && |acc| <= |r| <= |acc| + |xs|
            && r[..|acc|] == acc
            && (forall i, j :: 0 <= i < j < |r| && |acc| <= j ==> r[i] != r[j])
            && (forall x :: x in r <==> x in acc || x in xs)
    decreases |xs|
  {
    if xs != [] {
      var acc' := AddIfAbsent(acc, xs[0]);
      var r := AppendAbsent(acc', xs[1..]);
      AppendAbsentShape(acc', xs[1..]);
      assert r[..|acc|] == acc by {
        assert r[..|acc'|][..|acc|] == acc;
      }
      assert forall x :: x in xs <==> x == xs[0] || x in xs[1..] by {
        assert xs == [xs[0]] + xs[1..];
      }
    }
  }

  /** De-duplication yields nothing only from nothing. */
  lemma AppendAbsentEmpty(xs: seq<string>)
    ensures AppendAbsent([], xs) == [] <==> xs == []
  {
    if xs != [] {
      AppendAbsentShape([], xs);
      assert xs[0] in AppendAbsent([], xs);
    }
  }

  /** Merging into a duplicate-free list keeps it duplicate-free. */
  lemma AppendAbsentNoDups(acc: seq<string>, xs: seq<string>)
    requires NoDups(acc)
    ensures NoDups(AppendAbsent(acc, xs))
  {
    var r := AppendAbsent(acc, xs);
    AppendAbsentShape(acc, xs);
    forall i, j | 0 <= i < j < |r|
      ensures r[i] != r[j]
    {
      if j < |acc| {
        assert r[i] == acc[i] && r[j] == acc[j];
      } else {
        assert r[i] in r[..j];
      }
    }
  }

  /** Two successive merges are one merge of the concatenation. */
  lemma {:induction false} AppendAbsentConcat(acc: seq<string>, xs: seq<string>, ys: seq<string>)
    ensures AppendAbsent(AppendAbsent(acc, xs), ys) == AppendAbsent(acc, xs + ys)
    decreases |xs|
  {
    if xs == [] {
      assert xs + ys == ys;
    } else {
      assert (xs + ys)[0] == xs[0];
      assert (xs + ys)[1..] == xs[1..] + ys;
      AppendAbsentConcat(AddIfAbsent(acc, xs[0]), xs[1..], ys);
    }
  }

  /** Merging entries that are all present already changes nothing; in
      particular merging the same list twice adds nothing the second time. */
  lemma {:induction false} AppendAbsentPresent(acc: seq<string>, xs: seq<string>)
    requires forall i :: 0 <= i < |xs| ==> xs[i] in acc
    ensures AppendAbsent(acc, xs) == acc
    decreases |xs|
  {
    if xs != [] {
      assert xs[0] in acc;
      AppendAbsentPresent(acc, xs[1..]);
    }
  }

  lemma AppendAbsentTwice(acc: seq<string>, xs: seq<string>)
    ensures AppendAbsent(AppendAbsent(acc, xs), xs) == AppendAbsent(acc, xs)
  {
    AppendAbsentShape(acc, xs);
    AppendAbsentPresent(AppendAbsent(acc, xs), xs);
  }

  /** A duplicate-free list merged into a list it does not meet comes out
      appended whole. */
  lemma {:induction false} AppendAbsentDistinct(acc: seq<string>, xs: seq<string>)
    requires NoDups(xs)
    requires forall i :: 0 <= i < |xs| ==> xs[i] !in acc
    ensures AppendAbsent(acc, xs) == acc + xs
    decreases |xs|
  {
    if xs != [] {
      DistinctStep(acc, xs);
      calc {
        AppendAbsent(acc, xs);
        AppendAbsent(AddIfAbsent(acc, xs[0]), xs[1..]);
        AppendAbsent(acc + [xs[0]], xs[1..]);
        { AppendAbsentDistinct(acc + [xs[0]], xs[1..]); }
        acc + [xs[0]] + xs[1..];
        { assert [xs[0]] + xs[1..] == xs; }
        acc + xs;
      }
    }
  }

  lemma DistinctStep(acc: seq<string>, xs: seq<string>)
    requires xs != [] && NoDups(xs)
    requires forall i :: 0 <= i < |xs| ==> xs[i] !in acc
    ensures AddIfAbsent(acc, xs[0]) == acc + [xs[0]]
    ensures NoDups(xs[1..])
    ensures forall i :: 0 <= i < |xs[1..]| ==> xs[1..][i] !in acc + [xs[0]]
  {
    forall i | 0 <= i < |xs[1..]|
      ensures xs[1..][i] !in acc + [xs[0]]
    {
      assert xs[1..][i] == xs[i + 1];
    }
  }

  /** The position of the first occurrence of `x` in `xs`. */
  function FirstIndex(xs: seq<string>, x: string): (i: nat)
    requires x in xs
    ensures i < |xs| && xs[i] == x
    ensures forall j :: 0 <= j < i ==> xs[j] != x
  {
    if xs[0] == x then 0 else FirstIndex(xs[1..], x) + 1
  }

  lemma FirstIndexBelow(xs: seq<string>, k: nat, x: string)
    requires k <= |xs| && x in xs[..k]
    ensures FirstIndex(xs, x) < k
  {
  }

  lemma FirstIndexAt(xs: seq<string>, k: nat)
    requires k < |xs| && xs[k] !in xs[..k]
    ensures FirstIndex(xs, xs[k]) == k
  {
  }

  /** `u` lists links met in `xs[..k]`, ordered by their first occurrence in `xs`. */
  predicate FirstOccurrenceOrdered(u: seq<string>, xs: seq<string>, k: nat) {
    && k <= |xs|
    && (forall i :: 0 <= i < |u| ==> u[i] in xs)
    && (forall i :: 0 <= i < |u| ==> FirstIndex(xs, u[i]) < k)
    && (forall i, j :: 0 <= i < j < |u| ==> FirstIndex(xs, u[i]) < FirstIndex(xs, u[j]))
  }

  lemma OrderStep(u: seq<string>, xs: seq<string>, k: nat)
    requires k < |xs|
    requires FirstOccurrenceOrdered(u, xs, k)
    requires forall x :: x in u <==> x in xs[..k]
    ensures FirstOccurrenceOrdered(AddIfAbsent(u, xs[k]), xs, k + 1)
  {
    if xs[k] !in u {
      FirstIndexAt(xs, k);
      var v := u + [xs[k]];
      forall i | 0 <= i < |v|
        ensures v[i] in xs && FirstIndex(xs, v[i]) < k + 1
      {
        if i < |u| {
          assert v[i] == u[i];
        }
      }
      forall i, j | 0 <= i < j < |v|
        ensures FirstIndex(xs, v[i]) < FirstIndex(xs, v[j])
      {
        assert v[i] == u[i];
        if j < |u| {
          assert v[j] == u[j];
        }
      }
    }
  }

  lemma TakeOneMore(xs: seq<string>, k: nat)
    requires k < |xs|
    ensures xs[..k + 1] == xs[..k] + [xs[k]]
  {
  }

  /** The de-duplication of the profile links, walking the list once with a
      `seen` set. The result holds each distinct link exactly once, and in the
      order of the links' first occurrences. */
  method DedupLinks(links: seq<string>) returns (unique: seq<string>)
    ensures unique == AppendAbsent([], links)
    ensures NoDups(unique)
    ensures forall x :: x in unique <==> x in links
    ensures FirstOccurrenceOrdered(unique, links, |links|)
  {
    var seen: set<string> := {};
    unique := [];
    var k := 0;
    while k < |links|
      invariant k <= |links|
      invariant unique == AppendAbsent([], links[..k])
      invariant forall x :: x in seen <==> x in unique
      invariant FirstOccurrenceOrdered(unique, links, k)
    {
      var link := links[k];
      TakeOneMore(links, k);
      AppendAbsentShape([], links[..k]);
      OrderStep(unique, links, k);
      AppendAbsentConcat([], links[..k], [link]);
      if link !in seen {
        seen := seen + {link};
        unique := unique + [link];
      }
      k := k + 1;
    }
    assert links[..|links|] == links;
    AppendAbsentShape([], links);
    AppendAbsentNoDups([], links);
  }

  lemma AppendAbsentStep(acc: seq<string>, x: string, rest: seq<string>)
    ensures AppendAbsent(acc, [x] + rest) == AppendAbsent(AddIfAbsent(acc, x), rest)
  {
    assert ([x] + rest)[1..] == rest;
  }

  /** Deduplication of five links holding three distinct ones:
      `[a, b, a, c, b]` becomes `[a, b, c]`. */
  lemma DedupExample(a: string, b: string, c: string)
    requires a != b && b != c && a != c
    ensures AppendAbsent([], [a, b, a, c, b]) == [a, b, c]
  {
    calc {
      AppendAbsent([], [a, b, a, c, b]);
      { assert [a, b, a, c, b] == [a] + [b, a, c, b]; AppendAbsentStep([], a, [b, a, c, b]); assert [] + [a] == [a]; }
      AppendAbsent([a], [b, a, c, b]);
      { assert [b, a, c, b] == [b] + [a, c, b]; AppendAbsentStep([a], b, [a, c, b]); assert b !in [a] && [a] + [b] == [a, b]; }
      AppendAbsent([a, b], [a, c, b]);
      { assert [a, c, b] == [a] + [c, b]; AppendAbsentStep([a, b], a, [c, b]); }
      AppendAbsent([a, b], [c, b]);
      { assert [c, b] == [c] + [b]; AppendAbsentStep([a, b], c, [b]); assert c !in [a, b] && [a, b] + [c] == [a, b, c]; }
      AppendAbsent([a, b, c], [b]);
      { assert [b] == [b] + []; AppendAbsentStep([a, b, c], b, []); }
      AppendAbsent([a, b, c], []);
    }
  }

  /** Merging a list into one that shares an entry, for any two distinct entries:
      `[c, s]` merged into `[s]` gives `[s, c]`. */
  lemma MergeExample(s: string, c: string)
    requires s != c
    ensures AppendAbsent([s], [c, s]) == [s, c]
  {
    calc {
      AppendAbsent([s], [c, s]);
      { assert [c, s] == [c] + [s]; AppendAbsentStep([s], c, [s]); assert c !in [s] && [s] + [c] == [s, c]; }
      AppendAbsent([s, c], [s]);
      { assert [s] == [s] + []; AppendAbsentStep([s, c], s, []); }
      AppendAbsent([s, c], []);
    }
  }
}
