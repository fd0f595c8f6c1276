/** The citation list: one `Source` per distinct (filename, page) among the
    evidence documents, sorted by filename and then by page. */
module Sources {
  import opened Text
  import opened Documents

  /** The comparator `a.filename.localeCompare(b.filename) || a.page - b.page`
      is negative exactly when `SourceLess(a, b)`. */
  predicate SourceLess(a: Source, b: Source) {
    StrLess(a.filename, b.filename) || (a.filename == b.filename && a.page < b.page)
  }

  lemma SourceLessIrreflexive(a: Source)
    ensures !SourceLess(a, a)
  {
    StrLessIrreflexive(a.filename);
  }

  lemma SourceLessTransitive(a: Source, b: Source, c: Source)
    requires SourceLess(a, b) && SourceLess(b, c)
    ensures SourceLess(a, c)
  {
    if StrLess(a.filename, b.filename) && StrLess(b.filename, c.filename) {
      StrLessTransitive(a.filename, b.filename, c.filename);
    }
  }

  /** The comparator is a strict total order: it never calls two different
      citations equal. */
  lemma SourceLessTotal(a: Source, b: Source)
    requires a != b
    ensures SourceLess(a, b) || SourceLess(b, a)
  {
    if a.filename != b.filename {
      StrLessTotal(a.filename, b.filename);
    }
  }

  /** No element is ordered after a later one. */
  ghost predicate NonDecreasing(s: seq<Source>) {
    forall i, j :: 0 <= i < j < |s| ==> !SourceLess(s[j], s[i])
  }

  /** Strictly increasing: sorted and without duplicates. */
  ghost predicate Sorted(s: seq<Source>) {
    forall i, j :: 0 <= i < j < |s| ==> SourceLess(s[i], s[j])
  }

  /** Placing `x` after every element it does not precede and before the
      first one it does keeps a list non-decreasing. */
  lemma InsertOrdered(r: seq<Source>, x: Source, j: nat)
    requires NonDecreasing(r) && j <= |r|
    requires forall k :: 0 <= k < j ==> !SourceLess(x, r[k])
    requires j < |r| ==> SourceLess(x, r[j])
    ensures NonDecreasing(r[..j] + [x] + r[j..])
  {
    var r' := r[..j] + [x] + r[j..];
    assert forall a :: 0 <= a < j ==> r'[a] == r[a];
    assert r'[j] == x;
    assert forall a :: j < a < |r'| ==> r'[a] == r[a - 1];
    forall a, b | 0 <= a < b < |r'| ensures !SourceLess(r'[b], r'[a]) {
      if a == j && SourceLess(r[b - 1], x) {
        if b - 1 == j {
          SourceLessTransitive(x, r[j], x);
        } else {
          SourceLessTransitive(r[b - 1], x, r[j]);
        }
        SourceLessIrreflexive(x);
      }
    }
  }

  /** Inserts `x` before the first element it precedes. */
  method Insert(r: seq<Source>, x: Source) returns (r': seq<Source>)
    requires NonDecreasing(r)
    ensures NonDecreasing(r')
    ensures multiset(r') == multiset(r) + multiset{x}
  {
    var j := 0;
    while j < |r| && !SourceLess(x, r[j])
      invariant 0 <= j <= |r|
      invariant forall k :: 0 <= k < j ==> !SourceLess(x, r[k])
    {
      j := j + 1;
    }
    InsertOrdered(r, x, j);
    r' := r[..j] + [x] + r[j..];
    assert r == r[..j] + r[j..];
  }

  /** `sources.sort(...)`, as an insertion sort: the result is a reordering
      of the input in which no element is ordered after a later one. */
  method SortSources(s: seq<Source>) returns (r: seq<Source>)
    ensures multiset(r) == multiset(s)
    ensures NonDecreasing(r)
  {
    r := [];
    for i := 0 to |s|
      invariant multiset(r) == multiset(s[..i])
      invariant NonDecreasing(r)
    {
      assert s[..i + 1] == s[..i] + [s[i]];
      r := Insert(r, s[i]);
    }
    assert s[..|s|] == s;
  }

  /** A reordering of a list without duplicates has no duplicates. */
  lemma DistinctPermutation(s: seq<Source>, r: seq<Source>)
    requires Distinct(s) && multiset(r) == multiset(s)
    ensures Distinct(r)
  {
    forall i, j | 0 <= i < j < |r| ensures r[i] != r[j] {
      if r[i] == r[j] {
        assert r == r[..j] + [r[j]] + r[j + 1..];
        assert r[i] in r[..j];
        assert multiset(r)[r[i]] >= 2;
        DistinctAtMostOnce(s, r[i]);
      }
    }
  }

  lemma {:induction false} DistinctAtMostOnce(s: seq<Source>, x: Source)
    requires Distinct(s)
    ensures multiset(s)[x] <= 1
  {
    if s != [] {
      var n := |s| - 1;
      assert s == s[..n] + [s[n]];
      DistinctAtMostOnce(s[..n], x);
      if x == s[n] {
        assert x !in s[..n];
      }
    }
  }

  /** Sorting a list without duplicates leaves it strictly increasing. */
  lemma NonDecreasingDistinct(r: seq<Source>)
    requires NonDecreasing(r) && Distinct(r)
    ensures Sorted(r)
  {
    forall i, j | 0 <= i < j < |r| ensures SourceLess(r[i], r[j]) {
      SourceLessTotal(r[i], r[j]);
    }
  }

  lemma HeadListed(b: seq<Source>)
    ensures b != [] ==> b[0] in b
  {
  }

  /** Two strictly increasing lists with the same elements are equal, so the
      citation list is fully determined by the set of citations. */
  lemma {:induction false} SortedUnique(a: seq<Source>, b: seq<Source>)
    requires Sorted(a) && Sorted(b)
    requires forall x :: x in a <==> x in b
    ensures a == b
  {
    if a == [] {
      HeadListed(b);
    } else {
      assert b != [] by {
        assert a[0] in b;
      }
      assert a[0] in b;
      assert b[0] in a;
      if a[0] != b[0] {
        var m :| 0 < m < |a| && a[m] == b[0];
        var k :| 0 < k < |b| && b[k] == a[0];
        SourceLessTransitive(a[0], a[m], a[0]);
        SourceLessIrreflexive(a[0]);
      } else {
        forall x ensures x in a[1..] <==> x in b[1..] {
          if x in a[1..] {
            var m :| 1 <= m < |a| && a[m] == x;
            assert SourceLess(a[0], x);
            SourceLessIrreflexive(x);
            assert x in b;
          }
          if x in b[1..] {
            var m :| 1 <= m < |b| && b[m] == x;
            assert SourceLess(b[0], x);
            SourceLessIrreflexive(x);
            assert x in a;
          }
        }
        SortedUnique(a[1..], b[1..]);
        assert a == [a[0]] + a[1..] && b == [b[0]] + b[1..];
      }
    }
  }

  /** `sources` lists the citations of `docs` and nothing else. */
  ghost predicate CitesExactly(sources: seq<Source>, docs: seq<Doc>) {
    forall x :: x in sources <==> exists k :: 0 <= k < |docs| && SourceOf(docs[k]) == x
  }

  /** The seen-set `seen` holds the keys of the citations listed so far. */
  function KeySet(s: seq<Source>): (keys: set<string>)
    ensures forall x :: x in s ==> SourceKey(x) in keys
  {
    if s == [] then {} else KeySet(s[..|s| - 1]) + {SourceKey(s[|s| - 1])}
  }

  /** Because the key is injective, a key is seen exactly when its citation
      was already listed. */
  lemma {:induction false} KeySetMember(s: seq<Source>, x: Source)
    ensures SourceKey(x) in KeySet(s) <==> x in s
  {
    if s != [] {
      var n := |s| - 1;
      assert s == s[..n] + [s[n]];
      KeySetMember(s[..n], x);
      if SourceKey(x) == SourceKey(s[n]) {
        SourceKeyInjective(x, s[n]);
      }
    }
  }

  /** The citations of `docs` in order of first appearance, each once. */
  function Citations(docs: seq<Doc>): (cs: seq<Source>)
    ensures Distinct(cs)
    ensures forall x :: x in cs <==> exists k :: 0 <= k < |docs| && SourceOf(docs[k]) == x
  {
    if docs == [] then []
    else
      var n := |docs| - 1;
      var rest := Citations(docs[..n]);
      assert forall k :: 0 <= k < n ==> docs[..n][k] == docs[k];
      if SourceOf(docs[n]) in rest then rest else rest + [SourceOf(docs[n])]
  }

  lemma CitationsStep(docs: seq<Doc>, i: nat)
    requires i < |docs|
    ensures Citations(docs[..i + 1]) ==
              if SourceOf(docs[i]) in Citations(docs[..i]) then Citations(docs[..i])
              else Citations(docs[..i]) + [SourceOf(docs[i])]
  {
    assert docs[..i + 1][..i] == docs[..i];
  }

  lemma KeySetSnoc(s: seq<Source>, x: Source)
    ensures KeySet(s + [x]) == KeySet(s) + {SourceKey(x)}
  {
    assert (s + [x])[..|s|] == s;
  }

  /** The loop over the evidence set with the `seen` set: each citation is
      listed the first time it occurs. */
  method CollectCitations(docs: seq<Doc>) returns (listed: seq<Source>)
    ensures listed == Citations(docs)
  {
    var seen: set<string> := {};
    listed := [];
    for i := 0 to |docs|
      invariant listed == Citations(docs[..i])
      invariant seen == KeySet(listed)
    {
      var d := docs[i];
      var s := SourceOf(d);
      var key := SourceKey(s);
      CitationsStep(docs, i);
      KeySetMember(listed, s);
      KeySetSnoc(listed, s);
      if key in seen {
        continue;
      }
      seen := seen + {key};
      listed := listed + [s];
    }
    assert docs[..|docs|] == docs;
  }

  lemma PermutationMembers(a: seq<Source>, b: seq<Source>)
    requires multiset(a) == multiset(b)
    ensures forall x :: x in a <==> x in b
  {
    forall x ensures x in a <==> x in b {
      assert x in a <==> x in multiset(a);
      assert x in b <==> x in multiset(b);
    }
  }

  /** The dedupe loop and the sort: every document of the evidence set is
      cited, nothing else is, no citation appears twice, and the list is
      ordered by filename and then page. */
  method BuildSources(docs: seq<Doc>) returns (sources: seq<Source>)
    ensures Sorted(sources)
    ensures CitesExactly(sources, docs)
    ensures |sources| == 0 <==> |docs| == 0
  {
    var listed := CollectCitations(docs);
    sources := SortSources(listed);
    DistinctPermutation(listed, sources);
    NonDecreasingDistinct(sources);
    PermutationMembers(sources, listed);
    if |docs| > 0 {
      assert SourceOf(docs[0]) in listed;
    }
  }
}
