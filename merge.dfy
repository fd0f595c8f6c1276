/** Merge and dedupe of the two retrieval results into the evidence set.

    The source inserts every compressed document into an insertion-ordered
    `Map` keyed by `keyOf`, then every strong HyDE match whose key is not yet
    present, and keeps the first eight values. `MergeEvidence` does exactly that
    with the map's key order (`order`) and contents (`keyed`) as two variables.
    `Evidence` describes the same result without any map: one entry per distinct
    key, in order of first appearance across both lists, holding the LAST
    compressed document with that key or else the FIRST HyDE match with it.

    The map machinery is stated for any key function `key`; the pipeline uses
    `Documents.KeyOf`. */
module Merge {
  import opened Documents

  /** Cap on the size of the evidence set. */
  const MaxEvidence: nat := 8

  function KeysOf(key: Doc -> string, docs: seq<Doc>): (keys: seq<string>)
    ensures |keys| == |docs|
    ensures forall i :: 0 <= i < |docs| ==> keys[i] == key(docs[i])
  {
    seq(|docs|, i requires 0 <= i < |docs| => key(docs[i]))
  }

  lemma KeysOfSnoc(key: Doc -> string, docs: seq<Doc>, d: Doc)
    ensures KeysOf(key, docs + [d]) == KeysOf(key, docs) + [key(d)]
  {
  }

  /** The distinct elements of `s` in order of first occurrence. */
  function Dedup(s: seq<string>): (r: seq<string>)
    ensures Distinct(r)
    ensures forall x :: x in r <==> x in s
    ensures |r| <= |s|
  {
    if s == [] then []
    else
      var rest := Dedup(s[..|s| - 1]);
      if s[|s| - 1] in rest then rest else rest + [s[|s| - 1]]
  }

  lemma DedupSnoc(s: seq<string>, x: string)
    ensures Dedup(s + [x]) == if x in Dedup(s) then Dedup(s) else Dedup(s) + [x]
  {
    assert (s + [x])[..|s|] == s;
  }

  /** Position of the first occurrence of `x` in `s`. */
  function IndexOf(s: seq<string>, x: string): (i: nat)
    requires x in s
    ensures i < |s| && s[i] == x && x !in s[..i]
  {
    if s[0] == x then 0 else 1 + IndexOf(s[1..], x)
  }

  lemma {:induction false} IndexOfAppend(a: seq<string>, b: seq<string>, x: string)
    requires x in a + b
    ensures x in a ==> IndexOf(a + b, x) == IndexOf(a, x)
    ensures x !in a ==> IndexOf(a + b, x) == |a| + IndexOf(b, x)
  {
    if a != [] && a[0] != x {
      assert (a + b)[1..] == a[1..] + b;
      IndexOfAppend(a[1..], b, x);
    } else if a == [] {
      assert a + b == b;
    }
  }

  /** Dedup lists the distinct elements in the order they first occur. */
  lemma {:induction false} DedupOrder(s: seq<string>)
    ensures forall i, j :: 0 <= i < j < |Dedup(s)| ==> IndexOf(s, Dedup(s)[i]) < IndexOf(s, Dedup(s)[j])
  {
    if s != [] {
      var n := |s| - 1;
      var p := s[..n];
      assert s == p + [s[n]];
      DedupOrder(p);
      DedupSnoc(p, s[n]);
      var r := Dedup(s);
      forall i, j | 0 <= i < j < |r| ensures IndexOf(s, r[i]) < IndexOf(s, r[j]) {
        IndexOfAppend(p, [s[n]], r[i]);
        IndexOfAppend(p, [s[n]], r[j]);
      }
    }
  }

  /** The last document of `docs` with key `k`: what `Map.set` leaves stored
      after every document of `docs` has been set in turn. */
  function LastWithKey(key: Doc -> string, docs: seq<Doc>, k: string): (d: Doc)
    requires k in KeysOf(key, docs)
    ensures key(d) == k && d in docs
  {
    var n := |docs| - 1;
    assert docs == docs[..n] + [docs[n]];
    KeysOfSnoc(key, docs[..n], docs[n]);
    if key(docs[n]) == k then docs[n] else LastWithKey(key, docs[..n], k)
  }

  lemma LastWithKeySnoc(key: Doc -> string, docs: seq<Doc>, d: Doc, k: string)
    requires k in KeysOf(key, docs + [d])
    ensures LastWithKey(key, docs + [d], k) == if key(d) == k then d else LastWithKey(key, docs, k)
  {
    assert (docs + [d])[..|docs|] == docs;
    KeysOfSnoc(key, docs, d);
  }

  /** No document after the one LastWithKey picks has the same key. */
  lemma {:induction false} LastWithKeyIsLast(key: Doc -> string, docs: seq<Doc>, k: string)
    requires k in KeysOf(key, docs)
    ensures exists i :: 0 <= i < |docs| && docs[i] == LastWithKey(key, docs, k) &&
              forall j :: i < j < |docs| ==> key(docs[j]) != k
  {
    var n := |docs| - 1;
    assert docs == docs[..n] + [docs[n]];
    KeysOfSnoc(key, docs[..n], docs[n]);
    if key(docs[n]) != k {
      LastWithKeyIsLast(key, docs[..n], k);
      var i :| 0 <= i < n && docs[..n][i] == LastWithKey(key, docs[..n], k) &&
               forall j :: i < j < n ==> key(docs[..n][j]) != k;
      assert forall j :: i < j < n ==> docs[..n][j] == docs[j];
    }
  }

  /** The first document of `docs` with key `k`: the only one a `has`-guarded
      `set` ever stores. */
  function FirstWithKey(key: Doc -> string, docs: seq<Doc>, k: string): (d: Doc)
    requires k in KeysOf(key, docs)
    ensures key(d) == k && d in docs
  {
    var n := |docs| - 1;
    assert docs == docs[..n] + [docs[n]];
    KeysOfSnoc(key, docs[..n], docs[n]);
    if k in KeysOf(key, docs[..n]) then FirstWithKey(key, docs[..n], k) else docs[n]
  }

  lemma FirstWithKeySnoc(key: Doc -> string, docs: seq<Doc>, d: Doc, k: string)
    requires k in KeysOf(key, docs + [d])
    ensures FirstWithKey(key, docs + [d], k) == if k in KeysOf(key, docs) then FirstWithKey(key, docs, k) else d
  {
    assert (docs + [d])[..|docs|] == docs;
    KeysOfSnoc(key, docs, d);
  }

  /** No document before the one FirstWithKey picks has the same key. */
  lemma {:induction false} FirstWithKeyIsFirst(key: Doc -> string, docs: seq<Doc>, k: string)
    requires k in KeysOf(key, docs)
    ensures exists i :: 0 <= i < |docs| && docs[i] == FirstWithKey(key, docs, k) &&
              forall j :: 0 <= j < i ==> key(docs[j]) != k
  {
    var n := |docs| - 1;
    assert docs == docs[..n] + [docs[n]];
    KeysOfSnoc(key, docs[..n], docs[n]);
    if k in KeysOf(key, docs[..n]) {
      FirstWithKeyIsFirst(key, docs[..n], k);
      var i :| 0 <= i < n && docs[..n][i] == FirstWithKey(key, docs[..n], k) &&
               forall j :: 0 <= j < i ==> key(docs[..n][j]) != k;
      assert forall j :: 0 <= j < i ==> docs[..n][j] == docs[j];
    } else {
      assert forall j :: 0 <= j < n ==> KeysOf(key, docs[..n])[j] == key(docs[j]);
    }
  }

  /** The document the merge keeps for key `k`: compressed documents take
      precedence over HyDE matches. */
  function Chosen(key: Doc -> string, compressed: seq<Doc>, strong: seq<Doc>, k: string): (d: Doc)
    requires k in KeysOf(key, compressed) || k in KeysOf(key, strong)
    ensures key(d) == k
  {
    if k in KeysOf(key, compressed) then LastWithKey(key, compressed, k) else FirstWithKey(key, strong, k)
  }

  /** All merge keys, in order of first appearance. */
  function MergedKeys(key: Doc -> string, compressed: seq<Doc>, strong: seq<Doc>): seq<string> {
    Dedup(KeysOf(key, compressed) + KeysOf(key, strong))
  }

  /** The merged list before the cap. */
  function Merged(key: Doc -> string, compressed: seq<Doc>, strong: seq<Doc>): (m: seq<Doc>)
    ensures |m| == |MergedKeys(key, compressed, strong)|
    ensures forall j :: 0 <= j < |m| ==> key(m[j]) == MergedKeys(key, compressed, strong)[j]
  {
    var keys := MergedKeys(key, compressed, strong);
    assert forall j :: 0 <= j < |keys| ==> keys[j] in KeysOf(key, compressed) + KeysOf(key, strong);
    seq(|keys|, j requires 0 <= j < |keys| => Chosen(key, compressed, strong, keys[j]))
  }

  /** The evidence set: the merged list cut to its first eight entries. No two
      entries share a key, and each one was retrieved by one of the two searches. */
  function Evidence(compressed: seq<Doc>, strong: seq<Doc>): (ev: seq<Doc>)
    ensures |ev| <= MaxEvidence
    ensures forall i, j :: 0 <= i < j < |ev| ==> KeyOf(ev[i]) != KeyOf(ev[j])
    ensures forall d :: d in ev ==> d in compressed || d in strong
  {
    var m := Merged(KeyOf, compressed, strong);
    assert forall j :: 0 <= j < |m| ==> m[j] in compressed || m[j] in strong by {
      forall j | 0 <= j < |m| ensures m[j] in compressed || m[j] in strong {
        var k := MergedKeys(KeyOf, compressed, strong)[j];
        assert k in KeysOf(KeyOf, compressed) + KeysOf(KeyOf, strong);
      }
    }
    if |m| <= MaxEvidence then m else m[..MaxEvidence]
  }

  /** The keys of the merged list follow the order in which the keys first
      appear in the compressed list followed by the HyDE list. */
  lemma MergedOrder(key: Doc -> string, compressed: seq<Doc>, strong: seq<Doc>)
    ensures var all := KeysOf(key, compressed) + KeysOf(key, strong);
            var m := Merged(key, compressed, strong);
            forall i, j :: 0 <= i < j < |m| ==>
              key(m[i]) in all && key(m[j]) in all && IndexOf(all, key(m[i])) < IndexOf(all, key(m[j]))
  {
    DedupOrder(KeysOf(key, compressed) + KeysOf(key, strong));
  }

  /** Every entry keyed from the compressed list comes before every entry that
      only the HyDE list supplied; among the former, keys keep the order of
      their first occurrence in the compressed list. */
  lemma MergedCompressedFirst(key: Doc -> string, compressed: seq<Doc>, strong: seq<Doc>)
    ensures var ck := KeysOf(key, compressed);
            var m := Merged(key, compressed, strong);
            forall i, j :: 0 <= i < |m| && 0 <= j < |m| && key(m[i]) in ck && key(m[j]) !in ck ==> i < j
    ensures var ck := KeysOf(key, compressed);
            var m := Merged(key, compressed, strong);
            forall i, j :: 0 <= i < j < |m| && key(m[i]) in ck && key(m[j]) in ck ==>
              IndexOf(ck, key(m[i])) < IndexOf(ck, key(m[j]))
  {
    var ck, sk := KeysOf(key, compressed), KeysOf(key, strong);
    var m := Merged(key, compressed, strong);
    MergedOrder(key, compressed, strong);
    forall i, j | 0 <= i < |m| && 0 <= j < |m| && key(m[i]) in ck && key(m[j]) !in ck
      ensures i < j
    {
      IndexOfAppend(ck, sk, key(m[i]));
      IndexOfAppend(ck, sk, key(m[j]));
    }
    forall i, j | 0 <= i < j < |m| && key(m[i]) in ck && key(m[j]) in ck
      ensures IndexOf(ck, key(m[i])) < IndexOf(ck, key(m[j]))
    {
      IndexOfAppend(ck, sk, key(m[i]));
      IndexOfAppend(ck, sk, key(m[j]));
    }
  }

  /** An entry whose key occurs in the compressed list is the LAST compressed
      document with that key (a HyDE match never replaces it); any other entry
      is the FIRST HyDE match with its key. */
  lemma MergedEntry(key: Doc -> string, compressed: seq<Doc>, strong: seq<Doc>, j: nat)
    requires j < |Merged(key, compressed, strong)|
    ensures var d := Merged(key, compressed, strong)[j];
            key(d) in KeysOf(key, compressed) ==>
              exists i :: 0 <= i < |compressed| && compressed[i] == d &&
                forall i' :: i < i' < |compressed| ==> key(compressed[i']) != key(d)
    ensures var d := Merged(key, compressed, strong)[j];
            key(d) !in KeysOf(key, compressed) ==>
              exists i :: 0 <= i < |strong| && strong[i] == d &&
                forall i' :: 0 <= i' < i ==> key(strong[i']) != key(d)
  {
    var k := MergedKeys(key, compressed, strong)[j];
    assert k in KeysOf(key, compressed) + KeysOf(key, strong);
    if k in KeysOf(key, compressed) {
      LastWithKeyIsLast(key, compressed, k);
    } else {
      FirstWithKeyIsFirst(key, strong, k);
    }
  }

  /** Every retrieved key is represented in the merged list. */
  lemma MergedComplete(key: Doc -> string, compressed: seq<Doc>, strong: seq<Doc>, d: Doc)
    requires d in compressed || d in strong
    ensures exists j :: 0 <= j < |Merged(key, compressed, strong)| && key(Merged(key, compressed, strong)[j]) == key(d)
  {
    var keys := MergedKeys(key, compressed, strong);
    if d in compressed {
      var i :| 0 <= i < |compressed| && compressed[i] == d;
      assert KeysOf(key, compressed)[i] == key(d);
      assert key(d) in KeysOf(key, compressed) + KeysOf(key, strong);
    } else {
      var i :| 0 <= i < |strong| && strong[i] == d;
      assert KeysOf(key, strong)[i] == key(d);
      assert key(d) in KeysOf(key, compressed) + KeysOf(key, strong);
    }
    assert key(d) in keys;
    var j :| 0 <= j < |keys| && keys[j] == key(d);
    assert key(Merged(key, compressed, strong)[j]) == key(d);
  }

  /** The evidence set is the first `min(8, n)` entries of the merged list,
      where `n` is the number of distinct keys retrieved; in particular it
      holds all of them when there are at most eight. */
  lemma EvidenceIsCappedMerge(compressed: seq<Doc>, strong: seq<Doc>)
    ensures var m := Merged(KeyOf, compressed, strong);
            var ev := Evidence(compressed, strong);
            |ev| == (if |m| <= MaxEvidence then |m| else MaxEvidence) && ev == m[..|ev|]
    ensures |Evidence(compressed, strong)| == (if |MergedKeys(KeyOf, compressed, strong)| <= MaxEvidence
                                               then |MergedKeys(KeyOf, compressed, strong)| else MaxEvidence)
  {
  }

  /** Nothing retrieved is lost unless the cap cuts it: when at most eight
      distinct keys were retrieved, every retrieved document's key is in the
      evidence set. */
  lemma EvidenceComplete(compressed: seq<Doc>, strong: seq<Doc>, d: Doc)
    requires d in compressed || d in strong
    requires |MergedKeys(KeyOf, compressed, strong)| <= MaxEvidence
    ensures exists j :: 0 <= j < |Evidence(compressed, strong)| && KeyOf(Evidence(compressed, strong)[j]) == KeyOf(d)
  {
    EvidenceIsCappedMerge(compressed, strong);
    MergedComplete(KeyOf, compressed, strong, d);
    var j :| 0 <= j < |Merged(KeyOf, compressed, strong)| && KeyOf(Merged(KeyOf, compressed, strong)[j]) == KeyOf(d);
    assert Evidence(compressed, strong)[j] == Merged(KeyOf, compressed, strong)[j];
  }

  /** Precedence in the evidence set: entries keyed from the compressed list
      come first, in the order their keys first occur there; the HyDE-only
      entries follow. */
  lemma EvidenceCompressedFirst(compressed: seq<Doc>, strong: seq<Doc>)
    ensures var ck := KeysOf(KeyOf, compressed);
            var ev := Evidence(compressed, strong);
            forall i, j :: 0 <= i < |ev| && 0 <= j < |ev| && KeyOf(ev[i]) in ck && KeyOf(ev[j]) !in ck ==> i < j
    ensures var ck := KeysOf(KeyOf, compressed);
            var ev := Evidence(compressed, strong);
            forall i, j :: 0 <= i < j < |ev| && KeyOf(ev[i]) in ck && KeyOf(ev[j]) in ck ==>
              IndexOf(ck, KeyOf(ev[i])) < IndexOf(ck, KeyOf(ev[j]))
  {
    var ck := KeysOf(KeyOf, compressed);
    var m := Merged(KeyOf, compressed, strong);
    var ev := Evidence(compressed, strong);
    MergedCompressedFirst(KeyOf, compressed, strong);
    EvidenceIsCappedMerge(compressed, strong);
    assert forall i :: 0 <= i < |ev| ==> ev[i] == m[i];
  }

  /** Which document an evidence entry holds: for a key found in the compressed
      list, the last compressed document with it (a repeated key keeps the
      position of its first occurrence but the value of its last, and a HyDE
      match never displaces it); otherwise the first HyDE match with it. */
  lemma EvidenceEntry(compressed: seq<Doc>, strong: seq<Doc>, j: nat)
    requires j < |Evidence(compressed, strong)|
    ensures var d := Evidence(compressed, strong)[j];
            KeyOf(d) in KeysOf(KeyOf, compressed) ==>
              exists i :: 0 <= i < |compressed| && compressed[i] == d &&
                forall i' :: i < i' < |compressed| ==> KeyOf(compressed[i']) != KeyOf(d)
    ensures var d := Evidence(compressed, strong)[j];
            KeyOf(d) !in KeysOf(KeyOf, compressed) ==>
              exists i :: 0 <= i < |strong| && strong[i] == d &&
                forall i' :: 0 <= i' < i ==> KeyOf(strong[i']) != KeyOf(d)
  {
    EvidenceIsCappedMerge(compressed, strong);
    MergedEntry(KeyOf, compressed, strong, j);
  }

  lemma ScenarioKeys(ka: string, kb: string, kc: string)
    requires ka != kb && ka != kc && kb != kc
    ensures Dedup([ka, kb, ka, kc]) == [ka, kb, kc]
  {
    var s1, s2, s3, s4 := [ka], [ka, kb], [ka, kb, ka], [ka, kb, ka, kc];
    assert Dedup(s1) == [ka] by {
      assert s1[..0] == [];
    }
    assert Dedup(s2) == [ka, kb] by {
      assert s2[..1] == s1;
    }
    assert Dedup(s3) == [ka, kb] by {
      assert s3[..2] == s2;
    }
    assert Dedup(s4) == [ka, kb, kc] by {
      assert s4[..3] == s3;
    }
  }

  lemma ScenarioValues(key: Doc -> string, a: Doc, b: Doc, c: Doc)
    requires key(a) != key(b) && key(a) != key(c) && key(b) != key(c)
    ensures key(a) in KeysOf(key, [a, b]) && LastWithKey(key, [a, b], key(a)) == a
    ensures key(b) in KeysOf(key, [a, b]) && LastWithKey(key, [a, b], key(b)) == b
    ensures key(c) !in KeysOf(key, [a, b]) && key(c) in KeysOf(key, [a, c]) && FirstWithKey(key, [a, c], key(c)) == c
  {
    assert KeysOf(key, [a, b]) == [key(a), key(b)];
    assert KeysOf(key, [a, c]) == [key(a), key(c)];
    assert [a, b] == [a] + [b];
    LastWithKeySnoc(key, [a], b, key(a));
    LastWithKeySnoc(key, [a], b, key(b));
    assert [a, c] == [a] + [c];
    FirstWithKeySnoc(key, [a], c, key(c));
  }

  lemma MergedScenario(key: Doc -> string, a: Doc, b: Doc, c: Doc)
    requires key(a) != key(b) && key(a) != key(c) && key(b) != key(c)
    ensures Merged(key, [a, b], [a, c]) == [a, b, c]
  {
    assert KeysOf(key, [a, b]) + KeysOf(key, [a, c]) == [key(a), key(b), key(a), key(c)];
    ScenarioKeys(key(a), key(b), key(c));
    ScenarioValues(key, a, b, c);
    var m := Merged(key, [a, b], [a, c]);
    assert m[0] == Chosen(key, [a, b], [a, c], key(a));
    assert m[1] == Chosen(key, [a, b], [a, c], key(b));
    assert m[2] == Chosen(key, [a, b], [a, c], key(c));
  }

  /** The two-retriever scenario: compressed A, B and HyDE A, C with three
      distinct keys merge to A, B, C. */
  lemma MergeScenario(a: Doc, b: Doc, c: Doc)
    requires KeyOf(a) != KeyOf(b) && KeyOf(a) != KeyOf(c) && KeyOf(b) != KeyOf(c)
    ensures Evidence([a, b], [a, c]) == [a, b, c]
  {
    MergedScenario(KeyOf, a, b, c);
  }

  lemma MergedScenarioNoRepeat(key: Doc -> string, a: Doc, b: Doc, c: Doc)
    requires key(a) != key(b) && key(a) != key(c) && key(b) != key(c)
    ensures Merged(key, [a, b], [c]) == [a, b, c]
  {
    var ka, kb, kc := key(a), key(b), key(c);
    assert KeysOf(key, [a, b]) + KeysOf(key, [c]) == [ka, kb, kc];
    var s2, s3 := [ka, kb], [ka, kb, kc];
    assert Dedup(s2) == [ka, kb] by {
      ScenarioKeys(ka, kb, kc);
      assert [ka, kb, ka][..2] == s2;
    }
    assert Dedup(s3) == [ka, kb, kc] by {
      assert s3[..2] == s2;
    }
    ScenarioValues(key, a, b, c);
    assert KeysOf(key, [c]) == [kc];
    assert FirstWithKey(key, [c], kc) == c by {
      assert [c][..0] == [];
    }
    var m := Merged(key, [a, b], [c]);
    assert m[0] == Chosen(key, [a, b], [c], ka);
    assert m[1] == Chosen(key, [a, b], [c], kb);
    assert m[2] == Chosen(key, [a, b], [c], kc);
  }

  /** The same scenario when the HyDE search's copy of A was filtered out:
      compressed A, B and HyDE C still merge to A, B, C. */
  lemma MergeScenarioNoRepeat(a: Doc, b: Doc, c: Doc)
    requires KeyOf(a) != KeyOf(b) && KeyOf(a) != KeyOf(c) && KeyOf(b) != KeyOf(c)
    ensures Evidence([a, b], [c]) == [a, b, c]
  {
    MergedScenarioNoRepeat(KeyOf, a, b, c);
  }

  /** What the source's `keyed` map holds once every document of `compressed`
      has been `set`: its keys in insertion order are `order`. */
  ghost predicate SetHolds(key: Doc -> string, order: seq<string>, keyed: map<string, Doc>, compressed: seq<Doc>) {
    && order == Dedup(KeysOf(key, compressed))
    && (forall k :: k in keyed <==> k in order)
    && (forall k :: k in order ==> keyed[k] == LastWithKey(key, compressed, k))
  }

  /** What `keyed` holds once, after that, every document of `strong` has been
      `set` if its key was absent. */
  ghost predicate MapHolds(key: Doc -> string, order: seq<string>, keyed: map<string, Doc>,
                           compressed: seq<Doc>, strong: seq<Doc>) {
    && order == MergedKeys(key, compressed, strong)
    && (forall k :: k in keyed <==> k in order)
    && (forall k :: k in order ==> keyed[k] == Chosen(key, compressed, strong, k))
  }

  /** `keyed.set(keyOf(d), d)` for the next compressed document `d`: a new key
      goes to the end of the order, a known key keeps its place and takes the
      new value. */
  lemma SetStep(key: Doc -> string, order: seq<string>, keyed: map<string, Doc>, compressed: seq<Doc>, i: nat)
    requires i < |compressed| && SetHolds(key, order, keyed, compressed[..i])
    ensures var k := key(compressed[i]);
            SetHolds(key, if k in keyed then order else order + [k], keyed[k := compressed[i]], compressed[..i + 1])
  {
    assert compressed[..i + 1] == compressed[..i] + [compressed[i]];
    SetOne(key, order, keyed, compressed[..i], compressed[i]);
  }

  lemma SetOne(key: Doc -> string, order: seq<string>, keyed: map<string, Doc>, done: seq<Doc>, d: Doc)
    requires SetHolds(key, order, keyed, done)
    ensures var k := key(d);
            SetHolds(key, if k in keyed then order else order + [k], keyed[k := d], done + [d])
  {
    SetOneOrder(key, order, done, d);
    SetOneValues(key, order, keyed, done, d);
  }

  lemma SetOneOrder(key: Doc -> string, order: seq<string>, done: seq<Doc>, d: Doc)
    requires order == Dedup(KeysOf(key, done))
    ensures (if key(d) in order then order else order + [key(d)]) == Dedup(KeysOf(key, done + [d]))
  {
    KeysOfSnoc(key, done, d);
    DedupSnoc(KeysOf(key, done), key(d));
  }

  lemma SetOneValues(key: Doc -> string, order: seq<string>, keyed: map<string, Doc>, done: seq<Doc>, d: Doc)
    requires SetHolds(key, order, keyed, done)
    ensures var k := key(d);
            var order' := if k in keyed then order else order + [k];
            forall k' :: k' in order' ==>
              k' in KeysOf(key, done + [d]) && keyed[k := d][k'] == LastWithKey(key, done + [d], k')
  {
    var k := key(d);
    var order' := if k in keyed then order else order + [k];
    KeysOfSnoc(key, done, d);
    forall k' | k' in order'
      ensures k' in KeysOf(key, done + [d]) && keyed[k := d][k'] == LastWithKey(key, done + [d], k')
    {
      LastWithKeySnoc(key, done, d, k');
    }
  }

  /** Before the second loop, the map holds the compressed documents alone. */
  lemma SetHoldsMapHolds(key: Doc -> string, order: seq<string>, keyed: map<string, Doc>, compressed: seq<Doc>)
    requires SetHolds(key, order, keyed, compressed)
    ensures MapHolds(key, order, keyed, compressed, [])
  {
    assert KeysOf(key, compressed) + KeysOf(key, []) == KeysOf(key, compressed);
  }

  /** `if (!keyed.has(keyOf(d))) keyed.set(keyOf(d), d)` for the next HyDE
      match `d`: a key already present is left alone. */
  lemma AddAbsentStep(key: Doc -> string, order: seq<string>, keyed: map<string, Doc>,
                      compressed: seq<Doc>, strong: seq<Doc>, i: nat)
    requires i < |strong| && MapHolds(key, order, keyed, compressed, strong[..i])
    ensures var k := key(strong[i]);
            k in keyed ==> MapHolds(key, order, keyed, compressed, strong[..i + 1])
    ensures var k := key(strong[i]);
            k !in keyed ==> MapHolds(key, order + [k], keyed[k := strong[i]], compressed, strong[..i + 1])
  {
    assert strong[..i + 1] == strong[..i] + [strong[i]];
    AddAbsentOne(key, order, keyed, compressed, strong[..i], strong[i]);
  }

  lemma AddAbsentOne(key: Doc -> string, order: seq<string>, keyed: map<string, Doc>,
                     compressed: seq<Doc>, done: seq<Doc>, d: Doc)
    requires MapHolds(key, order, keyed, compressed, done)
    ensures var k := key(d);
            k in keyed ==> MapHolds(key, order, keyed, compressed, done + [d])
    ensures var k := key(d);
            k !in keyed ==> MapHolds(key, order + [k], keyed[k := d], compressed, done + [d])
  {
    var k := key(d);
    var order' := if k in keyed then order else order + [k];
    var keyed' := if k in keyed then keyed else keyed[k := d];
    assert order' == MergedKeys(key, compressed, done + [d]) by {
      KeysOfSnoc(key, done, d);
      assert KeysOf(key, compressed) + KeysOf(key, done + [d]) == (KeysOf(key, compressed) + KeysOf(key, done)) + [k];
      DedupSnoc(KeysOf(key, compressed) + KeysOf(key, done), k);
    }
    assert forall k' :: k' in order' ==> keyed'[k'] == Chosen(key, compressed, done + [d], k') by {
      forall k' | k' in order' ensures keyed'[k'] == Chosen(key, compressed, done + [d], k') {
        KeysOfSnoc(key, done, d);
        if k' !in KeysOf(key, compressed) {
          assert k' in KeysOf(key, done + [d]);
          FirstWithKeySnoc(key, done, d, k');
        }
      }
    }
  }

  /** `Array.from(keyed.values())`: the stored values in key-insertion order. */
  function ValuesInOrder(order: seq<string>, keyed: map<string, Doc>): (values: seq<Doc>)
    requires forall k :: k in order ==> k in keyed
    ensures |values| == |order|
  {
    seq(|order|, j requires 0 <= j < |order| => keyed[order[j]])
  }

  /** Once both loops have run, the values read out are the merged list. */
  lemma MapHoldsValues(key: Doc -> string, order: seq<string>, keyed: map<string, Doc>,
                       compressed: seq<Doc>, strong: seq<Doc>)
    requires MapHolds(key, order, keyed, compressed, strong)
    ensures ValuesInOrder(order, keyed) == Merged(key, compressed, strong)
  {
  }

  /** `Map` semantics made imperative: the first loop `set`s every compressed
      document, the second `set`s a HyDE match only when its key is absent, and
      the values are read out in key-insertion order and cut to eight. */
  method MergeEvidence(compressed: seq<Doc>, strong: seq<Doc>) returns (docs: seq<Doc>)
    ensures docs == Evidence(compressed, strong)
  {
    var order: seq<string> := [];
    var keyed: map<string, Doc> := map[];
    for i := 0 to |compressed|
      invariant SetHolds(KeyOf, order, keyed, compressed[..i])
    {
      var d := compressed[i];
      var k := KeyOf(d);
      SetStep(KeyOf, order, keyed, compressed, i);
      if k !in keyed {
        order := order + [k];
      }
      keyed := keyed[k := d];
    }
    assert compressed[..|compressed|] == compressed;
    SetHoldsMapHolds(KeyOf, order, keyed, compressed);
    for i := 0 to |strong|
      invariant MapHolds(KeyOf, order, keyed, compressed, strong[..i])
    {
      var d := strong[i];
      var k := KeyOf(d);
      AddAbsentStep(KeyOf, order, keyed, compressed, strong, i);
      if k !in keyed {
        order := order + [k];
        keyed := keyed[k := d];
      }
    }
    assert strong[..|strong|] == strong;
    MapHoldsValues(KeyOf, order, keyed, compressed, strong);
    var values := ValuesInOrder(order, keyed);
    docs := if |values| <= MaxEvidence then values else values[..MaxEvidence];
  }
}
