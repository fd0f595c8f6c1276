/** The evidence-assembly stage of `askRag`: filter the HyDE matches, merge
    them with the compressed documents, and build the context, the citation
    list and the snippets; answer from the context, or fall back when there
    is no evidence. Retrieval and the language model are inputs. */
module Rag {
  import opened Text
  import opened Documents
  import opened Hyde
  import opened Merge
  import opened Context
  import opened Sources
  import opened Drawer

  const FallbackAnswer: string := "I don't know. I couldn\U{2019}t find evidence in the document."

  datatype RagResult = RagResult(answer: string, sources: seq<Source>, snippets: seq<Snippet>)

  /** Every piece of evidence was returned by the compression retriever or
      by the HyDE search with a score strictly above 0.2. */
  lemma EvidenceFromRetrievers(compressed: seq<Doc>, withScores: seq<(Doc, real)>, d: Doc)
    requires d in Evidence(compressed, Strong(withScores))
    ensures d in compressed || exists i :: 0 <= i < |withScores| && withScores[i].0 == d && withScores[i].1 > Threshold
  {
    StrongMembers(withScores, d);
  }

  /** Every snippet shown in the drawer points at a listed citation. */
  lemma SnippetsCited(docs: seq<Doc>, sources: seq<Source>)
    requires CitesExactly(sources, docs)
    ensures forall sn :: sn in Snippets(docs) ==> Source(sn.filename, sn.page) in sources
  {
  }

  /** A two-retriever example: the compression retriever returns A (x.pdf p.1) and
      B (x.pdf p.2); the HyDE search returns A again with any score, C (y.pdf
      p.1) scoring 0.5 and some D scoring 0.15. D is filtered out and the
      evidence is A, B, C. */
  lemma WorkedExampleEvidence(ca: string, cb: string, cc: string, scoreA: real, d: Doc)
    ensures var a, b, c := Doc(ca, Some("x.pdf"), Some(1)), Doc(cb, Some("x.pdf"), Some(2)), Doc(cc, Some("y.pdf"), Some(1));
            Evidence([a, b], Strong([(a, scoreA), (c, 0.5), (d, 0.15)])) == [a, b, c]
  {
    var a, b, c := Doc(ca, Some("x.pdf"), Some(1)), Doc(cb, Some("x.pdf"), Some(2)), Doc(cc, Some("y.pdf"), Some(1));
    ExampleKeys(a, b, c);
    ExampleFilter(a, scoreA, c, d);
    if scoreA > Threshold {
      MergeScenario(a, b, c);
    } else {
      MergeScenarioNoRepeat(a, b, c);
    }
  }

  lemma ExampleFilter(a: Doc, scoreA: real, c: Doc, d: Doc)
    ensures Strong([(a, scoreA), (c, 0.5), (d, 0.15)]) == if scoreA > Threshold then [a, c] else [c]
  {
    var ws := [(a, scoreA), (c, 0.5), (d, 0.15)];
    assert Strong(ws[2..]) == [] by {
      assert ws[2..] == [(d, 0.15)];
      StrongSingle((d, 0.15));
    }
    assert ws[1..][1..] == ws[2..];
    assert Strong(ws[1..]) == [c];
  }

  /** The citations in that two-retriever example: every sorted list that cites exactly
      A, B and C, which is what `BuildSources` returns for them, is
      (x.pdf, 1), (x.pdf, 2), (y.pdf, 1). */
  lemma WorkedExampleSources(ca: string, cb: string, cc: string, sources: seq<Source>)
    ensures var a, b, c := Doc(ca, Some("x.pdf"), Some(1)), Doc(cb, Some("x.pdf"), Some(2)), Doc(cc, Some("y.pdf"), Some(1));
            Sorted(sources) && CitesExactly(sources, [a, b, c]) ==>
              sources == [Source("x.pdf", 1), Source("x.pdf", 2), Source("y.pdf", 1)]
  {
    var a, b, c := Doc(ca, Some("x.pdf"), Some(1)), Doc(cb, Some("x.pdf"), Some(2)), Doc(cc, Some("y.pdf"), Some(1));
    var expected := [Source("x.pdf", 1), Source("x.pdf", 2), Source("y.pdf", 1)];
    if Sorted(sources) && CitesExactly(sources, [a, b, c]) {
      assert SourceOf(a) == expected[0] && SourceOf(b) == expected[1] && SourceOf(c) == expected[2];
      assert StrLess("x.pdf", "y.pdf");
      assert Sorted(expected);
      forall x ensures x in sources <==> x in expected {
        if x in expected {
          var k :| 0 <= k < 3 && expected[k] == x;
          assert SourceOf([a, b, c][k]) == x;
        }
      }
      SortedUnique(sources, expected);
    }
  }

  lemma ExampleKeys(a: Doc, b: Doc, c: Doc)
    requires a.filename == Some("x.pdf") && a.pageNumber == Some(1)
    requires b.filename == Some("x.pdf") && b.pageNumber == Some(2)
    requires c.filename == Some("y.pdf") && c.pageNumber == Some(1)
    ensures KeyOf(a) != KeyOf(b) && KeyOf(a) != KeyOf(c) && KeyOf(b) != KeyOf(c)
  {
    assert IntText(1) == "1" && IntText(2) == "2";
    assert KeyOf(a)[6] == '1' && KeyOf(b)[6] == '2';
    assert KeyOf(a)[0] == 'x' && KeyOf(b)[0] == 'x' && KeyOf(c)[0] == 'y';
  }

  /** `compressed` is what the compression retriever returned for the
      question, `withScores` what the similarity search returned for the
      hypothetical answer, and `generate(question, context)` stands for the
      prompt and the model call. */
  method AskRag(question: string, compressed: seq<Doc>, withScores: seq<(Doc, real)>,
                generate: (string, string) -> string)
    returns (result: RagResult)
    ensures Sorted(result.sources) && CitesExactly(result.sources, Evidence(compressed, Strong(withScores)))
    ensures result.snippets == Snippets(Evidence(compressed, Strong(withScores)))
    ensures forall sn :: sn in result.snippets ==> Source(sn.filename, sn.page) in result.sources
    ensures Evidence(compressed, Strong(withScores)) == [] <==> result.sources == []
    ensures Evidence(compressed, Strong(withScores)) == [] ==> result == RagResult(FallbackAnswer, [], [])
    ensures Evidence(compressed, Strong(withScores)) != [] ==>
              result.answer == generate(question, RenderContext(Evidence(compressed, Strong(withScores))))
  {
    var hydeStrong := Strong(withScores);
    var docs := MergeEvidence(compressed, hydeStrong);
    var context := RenderContext(docs);
    var sources := BuildSources(docs);
    var snippets := Snippets(docs);
    SnippetsCited(docs, sources);
    if |sources| == 0 {
      return RagResult(FallbackAnswer, sources, snippets);
    }
    result := RagResult(generate(question, context), sources, snippets);
  }
}
