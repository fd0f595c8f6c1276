/** Excerpts for the sources drawer: the first four evidence documents, each
    cut to 500 characters with an ellipsis marking the cut. */
module Drawer {
  import opened Documents

  const SnippetCount: nat := 4
  const ExcerptLength: nat := 500
  const Ellipsis: char := '\U{2026}'

  /** `content.slice(0, 500) + (content.length > 500 ? "…" : "")`. A cut is
      always marked: the text is 501 characters ending in the ellipsis exactly
      when the content was longer than 500; otherwise it is the content itself. */
  function Excerpt(content: string): (t: string)
    ensures |t| <= ExcerptLength + 1
    ensures |content| <= ExcerptLength ==> t == content
    ensures |content| > ExcerptLength <==> |t| == ExcerptLength + 1 && t[ExcerptLength] == Ellipsis
    ensures |content| > ExcerptLength ==> t[..ExcerptLength] == content[..ExcerptLength]
  {
    Prefix(content, ExcerptLength) + (if |content| > ExcerptLength then [Ellipsis] else [])
  }

  /** The drawer entry for one document: the same filename and page as its
      citation, and an excerpt of its text. */
  function SnippetOf(d: Doc): Snippet {
    Snippet(CitedFilename(d), CitedPage(d), Excerpt(d.content))
  }

  /** `docs.slice(0, 4).map(...)`. */
  function Snippets(docs: seq<Doc>): (r: seq<Snippet>)
    ensures |r| == if |docs| <= SnippetCount then |docs| else SnippetCount
    ensures forall i :: 0 <= i < |r| ==> r[i] == SnippetOf(docs[i])
  {
    var n := if |docs| <= SnippetCount then |docs| else SnippetCount;
    seq(n, i requires 0 <= i < n => SnippetOf(docs[i]))
  }
}
