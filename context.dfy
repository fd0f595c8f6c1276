/** The context string handed to the answering prompt: one entry per evidence
    document, `(filename p.page) content`, separated by blank lines. */
module Context {
  import opened Text
  import opened Documents

  const Separator: string := "\n\n"

  /** `${d.metadata?.pageNumber ?? "?"}`: a missing page is shown as "?". */
  function PageLabel(p: Option<int>): (t: string)
    ensures t == "?" <==> p.None?
  {
    match p
    case Some(n) => IntText(n)
    case None => "?"
  }

  /** One document as it appears in the context. */
  function Entry(d: Doc): (e: string)
    ensures |e| > |d.content| && e[0] == '('
    ensures e[|e| - |d.content|..] == d.content
  {
    "(" + FilenameText(d.filename) + " p." + PageLabel(d.pageNumber) + ") " + d.content
  }

  /** `parts.join(sep)`. */
  function Join(parts: seq<string>, sep: string): string {
    if parts == [] then ""
    else if |parts| == 1 then parts[0]
    else Join(parts[..|parts| - 1], sep) + sep + parts[|parts| - 1]
  }

  /** The entries of `docs`, in order. */
  function Entries(docs: seq<Doc>): (es: seq<string>)
    ensures |es| == |docs|
    ensures forall i :: 0 <= i < |docs| ==> es[i] == Entry(docs[i])
  {
    seq(|docs|, i requires 0 <= i < |docs| => Entry(docs[i]))
  }

  /** The context for the evidence set `docs`. */
  function RenderContext(docs: seq<Doc>): string {
    Join(Entries(docs), Separator)
  }

  /** Joining splits at any inner boundary: the parts appear in order, with
      exactly one separator between neighbours. */
  lemma {:induction false} JoinSplit(parts: seq<string>, sep: string, i: nat)
    requires 0 < i < |parts|
    ensures Join(parts, sep) == Join(parts[..i], sep) + sep + Join(parts[i..], sep)
  {
    var n := |parts| - 1;
    if i < n {
      JoinSplit(parts[..n], sep, i);
      assert parts[..n][..i] == parts[..i];
      assert parts[i..][..|parts[i..]| - 1] == parts[..n][i..];
    } else {
      assert parts[..n] == parts[..i];
      assert parts[i..] == [parts[n]];
    }
  }

  /** The context is empty exactly when there is no evidence. */
  lemma {:induction false} ContextEmpty(docs: seq<Doc>)
    ensures RenderContext(docs) == "" <==> docs == []
  {
  }

  lemma JoinHead(parts: seq<string>, sep: string)
    requires |parts| > 1
    ensures Join(parts, sep) == parts[0] + sep + Join(parts[1..], sep)
  {
    JoinSplit(parts, sep, 1);
    assert parts[..1] == [parts[0]];
  }

  lemma JoinAt(parts: seq<string>, sep: string, i: nat)
    requires i < |parts|
    ensures var before := if i == 0 then "" else Join(parts[..i], sep) + sep;
            var after := if i == |parts| - 1 then "" else sep + Join(parts[i + 1..], sep);
            Join(parts, sep) == before + parts[i] + after
  {
    if i == 0 {
      if |parts| > 1 {
        JoinHead(parts, sep);
      }
    } else {
      JoinSplit(parts, sep, i);
      var rest := parts[i..];
      if i < |parts| - 1 {
        JoinHead(rest, sep);
        assert rest[0] == parts[i] && rest[1..] == parts[i + 1..];
      } else {
        assert rest == [parts[i]];
      }
    }
  }

  /** Entry `i` of the context sits between the entries before it and the
      entries after it, in evidence order. */
  lemma ContextAt(docs: seq<Doc>, i: nat)
    requires i < |docs|
    ensures var before := if i == 0 then "" else RenderContext(docs[..i]) + Separator;
            var after := if i == |docs| - 1 then "" else Separator + RenderContext(docs[i + 1..]);
            RenderContext(docs) == before + Entry(docs[i]) + after
  {
    var es := Entries(docs);
    assert Entries(docs[..i]) == es[..i];
    assert Entries(docs[i + 1..]) == es[i + 1..];
    JoinAt(es, Separator, i);
  }
}
