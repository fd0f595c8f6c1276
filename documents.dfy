/** The records the evidence-assembly stage works on: a retrieved chunk (`Doc`),
    the citation unit (`Source`) and the excerpt shown in the sources drawer
    (`Snippet`), together with the string keys the stage builds from them. */
module Documents {
  import opened Text

  datatype Option<T> = None | Some(value: T)

  /** A retrieved chunk. `filename` is `metadata.filename`; `pageNumber` is
      `metadata.pageNumber`, where `None` is the `null` the ingestion step stores
      when the PDF loader reports no page. */
  datatype Doc = Doc(content: string, filename: Option<string>, pageNumber: Option<int>)

  datatype Source = Source(filename: string, page: int)

  datatype Snippet = Snippet(filename: string, page: int, text: string)

  /** No element occurs twice. */
  ghost predicate Distinct<T>(s: seq<T>) {
    forall i, j :: 0 <= i < j < |s| ==> s[i] != s[j]
  }

  /** Number of leading content characters that take part in the merge key. */
  const KeyContentLength: nat := 120

  const DefaultFilename: string := "document.pdf"

  /** `s.slice(0, n)`. */
  function Prefix(s: string, n: nat): (r: string)
    ensures |r| == if |s| <= n then |s| else n
    ensures r == s[..|r|]
  {
    if |s| <= n then s else s[..n]
  }

  /** `${d.metadata?.filename}`: an absent filename prints as "undefined". */
  function FilenameText(f: Option<string>): string {
    match f
    case Some(name) => name
    case None => "undefined"
  }

  /** `${d.metadata?.pageNumber}`: the stored `null` prints as "null". */
  function PageKeyText(p: Option<int>): string {
    match p
    case Some(n) => IntText(n)
    case None => "null"
  }

  /** The merge key `filename|pageNumber|first 120 characters of content`. */
  function KeyOf(d: Doc): string {
    FilenameText(d.filename) + "|" + PageKeyText(d.pageNumber) + "|" + Prefix(d.content, KeyContentLength)
  }

  /** Two chunks from the same file and page share a merge key exactly when
      their first 120 characters agree; the rest of the content is ignored. */
  lemma KeyOfSameLocation(a: Doc, b: Doc)
    requires a.filename == b.filename && a.pageNumber == b.pageNumber
    ensures KeyOf(a) == KeyOf(b) <==> Prefix(a.content, KeyContentLength) == Prefix(b.content, KeyContentLength)
  {
    var head := FilenameText(a.filename) + "|" + PageKeyText(a.pageNumber) + "|";
    if KeyOf(a) == KeyOf(b) {
      assert KeyOf(a)[|head|..] == Prefix(a.content, KeyContentLength);
      assert KeyOf(b)[|head|..] == Prefix(b.content, KeyContentLength);
    }
  }

  /** The key is plain string concatenation, so a filename containing `|` can
      make chunks from different files share a key: "a" page 1 with content
      "2|x" and "a|1" page 2 with content "x" both key as "a|1|2|x". */
  lemma KeyOfCollides()
    ensures var a := Doc("2|x", Some("a"), Some(1));
            var b := Doc("x", Some("a|1"), Some(2));
            a.filename != b.filename && KeyOf(a) == KeyOf(b)
  {
  }

  /** `(d.metadata?.filename as string) ?? "document.pdf"`. */
  function CitedFilename(d: Doc): string {
    match d.filename
    case Some(name) => name
    case None => DefaultFilename
  }

  /** `Number(d.metadata?.pageNumber ?? 0) || 0`. */
  function CitedPage(d: Doc): int {
    match d.pageNumber
    case Some(n) => n
    case None => 0
  }

  /** The citation a chunk gives rise to. */
  function SourceOf(d: Doc): Source {
    Source(CitedFilename(d), CitedPage(d))
  }

  /** The seen-set key `${filename}|${page}` used to drop repeated citations. */
  function SourceKey(s: Source): string {
    s.filename + "|" + IntText(s.page)
  }

  /** Unlike the merge key, the citation key cannot collide: the page text has
      no `|`, so the last `|` of the key separates filename from page. */
  lemma SourceKeyInjective(a: Source, b: Source)
    requires SourceKey(a) == SourceKey(b)
    ensures a == b
  {
    var k := SourceKey(a);
    var ta, tb := IntText(a.page), IntText(b.page);
    assert k[|a.filename|] == '|' && k[|b.filename|] == '|';
    assert |a.filename| == |b.filename|;
    assert a.filename == k[..|a.filename|] == b.filename;
    assert ta == k[|a.filename| + 1..] == tb;
    IntTextInjective(a.page, b.page);
  }
}
