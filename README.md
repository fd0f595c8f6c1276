# Evidence assembly in `askRag`, modelled in Dafny

`askRag` answers a question about one uploaded PDF. Two retrievals supply the
evidence:

- a contextual-compression retriever run on the question, giving the
  *compressed* chunks;
- a similarity search run on a hypothetical answer (HyDE), returning chunks
  with relevance scores.

This project models what happens between those retrievals and the final
model call.

1. **Score filter** (`Hyde`). Only HyDE matches scoring strictly above 0.2
   are kept, in the order the store returned them.
2. **Merge and dedupe** (`Merge`). Chunks are merged through an
   insertion-ordered `Map` keyed by `filename|pageNumber|first 120 characters`.
   - Every compressed chunk is `set`.
   - Then every kept HyDE match whose key is absent is `set`.
   - The first eight values form the evidence set.

   `MergeEvidence` runs the two loops over an explicit key order and key→chunk
   map. It is proved equal to `Evidence`, a map-free description: one entry per
   distinct key, in order of first appearance across both lists. Each entry
   holds the *last* compressed chunk with that key, or else the *first* kept
   HyDE match with it.
3. **Context** (`Context`). Each evidence chunk is rendered as
   `(filename p.page) content`, and the entries are joined with blank lines in
   evidence order.
4. **Citations** (`Sources`). A loop with a seen-set collects each
   `(filename, page)` once. The list is then sorted by filename and then by
   page. A missing filename is cited as `document.pdf`, a missing page as 0.
5. **Snippets** (`Drawer`). The first four evidence chunks, each cut to 500
   characters with `…` appended when it was longer.
6. **Answer or fallback** (`Rag`). With no citations, `askRag` returns the
   fixed "I don't know…" answer with empty lists and makes no model call.
   Otherwise the answer is whatever the model produced from the question and
   the context.

`Text` holds the two string facts the stage relies on: JavaScript's decimal
rendering of an integer page number, which is injective, and the
character-code order used for filenames.

Chunk metadata:

- Ingestion always stores a string `filename`. The model still allows a
  missing one (`None`) and follows what the code does with it: `undefined` in
  the merge key and the context, `document.pdf` in the citations.
- `pageNumber` is an integer or the stored `null` (`None`). It prints as
  `null` in the merge key and as `?` in the context.

Three behaviours of the code worth knowing:

- **Missing filename.** In the context, a chunk without a filename is labelled
  `undefined`. The code interpolates the raw metadata value there; only the
  citations fall back to `document.pdf`.
- **Merge-key collisions.** The merge key is plain string concatenation, so a
  filename containing `|` can give two different (filename, page, prefix)
  triples the same key. `Documents.KeyOfCollides` exhibits such a pair, and
  the merge keeps only one of them. The citation key cannot collide
  (`Documents.SourceKeyInjective`).
- **Fallback condition.** The code tests the citation list, not the evidence
  set. `Rag.AskRag` proves the two tests agree.

## Model

| member | source | states |
|---|---|---|
| `Text.IntText` | lib/rag.ts:62 | `${page}` for an integer page, also used on lines 75 and 85: non-empty decimal text containing neither the key separator nor `?`. |
| `Text.IntTextInjective` | lib/rag.ts:85 | Two different page numbers never render to the same decimal text. |
| `Text.NatTextRoundTrip` | lib/rag.ts:85 | Reading back the rendered digits of a page number gives the number back. |
| `Text.StrLess` | lib/rag.ts:91 | The definition of filename order: character-code order, with a proper prefix first. |
| `Text.StrLessTotal` | lib/rag.ts:91 | Filename comparison orders any two different filenames one way or the other. |
| `Text.StrLessTransitive` | lib/rag.ts:91 | Filename comparison is transitive. |
| `Documents.KeyOf` | lib/rag.ts:61-65 | The definition of the merge key: the filename text (`undefined` when absent), a separator, the page text (`null` when absent), a separator, and the first 120 characters of the content. |
| `Documents.CitedFilename` | lib/rag.ts:83 | The definition of the cited filename: the chunk's filename, or `document.pdf` when it has none. |
| `Documents.CitedPage` | lib/rag.ts:84 | The definition of the cited page: the chunk's page number, or 0 when it is null. |
| `Documents.SourceOf` | lib/rag.ts:83-84 | The definition of the citation a chunk gives rise to: its cited filename and cited page. |
| `Documents.SourceKey` | lib/rag.ts:85 | The definition of the seen-set key: the filename, a separator, and the decimal page text. |
| `Documents.KeyOfSameLocation` | lib/rag.ts:61-65 | Two chunks of the same file and page share a merge key exactly when their first 120 characters agree. |
| `Documents.KeyOfCollides` | lib/rag.ts:61-65 | Chunks from different files can share a merge key when a filename contains the separator character. |
| `Documents.SourceKeyInjective` | lib/rag.ts:83-87 | Equal seen-set keys (filename, separator, page text) mean equal citations, so the seen-set drops only true repeats. |
| `Hyde.Strong` | lib/rag.ts:57 | The filter itself, keeping the matches scoring above 0.2 in the store's order; it never returns more matches than the store did. |
| `Hyde.StrongMembers` | lib/rag.ts:57 | A match survives the filter exactly when the store returned it with a score strictly above 0.2. |
| `Hyde.StrongAppend` | lib/rag.ts:57 | The filter keeps the store's order: filtering a concatenation concatenates the filtered parts. |
| `Hyde.StrongDropsWeak` | lib/rag.ts:57 | A match scoring at most 0.2 (0.2 exactly, or 0.15) is removed and nothing else around it changes. |
| `Hyde.StrongKeepsAbove` | lib/rag.ts:57 | A match scoring above 0.2 stays in its place among the survivors. |
| `Merge.DedupOrder` | lib/rag.ts:66-67 | Map keys are listed in the order they were first inserted. |
| `Merge.LastWithKeyIsLast` | lib/rag.ts:66 | The chunk a repeated `set` leaves stored has no later compressed chunk with the same key. |
| `Merge.FirstWithKeyIsFirst` | lib/rag.ts:67 | The chunk the `has`-guarded `set` stores has no earlier HyDE match with the same key. |
| `Merge.SetOne` | lib/rag.ts:66 | One `keyed.set`: a new key goes last, a known key keeps its position and takes the new chunk. |
| `Merge.AddAbsentOne` | lib/rag.ts:67 | One guarded `set`: a HyDE match is added at the end only when its key is absent, and never replaces a stored chunk. |
| `Merge.MapHoldsValues` | lib/rag.ts:69 | After both loops, `Array.from(keyed.values())` is the merged list. |
| `Merge.ValuesInOrder` | lib/rag.ts:69 | `Array.from(keyed.values())`: one value per key, in key-insertion order. |
| `Merge.Evidence` | lib/rag.ts:66-69 | The evidence set has at most 8 entries and no two share a key, and each entry came from one of the two retrievals. |
| `Merge.MergeEvidence` | lib/rag.ts:60-69 | The two Map loops followed by the cut to eight produce exactly `Evidence`. |
| `Merge.MergedOrder` | lib/rag.ts:66-69 | Merged entries follow the first appearance of their keys in the compressed list and then the HyDE list. |
| `Merge.MergedCompressedFirst` | lib/rag.ts:66-67 | Entries keyed from compressed chunks precede HyDE-only entries, in the compressed list's key order. |
| `Merge.MergedEntry` | lib/rag.ts:66-67 | Each merged entry is the last compressed chunk with its key, or, if none exists, the first HyDE match with it. |
| `Merge.MergedComplete` | lib/rag.ts:66-67 | Every retrieved chunk's key is represented in the merged list. |
| `Merge.EvidenceIsCappedMerge` | lib/rag.ts:69 | The evidence set is the first min(8, number of distinct keys) merged entries. |
| `Merge.EvidenceComplete` | lib/rag.ts:66-69 | With at most eight distinct keys, every retrieved chunk's key is in the evidence set. |
| `Merge.EvidenceCompressedFirst` | lib/rag.ts:59-69 | Compressed-keyed evidence comes first, ordered by each key's first occurrence in the compressed list, so a repeated key sits at its first occurrence; HyDE-only evidence follows. |
| `Merge.EvidenceEntry` | lib/rag.ts:59-69 | An entry whose key occurs in the compressed list holds the last compressed chunk with that key, so a HyDE match never replaces it; any other entry holds the first HyDE match with its key. |
| `Merge.MergeScenario` | lib/rag.ts:66-69 | Compressed A, B and HyDE A, C with distinct keys give the evidence A, B, C. |
| `Merge.MergeScenarioNoRepeat` | lib/rag.ts:66-69 | If the HyDE copy of A was filtered out, compressed A, B and HyDE C still give the evidence A, B, C. |
| `Context.PageLabel` | lib/rag.ts:75 | The page shows as `?` exactly when the chunk has no page number. |
| `Context.Entry` | lib/rag.ts:74-75 | An entry starts with `(` and ends with the chunk's full content. |
| `Context.Join` | lib/rag.ts:77 | The definition of `join`: no parts give the empty string, one part gives itself, otherwise the parts with the separator between neighbours. |
| `Context.RenderContext` | lib/rag.ts:72-77 | The definition of the context: the entries of the evidence joined with a blank line. |
| `Context.JoinSplit` | lib/rag.ts:77 | A join splits at any inner boundary, with one separator between neighbours. |
| `Context.JoinAt` | lib/rag.ts:77 | Each part of a join sits between the parts before it and after it, separated by the separator. |
| `Context.ContextEmpty` | lib/rag.ts:72-77 | The context is empty exactly when there is no evidence. |
| `Context.ContextAt` | lib/rag.ts:72-77 | Entry i of the context sits between entries 0..i-1 and the entries after i, each group joined with blank lines, in evidence order. |
| `Sources.SourceLess` | lib/rag.ts:90-92 | The definition of the comparator's order: by filename in character-code order, then by page. |
| `Sources.SourceLessTotal` | lib/rag.ts:90-92 | The comparator puts any two different citations in a strict order. |
| `Sources.SourceLessTransitive` | lib/rag.ts:90-92 | The comparator is transitive. |
| `Sources.InsertOrdered` | lib/rag.ts:90-92 | Inserting before the first larger element keeps a list non-decreasing. |
| `Sources.Insert` | lib/rag.ts:90-92 | One insertion step keeps the list non-decreasing and adds exactly the new element. |
| `Sources.SortSources` | lib/rag.ts:90-92 | The sort returns a permutation of its input in which no element is ordered after a later one. |
| `Sources.DistinctPermutation` | lib/rag.ts:90-92 | Sorting a list without duplicates leaves no duplicates. |
| `Sources.NonDecreasingDistinct` | lib/rag.ts:90-92 | A sorted list without duplicates is strictly increasing by filename and then page. |
| `Sources.SortedUnique` | lib/rag.ts:90-92 | Two strictly increasing lists with the same citations are equal, so the sorted list is fully determined. |
| `Sources.KeySet` | lib/rag.ts:80-87 | The `seen` set after the citations listed so far: it holds the key of every one of them. |
| `Sources.KeySetMember` | lib/rag.ts:80-88 | A key is in `seen` exactly when its citation has already been pushed. |
| `Sources.Citations` | lib/rag.ts:80-89 | The deduplicated list has no repeats and holds exactly the citations of the evidence. |
| `Sources.CollectCitations` | lib/rag.ts:80-89 | The seen-set loop produces exactly the deduplicated list, in first-seen order. |
| `Sources.BuildSources` | lib/rag.ts:80-92 | The citations are strictly sorted and hold each evidence chunk's citation and nothing else; they are empty exactly when the evidence is. |
| `Drawer.Excerpt` | lib/rag.ts:98-100 | An excerpt has at most 501 characters. Content of up to 500 characters passes unchanged. The excerpt is 501 characters ending in `…` exactly when the content was longer, and then it starts with the content's first 500 characters. |
| `Drawer.SnippetOf` | lib/rag.ts:95-101 | The definition of one drawer entry: the chunk's cited filename and page, and the excerpt of its content. |
| `Drawer.Snippets` | lib/rag.ts:95-101 | There are min(4, evidence size) snippets, and snippet i is taken from evidence chunk i. |
| `Rag.EvidenceFromRetrievers` | lib/rag.ts:57-69 | Every evidence chunk was returned by the compression retriever, or by the HyDE search with a score above 0.2. |
| `Rag.SnippetsCited` | lib/rag.ts:82-101 | Every snippet's filename and page appear in the citation list. |
| `Rag.WorkedExampleEvidence` | lib/rag.ts:57-69 | Compressed A (x.pdf p.1), B (x.pdf p.2) and HyDE matches A (any score), C (y.pdf p.1, 0.5) and D (0.15) give the evidence A, B, C; D is filtered out. |
| `Rag.WorkedExampleSources` | lib/rag.ts:80-92 | For that evidence, the sorted citations that cite it exactly are (x.pdf, 1), (x.pdf, 2), (y.pdf, 1). |
| `Rag.AskRag` | lib/rag.ts:57-122 | With no evidence, the result is the fixed fallback answer with empty citations and snippets, whatever `generate` is. Because the model is a pure parameter, that independence is what "no model call" means here; there is no call count. With evidence, the answer is `generate(question, context)` on the rendered context, and it comes with the strictly sorted citations that cite exactly the evidence and the snippets, each of which is cited. |

## Left out

- Retrieval itself is an input:
  - the vector store;
  - the compression retriever with its extraction model (`k: 12`, document filter);
  - the HyDE query expansion (`expandQuery`);
  - the similarity search (`k: 8`).
- The answering model and `PromptTemplate` are the parameter
  `generate(question, context)`. The system text, the prompt layout and the
  `String(completion.content)` coercion are not modelled.
- Failures of the store or the model propagate and are not modelled, nor is
  the asynchrony.
- Scores are exact reals. The 0.2 threshold is not a double-precision float.
- `localeCompare` is modelled as plain character-code order. Locale-aware
  collation, where `localeCompare` can return 0 for different strings, is not
  modelled.
- Strings are sequences of Unicode characters. JavaScript's UTF-16 code
  units, which `slice`, `length` and `localeCompare` use, are not modelled;
  surrogate pairs would count as two.
- Page numbers are integers. `Number(...) || 0` on a non-numeric or `NaN`
  value, fractional pages, and the exponent notation of integers of 1e21 and
  above are not modelled.
- `pageNumber` is an integer or `null`. A missing `metadata` object and an
  `undefined` page number are not modelled; the ingestion step always stores
  one or the other.
- A filename that is present but not a string is not modelled.
- `Sources.SortSources`: `Array.prototype.sort` works in place on the array.
  The model sorts a sequence by insertion and returns it. Its contract covers
  any correct sort, and `Sources.SortedUnique` shows the result is the same
  for every such sort, since citations are distinct.
- The routes, upload and ingestion, chunking, vector persistence and the UI
  are not part of this model.
