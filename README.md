# InsightLens chunking, vector store and prompt assembly in Dafny

InsightLens answers questions about documents. It cuts a document's text into chunks,
stores the chunks with their embeddings in named collections of a vector store,
retrieves the chunks nearest to a question's embedding, and places them in a prompt
for a text generator. This project models three parts of that pipeline and proves
what they promise:

- `text_chunker.dfy` (module `TextChunker`) is the paragraph-aware chunker
  `simple_chunker`. `SimpleChunker` is the imperative procedure with its paragraph
  loop and hard-split loops. `Chunk` is the same computation written as a fold over
  the paragraphs, and the lemmas are stated about `Chunk`. `SimpleChunker` is proved
  to return exactly `Chunk`.
- `strings.dfy` (module `Strings`) holds the Python string operations the chunker
  relies on: `str.isspace`, `str.strip`, `sep.join` and `str.split('\n\n')`.
- `vector_store_manager.dfy` (module `VectorStoreManager`) is the store manager.
  - The client is the class `VectorStore`, whose field `collections` maps collection
    names to collections; a collection maps record ids to records.
  - The nearest-neighbour index is a function passed to `QueryStore`. What is proved
    is how its raw response is reshaped into hits, not how the neighbours are found.
- `rag_core.dfy` (module `RagCore`) is `construct_rag_prompt`: the documents joined
  by a separator, and a fixed template with an optional persona sentence.
- `wrappers.dfy` holds the `Option` type that stands for Python's `None`.

## Model

| member | source | states |
|---|---|---|
| TextChunker.SimpleChunker | text_chunker.py:3-38 | returns exactly `Chunk(text, chunkSize, chunkOverlap)`; every chunk is non-empty, not whitespace-only, and at most `chunkSize` long; requires a positive stride `chunkSize - chunkOverlap` |
| TextChunker.ChunkParagraphList | text_chunker.py:9-38 | the loop, the final flush and the blank filter over the paragraph list compute `ChunkParagraphs`, and every chunk fits |
| TextChunker.AccumulateParagraphs | text_chunker.py:12-29 | the paragraph loop leaves `all_chunks` and `current_chunk` equal to the fold `Accumulate` over the paragraphs |
| TextChunker.FlushLast | text_chunker.py:31-36 | a non-empty final buffer is emitted, hard-split when longer than `chunkSize` |
| TextChunker.HardSplit | text_chunker.py:26-28 | the window loop produces exactly the windows `s[i:i+size]` for `i` in `range(0, len(s), stride)` |
| TextChunker.EmptyTextChunk | text_chunker.py:4-5 | the empty text gives no chunks |
| TextChunker.ParagraphsStripped | text_chunker.py:7 | every paragraph is stripped and non-empty, and there are no paragraphs exactly when the text is whitespace-only |
| TextChunker.KeepStrippedEmpty | text_chunker.py:7 | the comprehension keeps nothing exactly when every piece is whitespace-only |
| TextChunker.DropBlankMembers | text_chunker.py:38 | the final filter keeps exactly the chunks that are not whitespace-only |
| TextChunker.DropBlankUnchanged | text_chunker.py:38 | a list without whitespace-only chunks passes the filter unchanged |
| TextChunker.AccumulateBounded | text_chunker.py:12-29 | after every paragraph the buffer is at most `chunkSize` long, and so is every chunk emitted so far |
| TextChunker.ChunkBounded | text_chunker.py:12-38 | for `chunkOverlap < chunkSize`, every returned chunk is at most `chunkSize` long and not whitespace-only |
| TextChunker.ChunkEmptyIffBlank | text_chunker.py:3-38 | for a positive `chunkSize`, the result is empty if and only if the text is empty or whitespace-only |
| TextChunker.WindowsLayout | text_chunker.py:26-28 | window k is `p[k*stride : k*stride + size]`, clipped at the end; every window starts inside the text; the number of windows reaches the end, i.e. ceil(len/stride) |
| TextChunker.HardSplitExample | text_chunker.py:26-28 | 2500 characters at size 1000 and overlap 150 give the three windows starting at 0, 850 and 1700 |
| TextChunker.SingleChunk | text_chunker.py:7-36 | a text without a blank line, whose stripped form is non-empty and fits, is returned as one chunk: the stripped text |
| TextChunker.OversizedParagraph | text_chunker.py:24-29 | a single paragraph longer than `chunkSize` is returned as its hard-split windows, less the whitespace-only ones |
| TextChunker.ParagraphGroups | text_chunker.py:12-36 | when no paragraph is longer than the size, the chunks are consecutive non-empty groups of the paragraphs, each joined by `" "`, cut by the greedy rule: a group closes only when joining the next group's first paragraph would reach `chunkSize`, and a group of two or more paragraphs is shorter than `chunkSize` |
| TextChunker.ChunkPartition | text_chunker.py:12-36 | the same for a text: the chunks partition its paragraphs in order, with nothing lost or repeated, and every cut follows the greedy rule |
| TextChunker.AccumulateGroups | text_chunker.py:12-24 | without oversized paragraphs, the loop state is the closed groups emitted so far plus the open group held in the buffer, and the closed groups and the open one obey the greedy rule |
| Strings.Strip | text_chunker.py:7 | `strip()` gives the empty string exactly for whitespace-only input, and otherwise a string with no surrounding whitespace |
| Strings.TrimStartSpec | text_chunker.py:7 | stripping the front removes exactly the leading whitespace |
| Strings.TrimEndSpec | text_chunker.py:7 | stripping the back removes exactly the trailing whitespace |
| Strings.SplitJoinRoundTrip | text_chunker.py:7 | joining the pieces of `split('\n\n')` with `"\n\n"` gives back the text |
| Strings.SplitPiecesNoSeparator | text_chunker.py:7 | no piece of the split contains `"\n\n"` |
| Strings.SplitPiecesLeftmost | text_chunker.py:7 | the split cuts at the leftmost blank line: no piece but the last ends in a newline |
| Strings.JoinLayout | rag_core.py:7 | in `sep.join(parts)` each part sits at its offset, followed by the separator unless it is the last |
| VectorStoreManager.VectorStore.constructor | vector_store_manager.py:6-7 | the client opens with the collections already persisted by earlier runs |
| VectorStoreManager.WithCollection | vector_store_manager.py:12-20 | get-or-create leaves an existing collection unchanged, adds an absent one as empty, and changes no other collection |
| VectorStoreManager.WithCollectionIdempotent | vector_store_manager.py:12-20 | get-or-create is idempotent |
| VectorStoreManager.VectorStore.GetOrCreateCollection | vector_store_manager.py:12-20 | the store becomes `WithCollection(old store, name)`, and the returned collection is the stored one |
| VectorStoreManager.VectorStore.AddDocuments | vector_store_manager.py:22-61 | an invalid batch changes nothing and creates no collection; otherwise it uses the supplied ids when there is one per chunk, and otherwise distinct fresh ids outside the supplied and stored ones; the metadata is aligned to the chunks; the records are upserted into the named collection only |
| VectorStoreManager.AlignMetadatas | vector_store_manager.py:35-49 | the aligned metadata has one entry per chunk: the given entry where there is one, `{}` elsewhere |
| VectorStoreManager.PadMetadatas | vector_store_manager.py:44-49 | the padding loop keeps the prefix, pads with `{}` up to the number of chunks, and truncates any excess |
| VectorStoreManager.FreshIds | vector_store_manager.py:38-42 | one id per chunk, all distinct, none among the ids to avoid |
| VectorStoreManager.UpsertKeys | vector_store_manager.py:51-57 | after `add`, the collection's ids are the old ones plus the batch's |
| VectorStoreManager.UpsertLastWins | vector_store_manager.py:51-57 | chunk i is stored under `doc_ids[i]` with its embedding, document and metadata, unless a later chunk of the batch reuses that id |
| VectorStoreManager.UpsertElsewhere | vector_store_manager.py:51-57 | records whose ids are not in the batch are unchanged |
| VectorStoreManager.UpsertFreshCount | vector_store_manager.py:51-59 | a batch of distinct new ids grows the count by the batch size |
| VectorStoreManager.ProcessResults | vector_store_manager.py:85-107 | no ids give `[]`; an index error while reading a column gives `None`, which happens exactly when a present column is shorter than the id row; otherwise the result is the reshaped hits |
| VectorStoreManager.Collect | vector_store_manager.py:89-102 | there are at most as many hits as ids returned |
| VectorStoreManager.CollectSelects | vector_store_manager.py:89-102 | the hits are exactly the entries whose document is present, in the index's order |
| VectorStoreManager.CollectWithoutDocuments | vector_store_manager.py:93-102 | without a documents column every entry is skipped |
| VectorStoreManager.HitDefaults | vector_store_manager.py:93-95 | a missing metadata column gives `{}` in every hit; a missing distance column gives no distance |
| VectorStoreManager.RetrieveOutcome | vector_store_manager.py:63-111 | an empty collection answers `[]`, never `None`; otherwise `None` exactly when the index fails or its response cannot be read; if the index returns at most `min(top_k, count)` ids, the result has at most that many hits |
| VectorStoreManager.VectorStore.QueryStore | vector_store_manager.py:63-111 | the collection is created if absent and nothing else changes; an absent or empty collection answers `[]`; the answer is `Retrieve` on the collection |
| VectorStoreManager.VectorStore.ResetCollection | vector_store_manager.py:113-119 | the named collection is removed, and only it; an absent name is no error; afterwards the count is 0 |
| VectorStoreManager.VectorStore.CollectionCount | vector_store_manager.py:121-126 | the count is 0 exactly when the collection is absent or empty, and otherwise its number of records |
| RagCore.ContextLayout | rag_core.py:7 | the context holds every document in rank order, separated by `"\n\n---\n\n"`, with the last document ending it |
| RagCore.EmptyContext | rag_core.py:7 | no chunks give an empty context |
| RagCore.PersonaInstruction | rag_core.py:8-10 | the persona sentence is empty exactly when the persona is `None` or empty |
| RagCore.PersonaReadBack | rag_core.py:8-10 | otherwise it is `"Please answer from the perspective of " + persona + ". "`, and the persona can be read back from it |
| RagCore.HeaderLayout | rag_core.py:12-17 | the prompt header has the instructions, then the persona sentence immediately followed by "Be concise…", and ends with `"Provided Context:\n---\n"` |
| RagCore.TrailerLayout | rag_core.py:19-25 | after the context come `"\n---"`, then `"\n\nUser Question: "` and the query, and the prompt ends with `"\n\nAnswer:\n"` |
| RagCore.Render | rag_core.py:12-26 | a filled-in template is as long as its header, context and trailer together |
| RagCore.ConstructRagPrompt | rag_core.py:6-26 | the prompt is the InsightLens template of rag_core.py:12-25 filled in (`Render` with that template), as long as its header, context and trailer together; its layout is given by `PromptLayout`, `HeaderLayout`, `TrailerLayout` and `PromptContainsDocuments`, which hold for every template |
| RagCore.PromptLayout | rag_core.py:12-26 | the prompt is the header, then the context, then the trailer |
| RagCore.PromptContainsDocuments | rag_core.py:7-26 | every retrieved document appears verbatim in the prompt, at its rank-order place in the context |

## Left out

- Storage failures are not modelled, because an in-memory map cannot fail. This covers the `except` branches at vector_store_manager.py:60-61, 74-76, 118-119 and 125-126.
- A failure of the nearest-neighbour query itself is modelled: the index may answer `None`, which gives the `None` of vector_store_manager.py:109-111.
- At vector_store_manager.py:16-19, every failure to get a collection is treated as the collection being absent, which then creates it.
- What `collection.add` does with an id that already exists happens inside the vector-store library. This model assumes upsert, applied in batch order, so a later chunk with the same id replaces an earlier one.
- The library's checks on embeddings (equal dimensions) and on `n_results` (a non-positive `top_k`) are inside the index. Here the index is an arbitrary function, which may fail.
- Nearest-neighbour search, distance computation and the ascending-distance order are the library's. The raw response is an input.
- `uuid.uuid4()` is replaced by `FreshIds`, a deterministic supply of distinct ids that also avoids every id already in the collection, which a random uuid does only with high probability.
- VectorStoreManager.VectorStore.AddDocuments: the source returns nothing; the model returns the ids it used, so the contract can name them.
- The index's metadata entries are always mappings; an entry of `None` inside a present metadata column is not modelled.
- `print` logging is left out. The persistence directory `./chroma_db_data` is not modelled as files: the collections it holds are the store the constructor is given.
- TextChunker.SimpleChunker: requires `chunkOverlap < chunkSize`. With a zero stride Python's `range` raises, and with a negative one oversized text is silently dropped; neither is modelled. `chunkSize` is a natural number, so Python's negative slice bounds do not arise.
- Strings are sequences of Unicode scalar values. `isspace` is the set of Python whitespace code points, and there is no case folding or normalisation.
- RagCore.ConstructRagPrompt: a context chunk is a retrieved `Hit`, so a chunk without a `document` key (a `KeyError` in Python) cannot occur.
- The embedding and generation calls (embedding_generator.py, `generate_answer_with_gemini` in rag_core.py), document loading (document_loader.py) and the command-line flows (main.py) are not part of this model.

## Notes

- The buffer never grows past `chunkSize` (`AccumulateBounded`). So the branches that hard-split an oversized buffer before a new paragraph (text_chunker.py:17-19), and at the end (text_chunker.py:32-34), can never run. They are modelled as written anyway.
- Every chunk fits, even one cut from a paragraph longer than `chunkSize`, because that paragraph is hard-split (`ChunkBounded`).
