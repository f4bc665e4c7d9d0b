# Multi-modal RAG system — a Dafny model of its core

The system answers questions about uploaded PDF files. An upload builds a vector
index over the documents' chunks and a question-answering chain around it. A
question is then run through that chain:

1. the retriever fetches the 3 most similar chunks; a multimodal retriever
   regroups them by modality;
2. the chunks are cleaned of URLs and concatenated within a budget of 3000
   characters; the length check leaves out the separator, so the trimmed context
   can reach 3004 characters (3005 before trimming);
3. the context and the question fill a prompt for the language model;
4. the model's reply is returned as text.

The model covers the three parts of this code that carry logic:

- **Context assembly** (module `Chain`).
  - `CleanText` is the URL-stripping regular expression `https?://\S+|www\.\S+`. It is written as the left-to-right scan that `re.sub` performs.
  - `FormatDocuments` is the budgeted loop with its `break`. It is proved against the function `Formatted`.
  - `BuildQaChain` and `InvokeChain` wire the retriever to the context and the prompt. The store builder, the similarity search and the language model are function parameters; each of them may fail with a message.
- **Modality-ranked reordering** (module `Retriever`).
  - `Reorder` is the three loops of `MultiModalRetriever.invoke`: grouping into an insertion-ordered dictionary, emitting the three named modalities, then emitting the remaining groups.
  - The loops run over a `map` and `seq`s. `Reorder` is proved equal to the function `Reordered`.
  - The lemmas prove that `Reordered` is a stable, ranked permutation.
- **The HTTP endpoints** (module `Api`).
  - The class `Server` holds the optional global chain.
  - `UploadPdfs` and `AskQuestion` carry their validation, their error responses and the state change.

`Text` holds Python's string primitives that these need:
- the `str.isspace` whitespace set, which is also what `\s` and `str.strip()` use;
- `strip`, `lower` on ASCII letters and `endswith`;
- decimal rendering of a count.

`Wrappers` holds `Option` and `Result`.

Three behaviours of the code are easy to misread; the model states what the code does:
- **A failed upload build keeps the previous chain.** One might expect a failed build to discard the previous index. In the code, `qa_chain` is reassigned only when `build_qa_chain` returns (main.py:83-96), so a previous chain survives an exception. `Server.UploadPdfs` states this.
- **The length check leaves out the separator.** A chunk is not dropped when the chunk *plus the separator* would exceed the budget. The code compares `len(context) + len(content)` alone (ragbase/chain.py:45). So before trimming, the context can reach the budget plus 5 characters (`BudgetBound`).
- **Three pages under 1000 characters do not always fit.** Three chunks all fit in the 3000-character budget exactly when their cleaned texts have at most 2990 characters together (`ThreeChunksFit`). At most 996 characters each is enough (`ThreeShortChunksFit`); three chunks of 999 characters give only two (`ThreeLongChunksOverflow`).

## Model

| member | source | states |
|---|---|---|
| Text.Strip | main.py:112 | `str.strip()`: the result is empty exactly when the input is all whitespace; otherwise it is the slice between the leading and the trailing whitespace runs, and neither starts nor ends with whitespace |
| Text.Decimal | main.py:92 | the rendering of a count is a non-empty string of decimal digits |
| Text.DecimalCanonical | main.py:92 | the rendering has a leading zero exactly when the count is 0, as Python's canonical `str(n)` |
| Text.DecimalRoundTrip | main.py:92 | reading back the decimal rendering of `n` gives `n` |
| Text.LeadingDigitsOfConcat | main.py:92 | the digits that open a string end at its first non-digit |
| Chain.NonSpaceRunMaximal | ragbase/chain.py:37 | `\S+` is greedy: the run is all non-whitespace and is followed by whitespace or the end of the text |
| Chain.UrlMatch | ragbase/chain.py:37 | the pattern matches at a position exactly when `https://`, `http://` or `www.` is followed by a non-whitespace character, and the match stays within the text |
| Chain.OpensMatch | ragbase/chain.py:37 | after the literal prefix, the match runs over non-whitespace up to whitespace or the end of the text |
| Chain.UrlMatchMaximal | ragbase/chain.py:37 | every match is all non-whitespace and ends at whitespace or at the end of the text |
| Chain.NoMatchAtSpace | ragbase/chain.py:37 | no match starts at a whitespace character |
| Chain.CleanText | ragbase/chain.py:36-37 | `clean_text` never lengthens the text |
| Chain.CleanTextKeeps | ragbase/chain.py:36-37 | text in which no match starts (given what follows it) is kept unchanged in front of the cleaned rest, even when a match follows in the same word: only matches are deleted |
| Chain.NoMatchInFreeText | ragbase/chain.py:37 | text without a match that ends in whitespace has no match starting in it, whatever follows |
| Chain.CleanTextDeletes | ragbase/chain.py:36-37 | after such a text, a match is deleted and the scan resumes right after it |
| Chain.CleanTextAround | ragbase/chain.py:36-37 | a match between such a text and a rest without a match leaves exactly the text and the rest |
| Chain.CleanTextExample | ragbase/chain.py:37 | `"a http://x b"` becomes `"a  b"`: the surrounding spaces stay |
| Chain.CleanTextBracketed | ragbase/chain.py:37 | `"(http://x)"` becomes `"("`: a match starts in the middle of a word and takes the closing parenthesis with it |
| Chain.CleanTextAfterMatch | ragbase/chain.py:37 | after a deleted match, the cleaned text is empty or resumes with whitespace |
| Chain.CleanTextPrefix | ragbase/chain.py:36-37 | a non-whitespace prefix of the cleaned text is copied unchanged from the start of the input |
| Chain.CleanTextUrlFree | ragbase/chain.py:36-37 | no URL the pattern matches is left anywhere in the cleaned text |
| Chain.CleanTextIdentity | ragbase/chain.py:36-37 | `clean_text` returns its input unchanged if and only if the input contains no match |
| Chain.CleanTextIdempotent | ragbase/chain.py:36-37 | cleaning twice is the same as cleaning once |
| Chain.Cleaned | ragbase/chain.py:43-44 | one cleaned text per chunk |
| Chain.CleanedAt | ragbase/chain.py:43-44 | entry `i` is `clean_text` of chunk `i`'s content, so the cleaned texts keep the chunk order |
| Chain.Taken | ragbase/chain.py:43-46 | the number of included chunks: every chunk before it passes the check `len(context) + len(content) <= max_chars`, and the chunk at that index (if any) fails it |
| Chain.TakenIs | ragbase/chain.py:43-46 | those two stopping conditions determine the count uniquely |
| Chain.FormatDocuments | ragbase/chain.py:40-49 | the loop with its `break` returns the trimmed concatenation of `clean_text(c) + "\n---\n"` over the prefix of `Taken` chunks, in input order |
| Chain.JoinedAppend | ragbase/chain.py:47 | the accumulated context of two consecutive runs of chunks is the concatenation of their contexts |
| Chain.BudgetBound | ragbase/chain.py:45-47 | at every step of the loop, the context before trimming is empty or at most `max_chars + 5` characters long |
| Chain.ChunkInJoined | ragbase/chain.py:44-47 | in the concatenation of a prefix of chunks, each chunk's cleaned text stands whole at the offset where the chunks before it end, followed by the separator |
| Chain.WholeChunks | ragbase/chain.py:44-47 | every included chunk appears whole in the assembled context, followed by the separator; no chunk is cut |
| Chain.EmptyContext | ragbase/chain.py:41-49 | an empty list, or a first chunk whose cleaned text alone exceeds the budget, gives `""` |
| Chain.StopsAtFirstOverflow | ragbase/chain.py:45-46 | processing stops at the first chunk that does not fit even when a later chunk would fit: chunks `"aaaa"`, `"b"` with budget 3 give `""` |
| Chain.ThreeChunksFit | ragbase/chain.py:40-47 | three chunks all fit in the default 3000-character budget if and only if their cleaned texts have at most 2990 characters together |
| Chain.ThreeShortChunksFit | ragbase/chain.py:40-47 | three chunks whose cleaned texts have at most 996 characters all fit in the default 3000-character budget |
| Chain.ThreeLongChunksOverflow | ragbase/chain.py:40-47 | three cleaned chunks of 999 characters include only two within 3000 |
| Chain.PromptMessages | ragbase/chain.py:18-30 | the prompt is a system message with the context at the `{context}` placeholder of the system prompt, between its fixed text and its closing newline, then the question as the human message |
| Chain.BuildQaChain | ragbase/chain.py:55-87 | a failing build propagates its message; a built chain is multimodal as requested, and for every question its context is the failure of the search, or the top 3 similarity results of the freshly built store, regrouped only when multimodal, formatted with budget 3000 |
| Chain.InvokeChain | ragbase/chain.py:78-87 | invoking the chain retrieves for the question, formats with the default budget, calls the model on the filled prompt and returns the reply's text (`StrOutputParser`), or the failure of the retrieval or of the model |
| Chain.BuiltChainResult | ragbase/chain.py:64-87 | a built chain's answer is the search's failure, or the model's failure, or the text payload of the model's reply to the prompt holding the top 3 results formatted with budget 3000 |
| Retriever.Group | ragbase/retriever.py:20-22 | a modality's group holds only documents of that modality, and at most as many documents as the results |
| Retriever.GroupMembers | ragbase/retriever.py:20-22 | a document is in a modality's group exactly when it is one of the results with that modality |
| Retriever.FirstPos | ragbase/retriever.py:20-22 | the index of the first result with a modality, or the number of results when there is none |
| Retriever.Tags | ragbase/retriever.py:19-22 | the dictionary's keys in insertion order: every result's modality is among them |
| Retriever.TagsDistinct | ragbase/retriever.py:19-22 | a dictionary key is inserted once |
| Retriever.TagsByFirstAppearance | ragbase/retriever.py:19-22 | the keys are in the order their modality first appears in the results |
| Retriever.Others | ragbase/retriever.py:29-31 | the remaining modalities are exactly the keys outside `text`, `table`, `image_ocr` |
| Retriever.OthersByFirstAppearance | ragbase/retriever.py:29-31 | the remaining groups follow first appearance in the results (dictionary order) |
| Retriever.TagOrderCovers | ragbase/retriever.py:24-31 | the emission order lists every modality of the results exactly once |
| Retriever.GroupByModality | ragbase/retriever.py:19-22 | the grouping loop builds the dictionary whose keys are exactly the modalities of the results, in first-appearance order, each mapped to its group |
| Retriever.Reorder | ragbase/retriever.py:16-33 | the three loops (grouping with `setdefault(...).append`, then the named modalities, then the rest) compute `Reordered` of the similarity results |
| Retriever.ReorderedIsPermutation | ragbase/retriever.py:17-33 | the reordered output is a permutation of the similarity results: same length, same documents with the same multiplicities |
| Retriever.ReorderedIsStable | ragbase/retriever.py:20-22 | within each modality the output keeps the original similarity order |
| Retriever.UntaggedIsText | ragbase/retriever.py:21 | a document without a `modality` entry lands in the `text` group |
| Retriever.ConcatGroupsRanked | ragbase/retriever.py:24-31 | emitting the groups of distinct tags one after the other gives documents whose tags are among those tags, with positions that never decrease |
| Retriever.ReorderedIsRanked | ragbase/retriever.py:25-31 | the output is sorted by the rank of each document's modality in the emission order |
| Retriever.RankOrder | ragbase/retriever.py:25-31 | `text`, `table`, `image_ocr` have ranks 0, 1 and 2; every other modality ranks after them, in order of first appearance |
| Retriever.RankOfMember | ragbase/retriever.py:25-31 | a modality of rank below 3 is one of the three named modalities, and rank 0, 1 and 2 are `text`, `table` and `image_ocr` respectively |
| Retriever.ModalityPrecedence | ragbase/retriever.py:25-31 | every `text` document precedes every `table` document, which precedes every `image_ocr` document, which precedes every document of another modality |
| Retriever.ConcatGroupsOnly | ragbase/retriever.py:24-31 | when only one listed modality has documents, emitting the groups gives exactly that group |
| Retriever.AllTextUnchanged | ragbase/retriever.py:19-33 | when every result is a text document the output equals the input |
| Retriever.BuildRetriever | ragbase/retriever.py:58-65 | for every query, the built retriever asks the given store for `top_k` neighbours: the plain one returns the search's outcome unchanged, a failing search fails, and the multimodal one returns the reordered results, a permutation of them |
| Retriever.RetrieveDocs | ragbase/retriever.py:58-65 | a retriever returns the similarity results, reordered only when it is multimodal, or the search's failure |
| Retriever.RetrievedFromSearch | ragbase/retriever.py:58-65 | a retriever fails exactly when its search fails, with the same message; a plain retriever passes the search's outcome through unchanged; any successful retrieval is a permutation of the similarity results |
| Api.PdfNameCases | main.py:72 | a file name passes the filter exactly when its last four characters are `.`, `p`/`P`, `d`/`D`, `f`/`F` |
| Api.TempPaths | main.py:78-81 | one temporary path per uploaded file, in upload order, the one chosen for that upload's position |
| Api.UploadMessageCount | main.py:91-93 | the success message opens with the number of uploaded files in canonical decimal (no leading zero unless the count is 0), which reads back to that number, followed by the fixed text |
| Api.Server.constructor | main.py:37 | the server starts with no chain |
| Api.Server.UploadPdfs | main.py:62-96 | an empty list gives 400 "No files uploaded"; a list with any non-PDF name gives 400 "Only PDF files are allowed"; both leave the chain untouched. Otherwise a non-multimodal chain is built from the temporary paths: on success it replaces the chain and the message reports the file count; on failure the previous chain stays and the response is 500 with the failure message |
| Api.Server.AskQuestion | main.py:102-131 | before any upload 400 "Upload PDFs before asking questions", checked before the question; a blank question 400 "Question cannot be empty"; otherwise the answer is the text of the model's reply to the prompt filled with the stripped question and its context, with the stripped question echoed; a failure of the retrieval or of the model gives 500 with its message |

## Left out

- Loading and chunking in ragbase/ingestor.py are modelled only as an opaque store builder (`StoreBuilder`). This covers PDF loading (`PyPDFLoader`), the 10-page cap, the forced `"text"` tag and the character splitter. They are foreign library calls. As written, the ingestion tags every chunk `"text"`, so reordering changes nothing there (`AllTextUnchanged`). The `Retriever` module still models reordering for arbitrary tags.
- Embeddings, the FAISS index and its similarity search are an opaque function `Search` from a store handle, a query and `k` to a result list or a failure message; a failure propagates through the chain to a 500 response. Creating the language model is folded into the store builder's possible failure, and the model itself is the parameter `LanguageModel`. These are external services.
- The system prompt is modelled only up to the placeholder substitution. ragbase/model.py and ragbase/config.py are not part of this model: they only construct models and hold constants.
- `use_citations` is not modelled. It is accepted and ignored by `build_qa_chain`.
- The temporary-file side effects of `/upload` are not modelled: the written bytes, `delete=False`, and the files already written when a later file is rejected. `tempName(i)` stands for the fresh name the operating system chooses for the `i`-th upload; that these names are distinct is not modelled, and nothing proved relies on it.
- The health endpoint, CORS, the HTTP framework, request parsing, async I/O and concurrent requests are not modelled. Concurrent requests sharing the global chain are left out too.
- Text.Lower: maps only ASCII letters, because Unicode case mapping is not available. For the `.pdf` test this gives Python's verdict: no non-ASCII character lower-cases to `.`, `p`, `d` or `f`. The one length-changing mapping (`İ`) adds U+0307 and not one of those four characters.
- app.py and ui.py (Streamlit UI and HTTP client) are not part of this model.
- The floating-point generation settings, streaming and cancellation are not modelled.
