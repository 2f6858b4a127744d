# DPA chatbot retrieval core, in Dafny

This project models the retrieval path of a small question-answering chatbot
about the Kenyan Data Protection Act 2019. Offline, `vectorstorage.py` reads
slide decks and extracts their shape texts. It cuts each deck's text into
chunks of at most 300 words. It then builds a flat chunk list and a parallel
metadata list of `{source, text}` records, which it hands to a sentence
embedder and a FAISS inner-product index. At query time, `app.py` first
normalises the query (`lower().strip()`) and checks it against a table of
canned replies. Otherwise it maps the index's top-3 positions to metadata
texts, joins them with a blank line into the context for the answer service,
and shows a 300-character preview of each passage in a sources panel. It
also keeps the chat history.

Files:

- `wrappers.dfy`: `Option` and `Result`.
- `pystr.dfy` (module `PyStr`): the Python string built-ins the code relies
  on. These are `str.isspace` (CPython's whitespace set, written out),
  `split()` as maximal runs of non-whitespace, `sep.join`, `split(sep)`,
  `lower()`, `strip()` and `s[:n]`. `split()` and `split(sep)` come with
  round-trip lemmas against `join`, and `strip()` with lemmas on the
  whitespace it removes. `lower()` and `s[:n]` are pinned down by their
  contracts: what each character becomes, and the exact length of the prefix.
- `chunker.dfy` (module `Chunker`): `chunk_text` as a loop with its buffer.
  The loop is proved equal to a grouping of `text.split()`, and the
  chunker's properties are proved about that grouping.
- `vectorstorage.dfy` (module `VectorStorage`): `extract_text_from_pptx` and
  `build_faiss_index` as loops. They are proved equal to specification
  functions, with lemmas on the parallel metadata.
- `app.py` becomes `app.dfy` (module `App`): routing, position-to-text
  mapping, the context and previews, and the chat history as a class.

The embedder, the index search and the answer service are parameters. They
are `embed: string -> Vector`, `search: (FlatIndex, Vector, nat) -> seq<int>`
(the position row of the single query vector) and
`generate: (string, string) -> string` (context and question to answer). A
slide deck is given as its slides' shapes, and the file system as a map from
path to deck.

Behaviour of the code worth knowing:

- A deck that cannot be opened aborts the whole build. Nothing catches the
  exception from `Presentation(file)`, so no index is built at all
  (`BuildFaissIndex` returns `Failure` naming the first such file).
- The positions returned by the search are not clamped to the store size.
  Each position goes straight into Python list indexing, so a negative
  position counts from the end of the metadata. Any other out-of-range
  position raises `IndexError` (`TextsAt`).
- The canned-reply table is consulted before retrieval. For a canned key no
  retrieval happens. The sources panel then shows nothing, because `context`
  is unbound and the panel's bare `except` swallows the `NameError`.
- `max_tokens <= 1` behaves like 1: the flush test `len(chunk) >= max_tokens`
  already holds after each word (`Chunker.Width`).
- If the search returns an empty row, the context is the empty string, and
  `"".split("\n\n")` gives one empty piece. The sources panel then shows one
  empty preview. `App.PreviewsOfPassages` therefore requires at least one
  passage.

## Model

| member | source | states |
|---|---|---|
| `PyStr.Words` | vectorstorage.py:22 | `text.split()` never yields more words than the text has characters; the lemmas below say what the words are |
| `PyStr.WordsAreWords` | vectorstorage.py:22 | `text.split()` yields only non-empty words without whitespace |
| `PyStr.WordsEmptyIff` | vectorstorage.py:22 | `split()` finds no word exactly when the text is empty or all whitespace |
| `PyStr.WordsAroundSpace` | vectorstorage.py:19 | a whitespace separator splits words: the words of `a + c + b` are those of `a` followed by those of `b` |
| `PyStr.WordsOfSpaceJoin` | vectorstorage.py:27 | `split()` of `" ".join(words)` gives the words back |
| `PyStr.JoinAvoids` | vectorstorage.py:27 | a character in neither the separator nor any part is not in the join |
| `PyStr.Join` | vectorstorage.py:27 | `sep.join(parts)` is empty for no parts, the part itself for one part, and otherwise starts with the first part |
| `PyStr.Split` | app.py:154 | `split(sep)` always yields at least one piece |
| `PyStr.SplitJoin` | app.py:154 | `"\n\n".join` then `split("\n\n")` gives the parts back when no part holds a newline |
| `PyStr.JoinSplit` | app.py:154 | `split(sep)` then `sep.join` gives any string back |
| `PyStr.Lower` | app.py:109 | `lower()` keeps the length, turns each upper-case ASCII letter into its lower-case partner (code point + 32), keeps every other character, and so leaves no upper-case ASCII letter |
| `PyStr.TrimStart` | app.py:109 | drops exactly the leading whitespace: the result is a suffix starting with a non-space character |
| `PyStr.TrimEnd` | app.py:109 | drops exactly the trailing whitespace: the result is a prefix ending with a non-space character |
| `PyStr.Strip` | app.py:109 | `strip()` gives the slice of the text between its leading and trailing whitespace, and that slice neither starts nor ends with whitespace |
| `PyStr.StripKeepsCharacters` | app.py:109 | every character of `strip()`'s result is a character of the text it stripped |
| `PyStr.StripOuterSpace` | app.py:109 | `strip()` ignores whitespace added on either side |
| `PyStr.Prefix` | app.py:155 | `text[:300]` is a prefix of the text whose length is exactly 300, or the text's whole length when it is shorter |
| `Chunker.Chunks` | vectorstorage.py:21-31 | `chunk_text` returns no chunk exactly when the text has no words, and never more chunks than words |
| `Chunker.ChunkText` | vectorstorage.py:21-31 | the buffer-and-flush loop returns exactly the space-joined groups of `max(max_tokens, 1)` consecutive words |
| `Chunker.GroupFlatten` | vectorstorage.py:24-30 | concatenating the word groups gives back the word list: nothing lost, duplicated or reordered |
| `Chunker.GroupSizes` | vectorstorage.py:24-30 | every group has 1 to `w` words, and all but the last exactly `w` |
| `Chunker.GroupCount` | vectorstorage.py:24-30 | n > 0 words make the least group count c with n <= c·w, i.e. ⌈n / w⌉; no words make no groups |
| `Chunker.ChunksPreserveWords` | vectorstorage.py:21-31 | re-splitting every chunk and concatenating gives exactly `text.split()` |
| `Chunker.ChunkSizes` | vectorstorage.py:24-30 | each chunk has between 1 and `max(max_tokens, 1)` words, all but the last exactly that many |
| `Chunker.ChunkCount` | vectorstorage.py:22-30 | there are ⌈n / max(max_tokens, 1)⌉ chunks for n > 0 words, and none exactly when the text is blank |
| `Chunker.ChunkCharacters` | vectorstorage.py:27-30 | no chunk is empty and no chunk contains a newline |
| `VectorStorage.ExtractText` | vectorstorage.py:12-19 | the text is the shapes' texts, in slide then shape order and skipping shapes without text, joined by newlines |
| `VectorStorage.NewlineJoinWords` | vectorstorage.py:19 | the words of a newline-joined list are the items' words in order |
| `VectorStorage.DeckWords` | vectorstorage.py:40-41 | extracting and chunking a deck loses and reorders no word: its chunks' words, in order, are its shape texts' words in slide and shape order |
| `VectorStorage.BuildFaissIndex` | vectorstorage.py:37-51 | fails on the first deck that cannot be opened; otherwise the metadata is every file's tagged chunks in order, and index vector i is the embedding of metadata text i, with equal lengths |
| `VectorStorage.Metadata` | vectorstorage.py:38-43 | every metadata record names one of the input files as its source |
| `VectorStorage.MetadataParallel` | vectorstorage.py:38-45 | the metadata and the flat chunk list handed to the embedder have the same length, and entry i's text is chunk i |
| `VectorStorage.MetadataSources` | vectorstorage.py:39-43 | every entry's source is an input file, and its text is a chunk of that file |
| `VectorStorage.MetadataConcat` | vectorstorage.py:39-43 | files are handled in input order: the metadata of two file lists in a row is their metadata in a row |
| `VectorStorage.SingleFileMetadata` | vectorstorage.py:41-43 | one file contributes its chunks in chunk order, each tagged with that file |
| `VectorStorage.MetadataTextsPlain` | vectorstorage.py:41-43 | no metadata text is empty or holds a newline |
| `App.TextsAt` | app.py:94 | `[metadata[i]["text"] for i in idxs[0]]` fails at the first position out of range; otherwise it gives one text per position, in order, with Python's negative indexing |
| `App.RoutingKey` | app.py:109 | the routing key is the lowered query with its outer whitespace stripped, so it holds no upper-case ASCII letter and neither starts nor ends with whitespace |
| `App.SearchVectorstore` | app.py:89-94 | the search's position row maps to texts exactly when every position is in range, one text per position in order with Python's negative indexing; otherwise it fails with `IndexError` at an out-of-range position |
| `App.Previews` | app.py:154-155 | the sources panel shows one preview per piece of `context.split("\n\n")`, at least one even for an empty context, each the piece's prefix of exactly `min(len, 300)` characters |
| `App.Respond` | app.py:109-115 | a canned key answers exactly from the table, with no retrieval and no sources; otherwise it succeeds exactly when the search mapping does, and the answer service gets the passages joined by `"\n\n"` |
| `App.ChatSession.constructor` | app.py:23-26 | a new chat holds only the assistant's greeting |
| `App.ChatSession.Submit` | app.py:96-139 | an empty query changes nothing; otherwise the user message is appended, then the assistant's answer unless retrieval failed |
| `App.SameRoutingKey` | app.py:109 | queries differing only in ASCII case and outer whitespace have the same routing key |
| `App.SameRoute` | app.py:109-111 | such queries both get the canned answer or both go to retrieval, and a canned answer is the same for both |
| `App.PreviewsOfPassages` | app.py:154-155 | for passages without newlines, the sources panel shows one preview per passage: its prefix of exactly `min(len, 300)` characters |
| `App.RetrievedChunksPlain` | app.py:94 | when every position is in range the mapping succeeds, and texts taken from newline-free metadata are newline-free |
| `App.SourcesPreviewRetrievedChunks` | app.py:113-155 | against a store built from decks, a non-empty in-range search row gives a successful response; splitting its context gives back exactly the retrieved chunks, and the previews are their 300-character prefixes in order |

## Left out

- The sentence embedder (model loading, `encode`, normalisation, `float32`) is the parameter `embed`. Unit norms are not modelled, because they are floating-point facts about an external model.
- The FAISS `IndexFlatIP` (dimension, `add`) is the list of vectors it holds. `index.search` and its ranking by score are the parameter `search`. Ranking, ties and what the library returns when `k` exceeds the store size are not visible in this code.
- pptx parsing (`Presentation`, `hasattr(shape, "text")`) becomes a deck given as shapes with or without text. The file system is a map from path to deck, and a missing entry stands for any open or parse failure.
- Pickle save and load (`save_vectorstore`, the load at the top of `app.py`) and the `__main__` driver are file I/O and a fixed file list.
- The Streamlit page is left out: layout, HTML rendering, buttons, sidebar, preset-question buttons and the choice `preset_clicked or user_input`, the "Clear Chat" reset and reruns.
- The prompt text and the Groq chat-completion call are the parameter `generate`. A failing answer service is not modelled.
- `search_vectorstore` reloading the embedding model on each call is left out. It is a cost, not a behaviour.
- PyStr.Lower: only ASCII letters are lowered; other characters are kept as they are. Full Unicode case mapping is not modelled, because the canned keys are ASCII.
- VectorStorage.BuildFaissIndex: returns `Success` with an empty index and empty metadata when no file yields a chunk. The code then calls the embedder on an empty list and reads `embeddings.shape[1]`; whether that shape has a second axis for an empty batch depends on the embedding library, which is not modelled, so a possible `IndexError` there is not captured.
