/**
 * Ingestion (vectorstorage.py): text extraction from a slide deck and the
 * accumulation of the flat chunk list and its parallel metadata in
 * `build_faiss_index`. Parsing the deck file, the sentence embedder and the
 * FAISS index are outside the model: a deck is given as its slides' shapes,
 * the embedder as a function from text to vector, and the index as the
 * ordered list of vectors it is built from.
 */
module VectorStorage {
  import opened Wrappers
  import opened PyStr
  import opened Chunker

  /** A shape on a slide; only shapes that carry text contribute to extraction. */
  datatype Shape = TextFrame(text: string) | Graphic

  type Slide = seq<Shape>

  type Deck = seq<Slide>

  /** An embedding vector (the model's floats, as reals). */
  type Vector = seq<real>

  /** One metadata entry, `{"source": file, "text": chunk}`. */
  datatype Record = Record(source: string, text: string)

  /** An inner-product index, seen as the vectors it holds, position by position. */
  datatype FlatIndex = FlatIndex(vectors: seq<Vector>)

  /** The pair that is pickled and later loaded by the chat application. */
  datatype Store = Store(index: FlatIndex, metadata: seq<Record>)

  /** `Presentation(file)` fails: here, a file the file system does not hold as a deck. */
  datatype BuildError = CannotOpen(file: string)

  // ---------------------------------------------------------------------
  // extract_text_from_pptx

  /** The texts of a slide's text-bearing shapes, in shape order. */
  function SlideTexts(slide: Slide): (texts: seq<string>) {
    if slide == [] then []
    else
      var last := slide[|slide| - 1];
      SlideTexts(slide[..|slide| - 1]) + (if last.TextFrame? then [last.text] else [])
  }

  /** The texts of a deck's text-bearing shapes, in slide order and then shape order. */
  function DeckTexts(deck: Deck): (texts: seq<string>) {
    if deck == [] then [] else DeckTexts(deck[..|deck| - 1]) + SlideTexts(deck[|deck| - 1])
  }

  /** `extract_text_from_pptx`: collects the shape texts in a loop and joins them with newlines. */
  method ExtractText(deck: Deck) returns (text: string)
    ensures text == Join("\n", DeckTexts(deck))
  {
    var texts: seq<string> := [];
    for i := 0 to |deck|
      invariant texts == DeckTexts(deck[..i])
    {
      var slide := deck[i];
      for j := 0 to |slide|
        invariant texts == DeckTexts(deck[..i]) + SlideTexts(slide[..j])
      {
        assert slide[..j + 1][..j] == slide[..j];
        if slide[j].TextFrame? {
          texts := texts + [slide[j].text];
        }
      }
      assert slide[..|slide|] == slide;
      assert deck[..i + 1][..i] == deck[..i];
    }
    assert deck[..|deck|] == deck;
    text := Join("\n", texts);
  }

  /** The newline separators split words: the words of the joined text are the shape texts' words, in order. */
  lemma {:induction false} NewlineJoinWords(texts: seq<string>)
    ensures Words(Join("\n", texts)) == Flatten(WordsEach(texts))
    decreases |texts|
  {
    if |texts| == 1 {
      assert Flatten(WordsEach(texts)) == Words(texts[0]) + Flatten([]);
    } else if |texts| > 1 {
      var rest := Join("\n", texts[1..]);
      JoinPeel("\n", texts);
      assert Join("\n", texts) == texts[0] + ['\n'] + rest;
      WordsAroundSpace(texts[0], '\n', rest);
      NewlineJoinWords(texts[1..]);
      assert WordsEach(texts)[1..] == WordsEach(texts[1..]);
    }
  }

  /**
   * Extracting and chunking a deck loses and reorders no word: the words of
   * its chunks, read in order, are the words of its shape texts in slide and
   * shape order.
   */
  lemma DeckWords(deck: Deck)
    ensures Flatten(WordsEach(FileChunks(deck))) == Flatten(WordsEach(DeckTexts(deck)))
  {
    ChunksPreserveWords(Join("\n", DeckTexts(deck)), DefaultMaxTokens);
    NewlineJoinWords(DeckTexts(deck));
  }

  // ---------------------------------------------------------------------
  // build_faiss_index

  /** The chunks `chunk_text` makes of one deck's extracted text, with the default word bound. */
  function FileChunks(deck: Deck): seq<string> {
    Chunks(Join("\n", DeckTexts(deck)), DefaultMaxTokens)
  }

  /** `[{"source": file, "text": c} for c in chunks]`. */
  function Tagged(file: string, chunks: seq<string>): seq<Record> {
    seq(|chunks|, i requires 0 <= i < |chunks| => Record(file, chunks[i]))
  }

  /** Every file opens as a deck. */
  predicate Openable(files: seq<string>, decks: map<string, Deck>) {
    forall i :: 0 <= i < |files| ==> files[i] in decks
  }

  /** `all_chunks` after the loop: every file's chunks, files in input order. */
  function AllChunks(files: seq<string>, decks: map<string, Deck>): seq<string>
    requires Openable(files, decks)
  {
    if files == [] then []
    else AllChunks(files[..|files| - 1], decks) + FileChunks(decks[files[|files| - 1]])
  }

  /** `metadata` after the loop: every file's chunks tagged with the file, files in input order. */
  function Metadata(files: seq<string>, decks: map<string, Deck>): (r: seq<Record>)
    requires Openable(files, decks)
    ensures forall i :: 0 <= i < |r| ==> r[i].source in files
  {
    if files == [] then []
    else
      var file := files[|files| - 1];
      Metadata(files[..|files| - 1], decks) + Tagged(file, FileChunks(decks[file]))
  }

  /** `embed_text(chunks)`: one vector per chunk, in order. */
  function Embeddings(chunks: seq<string>, embed: string -> Vector): seq<Vector> {
    seq(|chunks|, i requires 0 <= i < |chunks| => embed(chunks[i]))
  }

  /**
   * `build_faiss_index`: the first file that cannot be opened aborts the
   * build; otherwise the metadata is the tagged chunk list and the index
   * holds, position for position, the embedding of the metadata's text.
   */
  method BuildFaissIndex(files: seq<string>, decks: map<string, Deck>, embed: string -> Vector)
    returns (r: Result<Store, BuildError>)
    ensures r.Success? <==> Openable(files, decks)
    ensures r.Failure? ==>
      exists j :: 0 <= j < |files| && r.error == CannotOpen(files[j]) && files[j] !in decks && Openable(files[..j], decks)
    ensures r.Success? ==> r.value.metadata == Metadata(files, decks)
    ensures r.Success? ==> |r.value.index.vectors| == |r.value.metadata|
    ensures r.Success? ==>
      forall i :: 0 <= i < |r.value.metadata| ==> r.value.index.vectors[i] == embed(r.value.metadata[i].text)
  {
    var allChunks: seq<string> := [];
    var metadata: seq<Record> := [];
    for i := 0 to |files|
      invariant Openable(files[..i], decks)
      invariant allChunks == AllChunks(files[..i], decks)
      invariant metadata == Metadata(files[..i], decks)
    {
      var file := files[i];
      if file !in decks {
        return Failure(CannotOpen(file));
      }
      PrefixStep(files, decks, i);
      var text := ExtractText(decks[file]);
      var chunks := ChunkText(text, DefaultMaxTokens);
      allChunks := allChunks + chunks;
      metadata := metadata + Tagged(file, chunks);
    }
    assert files[..|files|] == files;
    MetadataParallel(files, decks);
    var index := FlatIndex(Embeddings(allChunks, embed));
    r := Success(Store(index, metadata));
  }

  /** Taking one more file appends that file's chunks and records. */
  lemma PrefixStep(files: seq<string>, decks: map<string, Deck>, i: nat)
    requires i < |files| && Openable(files[..i], decks) && files[i] in decks
    ensures Openable(files[..i + 1], decks)
    ensures AllChunks(files[..i + 1], decks) == AllChunks(files[..i], decks) + FileChunks(decks[files[i]])
    ensures Metadata(files[..i + 1], decks) == Metadata(files[..i], decks) + Tagged(files[i], FileChunks(decks[files[i]]))
  {
    assert files[..i + 1][..i] == files[..i];
  }

  // ---------------------------------------------------------------------
  // Properties of the metadata

  /** `metadata` and the flat chunk list handed to the embedder are parallel: same length, and entry i holds chunk i. */
  lemma {:induction false} MetadataParallel(files: seq<string>, decks: map<string, Deck>)
    requires Openable(files, decks)
    ensures |Metadata(files, decks)| == |AllChunks(files, decks)|
    ensures forall i :: 0 <= i < |AllChunks(files, decks)| ==>
      Metadata(files, decks)[i].text == AllChunks(files, decks)[i]
    decreases |files|
  {
    if files != [] {
      var init := files[..|files| - 1];
      assert Openable(init, decks);
      MetadataParallel(init, decks);
    }
  }

  /** Every entry names a file of the input, and its text is one of the chunks of that file. */
  lemma {:induction false} MetadataSources(files: seq<string>, decks: map<string, Deck>)
    requires Openable(files, decks)
    ensures forall i :: 0 <= i < |Metadata(files, decks)| ==>
      Metadata(files, decks)[i].source in files
      && Metadata(files, decks)[i].source in decks
      && Metadata(files, decks)[i].text in FileChunks(decks[Metadata(files, decks)[i].source])
    decreases |files|
  {
    if files != [] {
      var init := files[..|files| - 1];
      var file := files[|files| - 1];
      assert Openable(init, decks);
      MetadataSources(init, decks);
      var m := Metadata(files, decks);
      var k := |Metadata(init, decks)|;
      forall i | 0 <= i < |m|
        ensures m[i].source in files && m[i].source in decks && m[i].text in FileChunks(decks[m[i].source])
      {
        if i < k {
          assert m[i] == Metadata(init, decks)[i];
          assert m[i].source in init;
        } else {
          assert m[i] == Tagged(file, FileChunks(decks[file]))[i - k];
        }
      }
    }
  }

  /** Files are handled in input order: the metadata of two file lists in a row is the two metadata lists in a row. */
  lemma {:induction false} MetadataConcat(first: seq<string>, second: seq<string>, decks: map<string, Deck>)
    requires Openable(first, decks) && Openable(second, decks)
    ensures Openable(first + second, decks)
    ensures Metadata(first + second, decks) == Metadata(first, decks) + Metadata(second, decks)
    decreases |second|
  {
    var both := first + second;
    assert Openable(both, decks) by {
      forall i | 0 <= i < |both| ensures both[i] in decks {
        if i >= |first| { assert both[i] == second[i - |first|]; }
      }
    }
    if second == [] {
      assert both == first;
    } else {
      var init := second[..|second| - 1];
      assert Openable(init, decks);
      assert both[..|both| - 1] == first + init;
      MetadataConcat(first, init, decks);
    }
  }

  /** A single file contributes its chunks, in chunk order, each tagged with that file. */
  lemma SingleFileMetadata(file: string, decks: map<string, Deck>)
    requires file in decks
    ensures Openable([file], decks)
    ensures |Metadata([file], decks)| == |FileChunks(decks[file])|
    ensures forall i :: 0 <= i < |Metadata([file], decks)| ==>
      Metadata([file], decks)[i] == Record(file, FileChunks(decks[file])[i])
  {
  }

  /** No metadata text is empty or holds a newline, since every one is a chunk. */
  lemma MetadataTextsPlain(files: seq<string>, decks: map<string, Deck>)
    requires Openable(files, decks)
    ensures forall i :: 0 <= i < |Metadata(files, decks)| ==>
      Metadata(files, decks)[i].text != [] && '\n' !in Metadata(files, decks)[i].text
  {
    var m := Metadata(files, decks);
    MetadataSources(files, decks);
    forall i | 0 <= i < |m| ensures m[i].text != [] && '\n' !in m[i].text {
      var deck := decks[m[i].source];
      ChunkCharacters(Join("\n", DeckTexts(deck)), DefaultMaxTokens);
      var k :| 0 <= k < |FileChunks(deck)| && FileChunks(deck)[k] == m[i].text;
    }
  }
}
