/**
 * The query path of the chat application (app.py): the canned-reply
 * routing on a normalised key, the mapping of search positions to metadata
 * texts, the context string handed to the answer service, the source
 * previews, and the chat history. The query embedder, the index search and
 * the answer service are parameters: `embed` maps text to a vector,
 * `search` returns the position row of the one query vector, and
 * `generate` maps the context and the question to an answer.
 */
module App {
  import opened Wrappers
  import opened PyStr
  import opened VectorStorage

  /** The `k` of `search_vectorstore`, which the application never overrides. */
  const DefaultK := 3

  /** The separator between passages in the context string. */
  const ContextSeparator := "\n\n"

  /** The number of characters of a passage the sources panel shows. */
  const PreviewLength := 300

  /** The fixed replies, keyed by the normalised query. */
  const CannedReplies: map<string, string> := map[
    "hello" := "Hello \U{1F44B}! I\U{2019}m your DPA assistant. Ask me anything about the Data Protection Act, compliance, or data privacy.",
    "hi" := "Hi there \U{1F44B}, how can I help you with data protection today?",
    "hey" := "Hey! \U{1F44B} Ready to dive into data privacy questions?",
    "who are you" := "I\U{2019}m your DPA chatbot \U{1F916}, trained on the Data Protection Act and related materials.",
    "what is dpa" := "DPA stands for Data Protection Act \U{1F4D8}. It\U{2019}s the law that governs how personal data should be handled securely and fairly.",
    "good morning" := "Good morning \U{1F31E}! Let\U{2019}s talk data protection.",
    "good evening" := "Good evening \U{1F319}! What would you like to know about the DPA?",
    "what files have you trained with" := " Data protection course files"
  ]

  /** The first message of a new chat. */
  const Greeting := "Hello \U{1F44B} I\U{2019}m your DPA chatbot. Ask me anything about the Data Protection Act 2019"

  /** The position row returned by the index for one query vector and a `k`. */
  type Searcher = (FlatIndex, Vector, nat) -> seq<int>

  /** `metadata[i]` raises IndexError. */
  datatype QueryError = IndexError(position: int)

  /** What one processed query shows: the answer, the passages when retrieval ran, and the source previews. */
  datatype Turn = Turn(answer: string, retrieved: Option<seq<string>>, sources: seq<string>)

  datatype Role = User | Assistant

  datatype Message = Message(role: Role, content: string)

  /**
   * `query.lower().strip()`: the lowered query without its surrounding
   * whitespace, so it holds no upper-case ASCII letter.
   */
  function RoutingKey(query: string): (key: string)
    ensures StrippedOf(key, Lower(query))
    ensures forall i :: 0 <= i < |key| ==> !('A' <= key[i] <= 'Z')
  {
    StripKeepsCharacters(Lower(query));
    Strip(Lower(query))
  }

  /** A position Python's list indexing accepts: negative ones count from the end. */
  predicate InRange(n: nat, i: int) {
    -(n as int) <= i < n
  }

  predicate AllInRange(n: nat, positions: seq<int>) {
    forall j :: 0 <= j < |positions| ==> InRange(n, positions[j])
  }

  /**
   * `[metadata[i]["text"] for i in positions]`: fails at the first position
   * out of range; otherwise one text per position, in the order given.
   */
  function TextsAt(metadata: seq<Record>, positions: seq<int>): (r: Result<seq<string>, QueryError>)
    ensures r.Success? <==> AllInRange(|metadata|, positions)
    ensures r.Success? ==> |r.value| == |positions|
    ensures r.Success? ==> forall j :: 0 <= j < |positions| && 0 <= positions[j] ==>
      r.value[j] == metadata[positions[j]].text
    ensures r.Success? ==> forall j :: 0 <= j < |positions| && positions[j] < 0 ==>
      r.value[j] == metadata[|metadata| + positions[j]].text
    ensures r.Failure? ==>
      exists j :: 0 <= j < |positions| && r.error == IndexError(positions[j]) && !InRange(|metadata|, positions[j])
        && AllInRange(|metadata|, positions[..j])
    decreases |positions|
  {
    if positions == [] then Success([])
    else
      var i := positions[0];
      if !InRange(|metadata|, i) then
        assert positions[..0] == [];
        Failure(IndexError(i))
      else
        var text := metadata[if i < 0 then |metadata| + i else i].text;
        match TextsAt(metadata, positions[1..])
        case Failure(e) =>
          assert forall j :: 0 <= j < |positions| - 1 ==> positions[1..][..j] == positions[1..j + 1];
          Failure(e)
        case Success(rest) => Success([text] + rest)
  }

  /**
   * `search_vectorstore(query)`: embed the query, search the index for the
   * default `k` nearest positions and map each to the text stored there;
   * a position outside the metadata raises, as Python's indexing does.
   */
  function SearchVectorstore(query: string, store: Store, embed: string -> Vector, search: Searcher)
    : (r: Result<seq<string>, QueryError>)
    ensures var positions := search(store.index, embed(query), DefaultK);
      && (r.Success? <==> AllInRange(|store.metadata|, positions))
      && (r.Success? ==> |r.value| == |positions|)
      && (r.Success? ==> forall j :: 0 <= j < |positions| && 0 <= positions[j] ==>
            r.value[j] == store.metadata[positions[j]].text)
      && (r.Success? ==> forall j :: 0 <= j < |positions| && positions[j] < 0 ==>
            r.value[j] == store.metadata[|store.metadata| + positions[j]].text)
      && (r.Failure? ==>
            exists j :: 0 <= j < |positions| && r.error == IndexError(positions[j]) && !InRange(|store.metadata|, positions[j]))
  {
    TextsAt(store.metadata, search(store.index, embed(query), DefaultK))
  }

  /**
   * The sources panel: `text[:300]` for every piece of
   * `context.split("\n\n")`, so at least one preview, even for an empty
   * context, and each one the start of its piece, cut at 300 characters.
   */
  function Previews(context: string): (r: seq<string>)
    ensures |r| == |Split(context, ContextSeparator)| >= 1
    ensures forall j :: 0 <= j < |r| ==>
      var piece := Split(context, ContextSeparator)[j];
      r[j] <= piece && |r[j]| == if |piece| <= PreviewLength then |piece| else PreviewLength
  {
    var pieces := Split(context, ContextSeparator);
    seq(|pieces|, j requires 0 <= j < |pieces| => Prefix(pieces[j], PreviewLength))
  }

  /**
   * One processed query. A canned key answers from the table, with no
   * retrieval and an empty sources panel (`context` is then unbound and the
   * panel's bare `except` swallows the error). Otherwise the retrieved
   * passages, joined by a blank line, go to the answer service and to the
   * sources panel.
   */
  function Respond(query: string, store: Store, embed: string -> Vector, search: Searcher,
                   generate: (string, string) -> string): (r: Result<Turn, QueryError>)
    ensures RoutingKey(query) in CannedReplies ==>
      r == Success(Turn(CannedReplies[RoutingKey(query)], None, []))
    ensures RoutingKey(query) !in CannedReplies ==>
      (r.Success? <==> SearchVectorstore(query, store, embed, search).Success?)
    ensures RoutingKey(query) !in CannedReplies && r.Success? ==>
      var passages := SearchVectorstore(query, store, embed, search).value;
      r.value.retrieved == Some(passages)
      && r.value.answer == generate(Join(ContextSeparator, passages), query)
  {
    var key := RoutingKey(query);
    if key in CannedReplies then
      Success(Turn(CannedReplies[key], None, []))
    else
      match SearchVectorstore(query, store, embed, search)
      case Failure(e) => Failure(e)
      case Success(passages) =>
        var context := Join(ContextSeparator, passages);
        Success(Turn(generate(context, query), Some(passages), Previews(context)))
  }

  /** The chat history kept across reruns of the page. */
  class ChatSession {
    var messages: seq<Message>

    constructor ()
      ensures messages == [Message(Assistant, Greeting)]
    {
      messages := [Message(Assistant, Greeting)];
    }

    /**
     * Handles one (possibly empty) query: an empty query changes nothing;
     * otherwise the user's message is recorded first, and the assistant's
     * answer after it unless retrieval failed.
     */
    method Submit(query: string, store: Store, embed: string -> Vector, search: Searcher,
                  generate: (string, string) -> string)
      returns (shown: Option<Result<Turn, QueryError>>)
      modifies this
      ensures query == "" ==> shown == None && messages == old(messages)
      ensures query != "" ==> shown == Some(Respond(query, store, embed, search, generate))
      ensures query != "" && shown.value.Success? ==>
        messages == old(messages) + [Message(User, query), Message(Assistant, shown.value.value.answer)]
      ensures query != "" && shown.value.Failure? ==> messages == old(messages) + [Message(User, query)]
    {
      if query == "" {
        return None;
      }
      messages := messages + [Message(User, query)];
      var outcome := Respond(query, store, embed, search, generate);
      if outcome.Success? {
        messages := messages + [Message(Assistant, outcome.value.answer)];
      }
      shown := Some(outcome);
    }
  }

  // ---------------------------------------------------------------------
  // Properties

  /** Queries that differ only in the case of ASCII letters and in outer whitespace have the same key. */
  lemma SameRoutingKey(q1: string, q2: string, before: string, after: string)
    requires Lower(q1) == Lower(q2) && AllSpace(before) && AllSpace(after)
    ensures RoutingKey(before + q1 + after) == RoutingKey(q2)
  {
    LowerConcat(before, q1, after);
    StripOuterSpace(before, Lower(q1), after);
  }

  /** ... and so get the same canned answer, or both go to retrieval. */
  lemma SameRoute(q1: string, q2: string, before: string, after: string, store: Store,
                  embed: string -> Vector, search: Searcher, generate: (string, string) -> string)
    requires Lower(q1) == Lower(q2) && AllSpace(before) && AllSpace(after)
    ensures var q := before + q1 + after;
      (Respond(q, store, embed, search, generate).Success? && Respond(q, store, embed, search, generate).value.retrieved.None?)
      <==> RoutingKey(q2) in CannedReplies
    ensures RoutingKey(q2) in CannedReplies ==>
      Respond(before + q1 + after, store, embed, search, generate) == Respond(q2, store, embed, search, generate)
  {
    SameRoutingKey(q1, q2, before, after);
  }

  /**
   * Joining passages that hold no newline by a blank line and splitting the
   * result there gives the passages back, so the sources panel shows one
   * preview per passage: its first 300 characters.
   */
  lemma PreviewsOfPassages(passages: seq<string>)
    requires |passages| >= 1
    requires forall j :: 0 <= j < |passages| ==> '\n' !in passages[j]
    ensures Split(Join(ContextSeparator, passages), ContextSeparator) == passages
    ensures |Previews(Join(ContextSeparator, passages))| == |passages|
    ensures forall j :: 0 <= j < |passages| ==>
      var shown := Previews(Join(ContextSeparator, passages))[j];
      shown <= passages[j] && |shown| == if |passages[j]| <= PreviewLength then |passages[j]| else PreviewLength
  {
    SplitJoin(passages, ContextSeparator);
  }

  /**
   * Against a store built from decks, every retrieved passage is a chunk,
   * so the sources panel previews exactly the retrieved passages, in order.
   */
  lemma SourcesPreviewRetrievedChunks(query: string, files: seq<string>, decks: map<string, Deck>, store: Store,
                                      embed: string -> Vector, search: Searcher, generate: (string, string) -> string)
    requires Openable(files, decks) && store.metadata == Metadata(files, decks)
    requires RoutingKey(query) !in CannedReplies
    requires search(store.index, embed(query), DefaultK) != []
    requires AllInRange(|store.metadata|, search(store.index, embed(query), DefaultK))
    ensures Respond(query, store, embed, search, generate).Success?
    ensures var turn := Respond(query, store, embed, search, generate).value;
      turn.retrieved.Some?
      && Split(Join(ContextSeparator, turn.retrieved.value), ContextSeparator) == turn.retrieved.value
      && |turn.sources| == |turn.retrieved.value|
      && forall j :: 0 <= j < |turn.sources| ==> turn.sources[j] == Prefix(turn.retrieved.value[j], PreviewLength)
  {
    var positions := search(store.index, embed(query), DefaultK);
    var passages := TextsAt(store.metadata, positions).value;
    MetadataTextsPlain(files, decks);
    RetrievedChunksPlain(store.metadata, positions);
    PreviewsOfPassages(passages);
    var context := Join(ContextSeparator, passages);
    assert Respond(query, store, embed, search, generate)
      == Success(Turn(generate(context, query), Some(passages), Previews(context)));
  }

  /** The texts at valid positions of metadata without newlines are themselves without newlines. */
  lemma RetrievedChunksPlain(metadata: seq<Record>, positions: seq<int>)
    requires forall i :: 0 <= i < |metadata| ==> '\n' !in metadata[i].text
    requires AllInRange(|metadata|, positions)
    ensures TextsAt(metadata, positions).Success?
    ensures forall j :: 0 <= j < |positions| ==> '\n' !in TextsAt(metadata, positions).value[j]
  {
    var passages := TextsAt(metadata, positions).value;
    forall j | 0 <= j < |positions| ensures '\n' !in passages[j] {
      assert InRange(|metadata|, positions[j]);
      var i := if positions[j] < 0 then |metadata| + positions[j] else positions[j];
      assert passages[j] == metadata[i].text;
    }
  }
}
