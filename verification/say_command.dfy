/**
 * The citation-aware `say` command: turns the model's response into the one
 * chat message that is sent, or into nothing at all.
 */
module SayCommand {
  import opened Wrappers
  import opened Text
  import opened Citations

  /** The model's response; `content` is the raw string it produced. */
  datatype Response = Response(content: Option<string>)

  /** The action data handed to the command. */
  datatype Data = Data(response: Option<Response>)

  /**
   * What `json.loads` returned, as far as the command looks at it: a falsy
   * value (`null`, `false`, `0`, `""`, `[]`, `{}`), an object whose `results`
   * is a non-empty list of entries or is missing or falsy (`None`), or any
   * other truthy value (a number, `true`, a string, a non-empty list).
   */
  datatype JsonValue = Falsy | Object(results: Option<seq<Entry>>) | NonObject

  /** `json.loads` either raises `JSONDecodeError` or returns a value. */
  datatype Parsed = DecodeError | Decoded(value: JsonValue)

  /** The provenance entity attached to the message; `citation == None` is Python's `None`. */
  datatype AIEntity = AIEntity(citation: Option<seq<ClientCitation>>, additionalType: seq<string>)

  datatype ChannelData = ChannelData(feedbackLoopEnabled: bool)

  /** The activity built by `MessageFactory.text`, with its entities and channel data. */
  datatype Message = Message(text: string, entities: seq<AIEntity>, channelData: Option<ChannelData>)

  /**
   * The command's effect: it returns `reply` after sending `sent` (if any), or an
   * exception escapes it before anything is sent.
   */
  datatype Outcome = Completed(reply: string, sent: Option<Message>) | Raised(exception: string)

  /**
   * The library functions the command calls; their bodies are not part of this
   * model, so each is an arbitrary total function.
   */
  datatype Helpers = Helpers(
    parse: string -> Parsed,
    snippet: Snippet,
    formatCitations: string -> string,
    usedCitations: (string, seq<ClientCitation>) -> Option<seq<ClientCitation>>)

  const AIGeneratedContent: seq<string> := ["AIGeneratedContent"]

  /** The early-exit test: data, its response and the response content are all present and non-empty. */
  predicate HasContent(data: Option<Data>) {
    && data.Some?
    && data.value.response.Some?
    && data.value.response.value.content.Some?
    && |data.value.response.value.content.value| > 0
  }

  function RawContent(data: Option<Data>): string
    requires HasContent(data)
  {
    data.value.response.value.content.value
  }

  /** The entries the results loop runs over; empty when there are none to run over. */
  function ResultsOf(v: JsonValue): seq<Entry> {
    if v.Object? && v.results.Some? then v.results.value else []
  }

  /** Channel data is attached only on Teams. */
  function TeamsChannelData(isTeams: bool, feedbackLoopEnabled: bool): Option<ChannelData> {
    if isTeams then Some(ChannelData(feedbackLoopEnabled)) else None
  }

  /** `x if x else []`: Python's `None` and the empty list both become `[]`. */
  function ListOrEmpty(used: Option<seq<ClientCitation>>): (r: seq<ClientCitation>)
    ensures |r| > 0 ==> used == Some(r)
    ensures used.Some? && |used.value| > 0 ==> r == used.value
  {
    if used.Some? && |used.value| > 0 then used.value else []
  }

  /**
   * The results loop: walks the entries in order, numbering cited entries from 1
   * and appending each entry's answer, its marker if cited, and a line break.
   */
  method CollectCitations(results: seq<Entry>, snippet: Snippet)
    returns (content: string, citations: seq<ClientCitation>)
    ensures content == Render(results, 1)
    ensures citations == CitationsFrom(results, 1, snippet)
    ensures |citations| == CitedCount(results)
    ensures forall i :: 0 <= i < |citations| ==> citations[i].position == i + 1
    ensures forall i :: 0 <= i < |citations| ==>
      citations[i].appearance.name == CitedEntries(results)[i].citationTitle.value
  {
    content := "";
    citations := [];
    var position: nat := 1;
    var k := 0;
    while k < |results|
      invariant 0 <= k <= |results|
      invariant position == 1 + CitedCount(results[..k])
      invariant content == Render(results[..k], 1)
      invariant citations == CitationsFrom(results[..k], 1, snippet)
    {
      var item := results[k];
      assert results[..k + 1] == results[..k] + [item];
      CitedCountAppend(results[..k], item);
      RenderAppend(results[..k], item, 1);
      CitationsAppend(results[..k], item, 1, snippet);
      if IsCited(item) {
        var citation := MakeCitation(item, position, snippet);
        assert Piece(item, position) == AnswerText(item) + Marker(position) + LineBreak;
        content := content + (AnswerText(item) + Marker(position) + LineBreak);
        position := position + 1;
        citations := citations + [citation];
      } else {
        content := content + (AnswerText(item) + LineBreak);
      }
      k := k + 1;
    }
    assert results[..k] == results;
    CitationsNumbering(results, 1, snippet);
  }

  /**
   * `say_command`: exits early without sending when there is no content; sends
   * the raw text with no citations when it is not JSON; raises when the JSON is
   * a truthy non-object; otherwise sends the content built from the results (or
   * the raw content when there are none) with the citations it references.
   */
  method Say(data: Option<Data>, isTeams: bool, feedbackLoopEnabled: bool, h: Helpers)
    returns (out: Outcome)
    // no content: nothing is sent
    ensures !HasContent(data) ==> out == Completed("", None)
    // the nominal result is always the empty string
    ensures out.Completed? ==> out.reply == ""
    // not JSON: exactly one message, the raw text verbatim, citation None
    ensures HasContent(data) && h.parse(RawContent(data)).DecodeError? ==>
      out == Completed("", Some(Message(RawContent(data),
                                        [AIEntity(None, AIGeneratedContent)],
                                        TeamsChannelData(isTeams, feedbackLoopEnabled))))
    // a truthy JSON value that is not an object has no `.get`
    ensures out.Raised? <==> HasContent(data) && h.parse(RawContent(data)) == Decoded(NonObject)
    // otherwise one message with one AI entity whose citation list is never None
    ensures HasContent(data) && h.parse(RawContent(data)).Decoded? && !h.parse(RawContent(data)).value.NonObject? ==>
      && out.Completed? && out.sent.Some?
      && |out.sent.value.entities| == 1
      && out.sent.value.entities[0].citation.Some?
      && out.sent.value.entities[0].additionalType == AIGeneratedContent
      && out.sent.value.channelData == TeamsChannelData(isTeams, feedbackLoopEnabled)
    // the text and citations of that message
    ensures HasContent(data) && h.parse(RawContent(data)).Decoded? && !h.parse(RawContent(data)).value.NonObject? ==>
      var results := ResultsOf(h.parse(RawContent(data)).value);
      var built := if |results| > 0 then Render(results, 1) else RawContent(data);
      var content := if isTeams then ReplaceNewlines(built) else built;
      var citations := CitationsFrom(results, 1, h.snippet);
      && (CitedCount(results) == 0 ==>
            && out.sent.value.text == h.formatCitations(content)
            && out.sent.value.entities[0].citation == Some([]))
      && (CitedCount(results) > 0 ==>
            && out.sent.value.text == content
            && out.sent.value.entities[0].citation == Some(ListOrEmpty(h.usedCitations(content, citations))))
    // with citations, every built citation's marker is in the text, which on Teams has no newline
    ensures HasContent(data) && h.parse(RawContent(data)).Decoded? ==>
      var results := ResultsOf(h.parse(RawContent(data)).value);
      CitedCount(results) > 0 ==>
        && (forall p :: 1 <= p <= CitedCount(results) ==> Occurs(Marker(p), out.sent.value.text))
        && (isTeams ==> '\n' !in out.sent.value.text)
  {
    if !HasContent(data) {
      return Completed("", None);
    }
    var raw := RawContent(data);
    var channelData := TeamsChannelData(isTeams, feedbackLoopEnabled);

    var parsed := h.parse(raw);
    if parsed.DecodeError? {
      var message := Message(raw, [AIEntity(None, AIGeneratedContent)], channelData);
      return Completed("", Some(message));
    }
    var result := parsed.value;

    var content := "";
    var citations: seq<ClientCitation> := [];
    if result.Falsy? {
      content := raw;
    } else if result.NonObject? {
      return Raised("AttributeError");
    } else if result.results.Some? && |result.results.value| > 0 {
      var results := result.results.value;
      content, citations := CollectCitations(results, h.snippet);
      if isTeams {
        ReplaceNewlinesRender(results, 1);
      }
      var rendered := if isTeams then AllWithoutNewlines(results) else results;
      forall p | 1 <= p <= CitedCount(results)
        ensures Occurs(Marker(p), if isTeams then ReplaceNewlines(content) else content)
      {
        MarkerOccurs(rendered, 1, p);
      }
    } else {
      content := raw;
    }

    if isTeams {
      content := ReplaceNewlines(content);
    }

    var contentText := if |citations| < 1 then h.formatCitations(content) else content;
    var referenced := if |citations| > 0 then h.usedCitations(contentText, citations) else None;

    var entity := AIEntity(Some(ListOrEmpty(referenced)), AIGeneratedContent);
    var message := Message(contentText, [entity], channelData);
    return Completed("", Some(message));
  }
}
