/**
 * One chat session of the front end: the message history kept across
 * turns, and the response text gathered from the stream of one turn.
 */
module ChatUi {
  import opened Wrappers
  import opened Sources
  import opened ThinkSplit
  import opened SourceAudit

  datatype Role = User | Assistant

  /** A history entry, `{"role": ..., "content": ...}`. */
  datatype Message = Message(role: Role, content: string)

  /** What one answered prompt shows: the split response and its citations. */
  datatype AssistantTurn = AssistantTurn(split: Split, citations: seq<Citation>)

  /**
   * The streamed chunks joined in the order they arrived: the reply starts
   * with the first chunk, and it is empty only when every chunk is.
   */
  function Concat(chunks: seq<string>): (r: string)
    ensures chunks != [] ==> chunks[0] <= r
    ensures r == "" <==> forall k :: 0 <= k < |chunks| ==> chunks[k] == ""
    decreases |chunks|
  {
    if chunks == [] then "" else Concat(chunks[..|chunks| - 1]) + chunks[|chunks| - 1]
  }

  /** Concatenation splits over a split of the chunk sequence. */
  lemma {:induction false} ConcatAppend(a: seq<string>, b: seq<string>)
    ensures Concat(a + b) == Concat(a) + Concat(b)
    decreases |b|
  {
    if b == [] {
      assert a + b == a;
    } else {
      var b' := b[..|b| - 1];
      assert (a + b)[..|a + b| - 1] == a + b';
      ConcatAppend(a, b');
    }
  }

  /**
   * The text shown while streaming only grows: after any number of chunks
   * it is a prefix of the final response.
   */
  lemma {:induction false} StreamedTextIsPrefix(chunks: seq<string>, k: nat)
    requires k <= |chunks|
    ensures Concat(chunks[..k]) <= Concat(chunks)
  {
    assert chunks == chunks[..k] + chunks[k..];
    ConcatAppend(chunks[..k], chunks[k..]);
  }

  /** The history alternates user prompts and assistant answers, in pairs. */
  predicate Alternating(history: seq<Message>) {
    && |history| % 2 == 0
    && forall k :: 0 <= k < |history| ==> history[k].role == (if k % 2 == 0 then User else Assistant)
  }

  /** A turn appends a prompt and its answer, so the alternation is kept. */
  lemma TurnKeepsAlternation(history: seq<Message>, prompt: string, answer: string)
    requires Alternating(history)
    ensures Alternating(history + [Message(User, prompt), Message(Assistant, answer)])
  {
  }

  class ChatSession {
    /** The session's message history. */
    var messages: seq<Message>
    /** The response text gathered in the current turn. */
    var fullResponse: string

    constructor ()
      ensures messages == [] && fullResponse == ""
    {
      messages := [];
      fullResponse := "";
    }

    /** Gather a turn's streamed chunks into `fullResponse`. */
    method ReceiveStream(chunks: seq<string>)
      modifies this`fullResponse
      ensures fullResponse == Concat(chunks)
    {
      fullResponse := "";
      for i := 0 to |chunks|
        invariant fullResponse == Concat(chunks[..i])
      {
        assert chunks[..i + 1][..i] == chunks[..i];
        fullResponse := fullResponse + chunks[i];
      }
      assert chunks[..|chunks|] == chunks;
    }

    /**
     * One prompt turn. An empty prompt is falsy and does nothing. Otherwise
     * the prompt is recorded, the engine's streamed reply is gathered and
     * split into reasoning and answer, its sources are cited, and the answer
     * is recorded; earlier history is kept as it was.
     */
    method Ask(prompt: string, chunks: seq<string>, sources: seq<SourceNode>) returns (turn: Option<AssistantTurn>)
      modifies this
      ensures prompt == "" ==> turn == None && messages == old(messages) && fullResponse == old(fullResponse)
      ensures prompt != "" ==> turn.Some?
      ensures prompt != "" ==> fullResponse == Concat(chunks)
      ensures prompt != "" ==> turn.value.split == SplitThinking(Concat(chunks))
      ensures prompt != "" ==> |turn.value.citations| == |sources|
      ensures prompt != "" ==> forall k :: 0 <= k < |sources| ==> turn.value.citations[k] == Cite(k, sources[k])
      ensures prompt != "" ==>
        messages == old(messages) + [Message(User, prompt), Message(Assistant, turn.value.split.answer)]
      ensures old(Alternating(messages)) ==> Alternating(messages)
    {
      if prompt == "" {
        return None;
      }
      messages := messages + [Message(User, prompt)];
      ReceiveStream(chunks);
      var split := SplitThinking(fullResponse);
      var citations := AuditSources(sources);
      messages := messages + [Message(Assistant, split.answer)];
      if Alternating(old(messages)) {
        TurnKeepsAlternation(old(messages), prompt, split.answer);
      }
      turn := Some(AssistantTurn(split, citations));
    }
  }
}
