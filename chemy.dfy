/** The chemistry provider's state machine: chemyLogic sends a question,
    records the exchange in the chat history and replaces the parsed
    possibilities when the reply yields any; clearHistory resets it. */
module Chemy {
  import opened Strings
  import opened Patterns
  import opened Segmenter
  import opened Parser

  datatype Role = User | Assistant | System

  datatype Message = Message(role: Role, content: string, timestamp: string)

  /** What awaiting backend.chat gives: a string, a value of another type,
      or a rejection with its message. */
  datatype Reply = Text(text: string) | NonString | Thrown(message: string)

  const InvalidFormat := "Invalid response format from backend"
  const NothingFound := "No valid chemical possibilities found"

  /** `Error: ${error.message}` */
  function ErrorText(message: string): string {
    "Error: " + message
  }

  /** A history made of exchanges: a user message, then the assistant's
      reply or a system error. */
  ghost predicate Alternates(h: seq<Message>) {
    |h| % 2 == 0 && forall k :: 0 <= k < |h| ==> (h[k].role == User <==> k % 2 == 0)
  }

  lemma AlternatesAppend(h: seq<Message>, u: Message, m: Message)
    requires Alternates(h) && u.role == User && m.role != User
    ensures Alternates(h + [u, m])
  {
    var h' := h + [u, m];
    forall k | 0 <= k < |h'| ensures h'[k].role == User <==> k % 2 == 0 {
      if k < |h| {
        assert h'[k] == h[k];
      }
    }
  }

  class ChemyProvider {
    var chatHistory: seq<Message>
    var isLoading: bool
    var lastResponse: Option<Message>
    var error: Option<Message>
    var possibilities: seq<Possibility>
    var selectedPossibility: Option<Possibility>

    /** The history alternates; an error is a system message of the
        history; the possibilities come from the last reply that had any,
        one per marker in it. */
    ghost predicate Valid()
      reads this
    {
      && Alternates(chatHistory)
      && (error.Some? ==> error.value.role == System && error.value in chatHistory)
      && (lastResponse.None? <==> possibilities == [])
      && (lastResponse.Some? ==>
            && lastResponse.value.role == Assistant
            && lastResponse.value in chatHistory
            && |possibilities| == MarkerCount(lastResponse.value.content))
    }

    constructor ()
      ensures Valid()
      ensures chatHistory == [] && !isLoading && lastResponse == None && error == None
      ensures possibilities == [] && selectedPossibility == None
    {
      chatHistory := [];
      isLoading := false;
      lastResponse := None;
      error := None;
      possibilities := [];
      selectedPossibility := None;
    }

    /** chemyLogic(userInput), with the backend's reply, the parser's
        surroundings and the two timestamps given. Returns the message it
        appended last. */
    method ChemyLogic(userInput: string, reply: Reply, env: Ambient, sentAt: string, answeredAt: string)
      returns (m: Message)
      requires Valid()
      modifies this
      ensures Valid()
      ensures chatHistory == old(chatHistory) + [Message(User, userInput, sentAt), m]
      ensures !isLoading && selectedPossibility == old(selectedPossibility)
      ensures match reply
        case Text(s) =>
          if ParsePossibilities(s, env) != [] then
            && m == Message(Assistant, s, answeredAt)
            && possibilities == ParsePossibilities(s, env)
            && lastResponse == Some(m) && error == None
          else
            && m == Message(System, ErrorText(NothingFound), answeredAt)
            && error == Some(m)
            && possibilities == old(possibilities) && lastResponse == old(lastResponse)
        case NonString =>
          && m == Message(System, ErrorText(InvalidFormat), answeredAt)
          && error == Some(m)
          && possibilities == old(possibilities) && lastResponse == old(lastResponse)
        case Thrown(message) =>
          && m == Message(System, ErrorText(message), answeredAt)
          && error == Some(m)
          && possibilities == old(possibilities) && lastResponse == old(lastResponse)
    {
      isLoading := true;
      error := None;
      var userMessage := Message(User, userInput, sentAt);
      chatHistory := chatHistory + [userMessage];
      match reply {
        case Text(s) =>
          var parsed := ParsePossibilities(s, env);
          if parsed == [] {
            m := Message(System, ErrorText(NothingFound), answeredAt);
            error := Some(m);
          } else {
            m := Message(Assistant, s, answeredAt);
            possibilities := parsed;
            lastResponse := Some(m);
          }
        case NonString =>
          m := Message(System, ErrorText(InvalidFormat), answeredAt);
          error := Some(m);
        case Thrown(message) =>
          m := Message(System, ErrorText(message), answeredAt);
          error := Some(m);
      }
      chatHistory := chatHistory + [m];
      isLoading := false;
      AlternatesAppend(old(chatHistory), userMessage, m);
      assert chatHistory == old(chatHistory) + [userMessage, m];
    }

    /** clearHistory */
    method ClearHistory()
      requires Valid()
      modifies this
      ensures Valid()
      ensures chatHistory == [] && lastResponse == None && error == None
      ensures possibilities == [] && selectedPossibility == None
      ensures isLoading == old(isLoading)
    {
      chatHistory := [];
      lastResponse := None;
      error := None;
      possibilities := [];
      selectedPossibility := None;
    }

    /** setSelectedPossibility, as the provider exposes it. */
    method SelectPossibility(p: Option<Possibility>)
      requires Valid()
      modifies this`selectedPossibility
      ensures Valid() && selectedPossibility == p
    {
      selectedPossibility := p;
    }
  }

  /** A reply is accepted exactly when it holds a marker. */
  lemma AcceptedIffMarker(s: string, env: Ambient)
    ensures ParsePossibilities(s, env) != [] <==> exists q :: 0 <= q < |s| && MarkerAt(s, q).Some?
  {
    NoMarkerNoRecords(s, env);
  }
}
