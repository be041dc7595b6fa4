/**
 One turn of `handle_message`: read the memories, compose the prompt, ask the
 chat service, then apply the directive protocol to its reply. The three
 remote services are parameters: `storeBody` is what the memory read
 returned, `chat` what the chat service answers to a prompt, `store` what the
 memory store answers to a save.
 */
module Handler {
  import opened Wrappers
  import opened Text
  import opened Json
  import opened MemoryClient
  import opened ChatClient
  import opened Directive

  /** `handle_message` for the user `userId` sending `message`. The list
      comprehension over the memories runs outside the chat client's `try`,
      so a memory without a string "content" raises before the chat call. */
  function HandleMessage(aiId: string, userId: string, message: string,
                         storeBody: Option<Json>, chat: string -> Option<string>,
                         parse: string -> Option<Json>, store: SaveRequest -> SaveReply): (o: Outcome)
    ensures Contents(GetMemories(storeBody)).None? ==> o == Raised
    ensures o.Reply? ==> IsStripped(o.text)
    ensures o.SavedThenReply? ==> o.save.aiId == aiId && o.save.userId == userId
  {
    var memories := GetMemories(storeBody);
    match Contents(memories)
    case None => Raised
    case Some(contents) =>
      var response := ChatReply(chat(ComposePrompt(message, contents)));
      HandleReply(aiId, userId, response, parse, store)
  }

  /** Whatever the services answer, the text handed to the front end has no
      outer whitespace; after a save it also holds no marker; and a reply
      sent without a save is the chat client's reply itself. */
  lemma SentTextIsClean(aiId: string, userId: string, message: string,
                        storeBody: Option<Json>, chat: string -> Option<string>,
                        parse: string -> Option<Json>, store: SaveRequest -> SaveReply)
    ensures var o := HandleMessage(aiId, userId, message, storeBody, chat, parse, store);
      && (o.Reply? || o.SavedThenReply? ==> IsStripped(o.text))
      && (o.SavedThenReply? ==> NoMarker(o.text))
      && (o.Reply? ==> Contents(GetMemories(storeBody)).Some?
                       && o.text == ChatReply(chat(ComposePrompt(message, Contents(GetMemories(storeBody)).value))))
  {
    var memories := GetMemories(storeBody);
    if Contents(memories).Some? {
      var response := ChatReply(chat(ComposePrompt(message, Contents(memories).value)));
      SentReplyAfterSaveIsClean(aiId, userId, response, parse, store);
    }
  }

  /** A fetched memory that is not a dict with a string "content" makes the
      prompt composition raise: the chat service is not asked, nothing is
      saved and nothing is sent. */
  lemma MalformedMemoryRaises(aiId: string, userId: string, message: string,
                              storeBody: Option<Json>, chat: string -> Option<string>,
                              parse: string -> Option<Json>, store: SaveRequest -> SaveReply,
                              k: nat)
    requires k < |GetMemories(storeBody)|
    requires var m := GetMemories(storeBody)[k];
      !m.JObject? || "content" !in m.fields || !m.fields["content"].JString?
    ensures HandleMessage(aiId, userId, message, storeBody, chat, parse, store) == Raised
  {
  }

  /** A store body holding an empty memory list. */
  const NoMemories := Some(JObject(map["memories" := JArray([])]))

  /** With no stored memories, the prompt's memory block is empty. */
  lemma EmptyStorePrompt(message: string)
    ensures GetMemories(NoMemories) == []
    ensures Contents([]) == Some([])
    ensures ComposePrompt(message, []) == Header + UserLabel + message + Instructions
  {
    assert Lookup(NoMemories.value, "memories") == Some(JArray([]));
  }

  const BirthdayMessage := "Remember my birthday is May 3"
  const BirthdayBody := "\"content\": " + "\"birthday May 3\"" + ", \"importance\": 4"
  const BirthdayLine := DirectiveLine(" ", BirthdayBody)
  const BirthdayReply := "Got it!" + "\n" + BirthdayLine
  const BirthdayFields := map["content" := JString("birthday May 3"), "importance" := JInt(4)]

  /** The user asks to remember a birthday, the store holds nothing yet, and
      the chat service answers with a directive on its last line: exactly one
      save with the payload's content and importance 4, and the user
      receives "Got it!". */
  lemma BirthdayScenario(aiId: string, userId: string, chat: string -> Option<string>,
                         parse: string -> Option<Json>, store: SaveRequest -> SaveReply)
    requires chat(ComposePrompt(BirthdayMessage, [])) == Some(BirthdayReply)
    requires parse("{" + BirthdayBody + "}") == Some(JObject(BirthdayFields))
    ensures HandleMessage(aiId, userId, BirthdayMessage, NoMemories, chat, parse, store)
         == SavedThenReply(SaveRequest(aiId, userId, JString("birthday May 3"), JInt(4)), "Got it!")
  {
    EmptyStorePrompt(BirthdayMessage);
    BirthdayReplyStripped();
    BirthdayLineShape();
    DirectiveOnLastLineSaves(aiId, userId, "Got it!", BirthdayLine, |Marker| + 1, parse, store, BirthdayFields);
  }

  /** The chat client passes the birthday reply on unchanged. */
  lemma BirthdayReplyStripped()
    ensures ChatReply(Some(BirthdayReply)) == BirthdayReply
  {
    var reply := BirthdayReply;
    assert IsStripped(reply) by {
      assert reply[0] == 'G' && reply[|reply| - 1] == '}';
    }
    StripFixesStripped(reply);
  }

  /** The birthday directive is a single line the scan matches whole. */
  lemma BirthdayLineShape()
    ensures var open := |Marker| + 1;
      && MatchesWith(BirthdayLine, 0, open, |BirthdayLine| - 1)
      && (forall p | open < p < |BirthdayLine| - 1 :: BirthdayLine[p] != '}')
      && BirthdayLine[open..] == "{" + BirthdayBody + "}"
      && '\n' !in BirthdayLine
  {
    BirthdayBodyPlain();
    DirectiveShape(" ", BirthdayBody);
  }

  /** The birthday payload's body holds neither a `}` nor a newline. */
  lemma BirthdayBodyPlain()
    ensures AllSpace(" ")
    ensures '}' !in BirthdayBody && '\n' !in BirthdayBody
  {
  }

  /** A plain answer with no directive reaches the user verbatim and nothing
      is saved. */
  lemma HelloScenario(aiId: string, userId: string, chat: string -> Option<string>,
                      parse: string -> Option<Json>, store: SaveRequest -> SaveReply)
    requires chat(ComposePrompt("hi", [])) == Some("Hello there")
    ensures HandleMessage(aiId, userId, "hi", NoMemories, chat, parse, store) == Reply("Hello there")
  {
    EmptyStorePrompt("hi");
    HelloPassesThrough();
  }

  /** "Hello there" is its own strip and holds no directive. */
  lemma HelloPassesThrough()
    ensures ChatReply(Some("Hello there")) == "Hello there"
    ensures Search("Hello there").None?
  {
    StripFixesStripped("Hello there");
    NoBraceNoMatch("Hello there");
  }

  /** When the request to the chat service raises, the user receives the
      fixed failure sentence, and nothing is saved. */
  lemma ChatFailureScenario(aiId: string, userId: string, message: string,
                            chat: string -> Option<string>,
                            parse: string -> Option<Json>, store: SaveRequest -> SaveReply)
    requires chat(ComposePrompt(message, [])) == None
    ensures HandleMessage(aiId, userId, message, NoMemories, chat, parse, store) == Reply(FailureSentence)
  {
    EmptyStorePrompt(message);
    NoBraceNoMatch(FailureSentence);
  }
}
