/**
 The values that `json.loads` and `Response.json()` produce. Parsing itself
 is not modelled: wherever the bot parses JSON, the model takes the parser's
 answer as a parameter (`None` standing for a raised decoding error).
 */
module Json {
  import opened Wrappers

  datatype Json =
    | JNull
    | JBool(b: bool)
    | JInt(i: int)
    | JFloat(f: real)
    | JString(s: string)
    | JArray(items: seq<Json>)
    | JObject(fields: map<string, Json>)

  /** Python's `value[key]` for a string key: defined only on a dict that has
      the key; anything else raises (`KeyError` or `TypeError`). */
  function Lookup(value: Json, key: string): (r: Option<Json>)
    ensures r.Some? <==> value.JObject? && key in value.fields
    ensures r.Some? ==> r.value == value.fields[key]
  {
    if value.JObject? && key in value.fields then Some(value.fields[key])
    else None
  }
}

/**
 The memory store client: `get_memories` and `save_memory`. The HTTP calls are
 not modelled; each function takes what the call produced, with `None` for a
 raised exception.
 */
module MemoryClient {
  import opened Wrappers
  import opened Json

  /** How many entries a turn reads back from the store. */
  const FetchLimit := 3

  /** The arguments of one `save_memory` call. */
  datatype SaveRequest = SaveRequest(aiId: string, userId: string, content: Json, importance: Json)

  /** Python's `x[:3]` applied to the value found under "memories". A list
      keeps its first three items; a string keeps its first three characters,
      which the caller then iterates one-character string at a time; any other
      value raises `TypeError`, caught by the handler. */
  function TakeFirst(memories: Json): (r: Option<seq<Json>>)
    ensures memories.JArray? ==> r.Some? && r.value <= memories.items
    ensures memories.JArray? ==> |r.value| == if |memories.items| < FetchLimit then |memories.items| else FetchLimit
    ensures memories.JString? ==> r.Some? && |r.value| == if |memories.s| < FetchLimit then |memories.s| else FetchLimit
    ensures memories.JString? ==> forall k | 0 <= k < |r.value| :: r.value[k] == JString([memories.s[k]])
    ensures r.Some? <==> memories.JArray? || memories.JString?
  {
    match memories
    case JArray(items) =>
      Some(if |items| <= FetchLimit then items else items[..FetchLimit])
    case JString(s) =>
      var t := if |s| <= FetchLimit then s else s[..FetchLimit];
      Some(seq(|t|, k requires 0 <= k < |t| => JString([t[k]])))
    case _ => None
  }

  /** `get_memories`: `body` is what `r.json()` returned, `None` when the
      request or the decoding raised. Every failure yields the empty list. */
  function GetMemories(body: Option<Json>): (memories: seq<Json>)
    ensures |memories| <= FetchLimit
    ensures body.Some? && body.value.JObject? && "memories" in body.value.fields
            && body.value.fields["memories"].JArray?
            ==> memories <= body.value.fields["memories"].items
  {
    if body.None? then []
    else
      match Lookup(body.value, "memories")
      case None => []
      case Some(listed) =>
        match TakeFirst(listed)
        case None => []
        case Some(first) => first
  }

  /** The fetched list is the store's own list cut to at most three entries,
      in the store's order; when the body is not of that shape the list is
      empty. */
  lemma GetMemoriesIsPrefix(body: Option<Json>)
    ensures var ms := GetMemories(body);
      if body.Some? && body.value.JObject? && "memories" in body.value.fields
         && body.value.fields["memories"].JArray?
      then
        var items := body.value.fields["memories"].items;
        ms <= items && |ms| == (if |items| < FetchLimit then |items| else FetchLimit)
      else if body.Some? && body.value.JObject? && "memories" in body.value.fields
         && body.value.fields["memories"].JString?
      then |ms| <= |body.value.fields["memories"].s|
      else ms == []
  {
  }

  /** The HTTP status of the store's answer to a save, `None` when the POST
      raised. */
  type SaveReply = Option<int>

  /** `save_memory`'s result: true exactly when the store answered 200. */
  function SaveSucceeded(reply: SaveReply): (ok: bool)
    ensures ok <==> reply == Some(200)
  {
    match reply
    case None => false
    case Some(status) => status == 200
  }
}

/**
 The chat client `kindroid_chat`: builds the prompt from the user's message
 and the fetched memories, and turns the chat service's answer into reply text.
 */
module ChatClient {
  import opened Wrappers
  import opened Json
  import opened Text

  const Header := "Previously saved memories:\n"
  const UserLabel := "\n\nUser: "
  const Instructions :=
    "\n\nAnswer BRIEFLY. To save memory, add at the END:\n" +
    "SAVE_MEMORY: { \"content\": \"text to save\", \"importance\": 3 }"

  /** The sentence returned when the request to the chat service raised. */
  const FailureSentence :=
    "\U{41E}\U{448}\U{438}\U{431}\U{43A}\U{430} \U{441}\U{432}\U{44F}\U{437}\U{438} \U{441} \U{418}\U{418}."

  /** `m["content"]` for each memory, in order; `None` when one of them is not
      a dict with a string "content" (the comprehension or `join` raises). */
  function Contents(memories: seq<Json>): (r: Option<seq<string>>)
    ensures r.Some? <==> forall k | 0 <= k < |memories| ::
      memories[k].JObject? && "content" in memories[k].fields && memories[k].fields["content"].JString?
    ensures r.Some? ==> |r.value| == |memories|
    ensures r.Some? ==> forall k | 0 <= k < |memories| :: r.value[k] == memories[k].fields["content"].s
  {
    if memories == [] then Some([])
    else
      var m := memories[0];
      if m.JObject? && "content" in m.fields && m.fields["content"].JString? then
        match Contents(memories[1..])
        case None => None
        case Some(rest) => Some([m.fields["content"].s] + rest)
      else None
  }

  /** The prompt sent to the chat service for `message`, given the memory
      contents. */
  function ComposePrompt(message: string, contents: seq<string>): (prompt: string)
  {
    Header + Join(contents, "\n") + UserLabel + message + Instructions
  }

  /** Where each of five concatenated pieces sits, counted from the front
      for the first and from the back for the others. */
  lemma FiveParts(first: string, second: string, third: string, fourth: string, fifth: string)
    ensures var s := first + second + third + fourth + fifth;
      && s[..|first|] == first
      && s[|first|..|s| - |fifth| - |fourth| - |third|] == second
      && s[|s| - |fifth| - |fourth| - |third|..|s| - |fifth| - |fourth|] == third
      && s[|s| - |fifth| - |fourth|..|s| - |fifth|] == fourth
      && s[|s| - |fifth|..] == fifth
  {
  }

  /** The prompt has a fixed frame: the header, then the memory block, then
      the "User: " label and the user's message, then the instructions; with
      no memories the block is empty. */
  lemma PromptLayout(message: string, contents: seq<string>)
    ensures var prompt := ComposePrompt(message, contents);
      var n := |prompt|;
      && prompt[..|Header|] == Header
      && prompt[|Header|..n - |Instructions| - |message| - |UserLabel|] == Join(contents, "\n")
      && prompt[n - |Instructions| - |message| - |UserLabel|..n - |Instructions| - |message|] == UserLabel
      && prompt[n - |Instructions| - |message|..n - |Instructions|] == message
      && prompt[n - |Instructions|..] == Instructions
      && (contents == [] ==> n == |Header| + |UserLabel| + |message| + |Instructions|)
  {
    FiveParts(Header, Join(contents, "\n"), UserLabel, message, Instructions);
  }

  /** The memory block holds the contents in the given order: when none of
      them contains a newline, splitting the block on newlines gives them
      back. */
  lemma MemoryBlockRoundTrip(message: string, contents: seq<string>)
    requires |contents| >= 1
    requires forall k | 0 <= k < |contents| :: '\n' !in contents[k]
    ensures var prompt := ComposePrompt(message, contents);
      SplitLines(prompt[|Header|..|prompt| - |Instructions| - |message| - |UserLabel|]) == contents
  {
    PromptLayout(message, contents);
    SplitJoin(contents);
  }

  /** `kindroid_chat`'s result: the service's body text stripped of outer
      whitespace, or the fixed failure sentence when the request raised. Any
      status code is accepted: the body of an error answer is returned too. */
  function ChatReply(body: Option<string>): (reply: string)
    ensures IsStripped(reply)
    ensures body.Some? ==> reply == Strip(body.value)
    ensures body.None? ==> reply == FailureSentence
  {
    match body
    case Some(text) => Strip(text)
    case None => FailureSentence
  }
}
