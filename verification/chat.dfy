/**
 * The chat front end's message list: the append made when the user sends a question,
 * the streaming accumulator `setPartialMessage`, the dispatch of parsed server events in
 * `handleReceiveMessage`, and `formatSource`, which shows a source path by its last segment.
 */
module Chat {
  import opened Wrappers
  import opened Seqs

  /** One bubble of the conversation; `sources` is absent on user messages. */
  datatype Message = Message(text: string, isUser: bool, sources: Option<seq<string>>)

  /** A parsed server event: the content of `answer` or of the misspelt `anwser`, and the sources of `docs`. */
  datatype ServerData = ServerData(answer: Option<string>, anwser: Option<string>, docs: Option<seq<string>>)

  function Last(messages: seq<Message>): Message
    requires |messages| > 0
  {
    messages[|messages| - 1]
  }

  /**
   * `setPartialMessage(chunk, sources)`: open a bot message when the list is empty or
   * ends with the user's message; otherwise extend the trailing bot message with the
   * chunk and its sources. An empty source array is still present (JavaScript truthiness),
   * so only an absent one is replaced rather than extended.
   */
  function SetPartialMessage(messages: seq<Message>, chunk: string, sources: seq<string>): (r: seq<Message>)
    ensures |r| > 0 && !Last(r).isUser
    ensures |messages| == 0 ==> r == [Message(chunk, false, Some(sources))]
    ensures |messages| > 0 && Last(messages).isUser ==>
      |r| == |messages| + 1 && r[..|messages|] == messages && Last(r) == Message(chunk, false, Some(sources))
    ensures |messages| > 0 && !Last(messages).isUser ==>
      && |r| == |messages|
      && r[..|r| - 1] == messages[..|messages| - 1]
      && Last(r).text == Last(messages).text + chunk
      && Last(r).sources == Some(if Last(messages).sources.Some? then Last(messages).sources.value + sources else sources)
  {
    if |messages| == 0 then [Message(chunk, false, Some(sources))]
    else
      var last := Last(messages);
      if last.isUser then messages + [Message(chunk, false, Some(sources))]
      else
        var merged := last.(text := last.text + chunk,
                            sources := if last.sources.Some? then Some(last.sources.value + sources) else Some(sources));
        messages[..|messages| - 1] + [merged]
  }

  /** The append `handleSendMessage` makes before it opens the event stream. */
  function SendMessage(messages: seq<Message>, message: string): (r: seq<Message>)
    ensures |r| == |messages| + 1 && r[..|messages|] == messages
    ensures Last(r) == Message(message, true, None)
  {
    messages + [Message(message, true, None)]
  }

  /**
   * `handleReceiveMessage` on a parsed event: an answer chunk (from `answer`, or else
   * from `anwser`) is merged first, then the sources of `docs` with an empty chunk.
   */
  function HandleReceiveMessage(messages: seq<Message>, data: ServerData): (r: seq<Message>)
    ensures data.answer.None? && data.anwser.None? && data.docs.None? ==> r == messages
    ensures data.answer.Some? || data.anwser.Some? || data.docs.Some? ==> |r| > 0 && !Last(r).isUser
  {
    var afterAnswer :=
      if data.answer.Some? then SetPartialMessage(messages, data.answer.value, [])
      else if data.anwser.Some? then SetPartialMessage(messages, data.anwser.value, [])
      else messages;
    if data.docs.Some? then SetPartialMessage(afterAnswer, "", data.docs.value) else afterAnswer
  }

  /** The stream's `onmessage`: only events named "data" reach `handleReceiveMessage`. */
  function OnMessage(messages: seq<Message>, event: string, data: ServerData): (r: seq<Message>)
    ensures event != "data" ==> r == messages
    ensures event == "data" ==> r == HandleReceiveMessage(messages, data)
  {
    if event == "data" then HandleReceiveMessage(messages, data) else messages
  }

  /** When both spellings are present, `answer` wins and `anwser` is ignored. */
  lemma AnswerTakesPrecedence(messages: seq<Message>, a: string, b: string, docs: Option<seq<string>>)
    ensures HandleReceiveMessage(messages, ServerData(Some(a), Some(b), docs))
         == HandleReceiveMessage(messages, ServerData(Some(a), None, docs))
  {
  }

  /**
   * Without `answer`, the content of the misspelt `anwser` is merged exactly as an answer
   * would be; after a question it opens the bot message with that content.
   */
  lemma AnwserIsFallback(messages: seq<Message>, b: string, docs: Option<seq<string>>)
    ensures HandleReceiveMessage(messages, ServerData(None, Some(b), docs))
         == HandleReceiveMessage(messages, ServerData(Some(b), None, docs))
    ensures |messages| > 0 && Last(messages).isUser ==>
      HandleReceiveMessage(messages, ServerData(None, Some(b), None)) == messages + [Message(b, false, Some([]))]
  {
  }

  /**
   * An event carrying both an answer and `docs`, right after a question: the answer opens
   * the bot message first, then the sources are merged into it.
   */
  lemma AnswerThenDocs(history: seq<Message>, question: string, a: string, docs: seq<string>)
    ensures HandleReceiveMessage(SendMessage(history, question), ServerData(Some(a), None, Some(docs)))
         == SendMessage(history, question) + [Message(a, false, Some(docs))]
  {
    var asked := SendMessage(history, question);
    var started := SetPartialMessage(asked, a, []);
    assert started == asked + [Message(a, false, Some([]))];
    assert started[..|started| - 1] == asked;
    assert a + "" == a && [] + docs == docs;
  }

  /** A `docs` event on a trailing bot message keeps its text and extends its sources. */
  lemma DocsExtendSources(messages: seq<Message>, docs: seq<string>)
    requires |messages| > 0 && !Last(messages).isUser && Last(messages).sources.Some?
    ensures var r := HandleReceiveMessage(messages, ServerData(None, None, Some(docs)));
      && |r| == |messages|
      && r[..|r| - 1] == messages[..|messages| - 1]
      && Last(r).text == Last(messages).text
      && Last(r).sources == Some(Last(messages).sources.value + docs)
  {
    var r := SetPartialMessage(messages, "", docs);
    assert Last(messages).text + "" == Last(messages).text;
  }

  /**
   * The shape every list built by these operations keeps: never two bot messages in a
   * row, sources present on every bot message and absent on every user message.
   */
  predicate WellFormed(messages: seq<Message>) {
    && (forall i :: 0 < i < |messages| ==> messages[i - 1].isUser || messages[i].isUser)
    && (forall i :: 0 <= i < |messages| ==> (messages[i].sources.Some? <==> !messages[i].isUser))
  }

  lemma SendPreservesWellFormed(messages: seq<Message>, message: string)
    requires WellFormed(messages)
    ensures WellFormed(SendMessage(messages, message))
  {
    var r := SendMessage(messages, message);
    assert forall i :: 0 <= i < |messages| ==> r[i] == messages[i];
  }

  lemma SetPartialPreservesWellFormed(messages: seq<Message>, chunk: string, sources: seq<string>)
    requires WellFormed(messages)
    ensures WellFormed(SetPartialMessage(messages, chunk, sources))
  {
    if |messages| == 0 || Last(messages).isUser {
      AppendBotKeepsWellFormed(messages, Message(chunk, false, Some(sources)));
      assert |messages| == 0 ==> [] + [Message(chunk, false, Some(sources))] == [Message(chunk, false, Some(sources))];
    } else {
      var last := Last(messages);
      var merged := last.(text := last.text + chunk,
                          sources := if last.sources.Some? then Some(last.sources.value + sources) else Some(sources));
      ReplaceBotKeepsWellFormed(messages, merged);
    }
  }

  /** A bot message may follow an empty list or the user's message. */
  lemma AppendBotKeepsWellFormed(messages: seq<Message>, m: Message)
    requires WellFormed(messages) && (|messages| == 0 || Last(messages).isUser)
    requires !m.isUser && m.sources.Some?
    ensures WellFormed(messages + [m])
  {
    var r := messages + [m];
    assert forall i :: 0 <= i < |messages| ==> r[i] == messages[i];
  }

  /** A trailing bot message may be replaced by another bot message. */
  lemma ReplaceBotKeepsWellFormed(messages: seq<Message>, m: Message)
    requires WellFormed(messages) && |messages| > 0 && !Last(messages).isUser
    requires !m.isUser && m.sources.Some?
    ensures WellFormed(messages[..|messages| - 1] + [m])
  {
    var r := messages[..|messages| - 1] + [m];
    assert forall i :: 0 <= i < |messages| - 1 ==> r[i] == messages[i];
  }

  lemma ReceivePreservesWellFormed(messages: seq<Message>, data: ServerData)
    requires WellFormed(messages)
    ensures WellFormed(HandleReceiveMessage(messages, data))
  {
    var afterAnswer :=
      if data.answer.Some? then SetPartialMessage(messages, data.answer.value, [])
      else if data.anwser.Some? then SetPartialMessage(messages, data.anwser.value, [])
      else messages;
    if data.answer.Some? {
      SetPartialPreservesWellFormed(messages, data.answer.value, []);
    } else if data.anwser.Some? {
      SetPartialPreservesWellFormed(messages, data.anwser.value, []);
    }
    if data.docs.Some? {
      SetPartialPreservesWellFormed(afterAnswer, "", data.docs.value);
    }
  }

  /** Events applied in arrival order. */
  function ReceiveAll(messages: seq<Message>, events: seq<ServerData>): seq<Message>
    decreases |events|
  {
    if |events| == 0 then messages else ReceiveAll(HandleReceiveMessage(messages, events[0]), events[1..])
  }

  /** The answer text a stream of chunks spells out. */
  function Concat(chunks: seq<string>): string
    decreases |chunks|
  {
    if |chunks| == 0 then "" else chunks[0] + Concat(chunks[1..])
  }

  /** One `answer` event per chunk. */
  function AnswerEvents(chunks: seq<string>): (events: seq<ServerData>)
    ensures |events| == |chunks|
    ensures forall i :: 0 <= i < |chunks| ==> events[i] == ServerData(Some(chunks[i]), None, None)
  {
    seq(|chunks|, i requires 0 <= i < |chunks| => ServerData(Some(chunks[i]), None, None))
  }

  /** Chunks streamed onto a trailing bot message are appended to its text, in order. */
  lemma {:induction false} ChunksExtendLastMessage(messages: seq<Message>, chunks: seq<string>)
    requires |messages| > 0 && !Last(messages).isUser
    ensures var r := ReceiveAll(messages, AnswerEvents(chunks));
      && |r| == |messages|
      && r[..|r| - 1] == messages[..|messages| - 1]
      && Last(r).text == Last(messages).text + Concat(chunks)
      && Last(r).isUser == Last(messages).isUser
      && (Last(messages).sources.Some? ==> Last(r).sources == Last(messages).sources)
    decreases |chunks|, 1
  {
    if |chunks| == 0 {
      assert Last(messages).text + "" == Last(messages).text;
    } else {
      ChunksExtendStep(messages, chunks);
    }
  }

  /** The inductive step: the first chunk extends the message, the rest extend the result. */
  lemma {:induction false} ChunksExtendStep(messages: seq<Message>, chunks: seq<string>)
    requires |messages| > 0 && !Last(messages).isUser && |chunks| > 0
    ensures var r := ReceiveAll(messages, AnswerEvents(chunks));
      && |r| == |messages|
      && r[..|r| - 1] == messages[..|messages| - 1]
      && Last(r).text == Last(messages).text + Concat(chunks)
      && Last(r).isUser == Last(messages).isUser
      && (Last(messages).sources.Some? ==> Last(r).sources == Last(messages).sources)
    decreases |chunks|, 0
  {
    var last := Last(messages);
    var next := HandleReceiveMessage(messages, ServerData(Some(chunks[0]), None, None));
    ReceiveAnswerEvents(messages, chunks);
    ChunkExtendsLastMessage(messages, chunks[0]);
    ChunksExtendLastMessage(next, chunks[1..]);
    assert next[..|next| - 1] == messages[..|messages| - 1];
    AppendAssoc(last.text, chunks[0], Concat(chunks[1..]));
  }

  /** Applying the answer events of some chunks is applying the first, then the rest. */
  lemma ReceiveAnswerEvents(messages: seq<Message>, chunks: seq<string>)
    requires |chunks| > 0
    ensures ReceiveAll(messages, AnswerEvents(chunks))
         == ReceiveAll(HandleReceiveMessage(messages, ServerData(Some(chunks[0]), None, None)), AnswerEvents(chunks[1..]))
  {
    assert AnswerEvents(chunks)[1..] == AnswerEvents(chunks[1..]);
  }

  /** One answer chunk on a trailing bot message extends its text and keeps its sources. */
  lemma ChunkExtendsLastMessage(messages: seq<Message>, chunk: string)
    requires |messages| > 0 && !Last(messages).isUser
    ensures var r := HandleReceiveMessage(messages, ServerData(Some(chunk), None, None));
      && |r| == |messages|
      && r[..|r| - 1] == messages[..|messages| - 1]
      && Last(r).text == Last(messages).text + chunk
      && !Last(r).isUser
      && (Last(messages).sources.Some? ==> Last(r).sources == Last(messages).sources)
  {
    var last := Last(messages);
    if last.sources.Some? {
      assert last.sources.value + [] == last.sources.value;
    }
  }

  /**
   * A whole reply after the user's question: answer chunks, then the docs event. The
   * conversation grows by exactly one bot message holding the joined chunks and the sources.
   */
  lemma StreamedReply(history: seq<Message>, question: string, chunks: seq<string>, docs: seq<string>)
    ensures var asked := SendMessage(history, question);
      ReceiveAll(asked, AnswerEvents(chunks) + [ServerData(None, None, Some(docs))])
        == asked + [Message(Concat(chunks), false, Some(docs))]
  {
    var asked := SendMessage(history, question);
    var events := AnswerEvents(chunks) + [ServerData(None, None, Some(docs))];
    ReceiveAllAppend(asked, AnswerEvents(chunks), [ServerData(None, None, Some(docs))]);
    if |chunks| == 0 {
      assert AnswerEvents(chunks) == [];
      assert ReceiveAll(asked, []) == asked;
    } else {
      var first := HandleReceiveMessage(asked, AnswerEvents(chunks)[0]);
      assert first == asked + [Message(chunks[0], false, Some([]))];
      assert AnswerEvents(chunks)[1..] == AnswerEvents(chunks[1..]);
      ChunksExtendLastMessage(first, chunks[1..]);
      var streamed := ReceiveAll(first, AnswerEvents(chunks[1..]));
      assert ReceiveAll(asked, AnswerEvents(chunks)) == streamed;
      assert streamed[..|streamed| - 1] == asked;
      assert Last(streamed) == Message(Concat(chunks), false, Some([]));
      var done := HandleReceiveMessage(streamed, ServerData(None, None, Some(docs)));
      assert Concat(chunks) + "" == Concat(chunks);
      assert [] + docs == docs;
      assert done == asked + [Message(Concat(chunks), false, Some(docs))];
    }
  }

  /** Applying two runs of events one after the other is applying their concatenation. */
  lemma {:induction false} ReceiveAllAppend(messages: seq<Message>, a: seq<ServerData>, b: seq<ServerData>)
    ensures ReceiveAll(messages, a + b) == ReceiveAll(ReceiveAll(messages, a), b)
    decreases |a|
  {
    if |a| == 0 {
      assert a + b == b;
    } else {
      assert (a + b)[0] == a[0] && (a + b)[1..] == a[1..] + b;
      ReceiveAllAppend(HandleReceiveMessage(messages, a[0]), a[1..], b);
    }
  }

  /** The pieces `split("/")` cuts a string into, put back together with "/". */
  function Join(parts: seq<string>): string
    decreases |parts|
  {
    if |parts| == 0 then ""
    else if |parts| == 1 then parts[0]
    else parts[0] + "/" + Join(parts[1..])
  }

  /** JavaScript's `split("/")`: the maximal slash-free pieces, empty ones included. */
  function Split(s: string): (parts: seq<string>)
    ensures |parts| >= 1
    decreases |s|
  {
    if |s| == 0 then [""]
    else if s[0] == '/' then [""] + Split(s[1..])
    else
      var rest := Split(s[1..]);
      [[s[0]] + rest[0]] + rest[1..]
  }

  /** No piece of a split holds a slash. */
  lemma {:induction false} SplitPiecesSlashFree(s: string)
    ensures forall i :: 0 <= i < |Split(s)| ==> '/' !in Split(s)[i]
    decreases |s|
  {
    if |s| > 0 {
      var rest := Split(s[1..]);
      SplitPiecesSlashFree(s[1..]);
      if s[0] == '/' {
        SplitSlashHead(s);
        assert forall i :: 1 <= i < |Split(s)| ==> Split(s)[i] == rest[i - 1];
      } else {
        SplitCharHead(s);
        assert forall i :: 1 <= i < |Split(s)| ==> Split(s)[i] == rest[i];
        assert '/' !in [s[0]] + rest[0] by {
          assert forall c :: c in [s[0]] + rest[0] ==> c == s[0] || c in rest[0];
        }
      }
    }
  }

  /** Joining the pieces of a split with "/" gives the string back. */
  lemma {:induction false} JoinSplit(s: string)
    ensures Join(Split(s)) == s
    decreases |s|
  {
    if |s| > 0 {
      var t := s[1..];
      var rest := Split(t);
      JoinSplit(t);
      if s[0] == '/' {
        SplitSlashHead(s);
        JoinCons("", rest);
        assert s == "/" + t;
      } else {
        SplitCharHead(s);
        JoinExtendHead(s[0], rest);
        assert s == [s[0]] + t;
      }
    }
  }

  lemma JoinCons(p: string, parts: seq<string>)
    requires |parts| >= 1
    ensures Join([p] + parts) == p + "/" + Join(parts)
  {
    assert ([p] + parts)[1..] == parts;
  }

  /** Putting a character in front of the first piece puts it in front of the joined string. */
  lemma JoinExtendHead(c: char, parts: seq<string>)
    requires |parts| >= 1
    ensures Join([[c] + parts[0]] + parts[1..]) == [c] + Join(parts)
  {
    var q := [[c] + parts[0]] + parts[1..];
    if |parts| > 1 {
      var p, j := parts[0], Join(parts[1..]);
      assert q[1..] == parts[1..];
      AppendAssoc([c], p, "/");
      AppendAssoc([c], p + "/", j);
    }
  }


  /** Splitting what `Join` built gives the pieces back. */
  lemma {:induction false} SplitJoin(parts: seq<string>)
    requires |parts| >= 1 && forall i :: 0 <= i < |parts| ==> '/' !in parts[i]
    ensures Split(Join(parts)) == parts
    decreases |parts|, |parts[0]|, 1
  {
    if |parts| == 1 {
      SplitSlashFree(parts[0]);
    } else if |parts[0]| == 0 {
      SplitJoinEmptyHead(parts);
    } else {
      SplitJoinCharHead(parts);
    }
  }

  lemma {:induction false} SplitJoinEmptyHead(parts: seq<string>)
    requires |parts| >= 2 && |parts[0]| == 0 && forall i :: 0 <= i < |parts| ==> '/' !in parts[i]
    ensures Split(Join(parts)) == parts
    decreases |parts|, 0, 0
  {
    var rest := parts[1..];
    SplitJoin(rest);
    var s := Join(parts);
    assert s == "/" + Join(rest);
    assert s[1..] == Join(rest);
    SplitSlashHead(s);
    assert parts == [""] + rest;
  }

  lemma {:induction false} SplitJoinCharHead(parts: seq<string>)
    requires |parts| >= 2 && |parts[0]| > 0 && forall i :: 0 <= i < |parts| ==> '/' !in parts[i]
    ensures Split(Join(parts)) == parts
    decreases |parts|, |parts[0]|, 0
  {
    var p := parts[0];
    var shorter := [p[1..]] + parts[1..];
    assert shorter[1..] == parts[1..];
    assert '/' !in p[1..] by {
      assert forall c :: c in p[1..] ==> c in p;
    }
    SplitJoin(shorter);
    var s := Join(parts);
    assert s == [p[0]] + Join(shorter);
    assert s[1..] == Join(shorter);
    assert s[0] == p[0] && p[0] != '/';
    SplitCharHead(s);
    assert [p[0]] + p[1..] == p;
  }

  /** One step of `split` on a leading slash: an empty piece, then the split of the rest. */
  lemma SplitSlashHead(s: string)
    requires |s| > 0 && s[0] == '/'
    ensures Split(s) == [""] + Split(s[1..])
  {
  }

  /** One step of `split` on any other character: it starts the first piece. */
  lemma SplitCharHead(s: string)
    requires |s| > 0 && s[0] != '/'
    ensures Split(s) == [[s[0]] + Split(s[1..])[0]] + Split(s[1..])[1..]
  {
  }

  lemma {:induction false} SplitSlashFree(s: string)
    requires '/' !in s
    ensures Split(s) == [s]
    decreases |s|
  {
    if |s| > 0 {
      assert '/' !in s[1..] by {
        assert forall c :: c in s[1..] ==> c in s;
      }
      SplitSlashFree(s[1..]);
      assert [s[0]] + s[1..] == s;
    }
  }

  /** `l` is a tail of `s`, and a slash precedes it unless it is all of `s`. */
  predicate IsSlashTail(s: string, l: string) {
    |l| <= |s| && l == s[|s| - |l|..] && (|l| < |s| ==> s[|s| - |l| - 1] == '/')
  }

  /** The last piece of a split is a suffix of the string, with a slash before it unless it is all of it. */
  lemma {:induction false} SplitLastIsSuffix(s: string)
    ensures var parts := Split(s); IsSlashTail(s, parts[|parts| - 1])
    decreases |s|, 1
  {
    if |s| > 0 {
      if s[0] == '/' {
        LastAfterSlash(s);
      } else {
        LastAfterChar(s);
      }
    }
  }

  lemma {:induction false} LastAfterSlash(s: string)
    requires |s| > 0 && s[0] == '/'
    ensures var parts := Split(s); IsSlashTail(s, parts[|parts| - 1])
    decreases |s|, 0
  {
    SplitLastIsSuffix(s[1..]);
    SplitSlashHead(s);
    SlashThenTail(s, Split(s[1..]));
  }

  /** Putting an empty piece in front keeps the last piece, which stays a slash-delimited tail. */
  lemma SlashThenTail(s: string, rest: seq<string>)
    requires |s| > 0 && s[0] == '/' && |rest| >= 1 && IsSlashTail(s[1..], rest[|rest| - 1])
    ensures var parts := [""] + rest; IsSlashTail(s, parts[|parts| - 1])
  {
    SlashTailExtend(s, rest[|rest| - 1]);
    assert ([""] + rest)[|rest|] == rest[|rest| - 1];
  }

  lemma {:induction false} LastAfterChar(s: string)
    requires |s| > 0 && s[0] != '/'
    ensures var parts := Split(s); IsSlashTail(s, parts[|parts| - 1])
    decreases |s|, 0
  {
    var t := s[1..];
    var rest := Split(t);
    SplitLastIsSuffix(t);
    SplitCharHead(s);
    JoinSplit(t);
    if |rest| > 1 {
      JoinHasSlash(rest);
      SlashTailExtend(s, rest[|rest| - 1]);
    } else {
      assert rest[0] == t;
      assert [s[0]] + t == s;
    }
  }

  /** A slash-delimited tail of `s[1..]` is one of `s`, unless it is all of `s[1..]` and `s[0]` is no slash. */
  lemma SlashTailExtend(s: string, l: string)
    requires |s| > 0 && IsSlashTail(s[1..], l) && (|l| < |s| - 1 || s[0] == '/')
    ensures IsSlashTail(s, l)
  {
    var d := |s| - |l|;
    assert s[1..][d - 1..] == s[d..];
  }

  /** Two or more pieces are joined with at least one slash, so the last piece is shorter. */
  lemma JoinHasSlash(parts: seq<string>)
    requires |parts| > 1
    ensures |parts[|parts| - 1]| < |Join(parts)|
    decreases |parts|
  {
    if |parts| > 2 {
      JoinHasSlash(parts[1..]);
    }
  }

  /**
   * `formatSource`: the last "/"-segment of a source path (`|| ""` only maps the empty
   * segment to itself). The result is the slash-free tail of the path.
   */
  function FormatSource(source: string): (r: string)
    ensures '/' !in r
    ensures IsSlashTail(source, r)
  {
    var parts := Split(source);
    var last := parts[|parts| - 1];
    SplitLastIsSuffix(source);
    SplitPiecesSlashFree(source);
    if last == "" then "" else last
  }

  /** A path without any slash is shown whole. */
  lemma FormatSourceKeepsPlainName(source: string)
    requires '/' !in source
    ensures FormatSource(source) == source
  {
  }

  /** A path `dir/name` is shown as `name`, whatever `dir` is. */
  lemma FormatSourceOfPath(dir: string, name: string)
    requires '/' !in name
    ensures FormatSource(dir + "/" + name) == name
  {
    var s := dir + "/" + name;
    assert s[|dir|] == '/';
    assert s[|s| - |name|..] == name;
  }
}
