/**
 * The `move` slash command.  Its calls on the chat platform are recorded, in
 * the order they are awaited, as a trace of effects; MovePlan is that trace as
 * a function of the command's inputs and Move is the command itself, proved to
 * produce it.  The lemmas after Move state what the trace guarantees.
 */
module Move {
  import opened Wrappers
  import opened Text
  import opened Messages
  import opened Sorting
  import opened Threads

  /** The thread the replayed messages go to: one of the guild's, or the one this command created. */
  datatype ThreadRef = Existing(thread: Thread) | Created

  /** One awaited platform call. */
  datatype Effect =
    | Announce(content: string)                         // ctx.send(...) in the channel
    | CreateThreadFromAnnouncement(name: string)        // whatsUp.create_thread(name=...)
    | CreateThreadInChannel(name: string)               // ctx.channel.create_thread(name=...)
    | SendToThread(target: ThreadRef, content: string, files: seq<Attachment>)
    | DeleteMessages(messages: seq<Message>)            // ctx.channel.delete_messages(messages)
    | Respond(text: string)                             // ctx.respond(...)

  /** `ctx.channel.history(limit=num_messages)`: the first `limit` messages of the history, none when `limit` is not positive. */
  function Fetch(history: seq<Message>, limit: int): (r: seq<Message>)
    ensures r <= history
    ensures |r| == if limit <= 0 then 0 else if limit < |history| then limit else |history|
  {
    if limit <= 0 then [] else if limit < |history| then history[..limit] else history
  }

  /** The `async for` loop appending each fetched message to `messages`. */
  method CollectHistory(history: seq<Message>, limit: int) returns (messages: seq<Message>)
    ensures messages == Fetch(history, limit)
  {
    messages := [];
    var i := 0;
    while i < |history| && i < limit
      invariant 0 <= i <= |history|
      invariant i == 0 || i <= limit
      invariant messages == history[..i]
    {
      messages := messages + [history[i]];
      i := i + 1;
    }
  }

  /** The text of the announcement a public thread is created from. */
  function AnnouncementText(name: string, numMessages: int): string
  {
    "Creating thread " + name + " and moving " + IntToString(numMessages)
  }

  /** The text of the final reply. */
  function ReplyText(numMessages: int, name: string): string
  {
    IntToString(numMessages) + " moved to " + name
  }

  /** The calls that open the destination thread: none when one was found. */
  function Opening(found: Option<Thread>, privacy: Option<string>, name: string, numMessages: int): seq<Effect>
  {
    if found.Some? then []
    else if privacy == Some("public") then
      [Announce(AnnouncementText(name, numMessages)), CreateThreadFromAnnouncement(name)]
    else [CreateThreadInChannel(name)]
  }

  function Target(found: Option<Thread>): ThreadRef
  {
    if found.Some? then Existing(found.value) else Created
  }

  /** `thread.send(content=..., files=[...])` for one message. */
  function SendFor(target: ThreadRef, m: Message): Effect
  {
    SendToThread(target, Render(m), m.attachments)
  }

  /** One send per message, in the order given. */
  function Replay(target: ThreadRef, ms: seq<Message>): seq<Effect>
  {
    if ms == [] then [] else Replay(target, ms[..|ms| - 1]) + [SendFor(target, ms[|ms| - 1])]
  }

  /** The thread found by the search loop for the requested name. */
  function Found(threads: seq<Thread>, threadName: string): Option<Thread>
  {
    LastMatch(threads, Lower(threadName))
  }

  /** The fetched messages after the in-place sort. */
  function Ordered(history: seq<Message>, numMessages: int): seq<Message>
  {
    StableSort(Fetch(history, numMessages))
  }

  function OpeningOf(threads: seq<Thread>, numMessages: int, threadName: string,
                     privacy: Option<string>): seq<Effect>
  {
    Opening(Found(threads, threadName), privacy, Lower(threadName), numMessages)
  }

  /** The whole trace of `move` for the given history, guild threads and options. */
  function MovePlan(history: seq<Message>, threads: seq<Thread>, numMessages: int,
                    threadName: string, privacy: Option<string>): seq<Effect>
  {
    OpeningOf(threads, numMessages, threadName, privacy)
      + Replay(Target(Found(threads, threadName)), Ordered(history, numMessages))
      + [DeleteMessages(Ordered(history, numMessages)), Respond(ReplyText(numMessages, Lower(threadName)))]
  }

  /** The send loop: one `thread.send` per message of the list, in list order. */
  method SendAll(thread: ThreadRef, list: array<Message>) returns (sends: seq<Effect>)
    ensures sends == Replay(thread, list[..])
  {
    sends := [];
    for i := 0 to list.Length
      invariant sends == Replay(thread, list[..i])
    {
      ReplaySnoc(thread, list[..i], list[i]);
      assert list[..i + 1] == list[..i] + [list[i]];
      sends := sends + [SendFor(thread, list[i])];
    }
    assert list[..list.Length] == list[..];
  }

  /**
   * `move(ctx, num_messages, thread_name, privacy)`.  `history` is the
   * channel's history in the order the platform yields it and `threads` is
   * `ctx.guild.threads`; an omitted `privacy` is None.
   */
  method Move(history: seq<Message>, threads: seq<Thread>, numMessages: int,
              threadName: string, privacy: Option<string>) returns (trace: seq<Effect>)
    ensures trace == MovePlan(history, threads, numMessages, threadName, privacy)
  {
    var name := Lower(threadName);
    var messages := CollectHistory(history, numMessages);

    var threadExists := FindExistingThread(threads, name);

    // `finalMessageList` is the same list as `messages`: one array, sorted in place.
    var finalMessageList := new Message[|messages|](i requires 0 <= i < |messages| => messages[i]);
    assert finalMessageList[..] == messages;
    SortByCreatedAt(finalMessageList);

    trace := [];
    var thread: ThreadRef;
    if threadExists.Some? {
      thread := Existing(threadExists.value);
    } else if privacy == Some("public") {
      trace := trace + [Announce(AnnouncementText(name, numMessages))];
      trace := trace + [CreateThreadFromAnnouncement(name)];
      thread := Created;
    } else {
      trace := trace + [CreateThreadInChannel(name)];
      thread := Created;
    }
    ghost var opening := trace;

    var sends := SendAll(thread, finalMessageList);
    trace := trace + sends;
    trace := trace + [DeleteMessages(finalMessageList[..])];
    trace := trace + [Respond(ReplyText(numMessages, name))];
    assert opening == OpeningOf(threads, numMessages, threadName, privacy);
    assert finalMessageList[..] == Ordered(history, numMessages);
    assert trace == opening + sends + [DeleteMessages(finalMessageList[..]), Respond(ReplyText(numMessages, name))];
  }

  // ---------------------------------------------------------------------------
  // What the trace guarantees.

  lemma ReplaySnoc(target: ThreadRef, ms: seq<Message>, m: Message)
    ensures Replay(target, ms + [m]) == Replay(target, ms) + [SendFor(target, m)]
  {
    assert (ms + [m])[..|ms|] == ms;
  }

  lemma {:induction false} ReplayAt(target: ThreadRef, ms: seq<Message>)
    ensures |Replay(target, ms)| == |ms|
    ensures forall i :: 0 <= i < |ms| ==> Replay(target, ms)[i] == SendFor(target, ms[i])
  {
    if ms != [] {
      ReplayAt(target, ms[..|ms| - 1]);
    }
  }

  /** The opening calls neither send nor delete, and reusing a thread opens nothing. */
  lemma OpeningKinds(found: Option<Thread>, privacy: Option<string>, name: string, numMessages: int)
    ensures var o := Opening(found, privacy, name, numMessages);
      (forall i :: 0 <= i < |o| ==> !o[i].SendToThread? && !o[i].DeleteMessages? && !o[i].Respond?) &&
      (found.Some? <==> o == [])
  {
  }

  /** The layout of any trace made of opening calls, the sends of `ordered`, a delete and a reply. */
  lemma TraceLayout(o: seq<Effect>, target: ThreadRef, ordered: seq<Message>, d: Effect, p: Effect)
    requires forall i :: 0 <= i < |o| ==> !o[i].SendToThread? && !o[i].DeleteMessages?
    requires d.DeleteMessages? && p.Respond?
    ensures var t := o + Replay(target, ordered) + [d, p];
      |t| == |o| + |ordered| + 2 &&
      t[..|o|] == o &&
      (forall i :: 0 <= i < |ordered| ==> t[|o| + i] == SendFor(target, ordered[i])) &&
      (forall i :: 0 <= i < |t| ==> (t[i].SendToThread? <==> |o| <= i < |o| + |ordered|)) &&
      (forall i :: 0 <= i < |t| ==> (t[i].DeleteMessages? <==> i == |o| + |ordered|)) &&
      t[|o| + |ordered|] == d && t[|o| + |ordered| + 1] == p
  {
    var r := Replay(target, ordered);
    var t := o + r + [d, p];
    ReplayAt(target, ordered);
    assert t == o + (r + [d, p]);
    forall i | 0 <= i < |t|
      ensures t[i].SendToThread? <==> |o| <= i < |o| + |ordered|
      ensures t[i].DeleteMessages? <==> i == |o| + |ordered|
    {
      if i < |o| {
        assert t[i] == o[i];
      } else if i < |o| + |ordered| {
        assert t[i] == r[i - |o|];
      }
    }
  }

  /** The sort neither adds nor drops a message. */
  lemma OrderedLength(history: seq<Message>, numMessages: int)
    ensures |Ordered(history, numMessages)| == |Fetch(history, numMessages)|
  {
    StableSortCorrect(Fetch(history, numMessages));
    assert |multiset(Ordered(history, numMessages))| == |multiset(Fetch(history, numMessages))|;
  }

  /**
   * The shape of every trace: the opening calls, then exactly one send per
   * fetched message in stable `created_at` order, then one delete of all the
   * fetched messages, then the reply.
   */
  lemma PlanLayout(history: seq<Message>, threads: seq<Thread>, numMessages: int,
                   threadName: string, privacy: Option<string>)
    ensures var trace := MovePlan(history, threads, numMessages, threadName, privacy);
      var o := OpeningOf(threads, numMessages, threadName, privacy);
      var ordered := Ordered(history, numMessages);
      |ordered| == |Fetch(history, numMessages)| &&
      |trace| == |o| + |ordered| + 2 &&
      trace[..|o|] == o &&
      (forall i :: 0 <= i < |ordered| ==> trace[|o| + i] == SendFor(Target(Found(threads, threadName)), ordered[i])) &&
      (forall i :: 0 <= i < |trace| ==> (trace[i].SendToThread? <==> |o| <= i < |o| + |ordered|)) &&
      (forall i :: 0 <= i < |trace| ==> (trace[i].DeleteMessages? <==> i == |o| + |ordered|)) &&
      trace[|o| + |ordered|] == DeleteMessages(ordered) &&
      trace[|o| + |ordered| + 1] == Respond(ReplyText(numMessages, Lower(threadName)))
  {
    OrderedLength(history, numMessages);
    OpeningKinds(Found(threads, threadName), privacy, Lower(threadName), numMessages);
    TraceLayout(OpeningOf(threads, numMessages, threadName, privacy), Target(Found(threads, threadName)),
                Ordered(history, numMessages), DeleteMessages(Ordered(history, numMessages)),
                Respond(ReplyText(numMessages, Lower(threadName))));
  }

  /**
   * Messages are sent in non-decreasing `created_at` order whatever order the
   * history came in, messages created at the same time keep their fetch
   * order, the messages sent are exactly the fetched ones, each once, and
   * there are never more of them than `num_messages` asks for.
   */
  lemma SendsInCreationOrder(history: seq<Message>, threads: seq<Thread>, numMessages: int,
                             threadName: string, privacy: Option<string>)
    ensures var trace := MovePlan(history, threads, numMessages, threadName, privacy);
      var c := |OpeningOf(threads, numMessages, threadName, privacy)|;
      var fetched := Fetch(history, numMessages);
      var sent := Ordered(history, numMessages);
      |sent| == |fetched| && |trace| == c + |sent| + 2 &&
      (forall i :: 0 <= i < |sent| ==> trace[c + i] == SendFor(Target(Found(threads, threadName)), sent[i])) &&
      (forall i :: 0 <= i < |trace| ==> (trace[i].SendToThread? <==> c <= i < c + |sent|)) &&
      (forall p, q :: 0 <= p < q < |sent| ==> sent[p].createdAt <= sent[q].createdAt) &&
      multiset(sent) == multiset(fetched) &&
      (forall k :: SameTime(sent, k) == SameTime(fetched, k)) &&
      |sent| <= |history| &&
      |sent| <= (if numMessages <= 0 then 0 else numMessages)
  {
    PlanLayout(history, threads, numMessages, threadName, privacy);
    StableSortCorrect(Fetch(history, numMessages));
    var sent := Ordered(history, numMessages);
    assert forall p, q :: 0 <= p < q < |sent| ==> SortKey(sent[p]) <= SortKey(sent[q]);
  }

  /**
   * All fetched messages, bot-authored ones included, are deleted in one call
   * that comes after every send, and the reply comes last.
   */
  lemma DeleteAfterAllSends(history: seq<Message>, threads: seq<Thread>, numMessages: int,
                            threadName: string, privacy: Option<string>)
    ensures var trace := MovePlan(history, threads, numMessages, threadName, privacy);
      exists d :: 0 <= d && d == |trace| - 2 &&
        trace[d].DeleteMessages? &&
        multiset(trace[d].messages) == multiset(Fetch(history, numMessages)) &&
        (forall i :: 0 <= i < |trace| && trace[i].SendToThread? ==> i < d) &&
        (forall i :: 0 <= i < |trace| && trace[i].DeleteMessages? ==> i == d) &&
        trace[|trace| - 1].Respond?
  {
    PlanLayout(history, threads, numMessages, threadName, privacy);
    StableSortCorrect(Fetch(history, numMessages));
    var d := |OpeningOf(threads, numMessages, threadName, privacy)| + |Fetch(history, numMessages)|;
    var trace := MovePlan(history, threads, numMessages, threadName, privacy);
    assert trace[d].DeleteMessages?;
  }

  /** Every fetched message is both replayed and deleted, whoever its author is. */
  lemma EveryFetchedMessageMoved(history: seq<Message>, threads: seq<Thread>, numMessages: int,
                                 threadName: string, privacy: Option<string>, m: Message)
    requires m in Fetch(history, numMessages)
    ensures var trace := MovePlan(history, threads, numMessages, threadName, privacy);
      (exists i :: 0 <= i < |trace| && trace[i] == SendFor(Target(Found(threads, threadName)), m)) &&
      (exists i :: 0 <= i < |trace| && trace[i].DeleteMessages? && m in trace[i].messages)
  {
    PlanLayout(history, threads, numMessages, threadName, privacy);
    StableSortCorrect(Fetch(history, numMessages));
    var c := |OpeningOf(threads, numMessages, threadName, privacy)|;
    var ordered := Ordered(history, numMessages);
    assert m in multiset(ordered);
    var j :| 0 <= j < |ordered| && ordered[j] == m;
    var trace := MovePlan(history, threads, numMessages, threadName, privacy);
    assert trace[c + j] == SendFor(Target(Found(threads, threadName)), m);
    assert trace[c + |ordered|] == DeleteMessages(ordered);
  }

  /** A thread is found exactly when some thread's name equals the requested name ignoring case. */
  lemma FoundIgnoresCase(threads: seq<Thread>, threadName: string)
    ensures Found(threads, threadName).Some? <==>
      exists i :: 0 <= i < |threads| && Lower(threads[i].name) == Lower(threadName)
  {
    LowerIdempotent(threadName);
    LastMatchCorrect(threads, Lower(threadName));
  }

  /**
   * When the thread at index `k` is the last one whose name matches the
   * requested name ignoring case, every message goes to it and the trace
   * creates nothing and announces nothing.
   */
  lemma ReusesLastMatchingThread(history: seq<Message>, threads: seq<Thread>, numMessages: int,
                                 threadName: string, privacy: Option<string>, k: int)
    requires 0 <= k < |threads| && Lower(threads[k].name) == Lower(threadName)
    requires forall j :: k < j < |threads| ==> Lower(threads[j].name) != Lower(threadName)
    ensures Found(threads, threadName) == Some(threads[k])
    ensures var trace := MovePlan(history, threads, numMessages, threadName, privacy);
      (forall i :: 0 <= i < |trace| ==>
        !trace[i].Announce? && !trace[i].CreateThreadFromAnnouncement? && !trace[i].CreateThreadInChannel?) &&
      (forall i :: 0 <= i < |trace| && trace[i].SendToThread? ==> trace[i].target == Existing(threads[k]))
  {
    LowerIdempotent(threadName);
    LastMatchAt(threads, Lower(threadName), k);
    PlanLayout(history, threads, numMessages, threadName, privacy);
    var trace := MovePlan(history, threads, numMessages, threadName, privacy);
    var n := |Ordered(history, numMessages)|;
    forall i | 0 <= i < |trace|
      ensures !trace[i].Announce? && !trace[i].CreateThreadFromAnnouncement? && !trace[i].CreateThreadInChannel?
      ensures trace[i].SendToThread? ==> trace[i].target == Existing(threads[k])
    {
      if i < n {
        assert trace[i] == SendFor(Existing(threads[k]), Ordered(history, numMessages)[i]);
      }
    }
  }

  /**
   * With no matching thread and `privacy == "public"`, the trace starts with
   * the one announcement of this command and the creation of a thread from it,
   * named with the lowered name, and every message goes to that thread.
   */
  lemma CreatesPublicThread(history: seq<Message>, threads: seq<Thread>, numMessages: int,
                            threadName: string, privacy: Option<string>)
    requires forall j :: 0 <= j < |threads| ==> Lower(threads[j].name) != Lower(threadName)
    requires privacy == Some("public")
    ensures Found(threads, threadName) == None
    ensures var trace := MovePlan(history, threads, numMessages, threadName, privacy);
      |trace| >= 2 &&
      trace[0] == Announce("Creating thread " + Lower(threadName) + " and moving " + IntToString(numMessages)) &&
      trace[1] == CreateThreadFromAnnouncement(Lower(threadName)) &&
      (forall i :: 1 <= i < |trace| ==> !trace[i].Announce?) &&
      (forall i :: 0 <= i < |trace| && i != 1 ==> !trace[i].CreateThreadFromAnnouncement?) &&
      (forall i :: 0 <= i < |trace| ==> !trace[i].CreateThreadInChannel?) &&
      (forall i :: 0 <= i < |trace| && trace[i].SendToThread? ==> trace[i].target == Created)
  {
    FoundIgnoresCase(threads, threadName);
    PlanLayout(history, threads, numMessages, threadName, privacy);
    var trace := MovePlan(history, threads, numMessages, threadName, privacy);
    var n := |Ordered(history, numMessages)|;
    forall i | 2 <= i < |trace|
      ensures !trace[i].Announce? && !trace[i].CreateThreadFromAnnouncement? && !trace[i].CreateThreadInChannel?
      ensures trace[i].SendToThread? ==> trace[i].target == Created
    {
      if i < 2 + n {
        assert trace[i] == SendFor(Created, Ordered(history, numMessages)[i - 2]);
      }
    }
  }

  /**
   * With no matching thread and any other `privacy`, an omitted one included,
   * the thread is created directly in the channel, named with the lowered
   * name, and nothing is announced.
   */
  lemma CreatesThreadInChannel(history: seq<Message>, threads: seq<Thread>, numMessages: int,
                               threadName: string, privacy: Option<string>)
    requires forall j :: 0 <= j < |threads| ==> Lower(threads[j].name) != Lower(threadName)
    requires privacy != Some("public")
    ensures Found(threads, threadName) == None
    ensures var trace := MovePlan(history, threads, numMessages, threadName, privacy);
      |trace| >= 1 &&
      trace[0] == CreateThreadInChannel(Lower(threadName)) &&
      (forall i :: 1 <= i < |trace| ==> !trace[i].CreateThreadInChannel?) &&
      (forall i :: 0 <= i < |trace| ==> !trace[i].Announce? && !trace[i].CreateThreadFromAnnouncement?) &&
      (forall i :: 0 <= i < |trace| && trace[i].SendToThread? ==> trace[i].target == Created)
  {
    FoundIgnoresCase(threads, threadName);
    PlanLayout(history, threads, numMessages, threadName, privacy);
    var trace := MovePlan(history, threads, numMessages, threadName, privacy);
    var n := |Ordered(history, numMessages)|;
    forall i | 1 <= i < |trace|
      ensures !trace[i].Announce? && !trace[i].CreateThreadFromAnnouncement? && !trace[i].CreateThreadInChannel?
      ensures trace[i].SendToThread? ==> trace[i].target == Created
    {
      if i < 1 + n {
        assert trace[i] == SendFor(Created, Ordered(history, numMessages)[i - 1]);
      }
    }
  }

  /**
   * The reply names the requested count, which reads back as `num_messages`
   * even when the history held fewer messages, followed by the lowered name.
   */
  lemma ReplyReportsRequestedCount(history: seq<Message>, threads: seq<Thread>, numMessages: int,
                                   threadName: string, privacy: Option<string>)
    ensures var trace := MovePlan(history, threads, numMessages, threadName, privacy);
      var count := IntToString(numMessages);
      |trace| >= 1 &&
      trace[|trace| - 1] == Respond(count + " moved to " + Lower(threadName)) &&
      ParseInt(trace[|trace| - 1].text[..|count|]) == numMessages
  {
    PlanLayout(history, threads, numMessages, threadName, privacy);
    IntToStringRoundTrip(numMessages);
    var count := IntToString(numMessages);
    assert (count + " moved to " + Lower(threadName))[..|count|] == count;
  }
}

/** Concrete traces of `move`. */
module MoveExamples {
  import opened Wrappers
  import opened Text
  import opened Messages
  import opened Sorting
  import opened Move

  /**
   * A thread named "general-overflow" is found by a request for
   * "General-Overflow" and receives every message: nothing is created.
   */
  lemma ReusesThreadDifferingInCase(history: seq<Message>)
    ensures Found([Thread(7, "general-overflow")], "General-Overflow") == Some(Thread(7, "general-overflow"))
    ensures var trace := MovePlan(history, [Thread(7, "general-overflow")], 10, "General-Overflow", Some("public"));
      (forall i :: 0 <= i < |trace| ==>
        !trace[i].Announce? && !trace[i].CreateThreadInChannel? && !trace[i].CreateThreadFromAnnouncement?) &&
      (forall i :: 0 <= i < |trace| && trace[i].SendToThread? ==>
        trace[i].target == Existing(Thread(7, "general-overflow")))
  {
    var requested := "General-Overflow";
    var existing := "general-overflow";
    LowerAt(requested);
    LowerAt(existing);
    assert Lower(existing) == Lower(requested);
    ReusesLastMatchingThread(history, [Thread(7, existing)], 10, requested, Some("public"), 0);
  }

  /** Two messages fetched newest first are sent oldest first. */
  lemma SendsOldestFirst(a: Message, b: Message)
    requires a.createdAt < b.createdAt
    ensures MovePlan([b, a], [], 2, "log", None) ==
      [CreateThreadInChannel("log"), SendFor(Created, a), SendFor(Created, b),
       DeleteMessages([a, b]), Respond("2 moved to log")]
  {
    assert Fetch([b, a], 2) == [b, a];
    assert [b, a][1..] == [a];
    assert StableSort([a]) == [a];
    assert Insert(b, [a]) == [a] + Insert(b, []);
    assert Ordered([b, a], 2) == [a, b];
    assert Replay(Created, [a, b]) == [SendFor(Created, a), SendFor(Created, b)] by {
      assert [a, b][..1] == [a];
      assert [a][..0] == [];
      assert Replay(Created, [a]) == [SendFor(Created, a)];
    }
    assert Lower("log") == "log";
    assert IntToString(2) == "2";
    assert Found([], "log") == None;
    assert OpeningOf([], 2, "log", None) == [CreateThreadInChannel("log")];
    assert ReplyText(2, "log") == "2 moved to log";
  }
}
