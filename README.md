# Thread Mover Bot — a verified model of the `move` command

The bot has one slash command, `move(num_messages, thread_name, privacy)`. It
fetches the last `num_messages` messages of the channel and looks for an
existing thread of the guild whose name matches `thread_name` ignoring case.
It sorts the fetched messages by `created_at`. It reuses the thread it found,
or else creates one: from an announcement message when `privacy` is
`"public"`, directly in the channel otherwise. It then re-sends every message
into the thread as `<mention> said: \n<content>` with the same attachments,
deletes all fetched messages in one call, and replies
`"<num_messages> moved to <name>"`.

The model (Dafny 4.11, seven modules in six files):

- `wrappers.dfy` — `Option`.
- `text.dfy` — `Text`: ASCII `Lower` (for `str.lower`) and `IntToString`
  (for `str(int)`), with a parser proving the rendering reads back.
- `messages.dfy` — `Messages`: the values `move` reads (messages, authors,
  attachments, threads), the sort key `sSort` and the rendering of a
  replayed message.
- `sorting.dfy` — `Sorting`: `list.sort(key=sSort)`. `StableSort` defines
  it as a function. `SortByCreatedAt` is an in-place insertion sort on an
  array, proved to compute it. Stability is stated as "for every creation
  time, the messages created then keep their relative order".
- `threads.dfy` — `Threads`: the thread search loop, in which the last match
  wins.
- `move.dfy` — `Move`: the command itself. Each call that acts on the
  channel or the thread is recorded, in order, as an `Effect`: the
  announcement, the thread creation, every `thread.send`, `delete_messages`
  and `respond`. `MovePlan` is the trace as a function of the inputs. The
  method `Move` builds the trace with the source's loops: collect, search,
  sort in place, send. It is proved to return `MovePlan`. The lemmas after it
  state what every trace guarantees. `MoveExamples`, the second module of
  the file, holds two concrete traces.

Two awaited calls are not effects. The `async for` over
`ctx.channel.history` (line 24) is replaced by the history as an input.
`await f.to_file()` (line 49) is not modelled: attachments are opaque
values.

The inputs of `move` become parameters. `history` is the channel history in
the order the platform yields it. `threads` is `ctx.guild.threads`.
`numMessages` and `threadName` are the command's arguments. `privacy` is an
`Option<string>`. The option declares its default with the misspelled keyword
`defualt`, so no default applies, and an omitted option is `None`. A thread
created by the command is `ThreadRef.Created`. A reused one is
`ThreadRef.Existing(t)`.

What `move` does not do:
- filter out bot-authored messages;
- stop at the first matching thread: the last match wins;
- split the deletion by message age (14 days) or into batches;
- isolate the failure of one message from the others;
- delete the announcement;
- send a placeholder for an empty message;
- report the number actually moved: the reply gives the requested `num_messages`.

`finalMessageList` is the same list object as `messages` (bot.py line 33).
The model therefore keeps a single array, which is sorted in place, and the
delete call receives the messages in sorted order.

## Model

| member | source | states |
|---|---|---|
| `Text.LowerChar` | bot.py:23 | lowering maps A–Z to a–z and leaves every other character unchanged; no result is upper case |
| `Text.LowerAt` | bot.py:23 | `lower()` keeps the length and changes each character independently |
| `Text.LowerIdempotent` | bot.py:29 | lowering the already-lowered `thread_name` again changes nothing |
| `Text.EqualIgnoringCase` | bot.py:29 | two names compare equal after `lower()` exactly when they have the same length and agree at every position up to case |
| `Text.NatToDigitsRoundTrip` | bot.py:42 | the decimal digits of a count are non-empty, have no leading zero and read back as the count |
| `Text.IntToStringRoundTrip` | bot.py:51 | `int(str(n)) == n` for every integer, negative ones included |
| `Messages.Render` | bot.py:48 | a replayed message's text is the author's mention, then `" said: \n"`, then the original content |
| `Messages.RenderKeepsContent` | bot.py:48 | reading a rendered text back gives the original content. The reader accepts a text for a mention exactly when the text is that mention, then `" said: \n"`, then the content |
| `Sorting.InsertPermutes` | bot.py:34 | inserting one message adds exactly that message |
| `Sorting.InsertKeepsTies` | bot.py:34 | an inserted message goes before every message created at the same time |
| `Sorting.InsertSorted` | bot.py:34 | inserting into a sorted list keeps it sorted |
| `Sorting.StableSortCorrect` | bot.py:11-12 | sorting by `sSort` (`Messages.SortKey`, the creation time) gives a non-decreasing `created_at` order and a permutation of its input, and messages created at the same time keep their input order |
| `Sorting.StableOrderUnique` | bot.py:34 | only one ordering is both sorted and tie-preserving, so a stable sort's result is fully determined |
| `Sorting.IsTheStableSort` | bot.py:34 | any sorted, tie-preserving reordering equals StableSort |
| `Sorting.SwapKeepsTies` | bot.py:34 | exchanging two neighbours created at different times keeps every tie class |
| `Sorting.SwapDown` | bot.py:34 | one insertion step exchanges the two neighbours, leaves every other slot alone and keeps the ties of any prefix holding both |
| `Sorting.ShiftDown` | bot.py:34 | moving `a[i]` left past strictly later messages leaves `a[..i+1]` sorted with its ties kept, and every later slot unchanged |
| `Sorting.InsertionResult` | bot.py:34 | a sorted, tie-preserving prefix followed by an unchanged suffix is the stable sort of the old prefix, and ties are kept over the whole sequence |
| `Sorting.InsertInto` | bot.py:34 | one round of the sort turns `a[..i+1]` into the stable sort of its old contents, leaves `a[i+1..]` as it was, and keeps ties over the whole array |
| `Sorting.SortByCreatedAt` | bot.py:33-34 | the in-place sort leaves the array sorted by `created_at`, stable, and equal to StableSort of its old contents |
| `Threads.LastMatchCorrect` | bot.py:27-30 | the search finds nothing exactly when no thread matches; what it finds matches, and no thread after it does |
| `Threads.LastMatchAt` | bot.py:28-30 | the thread at the last matching index is the one found |
| `Threads.MatchesLoweredName` | bot.py:23-29 | comparing with the lowered `thread_name` matches the same threads as comparing with the requested one |
| `Threads.FindExistingThread` | bot.py:27-30 | the search loop that overwrites `threadExists` on each match ends with the last matching thread, or none |
| `Move.Fetch` | bot.py:24 | the fetched messages are a prefix of the history, of length `num_messages` capped by the history's length, and empty when `num_messages` is not positive |
| `Move.CollectHistory` | bot.py:22-25 | the append loop collects exactly the fetched prefix of the history |
| `Move.SendAll` | bot.py:47-49 | the send loop issues one send per message of the sorted list, in list order |
| `Move.Move` | bot.py:20-51 | the command's trace is MovePlan of its inputs |
| `Move.ReplayAt` | bot.py:47-49 | the i-th send carries the i-th message's rendered text and attachments |
| `Move.OpeningKinds` | bot.py:37-45 | the calls before the sends neither send to the thread nor delete, and there are none exactly when a thread was found |
| `Move.TraceLayout` | bot.py:37-51 | opening calls, sends, one delete, one reply: where each kind of call sits |
| `Move.OrderedLength` | bot.py:34 | the sort keeps the number of messages |
| `Move.PlanLayout` | bot.py:37-51 | every trace is the opening calls, then exactly one send per fetched message in sorted order, then one delete of all the sorted messages, then the reply |
| `Move.SendsInCreationOrder` | bot.py:33-49 | sends go out in non-decreasing `created_at` order whatever the fetch order. They are a permutation of the fetched messages, ties keep their fetch order, and there are never more than `num_messages` of them nor more than the history holds |
| `Move.DeleteAfterAllSends` | bot.py:47-51 | there is exactly one delete call; it follows every send, covers every fetched message, and only the reply comes after it |
| `Move.EveryFetchedMessageMoved` | bot.py:24-50 | every fetched message, bot-authored or not, is both sent to the thread and deleted |
| `Move.FoundIgnoresCase` | bot.py:23-30 | a thread is found exactly when some guild thread's name equals the requested name ignoring case |
| `Move.ReusesLastMatchingThread` | bot.py:27-39 | when the thread at index k is the last whose name matches ignoring case, it is the target of every send, and nothing is announced or created |
| `Move.CreatesPublicThread` | bot.py:40-43 | with no match and `privacy == "public"`, the trace opens with the one announcement `"Creating thread <name> and moving <n>"`. It then creates the thread from it, named with the lowered name, creates nothing in the channel, and every send goes to the new thread |
| `Move.CreatesThreadInChannel` | bot.py:41-45 | with no match and any other `privacy` (an omitted one included), the trace opens with one creation in the channel under the lowered name, announces nothing, and every send goes to the new thread |
| `Move.ReplyReportsRequestedCount` | bot.py:51 | the reply comes last and is `"<num_messages> moved to <lowered name>"`; its count reads back as the requested `num_messages`, however many messages were fetched |
| `MoveExamples.ReusesThreadDifferingInCase` | bot.py:28-39 | a thread named "general-overflow" is found for the request "General-Overflow", every send targets it, and nothing is announced or created |
| `MoveExamples.SendsOldestFirst` | bot.py:24-51 | two messages fetched newest first: in-channel creation, the older one sent first, a delete of both in that order, then the reply "2 moved to log" |

## Left out

- Client construction, intents, reading the token from the environment, the version print and `bot.run` (bot.py lines 10, 14-17, 53): process and network setup.
- The unused `map` dictionary (bot.py lines 6-9) and the slash-command and `Option` registration. Registration matters only through the misspelled default, which the model covers by treating an omitted `privacy` as `None`.
- async/await: the trace records the calls in the order they are awaited. Nothing runs concurrently inside one command.
- What `channel.history`, `create_thread`, `thread.send`, `delete_messages` and `respond` do inside the platform. In particular, the platform's own limits on bulk deletion (message age, at most 100 messages, a single message deleted another way) are not modelled: the model records the one call the command makes.
- Failures: any call or access that raises aborts the rest of `move`, with no rollback. Examples are a failing `thread.send` or `delete_messages`, and reading `ctx.guild.threads` (line 28) when the command runs where `ctx.guild` is None, such as a direct message. The model describes only the run in which every call and access succeeds.
- Attachment bytes (`f.to_file()`): attachments are opaque values passed through in order.
- `Text.Lower`: ASCII-only case mapping; Python's full Unicode `str.lower` (multi-character and non-Latin mappings) is not modelled.
- `created_at` is an integer timestamp; time zones and sub-second resolution are not modelled.
- The truthiness test `if threadExists:` is modelled as "a thread was found": a thread object is always truthy.
- The identity of a newly created thread is not modelled: the platform returns it, and the model names it `ThreadRef.Created`.
