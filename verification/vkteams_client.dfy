/** The VK Teams client: the session made from a pasted `aimsid`, the
    status gate every API reply passes through, and the backward walk over a
    chat's history (`export_chat`).

    The network is a parameter: a `Server` answers the n-th history request
    (counting from 1) with a reply or a transport failure, so every way the
    server can behave over time is covered.  The walk's `while` loop has no
    bound of its own; it is modelled with `fuel`, one unit per request, and a
    walk that exhausts its fuel is reported as `OutOfFuel` (still running). */
module VKTeams {
  import opened Options
  import opened Text
  import StableSort
  import Config

  /** `status.code` of a successful API reply. */
  const SuccessCode: int := 20000

  /** `count` of `get_history` when the caller gives none: the 50 newest
      messages before the cursor. */
  const DefaultHistoryCount: int := -50

  /** A failed request raises only once more than this many requests were
      made and nothing was collected. */
  const FailuresBeforeRaise: nat := 3

  /** A request count asking for MESSAGES_PER_REQUEST older messages. */
  const PagedHistoryCount: int := -(Config.MessagesPerRequest as int)

  // ---------------------------------------------------------------- session

  datatype Session = Session(aimsid: string, email: string)

  /** `create_session_from_aimsid`: the email is the text after the last ':'
      of the token, or empty when the token has no ':'. */
  function SessionFromAimsid(aimsid: string): (s: Session)
    ensures s.aimsid == aimsid
    ensures ':' !in aimsid ==> s.email == ""
    ensures ':' in aimsid ==> s.email == aimsid[LastIndexOf(aimsid, ':') + 1..]
    ensures ':' !in s.email
  {
    if ':' in aimsid then
      var parts := Split(aimsid, ':');
      SplitLast(aimsid, ':');
      Session(aimsid, parts[|parts| - 1])
    else
      Session(aimsid, "")
  }

  /** A token written as `<id>:<email>` gives back the email. */
  lemma SessionEmail(id: string, email: string)
    requires ':' !in email
    ensures SessionFromAimsid(id + ":" + email).email == email
  {
    var a := id + ":" + email;
    assert a[|id|] == ':';
    assert a[|id| + 1..] == email;
    LastIndexOfAt(a, ':', |id|);
  }

  // ----------------------------------------------------------- status gate

  /** What one API call yields: the decoded reply (its `status.code`, which
      may be missing, and its `results`), or a transport failure. */
  datatype Reply<T> = Reply(code: Option<int>, results: T) | TransportFailure

  predicate Accepted<T>(r: Reply<T>)
  {
    r.Reply? && r.code == Some(SuccessCode)
  }

  datatype Outcome<T> = Ok(value: T) | ApiError(code: Option<int>) | NetworkError

  /** The check `get_contact_list` and `get_history` make: anything but
      status 20000 raises, carrying the status it saw. */
  function Gate<T>(r: Reply<T>): (o: Outcome<T>)
    ensures o.Ok? <==> Accepted(r)
    ensures o.Ok? ==> o.value == r.results
    ensures o.ApiError? <==> r.Reply? && r.code != Some(SuccessCode)
    ensures o.ApiError? ==> o.code == r.code
  {
    match r
    case TransportFailure => NetworkError
    case Reply(code, results) =>
      if code == Some(SuccessCode) then Ok(results) else ApiError(code)
  }

  /** A contact of the listing (`contacts` is `[]` when absent), with the
      flags the bot attaches to it: whether the chat has history and
      whether the account is blocked.  Missing strings are "". */
  datatype Contact = Contact(sn: string, name: string, friendly: string, hasMessages: bool, isBlocked: bool)

  function ContactList(r: Reply<seq<Contact>>): (o: Outcome<seq<Contact>>)
    ensures o.Ok? <==> Accepted(r)
    ensures o.Ok? ==> o.value == r.results
  {
    Gate(r)
  }

  // --------------------------------------------------------------- history

  /** A message as the walk sees it: `time` is 0 when the field is missing,
      `chatName` is the message's `chat.name`, and `id` stands for the rest
      of the payload, which the walk carries unchanged. */
  datatype Message = Message(id: string, time: int, chatName: Option<string>)

  /** `results` of `getHistory`; missing fields read as empty. */
  datatype Page = Page(messages: seq<Message>, olderMsgId: string, pinned: seq<Message>)

  /** The parameters `get_history` sends; `fromMsgId` only when a cursor is set. */
  datatype Request = Request(sn: string, count: int, fromMsgId: Option<string>)

  function HistoryRequest(sn: string, cursor: string, count: int): (r: Request)
    ensures r.sn == sn && r.count == count
    ensures r.fromMsgId.Some? <==> cursor != ""
    ensures r.fromMsgId.Some? ==> r.fromMsgId.value == cursor
  {
    Request(sn, count, if cursor != "" then Some(cursor) else None)
  }

  /** The server: the reply to the n-th request of a walk. */
  type Server = (nat, Request) -> Reply<Page>

  /** One request of a walk and what came back. */
  datatype Step = Step(request: Request, reply: Reply<Page>)

  /** What `export_chat` returns. */
  datatype ChatExport = ChatExport(
    chatSn: string,
    chatName: string,
    totalMessages: nat,
    pinned: seq<Message>,
    messages: seq<Message>)

  /** How a walk ends, with every request it made. */
  datatype WalkResult =
    | Exported(chat: ChatExport, trace: seq<Step>)
    | Raised(trace: seq<Step>)
    | OutOfFuel(trace: seq<Step>)

  function TimeOf(m: Message): int
  {
    m.time
  }

  predicate TimeLe(a: int, b: int)
  {
    a <= b
  }

  lemma TimeOrder()
    ensures StableSort.TotalPreorder(TimeLe)
  {
  }

  /** `all_messages.sort(key=lambda m: m.get("time", 0))` */
  function SortByTime(ms: seq<Message>): (r: seq<Message>)
    ensures StableSort.Sorted(r, TimeOf, TimeLe)
    ensures multiset(r) == multiset(ms)
    ensures forall k :: StableSort.WithKey(r, TimeOf, k) == StableSort.WithKey(ms, TimeOf, k)
  {
    TimeOrder();
    StableSort.Sort(ms, TimeOf, TimeLe)
  }

  /** The loop variables of `export_chat`, plus the requests made so far. */
  datatype WalkState = WalkState(
    collected: seq<Message>,
    pinned: seq<Message>,
    cursor: string,
    chatName: Option<string>,
    requestCount: nat,
    trace: seq<Step>)

  const Start := WalkState([], [], "", None, 0, [])

  function Finish(sn: string, st: WalkState): ChatExport
  {
    var sorted := SortByTime(st.collected);
    ChatExport(sn, st.chatName.GetOr(sn), |sorted|, st.pinned, sorted)
  }

  /** One pass through the `while` body of `export_chat` up to its exits:
      the request is made with the current cursor; a successful first reply
      sets the pinned messages and, when it has messages, the chat name; a
      page's messages are appended, and its older-id, when it has messages
      and an older-id, becomes the cursor. */
  function Advance(server: Server, sn: string, count: int, st: WalkState): (st': WalkState)
    ensures st'.requestCount == st.requestCount + 1
    ensures st.collected <= st'.collected
    ensures st'.trace == st.trace + [Step(HistoryRequest(sn, st.cursor, count),
                                         server(st.requestCount + 1, HistoryRequest(sn, st.cursor, count)))]
  {
    var n := st.requestCount + 1;
    var req := HistoryRequest(sn, st.cursor, count);
    var reply := server(n, req);
    var trace := st.trace + [Step(req, reply)];
    if !Accepted(reply) then st.(requestCount := n, trace := trace)
    else
      var page := reply.results;
      st.(requestCount := n, trace := trace,
          pinned := if n == 1 then page.pinned else st.pinned,
          chatName := if n == 1 && page.messages != []
                      then Some(page.messages[0].chatName.GetOr(sn))
                      else st.chatName,
          collected := st.collected + page.messages,
          cursor := if page.messages != [] && page.olderMsgId != "" then page.olderMsgId else st.cursor)
  }

  /** The `while` loop of `export_chat`, run until it leaves the loop or the
      fuel is spent.  `count` is what each request asks for and `threshold`
      is the page length below which a page counts as the last.  A failed
      request raises past the third request when nothing was collected and
      is retried otherwise; a page ends the loop when it is empty, has no
      older-id or is shorter than `threshold`. */
  function Walk(server: Server, sn: string, count: int, threshold: nat, maxMessages: int,
                st: WalkState, fuel: nat): (r: WalkResult)
    ensures st.trace <= r.trace && |r.trace| <= |st.trace| + fuel
    ensures forall i :: |st.trace| <= i < |r.trace| ==> r.trace[i].request.sn == sn && r.trace[i].request.count == count
    ensures r.Raised? ==> st.collected == [] && |r.trace| > |st.trace|
    ensures r.Exported? ==> r.chat.chatSn == sn
    decreases fuel
  {
    if |st.collected| >= maxMessages then Exported(Finish(sn, st), st.trace)
    else if fuel == 0 then OutOfFuel(st.trace)
    else
      var st' := Advance(server, sn, count, st);
      var reply := server(st'.requestCount, HistoryRequest(sn, st.cursor, count));
      if !Accepted(reply) then
        if st'.requestCount > FailuresBeforeRaise && |st.collected| == 0 then Raised(st'.trace)
        else Walk(server, sn, count, threshold, maxMessages, st', fuel - 1)
      else
        var page := reply.results;
        if page.messages == [] || page.olderMsgId == "" || |page.messages| < threshold
        then Exported(Finish(sn, st'), st'.trace)
        else Walk(server, sn, count, threshold, maxMessages, st', fuel - 1)
  }

  /** The walk with explicit page size and end-of-history threshold. */
  function ExportChatWith(server: Server, sn: string, count: int, threshold: nat,
                          maxMessages: int, fuel: nat): WalkResult
  {
    Walk(server, sn, count, threshold, maxMessages, Start, fuel)
  }

  /** `export_chat` as written: each request uses `get_history`'s default
      count of -50, and a page shorter than MESSAGES_PER_REQUEST (900) ends
      the walk. */
  function ExportChat(server: Server, sn: string, maxMessages: int, fuel: nat): (r: WalkResult)
    ensures |r.trace| <= fuel
    ensures forall i :: 0 <= i < |r.trace| ==> r.trace[i].request.sn == sn && r.trace[i].request.count == -50
    ensures r.Exported? ==> r.chat.chatSn == sn
  {
    ExportChatWith(server, sn, DefaultHistoryCount, Config.MessagesPerRequest, maxMessages, fuel)
  }

  /** `export_chat` asking for pages of MESSAGES_PER_REQUEST messages, the
      size its end-of-history test compares against. */
  function ExportChatPaged(server: Server, sn: string, maxMessages: int, fuel: nat): (r: WalkResult)
    ensures |r.trace| <= fuel
    ensures forall i :: 0 <= i < |r.trace| ==> r.trace[i].request.sn == sn && r.trace[i].request.count == -900
    ensures r.Exported? ==> r.chat.chatSn == sn
  {
    ExportChatWith(server, sn, PagedHistoryCount, Config.MessagesPerRequest, maxMessages, fuel)
  }

  // ------------------------------------------------- the walk, declaratively

  /** The messages a step contributes. */
  function PageOf(s: Step): seq<Message>
  {
    if Accepted(s.reply) then s.reply.results.messages else []
  }

  /** All messages collected over the steps, in arrival order. */
  function Collected(t: seq<Step>): seq<Message>
    decreases |t|
  {
    if t == [] then [] else Collected(t[..|t| - 1]) + PageOf(t[|t| - 1])
  }

  /** The cursor after the steps: the older-id of the last accepted page that
      had messages and an older-id; empty before any. */
  function CursorAfter(t: seq<Step>): string
    decreases |t|
  {
    if t == [] then ""
    else
      var s := t[|t| - 1];
      if Accepted(s.reply) && s.reply.results.messages != [] && s.reply.results.olderMsgId != ""
      then s.reply.results.olderMsgId
      else CursorAfter(t[..|t| - 1])
  }

  /** Pinned messages come from the first request only, if it succeeded. */
  function FirstPinned(t: seq<Step>): seq<Message>
  {
    if t != [] && Accepted(t[0].reply) then t[0].reply.results.pinned else []
  }

  /** The chat name taken from the first message of the first page, if the
      first request succeeded with messages. */
  function FirstName(sn: string, t: seq<Step>): Option<string>
  {
    if t != [] && Accepted(t[0].reply) && t[0].reply.results.messages != []
    then Some(t[0].reply.results.messages[0].chatName.GetOr(sn))
    else None
  }

  /** Whether the walk goes on after step `i`: a failure is retried unless it
      is past the third request with nothing collected; a page leads on only
      when it has messages, an older-id and at least `threshold` messages. */
  predicate Continues(t: seq<Step>, i: nat, threshold: nat)
    requires i < |t|
  {
    if Accepted(t[i].reply) then
      var p := t[i].reply.results;
      p.messages != [] && p.olderMsgId != "" && |p.messages| >= threshold
    else
      !(i + 1 > FailuresBeforeRaise && Collected(t[..i]) == [])
  }

  /** Step `i` is the request the walk makes at that point, answered by the
      server, and made while fewer than `maxMessages` were collected. */
  predicate Issued(server: Server, sn: string, count: int, maxMessages: int, t: seq<Step>, i: nat)
    requires i < |t|
  {
    && t[i].request == HistoryRequest(sn, CursorAfter(t[..i]), count)
    && t[i].reply == server(i + 1, t[i].request)
    && |Collected(t[..i])| < maxMessages
  }

  /** A run of the walk: every step issued as the walk would, and every step
      but the last one leading on. */
  predicate WalkTrace(server: Server, sn: string, count: int, threshold: nat, maxMessages: int, t: seq<Step>)
  {
    && (forall i :: 0 <= i < |t| ==> Issued(server, sn, count, maxMessages, t, i))
    && (forall i :: 0 <= i < |t| - 1 ==> Continues(t, i, threshold))
  }

  /** What an exported chat holds, given the steps that produced it. */
  ghost predicate ExportOf(e: ChatExport, sn: string, t: seq<Step>)
  {
    && e.chatSn == sn
    && e.chatName == FirstName(sn, t).GetOr(sn)
    && e.pinned == FirstPinned(t)
    && e.totalMessages == |e.messages|
    && StableSort.Sorted(e.messages, TimeOf, TimeLe)
    && multiset(e.messages) == multiset(Collected(t))
    && (forall k :: StableSort.WithKey(e.messages, TimeOf, k) == StableSort.WithKey(Collected(t), TimeOf, k))
  }

  /** The loop variables agree with the steps made so far, and every step
      so far led on. */
  ghost predicate StateOf(server: Server, sn: string, count: int, threshold: nat, maxMessages: int, st: WalkState)
  {
    && st.collected == Collected(st.trace)
    && st.requestCount == |st.trace|
    && st.pinned == FirstPinned(st.trace)
    && st.chatName == FirstName(sn, st.trace)
    && st.cursor == CursorAfter(st.trace)
    && WalkTrace(server, sn, count, threshold, maxMessages, st.trace)
    && (forall i :: 0 <= i < |st.trace| ==> Continues(st.trace, i, threshold))
  }

  /** Appending a step leaves the earlier steps and their prefixes alone. */
  lemma Extend(t: seq<Step>, s: Step)
    ensures (t + [s])[..|t|] == t
    ensures forall i :: 0 <= i <= |t| ==> (t + [s])[..i] == t[..i]
    ensures Collected(t + [s]) == Collected(t) + PageOf(s)
    ensures t != [] ==> FirstPinned(t + [s]) == FirstPinned(t)
    ensures forall sn :: t != [] ==> FirstName(sn, t + [s]) == FirstName(sn, t)
  {
    assert (t + [s])[..|t|] == t;
  }

  /** One pass of the loop from a consistent state gives a consistent state
      whose steps are still a run of the walk. */
  lemma AdvanceState(server: Server, sn: string, count: int, threshold: nat, maxMessages: int,
                     st: WalkState)
    requires StateOf(server, sn, count, threshold, maxMessages, st)
    requires |st.collected| < maxMessages
    ensures var st' := Advance(server, sn, count, st);
      && st'.collected == Collected(st'.trace)
      && st'.requestCount == |st'.trace|
      && st'.pinned == FirstPinned(st'.trace)
      && st'.chatName == FirstName(sn, st'.trace)
      && st'.cursor == CursorAfter(st'.trace)
      && WalkTrace(server, sn, count, threshold, maxMessages, st'.trace)
      && (forall i :: 0 <= i < |st.trace| ==> Continues(st'.trace, i, threshold))
  {
    AdvanceFields(server, sn, count, st);
    AdvanceIssued(server, sn, count, threshold, maxMessages, st);
    AdvanceContinues(server, sn, count, threshold, maxMessages, st);
  }

  /** The loop variables keep describing the steps made so far. */
  lemma AdvanceFields(server: Server, sn: string, count: int, st: WalkState)
    requires st.collected == Collected(st.trace) && st.requestCount == |st.trace|
    requires st.pinned == FirstPinned(st.trace) && st.chatName == FirstName(sn, st.trace)
    requires st.cursor == CursorAfter(st.trace)
    ensures var st' := Advance(server, sn, count, st);
      && st'.collected == Collected(st'.trace)
      && st'.requestCount == |st'.trace|
      && st'.pinned == FirstPinned(st'.trace)
      && st'.chatName == FirstName(sn, st'.trace)
      && st'.cursor == CursorAfter(st'.trace)
  {
    var t := st.trace;
    var t' := Advance(server, sn, count, st).trace;
    var s := t'[|t|];
    assert t' == t + [s];
    assert t'[..|t|] == t;
    if t == [] {
      assert t'[0] == s;
    } else {
      assert t'[0] == t[0];
    }
  }

  /** The new step is issued as the walk would, and the old ones still are. */
  lemma AdvanceIssued(server: Server, sn: string, count: int, threshold: nat, maxMessages: int,
                      st: WalkState)
    requires StateOf(server, sn, count, threshold, maxMessages, st)
    requires |st.collected| < maxMessages
    ensures var t' := Advance(server, sn, count, st).trace;
      forall i :: 0 <= i < |t'| ==> Issued(server, sn, count, maxMessages, t', i)
  {
    var t := st.trace;
    var t' := Advance(server, sn, count, st).trace;
    Extend(t, t'[|t|]);
    assert t' == t + [t'[|t|]];
    forall i | 0 <= i < |t'|
      ensures Issued(server, sn, count, maxMessages, t', i)
    {
      if i < |t| {
        assert t'[i] == t[i] && t'[..i] == t[..i];
        assert Issued(server, sn, count, maxMessages, t, i);
      } else {
        assert t'[..i] == t;
      }
    }
  }

  /** The old steps still lead on. */
  lemma AdvanceContinues(server: Server, sn: string, count: int, threshold: nat, maxMessages: int,
                         st: WalkState)
    requires StateOf(server, sn, count, threshold, maxMessages, st)
    ensures var t' := Advance(server, sn, count, st).trace;
      forall i :: 0 <= i < |st.trace| ==> Continues(t', i, threshold)
  {
    var t := st.trace;
    var t' := Advance(server, sn, count, st).trace;
    Extend(t, t'[|t|]);
    assert t' == t + [t'[|t|]];
    forall i | 0 <= i < |t|
      ensures Continues(t', i, threshold)
    {
      assert t'[i] == t[i] && t'[..i] == t[..i];
      assert Continues(t, i, threshold);
    }
  }

  /** How a walk that started from `base` steps with `fuel` ended: its steps
      are a run of the walk; an export holds what `ExportOf` says and ends
      because `maxMessages` were collected or its last page did not lead on;
      a raise follows a failure that did not lead on; running out of fuel
      means every step led on. */
  ghost predicate Ended(server: Server, sn: string, count: int, threshold: nat, maxMessages: int,
                        r: WalkResult, steps: nat)
  {
    && WalkTrace(server, sn, count, threshold, maxMessages, r.trace)
    && (r.Exported? ==>
          && ExportOf(r.chat, sn, r.trace)
          && (|Collected(r.trace)| >= maxMessages
              || (r.trace != [] && Accepted(r.trace[|r.trace| - 1].reply)
                  && !Continues(r.trace, |r.trace| - 1, threshold))))
    && (r.Raised? ==>
          && r.trace != [] && !Accepted(r.trace[|r.trace| - 1].reply)
          && !Continues(r.trace, |r.trace| - 1, threshold))
    && (r.OutOfFuel? ==>
          && |r.trace| == steps
          && |Collected(r.trace)| < maxMessages
          && (forall i :: 0 <= i < |r.trace| ==> Continues(r.trace, i, threshold)))
  }

  /** One unfolding of the loop, read through `Continues`: the walk goes on
      from the advanced state exactly when the new step leads on. */
  lemma WalkStep(server: Server, sn: string, count: int, threshold: nat, maxMessages: int,
                 st: WalkState, fuel: nat)
    requires st.collected == Collected(st.trace) && st.requestCount == |st.trace|
    requires |st.collected| < maxMessages && fuel > 0
    ensures var st' := Advance(server, sn, count, st);
      var t := st'.trace;
      Walk(server, sn, count, threshold, maxMessages, st, fuel)
        == if Continues(t, |t| - 1, threshold) then Walk(server, sn, count, threshold, maxMessages, st', fuel - 1)
           else if Accepted(t[|t| - 1].reply) then Exported(Finish(sn, st'), t)
           else Raised(t)
  {
    var t := Advance(server, sn, count, st).trace;
    assert t[..|t| - 1] == st.trace;
  }

  /** The walk from a consistent state ends as `Ended` describes. */
  lemma {:induction false} WalkSpec(server: Server, sn: string, count: int, threshold: nat,
                                    maxMessages: int, st: WalkState, fuel: nat)
    requires StateOf(server, sn, count, threshold, maxMessages, st)
    ensures Ended(server, sn, count, threshold, maxMessages,
                  Walk(server, sn, count, threshold, maxMessages, st, fuel), |st.trace| + fuel)
    decreases fuel
  {
    if |st.collected| >= maxMessages || fuel == 0 {
      EndedAtOnce(server, sn, count, threshold, maxMessages, st, fuel);
      return;
    }
    var st' := Advance(server, sn, count, st);
    var t := st'.trace;
    if Continues(t, |t| - 1, threshold) {
      AdvanceKeeps(server, sn, count, threshold, maxMessages, st);
      WalkSpec(server, sn, count, threshold, maxMessages, st', fuel - 1);
      LeadsOn(server, sn, count, threshold, maxMessages, st, fuel);
    } else {
      Stops(server, sn, count, threshold, maxMessages, st, fuel);
    }
  }

  /** A step that leads on hands the rest of the walk to the advanced state. */
  lemma LeadsOn(server: Server, sn: string, count: int, threshold: nat,
                maxMessages: int, st: WalkState, fuel: nat)
    requires StateOf(server, sn, count, threshold, maxMessages, st)
    requires |st.collected| < maxMessages && fuel > 0
    requires var st' := Advance(server, sn, count, st);
      && Continues(st'.trace, |st'.trace| - 1, threshold)
      && Ended(server, sn, count, threshold, maxMessages,
               Walk(server, sn, count, threshold, maxMessages, st', fuel - 1), |st'.trace| + (fuel - 1))
    ensures Ended(server, sn, count, threshold, maxMessages,
                  Walk(server, sn, count, threshold, maxMessages, st, fuel), |st.trace| + fuel)
  {
    WalkStep(server, sn, count, threshold, maxMessages, st, fuel);
  }

  /** A step that does not lead on ends the walk there. */
  lemma Stops(server: Server, sn: string, count: int, threshold: nat,
              maxMessages: int, st: WalkState, fuel: nat)
    requires StateOf(server, sn, count, threshold, maxMessages, st)
    requires |st.collected| < maxMessages && fuel > 0
    requires var t := Advance(server, sn, count, st).trace; !Continues(t, |t| - 1, threshold)
    ensures Ended(server, sn, count, threshold, maxMessages,
                  Walk(server, sn, count, threshold, maxMessages, st, fuel), |st.trace| + fuel)
  {
    var st' := Advance(server, sn, count, st);
    WalkStep(server, sn, count, threshold, maxMessages, st, fuel);
    AdvanceState(server, sn, count, threshold, maxMessages, st);
    EndedOnStep(server, sn, count, threshold, maxMessages, st');
  }

  /** A step that leads on leaves a consistent state to carry on from. */
  lemma AdvanceKeeps(server: Server, sn: string, count: int, threshold: nat, maxMessages: int,
                     st: WalkState)
    requires StateOf(server, sn, count, threshold, maxMessages, st)
    requires |st.collected| < maxMessages
    requires var t := Advance(server, sn, count, st).trace; Continues(t, |t| - 1, threshold)
    ensures StateOf(server, sn, count, threshold, maxMessages, Advance(server, sn, count, st))
  {
    AdvanceState(server, sn, count, threshold, maxMessages, st);
  }

  lemma EndedAtOnce(server: Server, sn: string, count: int, threshold: nat,
                    maxMessages: int, st: WalkState, fuel: nat)
    requires StateOf(server, sn, count, threshold, maxMessages, st)
    requires |st.collected| >= maxMessages || fuel == 0
    ensures Ended(server, sn, count, threshold, maxMessages,
                  Walk(server, sn, count, threshold, maxMessages, st, fuel), |st.trace| + fuel)
  {
  }

  lemma EndedOnStep(server: Server, sn: string, count: int, threshold: nat,
                    maxMessages: int, st: WalkState)
    requires st.collected == Collected(st.trace)
    requires st.pinned == FirstPinned(st.trace)
    requires st.chatName == FirstName(sn, st.trace)
    requires WalkTrace(server, sn, count, threshold, maxMessages, st.trace)
    requires st.trace != [] && !Continues(st.trace, |st.trace| - 1, threshold)
    ensures var t := st.trace;
      Ended(server, sn, count, threshold, maxMessages,
            if Accepted(t[|t| - 1].reply) then Exported(Finish(sn, st), t) else Raised(t), 0)
  {
    var t := st.trace;
    if Accepted(t[|t| - 1].reply) {
      FinishExports(sn, st);
      var r := Exported(Finish(sn, st), t);
      assert r.trace == t && r.Exported?;
      assert Ended(server, sn, count, threshold, maxMessages, r, 0);
    } else {
      var r := Raised(t);
      assert r.trace == t && r.Raised?;
      assert Ended(server, sn, count, threshold, maxMessages, r, 0);
    }
  }

  /** Finishing a consistent state exports what the steps collected. */
  lemma FinishExports(sn: string, st: WalkState)
    requires st.collected == Collected(st.trace)
    requires st.pinned == FirstPinned(st.trace)
    requires st.chatName == FirstName(sn, st.trace)
    ensures ExportOf(Finish(sn, st), sn, st.trace)
  {
  }

  /** `export_chat` in full: the requests it makes form a run of the walk;
      an export holds exactly the collected messages in time order (stable
      among equal times), the first page's pinned messages and chat name,
      and a count equal to its length; it ends because the last page was
      empty, had no older-id or was short, or because `maxMessages` were
      reached; it raises only on a failure past the third request with
      nothing collected. */
  lemma ExportChatSpec(server: Server, sn: string, count: int, threshold: nat, maxMessages: int, fuel: nat)
    ensures var r := ExportChatWith(server, sn, count, threshold, maxMessages, fuel);
      && WalkTrace(server, sn, count, threshold, maxMessages, r.trace)
      && (r.Exported? ==>
            && ExportOf(r.chat, sn, r.trace)
            && (|Collected(r.trace)| >= maxMessages
                || (r.trace != [] && Accepted(r.trace[|r.trace| - 1].reply)
                    && !Continues(r.trace, |r.trace| - 1, threshold))))
      && (r.Raised? ==>
            && |r.trace| > FailuresBeforeRaise
            && !Accepted(r.trace[|r.trace| - 1].reply)
            && Collected(r.trace) == [])
      && (r.OutOfFuel? ==>
            && |r.trace| == fuel
            && |Collected(r.trace)| < maxMessages
            && (forall i :: 0 <= i < |r.trace| ==> Continues(r.trace, i, threshold)))
  {
    var r := ExportChatWith(server, sn, count, threshold, maxMessages, fuel);
    WalkSpec(server, sn, count, threshold, maxMessages, Start, fuel);
    if r.Raised? {
      RaisedAfterThree(r.trace, threshold);
    }
  }

  /** A failure that does not lead on is past the third request with
      nothing collected before it, and it adds nothing. */
  lemma RaisedAfterThree(t: seq<Step>, threshold: nat)
    requires t != [] && !Accepted(t[|t| - 1].reply) && !Continues(t, |t| - 1, threshold)
    ensures |t| > FailuresBeforeRaise && Collected(t) == []
  {
    var last := t[|t| - 1];
    assert |t| > FailuresBeforeRaise && Collected(t[..|t| - 1]) == [];
    assert PageOf(last) == [];
  }

  /** The `while` test runs before each request, so a run overshoots
      `maxMessages` by less than its last page. */
  lemma OvershootBelowLastPage(server: Server, sn: string, count: int, threshold: nat,
                               maxMessages: int, t: seq<Step>)
    requires WalkTrace(server, sn, count, threshold, maxMessages, t) && t != []
    ensures |Collected(t)| < maxMessages + |PageOf(t[|t| - 1])|
  {
    assert Issued(server, sn, count, maxMessages, t, |t| - 1);
  }

  /** Collected messages only grow along the steps. */
  lemma {:induction false} CollectedPrefix(t: seq<Step>, j: nat)
    requires j <= |t|
    ensures Collected(t[..j]) <= Collected(t)
    decreases |t| - j
  {
    if j < |t| {
      CollectedPrefix(t, j + 1);
      assert t[..j + 1][..j] == t[..j];
    } else {
      assert t[..j] == t;
    }
  }

  /** A step that leads on while nothing has been collected is a failure
      among the first three requests. */
  lemma ContinuesWithoutMessages(t: seq<Step>, i: nat, threshold: nat)
    requires i < |t| && Continues(t, i, threshold)
    requires Collected(t) == []
    ensures i < FailuresBeforeRaise
  {
    CollectedPrefix(t, i);
    CollectedPrefix(t, i + 1);
    assert t[..i + 1][..i] == t[..i];
  }

  /** A walk that collects nothing makes at most four requests. */
  lemma AtMostFourRequestsWithoutMessages(server: Server, sn: string, count: int, threshold: nat,
                                          maxMessages: int, t: seq<Step>)
    requires WalkTrace(server, sn, count, threshold, maxMessages, t)
    requires Collected(t) == []
    ensures |t| <= FailuresBeforeRaise + 1
  {
    if |t| > FailuresBeforeRaise + 1 {
      ContinuesWithoutMessages(t, |t| - 2, threshold);
    }
  }

  /** Every page the server sends is empty. */
  ghost predicate NeverSendsMessages(server: Server)
  {
    forall n, q :: Accepted(server(n, q)) ==> server(n, q).results.messages == []
  }

  /** A server that never returns a message cannot keep the walk going: it
      ends within four requests, by raising or with an empty export. */
  lemma EmptyHistoryEnds(server: Server, sn: string, count: int, threshold: nat, maxMessages: int, fuel: nat)
    requires fuel > FailuresBeforeRaise
    requires NeverSendsMessages(server)
    ensures var r := ExportChatWith(server, sn, count, threshold, maxMessages, fuel);
      !r.OutOfFuel? && |r.trace| <= FailuresBeforeRaise + 1
  {
    var r := ExportChatWith(server, sn, count, threshold, maxMessages, fuel);
    WalkSpec(server, sn, count, threshold, maxMessages, Start, fuel);
    var t := r.trace;
    NothingCollected(server, sn, count, threshold, maxMessages, t, |t|);
    assert t[..|t|] == t;
    AtMostFourRequestsWithoutMessages(server, sn, count, threshold, maxMessages, t);
    if r.OutOfFuel? {
      ContinuesWithoutMessages(t, FailuresBeforeRaise, threshold);
    }
  }

  lemma {:induction false} NothingCollected(server: Server, sn: string, count: int, threshold: nat,
                                            maxMessages: int, t: seq<Step>, j: nat)
    requires j <= |t|
    requires WalkTrace(server, sn, count, threshold, maxMessages, t)
    requires NeverSendsMessages(server)
    ensures Collected(t[..j]) == []
  {
    if j > 0 {
      NothingCollected(server, sn, count, threshold, maxMessages, t, j - 1);
      assert t[..j][..j - 1] == t[..j - 1];
      assert Issued(server, sn, count, maxMessages, t, j - 1);
    }
  }

  /** Every request after the first fails. */
  ghost predicate FailsAfterFirst(server: Server)
  {
    forall n, q :: n >= 2 ==> !Accepted(server(n, q))
  }

  /** Once a page has been collected, a server that fails every later request
      keeps the walk retrying with the same cursor: no fuel is ever enough. */
  lemma RetriesForeverAfterMessages(server: Server, sn: string, count: int, threshold: nat,
                                    maxMessages: int, fuel: nat)
    requires fuel >= 1
    requires var first := server(1, HistoryRequest(sn, "", count));
      && Accepted(first)
      && first.results.messages != [] && first.results.olderMsgId != ""
      && threshold <= |first.results.messages| < maxMessages
    requires FailsAfterFirst(server)
    ensures ExportChatWith(server, sn, count, threshold, maxMessages, fuel).OutOfFuel?
  {
    var st := Advance(server, sn, count, Start);
    FirstPageLeadsOn(server, sn, count, threshold, maxMessages);
    WalkStep(server, sn, count, threshold, maxMessages, Start, fuel);
    Failing(server, sn, count, threshold, maxMessages, st, fuel - 1);
  }

  lemma FirstPageLeadsOn(server: Server, sn: string, count: int, threshold: nat, maxMessages: int)
    requires var first := server(1, HistoryRequest(sn, "", count));
      && Accepted(first)
      && first.results.messages != [] && first.results.olderMsgId != ""
      && threshold <= |first.results.messages| < maxMessages
    ensures var st := Advance(server, sn, count, Start);
      && |st.trace| == 1 && st.requestCount == 1
      && 0 < |st.collected| < maxMessages
      && Continues(st.trace, 0, threshold)
  {
    var st := Advance(server, sn, count, Start);
    assert st.trace[..0] == [];
  }

  lemma {:induction false} Failing(server: Server, sn: string, count: int, threshold: nat,
                                   maxMessages: int, st: WalkState, fuel: nat)
    requires 0 < |st.collected| < maxMessages
    requires FailsAfterFirst(server)
    requires st.requestCount >= 1
    ensures Walk(server, sn, count, threshold, maxMessages, st, fuel).OutOfFuel?
    decreases fuel
  {
    if fuel > 0 {
      var n := st.requestCount + 1;
      var req := HistoryRequest(sn, st.cursor, count);
      var trace := st.trace + [Step(req, server(n, req))];
      Failing(server, sn, count, threshold, maxMessages, st.(requestCount := n, trace := trace), fuel - 1);
    }
  }

  // ------------------------------------------------- page size against threshold

  /** The server sends at most as many messages as the request asks for. */
  ghost predicate HonoursCount(server: Server)
  {
    forall n, q :: Accepted(server(n, q)) ==>
      |server(n, q).results.messages| <= (if q.count < 0 then -q.count else q.count)
  }

  /** The walk as written never asks for older messages from a server that
      honours the count: no page of 50 can reach the 900 threshold, so no
      page leads on. */
  lemma ExportChatNeverPages(server: Server, sn: string, maxMessages: int, fuel: nat)
    requires HonoursCount(server)
    ensures var t := ExportChat(server, sn, maxMessages, fuel).trace;
      forall i :: 0 <= i < |t| ==> t[i].request.fromMsgId == None
  {
    var t := ExportChat(server, sn, maxMessages, fuel).trace;
    ExportChatSpec(server, sn, DefaultHistoryCount, Config.MessagesPerRequest, maxMessages, fuel);
    forall i | 0 <= i < |t|
      ensures t[i].request.fromMsgId == None
    {
      NoCursorBefore(server, sn, maxMessages, t, i);
      assert Issued(server, sn, DefaultHistoryCount, maxMessages, t, i);
    }
  }

  lemma {:induction false} NoCursorBefore(server: Server, sn: string, maxMessages: int, t: seq<Step>, j: nat)
    requires HonoursCount(server)
    requires WalkTrace(server, sn, DefaultHistoryCount, Config.MessagesPerRequest, maxMessages, t)
    requires j < |t|
    ensures CursorAfter(t[..j]) == ""
  {
    if j > 0 {
      NoCursorBefore(server, sn, maxMessages, t, j - 1);
      var i := j - 1;
      assert t[..j][..i] == t[..i];
      assert t[..j][i] == t[i];
      assert Continues(t, i, Config.MessagesPerRequest);
      assert Issued(server, sn, DefaultHistoryCount, maxMessages, t, i);
    }
  }

  /** A concrete server that always has more history: 50 messages per page
      and an older-id. */
  function EndlessServer(): Server
  {
    (n: nat, q: Request) => Reply(Some(SuccessCode), Page(seq(50, k => Message("m", k, None)), "older", []))
  }

  /** As written, the walk stops after one full page of 50 messages even
      though that page reached the requested size and offered an older-id:
      the rest of the history is never fetched. */
  lemma ExportChatStopsAfterFullPage(sn: string, maxMessages: int, fuel: nat)
    requires maxMessages > 50 && fuel >= 1
    ensures var r := ExportChat(EndlessServer(), sn, maxMessages, fuel);
      && r.Exported?
      && |r.trace| == 1
      && |r.trace[0].reply.results.messages| == -r.trace[0].request.count
      && r.trace[0].reply.results.olderMsgId != ""
      && |r.chat.messages| == 50 < maxMessages
  {
    var r := ExportChat(EndlessServer(), sn, maxMessages, fuel);
    ExportChatSpec(EndlessServer(), sn, DefaultHistoryCount, Config.MessagesPerRequest, maxMessages, fuel);
    assert r.trace[..0] == [];
    assert Collected(r.trace) == Collected(r.trace[..0]) + PageOf(r.trace[0]);
    assert |multiset(r.chat.messages)| == |multiset(Collected(r.trace))|;
  }

  /** With pages of 900 requested, an export short of `maxMessages` ends
      only on a page that was empty, had no older-id or fell short of the
      requested size: no history the server offered is left behind. */
  lemma ExportChatPagedEndsAtHistoryEnd(server: Server, sn: string, maxMessages: int, fuel: nat)
    ensures var r := ExportChatPaged(server, sn, maxMessages, fuel);
      r.Exported? && |r.chat.messages| < maxMessages && r.trace != [] ==>
        var s := r.trace[|r.trace| - 1];
        && Accepted(s.reply)
        && (s.reply.results.messages == [] || s.reply.results.olderMsgId == ""
            || |s.reply.results.messages| < -s.request.count)
  {
    var r := ExportChatPaged(server, sn, maxMessages, fuel);
    ExportChatSpec(server, sn, PagedHistoryCount, Config.MessagesPerRequest, maxMessages, fuel);
    if r.Exported? && |r.chat.messages| < maxMessages && r.trace != [] {
      assert |multiset(r.chat.messages)| == |multiset(Collected(r.trace))|;
      assert Issued(server, sn, PagedHistoryCount, maxMessages, r.trace, |r.trace| - 1);
    }
  }
}
