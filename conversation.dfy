/** The conversation store of the chat widget (`state.messages` and
    `state.typing`) together with the timers the widget schedules against it.
    Time is the timer clock `now`; a `setTimeout(f, d)` becomes a `Timer`
    due at `now + d` in the `pending` queue, and `FireNext` runs the timer
    the event loop would run next. Fresh ids (`crypto.randomUUID`) and
    timestamps (`Date.now`) are parameters. */
module Conversation {
  import opened Text
  import opened MockReply

  datatype Option<T> = None | Some(value: T)

  /** An opaque message id. */
  type Id = string

  datatype Author = User | Bot

  /** The delivery-receipt simulation of a user message. */
  datatype Status = Sending | Sent | Delivered | Read

  function Rank(s: Status): (r: nat)
    ensures r <= 3
  {
    match s
    case Sending => 0
    case Sent => 1
    case Delivered => 2
    case Read => 3
  }

  /** One entry of the log; `status` is present on user messages only. */
  datatype Message = Message(id: Id, author: Author, text: string, ts: int, status: Option<Status>)

  /** A scheduled callback: either one of the three status overwrites of
      `pushUser`, which refers to its message by position (the callback holds
      the message object itself, and the log is append-only, so the position
      never changes), or the delivery of a bot reply computed by `mockBot`
      at scheduling time. */
  datatype Timer =
    | StatusTimer(due: int, at: nat, status: Status)
    | ReplyTimer(due: int, reply: string)

  const SentAfter: int := 150
  const DeliveredAfter: int := 600
  const ReadAfter: int := 900

  /** The three status timers `pushUser` schedules for the message at `at`. */
  function StatusTimers(at: nat, now: int): (ts: seq<Timer>)
    ensures |ts| == 3
    ensures forall i :: 0 <= i < 3 ==> ts[i].StatusTimer? && ts[i].at == at && ts[i].due > now
    ensures forall i, j :: 0 <= i < j < 3 ==>
      ts[i].due < ts[j].due && Rank(ts[i].status) < Rank(ts[j].status)
  {
    [StatusTimer(now + SentAfter, at, Sent),
     StatusTimer(now + DeliveredAfter, at, Delivered),
     StatusTimer(now + ReadAfter, at, Read)]
  }

  predicate IdDiffers(m: Message, id: Id) {
    m.id != id
  }

  /** No message of `ms` already carries `id`. */
  predicate FreshId(ms: seq<Message>, id: Id) {
    forall i {:trigger IdDiffers(ms[i], id)} :: 0 <= i < |ms| ==> IdDiffers(ms[i], id)
  }

  /** Exactly the user messages carry a status. */
  predicate StatusMatchesAuthor(m: Message) {
    m.author == User <==> m.status.Some?
  }

  predicate DistinctIds(a: Message, b: Message) {
    a.id != b.id
  }

  /** The data-model invariants: ids are unique, and exactly the user
      messages carry a status. */
  predicate WellFormed(ms: seq<Message>) {
    (forall i, j {:trigger DistinctIds(ms[i], ms[j])} ::
      0 <= i < j < |ms| ==> DistinctIds(ms[i], ms[j])) &&
    (forall i {:trigger StatusMatchesAuthor(ms[i])} ::
      0 <= i < |ms| ==> StatusMatchesAuthor(ms[i]))
  }

  /** `b` is `a` with a status moved strictly forward and nothing else changed. */
  predicate StatusRaised(a: Message, b: Message) {
    b == a.(status := b.status) && a.status.Some? && b.status.Some? &&
    Rank(a.status.value) < Rank(b.status.value)
  }

  /** `b` is `a`, or `a` with its status moved forward. */
  predicate SameOrRaised(a: Message, b: Message) {
    b == a || StatusRaised(a, b)
  }

  /** The log only grows at the end, and an existing message changes only by
      moving its status forward. */
  predicate Advanced(before: seq<Message>, after: seq<Message>) {
    |before| <= |after| &&
    forall i {:trigger SameOrRaised(before[i], after[i])} ::
      0 <= i < |before| ==> SameOrRaised(before[i], after[i])
  }

  /** Any run of steps that each advance the log advances it. */
  lemma AdvancedTransitive(a: seq<Message>, b: seq<Message>, c: seq<Message>)
    requires Advanced(a, b) && Advanced(b, c)
    ensures Advanced(a, c)
  {
    forall i | 0 <= i < |a| ensures SameOrRaised(a[i], c[i]) {
      assert SameOrRaised(a[i], b[i]) && SameOrRaised(b[i], c[i]);
    }
  }

  /** Appending a message with a fresh id and a status exactly when it is
      the user's keeps the log well formed, and advances it. */
  lemma AppendKeepsWellFormed(ms: seq<Message>, m: Message)
    requires FreshId(ms, m.id) && StatusMatchesAuthor(m)
    ensures WellFormed(ms) ==> WellFormed(ms + [m])
    ensures Advanced(ms, ms + [m])
  {
    var ms' := ms + [m];
    forall i | 0 <= i < |ms| ensures SameOrRaised(ms[i], ms'[i]) {
      assert ms'[i] == ms[i];
    }
    if WellFormed(ms) {
      forall i, j | 0 <= i < j < |ms'| ensures DistinctIds(ms'[i], ms'[j]) {
        if j < |ms| {
          assert DistinctIds(ms[i], ms[j]);
        } else {
          assert IdDiffers(ms[i], m.id);
        }
      }
      forall i | 0 <= i < |ms'| ensures StatusMatchesAuthor(ms'[i]) {
        if i < |ms| {
          assert StatusMatchesAuthor(ms[i]);
        }
      }
    }
  }

  /** Overwriting the status of a user message keeps the log well formed. */
  lemma SetStatusKeepsWellFormed(ms: seq<Message>, at: nat, s: Status)
    requires at < |ms| && ms[at].author == User
    ensures WellFormed(ms) ==> WellFormed(ms[at := ms[at].(status := Some(s))])
  {
    var ms' := ms[at := ms[at].(status := Some(s))];
    if WellFormed(ms) {
      forall i, j | 0 <= i < j < |ms'| ensures DistinctIds(ms'[i], ms'[j]) {
        assert DistinctIds(ms[i], ms[j]);
      }
      forall i | 0 <= i < |ms'| ensures StatusMatchesAuthor(ms'[i]) {
        assert StatusMatchesAuthor(ms[i]);
      }
    }
  }

  /** Position `k` holds the timer the event loop runs next: the earliest due,
      and among equally due timers the one scheduled first. */
  predicate IsEarliest(ps: seq<Timer>, k: nat) {
    k < |ps| &&
    (forall j :: 0 <= j < |ps| ==> ps[k].due <= ps[j].due) &&
    (forall j :: 0 <= j < k ==> ps[k].due < ps[j].due)
  }

  /** There is only one next timer. */
  lemma EarliestUnique(ps: seq<Timer>, k: nat, l: nat)
    requires IsEarliest(ps, k) && IsEarliest(ps, l)
    ensures k == l
  {
    assert ps[k].due == ps[l].due;
  }

  function RemoveAt(ps: seq<Timer>, k: nat): (r: seq<Timer>)
    requires k < |ps|
    ensures |r| == |ps| - 1
    ensures forall i :: 0 <= i < k ==> r[i] == ps[i]
    ensures forall i :: k <= i < |r| ==> r[i] == ps[i + 1]
  {
    ps[..k] + ps[k + 1..]
  }

  /** A timer is consistent with the log when, if it writes a status, it
      points at a user message whose status is still behind the one it will
      write. */
  predicate TimerTargetBehind(ms: seq<Message>, t: Timer) {
    t.StatusTimer? ==>
      t.at < |ms| && ms[t.at].author == User && ms[t.at].status.Some? &&
      Rank(ms[t.at].status.value) < Rank(t.status)
  }

  /** Two status timers of one message write different statuses and are due
      in the order of the statuses they write. */
  predicate InDueOrder(t: Timer, u: Timer) {
    t.StatusTimer? && u.StatusTimer? && t.at == u.at ==>
      t.status != u.status && (Rank(t.status) < Rank(u.status) ==> t.due < u.due)
  }

  /** The invariant linking the log, the clock and the pending timers: no
      timer is overdue, every status timer is behind-consistent with its
      message, and the status timers of one message are due in status order. */
  predicate Consistent(ms: seq<Message>, now: int, ps: seq<Timer>) {
    (forall i {:trigger TimerTargetBehind(ms, ps[i])} ::
      0 <= i < |ps| ==> ps[i].due >= now && TimerTargetBehind(ms, ps[i])) &&
    (forall i, j {:trigger InDueOrder(ps[i], ps[j])} ::
      0 <= i < |ps| && 0 <= j < |ps| && i != j ==> InDueOrder(ps[i], ps[j]))
  }

  /** Appending a fresh user message and its three status timers keeps the
      schedule consistent. */
  lemma ScheduleUserMessage(ms: seq<Message>, now: int, ps: seq<Timer>, m: Message)
    requires Consistent(ms, now, ps)
    requires m.author == User && m.status == Some(Sending)
    ensures Consistent(ms + [m], now, ps + StatusTimers(|ms|, now))
  {
    var ms' := ms + [m];
    var ps' := ps + StatusTimers(|ms|, now);
    forall i | 0 <= i < |ps'| ensures ps'[i].due >= now && TimerTargetBehind(ms', ps'[i]) {
      if i < |ps| {
        assert ps'[i] == ps[i] && TimerTargetBehind(ms, ps[i]);
      } else {
        assert ps'[i] == StatusTimers(|ms|, now)[i - |ps|];
      }
    }
    forall i, j | 0 <= i < |ps'| && 0 <= j < |ps'| && i != j ensures InDueOrder(ps'[i], ps'[j]) {
      if i < |ps| && j < |ps| {
        assert InDueOrder(ps[i], ps[j]);
      } else if i < |ps| {
        assert TimerTargetBehind(ms, ps[i]);
      } else if j < |ps| {
        assert TimerTargetBehind(ms, ps[j]);
      } else {
        assert ps'[i] == StatusTimers(|ms|, now)[i - |ps|];
        assert ps'[j] == StatusTimers(|ms|, now)[j - |ps|];
      }
    }
  }

  /** Scheduling a bot reply that is not overdue keeps the schedule
      consistent. */
  lemma ScheduleReply(ms: seq<Message>, now: int, ps: seq<Timer>, t: Timer)
    requires Consistent(ms, now, ps)
    requires t.ReplyTimer? && t.due >= now
    ensures Consistent(ms, now, ps + [t])
  {
    var ps' := ps + [t];
    forall i | 0 <= i < |ps'| ensures ps'[i].due >= now && TimerTargetBehind(ms, ps'[i]) {
      if i < |ps| {
        assert ps'[i] == ps[i] && TimerTargetBehind(ms, ps[i]);
      }
    }
    forall i, j | 0 <= i < |ps'| && 0 <= j < |ps'| && i != j ensures InDueOrder(ps'[i], ps'[j]) {
      if i < |ps| && j < |ps| {
        assert InDueOrder(ps[i], ps[j]);
      }
    }
  }

  /** Running the next timer when it is a status timer: the status it writes
      is ahead of the message's current status, so the log advances, and every
      later status timer of the same message is still ahead of it. This is
      why the three overwrites, run in delay order, move a message through
      Sending, Sent, Delivered and Read and never back. */
  lemma FireStatus(ms: seq<Message>, now: int, ps: seq<Timer>, k: nat)
    requires Consistent(ms, now, ps) && IsEarliest(ps, k) && ps[k].StatusTimer?
    ensures ps[k].at < |ms| && ms[ps[k].at].author == User
    ensures var t := ps[k];
      var ms' := ms[t.at := ms[t.at].(status := Some(t.status))];
      Consistent(ms', t.due, RemoveAt(ps, k)) && Advanced(ms, ms')
  {
    var t := ps[k];
    assert TimerTargetBehind(ms, t);
    var ms' := ms[t.at := ms[t.at].(status := Some(t.status))];
    var ps' := RemoveAt(ps, k);
    forall i | 0 <= i < |ps'| ensures ps'[i].due >= t.due && TimerTargetBehind(ms', ps'[i]) {
      var j := if i < k then i else i + 1;
      assert ps'[i] == ps[j] && j != k;
      assert TimerTargetBehind(ms, ps[j]);
      assert InDueOrder(ps[j], t);
    }
    forall i, j | 0 <= i < |ps'| && 0 <= j < |ps'| && i != j ensures InDueOrder(ps'[i], ps'[j]) {
      var i0 := if i < k then i else i + 1;
      var j0 := if j < k then j else j + 1;
      assert ps'[i] == ps[i0] && ps'[j] == ps[j0];
      assert InDueOrder(ps[i0], ps[j0]);
    }
    assert StatusRaised(ms[t.at], ms'[t.at]);
  }

  /** Running the next timer when it delivers a reply: the schedule stays
      consistent with the log grown by the bot message. */
  lemma FireReply(ms: seq<Message>, now: int, ps: seq<Timer>, k: nat, m: Message)
    requires Consistent(ms, now, ps) && IsEarliest(ps, k) && ps[k].ReplyTimer?
    requires m.author == Bot
    ensures Consistent(ms + [m], ps[k].due, RemoveAt(ps, k))
  {
    var ms' := ms + [m];
    var ps' := RemoveAt(ps, k);
    forall i | 0 <= i < |ps'| ensures ps'[i].due >= ps[k].due && TimerTargetBehind(ms', ps'[i]) {
      var j := if i < k then i else i + 1;
      assert ps'[i] == ps[j];
      assert TimerTargetBehind(ms, ps[j]);
    }
    forall i, j | 0 <= i < |ps'| && 0 <= j < |ps'| && i != j ensures InDueOrder(ps'[i], ps'[j]) {
      var i0 := if i < k then i else i + 1;
      var j0 := if j < k then j else j + 1;
      assert ps'[i] == ps[i0] && ps'[j] == ps[j0];
      assert InDueOrder(ps[i0], ps[j0]);
    }
  }

  class Chat {
    /** `state.messages`, in creation order. */
    var messages: seq<Message>
    /** `state.typing`: set when a reply is scheduled, cleared when any reply
        is delivered. */
    var typing: bool
    /** The timer clock. */
    var now: int
    /** The timers scheduled and not yet run, in scheduling order. */
    var pending: seq<Timer>

    ghost predicate Valid()
      reads this
    {
      Consistent(messages, now, pending)
    }

    /** The store as loaded at start-up, with nothing scheduled. */
    constructor (loaded: seq<Message>, start: int)
      ensures Valid()
      ensures messages == loaded && !typing && now == start && pending == []
    {
      messages := loaded;
      typing := false;
      now := start;
      pending := [];
    }

    /** The composer's submit handler: trims the input; if nothing is left it
        does nothing, otherwise it appends the user message and schedules its
        status timers and the bot's reply. */
    method Submit(input: string, id: Id, ts: int)
      requires Valid() && FreshId(messages, id)
      modifies this
      ensures Valid() && now == old(now)
      ensures Advanced(old(messages), messages)
      ensures WellFormed(old(messages)) ==> WellFormed(messages)
      ensures AllWhitespace(input) ==>
        messages == old(messages) && pending == old(pending) && typing == old(typing)
      ensures !AllWhitespace(input) ==>
        var text := Trim(input);
        messages == old(messages) + [Message(id, User, text, ts, Some(Sending))] &&
        pending == old(pending) + StatusTimers(|old(messages)|, now)
                   + [ReplyTimer(now + ReplyDelay(|text|), SimpleReply(text))] &&
        typing
    {
      var text := Trim(input);
      TrimEmpty(input);
      if text != [] {
        ghost var timers := pending + StatusTimers(|messages|, now);
        PushUser(text, id, ts);
        assert pending == timers;
        ghost var log := messages;
        MockBot(text);
        assert messages == log;
      }
    }

    /** `pushUser`: appends a user message in state `Sending` and schedules the
        overwrites to `Sent`, `Delivered` and `Read`. */
    method PushUser(text: string, id: Id, ts: int)
      requires Valid() && FreshId(messages, id)
      modifies this
      ensures Valid() && now == old(now) && typing == old(typing)
      ensures messages == old(messages) + [Message(id, User, text, ts, Some(Sending))]
      ensures pending == old(pending) + StatusTimers(|old(messages)|, now)
      ensures Advanced(old(messages), messages)
      ensures WellFormed(old(messages)) ==> WellFormed(messages)
    {
      var m := Message(id, User, text, ts, Some(Sending));
      AppendKeepsWellFormed(messages, m);
      ScheduleUserMessage(messages, now, pending, m);
      pending := pending + StatusTimers(|messages|, now);
      messages := messages + [m];
    }

    /** `mockBot`: computes the reply now and schedules its delivery after a
        delay that grows with the length of the text. */
    method MockBot(text: string)
      requires Valid()
      modifies this
      ensures Valid() && now == old(now) && messages == old(messages) && typing
      ensures pending == old(pending) + [ReplyTimer(now + ReplyDelay(|text|), SimpleReply(text))]
    {
      typing := true;
      var reply := SimpleReply(text);
      var t := ReplyTimer(now + ReplyDelay(|text|), reply);
      ScheduleReply(messages, now, pending, t);
      pending := pending + [t];
    }

    /** A status timer's callback: overwrites the status of its message,
        whatever it was. */
    method ApplyStatus(at: nat, s: Status)
      requires at < |messages|
      modifies this`messages
      ensures messages == old(messages)[at := old(messages)[at].(status := Some(s))]
    {
      messages := messages[at := messages[at].(status := Some(s))];
    }

    /** The reply timer's callback in `mockBot`: clears `typing` and appends the
        bot message, which has no status. */
    method DeliverReply(reply: string, id: Id, ts: int)
      modifies this`messages, this`typing
      ensures !typing
      ensures messages == old(messages) + [Message(id, Bot, reply, ts, None)]
    {
      typing := false;
      messages := messages + [Message(id, Bot, reply, ts, None)];
    }

    /** The attachment input's change handler: with at least one file it
        appends "Attached: " and the file names joined by ", " as a user
        message, with its status timers but no bot reply. */
    method AttachFiles(names: seq<string>, id: Id, ts: int)
      requires Valid() && FreshId(messages, id)
      modifies this
      ensures Valid() && now == old(now) && typing == old(typing)
      ensures Advanced(old(messages), messages)
      ensures WellFormed(old(messages)) ==> WellFormed(messages)
      ensures names == [] ==> messages == old(messages) && pending == old(pending)
      ensures names != [] ==>
        messages == old(messages) + [Message(id, User, "Attached: " + Join(names, ", "), ts, Some(Sending))] &&
        pending == old(pending) + StatusTimers(|old(messages)|, now)
    {
      if |names| > 0 {
        PushUser("Attached: " + Join(names, ", "), id, ts);
      }
    }

    /** Time passes with no timer due before `t`; a user event may then
        happen at `t`. */
    method Wait(t: int)
      requires Valid() && now <= t
      requires forall i :: 0 <= i < |pending| ==> t <= pending[i].due
      modifies this`now
      ensures Valid() && now == t
    {
      now := t;
    }

    /** Finds the timer the event loop runs next. */
    method NextTimer() returns (k: nat)
      requires pending != []
      ensures IsEarliest(pending, k)
    {
      k := 0;
      var i := 1;
      while i < |pending|
        invariant 1 <= i <= |pending| && k < i
        invariant forall j :: 0 <= j < i ==> pending[k].due <= pending[j].due
        invariant forall j :: 0 <= j < k ==> pending[k].due < pending[j].due
      {
        if pending[i].due < pending[k].due {
          k := i;
        }
        i := i + 1;
      }
    }

    /** One turn of the event loop: runs the next timer, if any, and moves the
        clock to its due time. `id` and `ts` are used only when the timer
        delivers a bot reply. A status only ever moves forward. */
    method FireNext(id: Id, ts: int) returns (fired: bool, k: nat)
      requires Valid() && FreshId(messages, id)
      modifies this
      ensures Valid()
      ensures fired == (old(pending) != [])
      ensures !fired ==> messages == old(messages) && typing == old(typing) && now == old(now) && pending == []
      ensures fired ==>
        IsEarliest(old(pending), k) && now == old(pending)[k].due &&
        pending == RemoveAt(old(pending), k)
      ensures fired && old(pending)[k].StatusTimer? ==>
        var t := old(pending)[k];
        t.at < |old(messages)| &&
        messages == old(messages)[t.at := old(messages)[t.at].(status := Some(t.status))] &&
        typing == old(typing)
      ensures fired && old(pending)[k].ReplyTimer? ==>
        messages == old(messages) + [Message(id, Bot, old(pending)[k].reply, ts, None)] && !typing
      ensures Advanced(old(messages), messages)
      ensures WellFormed(old(messages)) ==> WellFormed(messages)
    {
      if pending == [] {
        return false, 0;
      }
      k := NextTimer();
      var t := pending[k];
      var before := pending;
      match t {
        case StatusTimer(_, at, s) =>
          FireStatus(messages, now, before, k);
          SetStatusKeepsWellFormed(messages, at, s);
          ApplyStatus(at, s);
        case ReplyTimer(_, reply) =>
          FireReply(messages, now, before, k, Message(id, Bot, reply, ts, None));
          AppendKeepsWellFormed(messages, Message(id, Bot, reply, ts, None));
          DeliverReply(reply, id, ts);
      }
      fired := true;
      pending := RemoveAt(before, k);
      now := t.due;
    }
  }

  /** One turn of the event loop on a one-message log whose first pending
      timer, due strictly before the others, writes a status. */
  method RunStatusTimer(chat: Chat, id: Id, ts: int, due: int, s: Status, rest: seq<Timer>)
    requires chat.Valid() && |chat.messages| == 1 && chat.messages[0].id != id
    requires chat.pending == [StatusTimer(due, 0, s)] + rest
    requires forall j :: 0 <= j < |rest| ==> due < rest[j].due
    modifies chat
    ensures chat.Valid() && chat.now == due && chat.pending == rest
    ensures chat.messages == [old(chat.messages[0]).(status := Some(s))]
  {
    ghost var p := chat.pending;
    assert IdDiffers(chat.messages[0], id);
    var fired, k := chat.FireNext(id, ts);
    assert p[k].due <= p[0].due;
    assert k == 0;
    assert RemoveAt(p, 0) == rest;
  }

  /** One turn of the event loop when the only pending timer delivers a
      reply. */
  method RunReplyTimer(chat: Chat, id: Id, ts: int, due: int, reply: string)
    requires chat.Valid() && FreshId(chat.messages, id)
    requires chat.pending == [ReplyTimer(due, reply)]
    modifies chat
    ensures chat.Valid() && chat.now == due && chat.pending == []
    ensures chat.messages == old(chat.messages) + [Message(id, Bot, reply, ts, None)]
  {
    var fired, k := chat.FireNext(id, ts);
  }

  /** A chat started on an empty log at `start`, after one submission;
      `text`, `reply` and `due` are what the submission computed. */
  method SubmitOnEmptyLog(input: string, start: int)
    returns (chat: Chat, text: string, reply: string, due: int)
    requires !AllWhitespace(input)
    ensures text == Trim(input) && reply == SimpleReply(text) && due == start + ReplyDelay(|text|)
    ensures fresh(chat) && chat.Valid() && chat.now == start
    ensures chat.messages == [Message("u", User, text, start, Some(Sending))]
    ensures chat.pending ==
      [StatusTimer(start + 150, 0, Sent), StatusTimer(start + 600, 0, Delivered),
       StatusTimer(start + 900, 0, Read), ReplyTimer(due, reply)]
  {
    chat := new Chat([], start);
    chat.Submit(input, "u", start);
    text := Trim(input);
    reply := SimpleReply(text);
    due := start + ReplyDelay(|text|);
  }

  /** The three status timers of a lone user message run in delay order,
      ahead of a reply due later: the message reads Sent, Delivered and Read
      at 150, 600 and 900 after `start`. */
  method RunStatusTimers(chat: Chat, start: int, reply: Timer)
    returns (statuses: seq<Option<Status>>, times: seq<int>)
    requires chat.Valid() && |chat.messages| == 1 && chat.messages[0].id == "u"
    requires chat.pending == [StatusTimer(start + 150, 0, Sent), StatusTimer(start + 600, 0, Delivered),
                              StatusTimer(start + 900, 0, Read), reply]
    requires reply.due > start + 900
    modifies chat
    ensures chat.Valid() && chat.now == start + 900 && chat.pending == [reply]
    ensures chat.messages == [old(chat.messages[0]).(status := Some(Read))]
    ensures statuses == [Some(Sent), Some(Delivered), Some(Read)]
    ensures times == [start + 150, start + 600, start + 900]
  {
    RunStatusTimer(chat, "b", 0, start + 150, Sent,
      [StatusTimer(start + 600, 0, Delivered), StatusTimer(start + 900, 0, Read), reply]);
    statuses := [chat.messages[0].status];
    times := [chat.now];
    RunStatusTimer(chat, "b", 0, start + 600, Delivered, [StatusTimer(start + 900, 0, Read), reply]);
    statuses := statuses + [chat.messages[0].status];
    times := times + [chat.now];
    RunStatusTimer(chat, "b", 0, start + 900, Read, [reply]);
    statuses := statuses + [chat.messages[0].status];
    times := times + [chat.now];
  }

  /** Every timer of a lone user message and its reply runs, in delay
      order: the reply is appended last, without a status. */
  method RunAllTimers(chat: Chat, start: int, due: int, reply: string)
    returns (statuses: seq<Option<Status>>, times: seq<int>)
    requires chat.Valid() && |chat.messages| == 1 && chat.messages[0].id == "u"
    requires chat.pending == [StatusTimer(start + 150, 0, Sent), StatusTimer(start + 600, 0, Delivered),
                              StatusTimer(start + 900, 0, Read), ReplyTimer(due, reply)]
    requires due > start + 900
    modifies chat
    ensures chat.Valid() && chat.now == due && chat.pending == []
    ensures chat.messages ==
      [old(chat.messages[0]).(status := Some(Read)), Message("b", Bot, reply, due, None)]
    ensures statuses == [Some(Sent), Some(Delivered), Some(Read)]
    ensures times == [start + 150, start + 600, start + 900, due]
  {
    statuses, times := RunStatusTimers(chat, start, ReplyTimer(due, reply));
    RunReplyTimer(chat, "b", due, due, reply);
    times := times + [chat.now];
  }

  /** One submission on an empty log, followed by four turns of the event
      loop: the user message reads Sending at once, then Sent, Delivered and
      Read at 150, 600 and 900, and the bot's reply is appended last, at the
      reply delay, without a status. */
  method SubmitThenRunTimers(input: string, start: int)
    returns (text: string, reply: string, statuses: seq<Option<Status>>, times: seq<int>, log: seq<Message>)
    requires !AllWhitespace(input)
    ensures text == Trim(input) && reply == SimpleReply(text)
    ensures statuses == [Some(Sending), Some(Sent), Some(Delivered), Some(Read)]
    ensures times == [start + 150, start + 600, start + 900, start + ReplyDelay(|text|)]
    ensures log == [Message("u", User, text, start, Some(Read)), Message("b", Bot, reply, times[3], None)]
  {
    var chat, due;
    chat, text, reply, due := SubmitOnEmptyLog(input, start);
    var first := chat.messages[0];
    var later;
    later, times := RunAllTimers(chat, start, due, reply);
    statuses := [first.status] + later;
    log := chat.messages;
  }

  /** "Hello" survives trimming, is answered with the greeting, and the reply
      comes after 1000 + 5 * 20 = 1100. */
  lemma HelloIsGreeted()
    ensures !AllWhitespace("Hello") && Trim("Hello") == "Hello"
    ensures SimpleReply("Hello") == Greeting && ReplyDelay(|"Hello"|) == 1100
  {
    assert !IsWhitespace("Hello"[0]);
    assert ToLowerAscii("Hello") == "hello";
  }
}
