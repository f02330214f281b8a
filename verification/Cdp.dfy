/** The request, reply and event machine of `_ChromeCdpCapture._call` on top of the WebSocket. */
module Cdp {
  import opened Basics
  import opened Frames
  import opened WebSocket

  /** A decoded DevTools message: its "id", whether it carries "error", and the text itself. */
  datatype Message = Message(id: Option<int>, isError: bool, text: seq<Byte>)

  /** What successive `_receive` calls yield: a message, or one raised error (close frame, oversized ping). */
  datatype Item = Msg(message: Message) | Break

  type Decoder = seq<Byte> -> Message

  /** Everything the byte stream still holds, in order. */
  function Inbox(stream: seq<Byte>, decode: Decoder): seq<Item>
    decreases |stream|
  {
    var r := Receive(stream);
    if r.EndOfStream? then []
    else if |r.rest| < |stream| then [if r.Text? then Msg(decode(r.payload)) else Break] + Inbox(r.rest, decode)
    else []
  }

  /** The items a stream holds; a quantifier, so that `Inbox` is unfolded only where its steps matter. */
  ghost predicate Holds(stream: seq<Byte>, decode: Decoder, inbox: seq<Item>) {
    forall s :: s == stream ==> Inbox(s, decode) == inbox
  }

  lemma StoppingConsumes(stream: seq<Byte>)
    ensures !Receive(stream).EndOfStream? ==> |Receive(stream).rest| < |stream|
    decreases |stream|
  {
    ParseShrinks(stream);
    var frame := Parse(stream);
    ReceiveStep(stream, frame);
    if !Stops(frame) {
      StoppingConsumes(frame.rest);
    }
  }

  lemma InboxStep(stream: seq<Byte>, decode: Decoder)
    ensures var r := Receive(stream);
      Inbox(stream, decode) ==
        if r.EndOfStream? then []
        else [if r.Text? then Msg(decode(r.payload)) else Break] + Inbox(r.rest, decode)
  {
    StoppingConsumes(stream);
  }

  /** A stream of well-formed frames is read as its text payloads: control frames in between do not count. */
  lemma {:induction false} InboxOfNextText(before: seq<Frame>, text: Frame, rest: seq<Byte>, decode: Decoder)
    requires forall k :: 0 <= k < |before| ==> Passed(before[k])
    requires text.Valid() && text.opcode == 1
    ensures Inbox(EncodeAll(before) + (Encode(text) + rest), decode)
         == [Msg(decode(text.payload))] + Inbox(rest, decode)
  {
    ReceiveFirstText(before, text, rest);
    InboxStep(EncodeAll(before) + (Encode(text) + rest), decode);
  }

  /** Everything the client will send in answer to the pings the byte stream still holds. */
  function AllPongs(stream: seq<Byte>): seq<Byte>
    decreases |stream|
  {
    var r := Receive(stream);
    r.pongs + if !r.EndOfStream? && |r.rest| < |stream| then AllPongs(r.rest) else []
  }

  lemma AllPongsStep(stream: seq<Byte>)
    ensures AllPongs(stream) == Receive(stream).pongs + AllPongs(Receive(stream).rest)
  {
    var r := Receive(stream);
    StoppingConsumes(stream);
    EndIsEmpty(stream);
    if r.EndOfStream? {
      ReceiveStep([], Truncated);
      assert AllPongs([]) == [];
    }
  }

  lemma {:induction false} EndIsEmpty(stream: seq<Byte>)
    ensures Receive(stream).EndOfStream? ==> Receive(stream).rest == []
    decreases |stream|
  {
    ParseShrinks(stream);
    ReceiveStep(stream, Parse(stream));
    if Stops(Parse(stream)) {
    } else {
      EndIsEmpty(Parse(stream).rest);
    }
  }

  // What a stream of frames holds.

  function Stream(frames: seq<Frame>): seq<Byte>
    requires forall k :: 0 <= k < |frames| ==> frames[k].Valid()
  {
    if frames == [] then [] else Encode(frames[0]) + Stream(frames[1..])
  }

  /** What successive `_receive` calls get from some frames: the texts, and an error for a close frame and for a ping
      of 256 bytes or more. */
  function Delivered(frames: seq<Frame>, decode: Decoder): seq<Item> {
    if frames == [] then []
    else
      var f := frames[0];
      (if f.opcode == 1 then [Msg(decode(f.payload))]
       else if f.opcode == 8 || (f.opcode == 9 && 256 <= |f.payload|) then [Break]
       else []) + Delivered(frames[1..], decode)
  }

  /** The pongs for all pings of at most 255 bytes. */
  function Owed(frames: seq<Frame>): seq<Byte> {
    if frames == [] then []
    else
      (if frames[0].opcode == 9 && |frames[0].payload| < 256 then Pong(frames[0].payload) else [])
      + Owed(frames[1..])
  }

  lemma SkippedFrame(f: Frame, rest: seq<Byte>, decode: Decoder)
    requires Passed(f)
    ensures Inbox(Encode(f) + rest, decode) == Inbox(rest, decode)
    ensures AllPongs(Encode(f) + rest) == (if f.opcode == 9 then Pong(f.payload) else []) + AllPongs(rest)
  {
    var stream := Encode(f) + rest;
    ParseInvertsEncode(f, rest);
    ReceiveStep(stream, Complete(f.opcode, f.payload, rest));
    InboxStep(stream, decode);
    InboxStep(rest, decode);
    AllPongsStep(stream);
    AllPongsStep(rest);
    ConcatAssociative(if f.opcode == 9 then Pong(f.payload) else [], Receive(rest).pongs, AllPongs(Receive(rest).rest));
  }

  lemma StoppingFrame(f: Frame, rest: seq<Byte>, decode: Decoder)
    requires f.Valid() && !Passed(f)
    ensures Inbox(Encode(f) + rest, decode)
         == [if f.opcode == 1 then Msg(decode(f.payload)) else Break] + Inbox(rest, decode)
    ensures AllPongs(Encode(f) + rest) == AllPongs(rest)
  {
    var stream := Encode(f) + rest;
    ParseInvertsEncode(f, rest);
    ReceiveStep(stream, Complete(f.opcode, f.payload, rest));
    InboxStep(stream, decode);
    AllPongsStep(stream);
  }

  /** Main fact, streams: any valid frames deliver their texts and errors in order, and get their pongs in order. */
  lemma {:induction false} InboxOfFrames(frames: seq<Frame>, decode: Decoder)
    requires forall k :: 0 <= k < |frames| ==> frames[k].Valid()
    ensures Inbox(Stream(frames), decode) == Delivered(frames, decode) && AllPongs(Stream(frames)) == Owed(frames)
  {
    if frames == [] {
      ReceiveStep([], Truncated);
    } else {
      InboxOfFrames(frames[1..], decode);
      if Passed(frames[0]) {
        SkippedFrame(frames[0], Stream(frames[1..]), decode);
      } else {
        StoppingFrame(frames[0], Stream(frames[1..]), decode);
      }
    }
  }

  /** The item a `_receive` takes off the inbox; None at end of stream. */
  function ItemOf(r: Received, decode: Decoder): Option<Item> {
    if r.EndOfStream? then None else if r.Text? then Some(Msg(decode(r.payload))) else Some(Break)
  }

  function TakeOff(item: Option<Item>, rest: seq<Item>): seq<Item> {
    if item.None? then [] else [item.value] + rest
  }

  lemma {:induction false} EndOfStreamIsFinal(stream: seq<Byte>, decode: Decoder)
    ensures Receive(stream).EndOfStream? ==> Receive(stream).rest == [] && Inbox([], decode) == []
    decreases |stream|
  {
    ParseShrinks(stream);
    ReceiveStep(stream, Parse(stream));
    ReceiveStep([], Truncated);
    if Stops(Parse(stream)) {
    } else {
      EndOfStreamIsFinal(Parse(stream).rest, decode);
    }
  }

  lemma AwaitStep(id: int, budget: nat, item: Option<Item>, rest: seq<Item>, events: seq<Message>)
    requires budget > 0 && (item.None? ==> rest == [])
    ensures Await(id, budget, TakeOff(item, rest), events) ==
      if item.None? || item.value == Break then (Broken, events, rest)
      else if item.value.message.id == Some(id) then
        ((if item.value.message.isError then Failed(item.value.message) else Reply(item.value.message)), events, rest)
      else Await(id, budget - 1, rest, events + [item.value.message])
  {
  }

  /** How a call ends: with the result or the error of its reply, at its deadline, or because reading failed. */
  datatype Outcome = Reply(message: Message) | Failed(message: Message) | TimedOut | Broken

  datatype Client = Client(counter: nat, events: seq<Message>, inbox: seq<Item>)

  /** The receive loop of `_call`; `budget` is how many times the loop runs before the deadline. */
  function Await(id: int, budget: nat, inbox: seq<Item>, events: seq<Message>): (Outcome, seq<Message>, seq<Item>) {
    if budget == 0 then (TimedOut, events, inbox)
    else if inbox == [] then (Broken, events, [])
    else if inbox[0] == Break then (Broken, events, inbox[1..])
    else
      var m := inbox[0].message;
      if m.id == Some(id) then ((if m.isError then Failed(m) else Reply(m)), events, inbox[1..])
      else Await(id, budget - 1, inbox[1..], events + [m])
  }

  function CallStep(c: Client, budget: nat): (Client, Outcome) {
    var (outcome, events, inbox) := Await(c.counter + 1, budget, c.inbox, c.events);
    (Client(c.counter + 1, events, inbox), outcome)
  }

  /** The client object: `counter` and `events` are the fields `_call` updates. */
  class CdpCapture {
    var counter: nat
    var events: seq<Message>
    const socket: Socket
    const decode: Decoder

    constructor (socket: Socket, decode: Decoder)
      ensures counter == 0 && events == [] && this.socket == socket && this.decode == decode
    {
      counter := 0;
      events := [];
      this.socket := socket;
      this.decode := decode;
    }

    /** The client as the call protocol sees it. */
    ghost function State(): Client
      reads this, socket
    {
      Client(counter, events, Inbox(socket.incoming, decode))
    }

    /** `_call`, with the request already serialised and under the size limit of `_send`. */
    method Call(request: seq<Byte>, mask: seq<Byte>, budget: nat) returns (outcome: Outcome)
      requires |mask| == 4 && |request| < Power256(8)
      modifies this, socket
      ensures (State(), outcome) == CallStep(old(State()), budget)
      ensures socket.sent + AllPongs(socket.incoming)
           == old(socket.sent) + Encode(TextFrame(request, mask)) + AllPongs(old(socket.incoming))
    {
      counter := counter + 1;
      var ok := Send(socket, request, mask);
      ghost var rest;
      outcome, rest := AwaitReply(budget, Inbox(socket.incoming, decode));
    }

    method NextItem() returns (received: Received)
      modifies socket
      ensures old(Inbox(socket.incoming, decode)) == TakeOff(ItemOf(received, decode), Inbox(socket.incoming, decode))
      ensures ItemOf(received, decode).None? ==> Inbox(socket.incoming, decode) == []
      ensures socket.sent + AllPongs(socket.incoming) == old(socket.sent) + AllPongs(old(socket.incoming))
    {
      InboxStep(socket.incoming, decode);
      EndOfStreamIsFinal(socket.incoming, decode);
      AllPongsStep(socket.incoming);
      received := ReceiveFrom(socket);
      ConcatAssociative(old(socket.sent), received.pongs, AllPongs(socket.incoming));
    }

    /** One pass of the receive loop: the call ends, or the message is logged and the loop goes on. */
    method AwaitOnce(ghost remaining: nat, ghost inbox: seq<Item>)
      returns (outcome: Option<Outcome>, ghost rest: seq<Item>)
      requires remaining > 0 && Holds(socket.incoming, decode, inbox)
      modifies this`events, socket
      ensures Holds(socket.incoming, decode, rest)
      ensures socket.sent + AllPongs(socket.incoming) == old(socket.sent) + AllPongs(old(socket.incoming))
      ensures Await(counter, remaining, inbox, old(events))
           == if outcome.Some? then (outcome.value, events, rest) else Await(counter, remaining - 1, rest, events)
    {
      var received := NextItem();
      rest := Inbox(socket.incoming, decode);
      AwaitStep(counter, remaining, ItemOf(received, decode), rest, events);
      if !received.Text? {
        return Some(Broken), rest;
      }
      var response := decode(received.payload);
      if response.id == Some(counter) {
        return Some(if response.isError then Failed(response) else Reply(response)), rest;
      }
      events := events + [response];
      return None, rest;
    }

    /** The receive loop of `_call`. */
    method AwaitReply(budget: nat, ghost inbox: seq<Item>) returns (outcome: Outcome, ghost rest: seq<Item>)
      requires Holds(socket.incoming, decode, inbox)
      modifies this`events, socket
      ensures Holds(socket.incoming, decode, rest)
      ensures socket.sent + AllPongs(socket.incoming) == old(socket.sent) + AllPongs(old(socket.incoming))
      ensures (outcome, events, rest) == Await(counter, budget, inbox, old(events))
    {
      var remaining := budget;
      rest := inbox;
      while remaining > 0
        invariant Holds(socket.incoming, decode, rest)
        invariant socket.sent + AllPongs(socket.incoming) == old(socket.sent) + AllPongs(old(socket.incoming))
        invariant Await(counter, remaining, rest, events) == Await(counter, budget, inbox, old(events))
      {
        var ended;
        ended, rest := AwaitOnce(remaining, rest);
        if ended.Some? {
          return ended.value, rest;
        }
        remaining := remaining - 1;
      }
      return TimedOut, rest;
    }
  }

  // What a call, and a run of calls, conserves.

  function Messages(ms: seq<Message>): seq<Item> {
    seq(|ms|, k requires 0 <= k < |ms| => Msg(ms[k]))
  }

  /** The item, beyond the logged events, that the call's end consumed. */
  function LastItem(outcome: Outcome, brokenByFrame: bool): seq<Item> {
    match outcome
    case Reply(m) => [Msg(m)]
    case Failed(m) => [Msg(m)]
    case TimedOut => []
    case Broken => if brokenByFrame then [Break] else []
  }

  /** Main fact, one call: the items consumed are, in order, the messages appended to `events` and then
      the one that ended the call; a returned message bears the call's own id, a logged one does not. */
  lemma {:induction false} AwaitConserves(id: int, budget: nat, inbox: seq<Item>, events: seq<Message>)
    returns (logged: seq<Message>, byFrame: bool)
    ensures var (outcome, after, rest) := Await(id, budget, inbox, events);
      && after == events + logged
      && inbox == Messages(logged) + LastItem(outcome, byFrame) + rest
      && (outcome.Reply? ==> outcome.message.id == Some(id) && !outcome.message.isError)
      && (outcome.Failed? ==> outcome.message.id == Some(id) && outcome.message.isError)
      && (forall k :: 0 <= k < |logged| ==> logged[k].id != Some(id))
  {
    logged, byFrame := [], false;
    if budget == 0 || inbox == [] {
    } else {
      if inbox[0] == Break {
        byFrame := true;
        assert inbox == [Break] + inbox[1..];
      } else if inbox[0].message.id == Some(id) {
        assert inbox == [inbox[0]] + inbox[1..];
      } else {
        var m := inbox[0].message;
        var later;
        later, byFrame := AwaitConserves(id, budget - 1, inbox[1..], events + [m]);
        logged := [m] + later;
        assert events + [m] + later == events + logged;
        assert Messages(logged) == [Msg(m)] + Messages(later);
        assert inbox == [Msg(m)] + inbox[1..];
      }
    }
  }

  // How a call ends, by the messages that wait for it.

  predicate NoneAnswers(early: seq<Message>, id: int) {
    forall k :: 0 <= k < |early| ==> early[k].id != Some(id)
  }

  lemma {:induction false} AwaitSkips(id: int, budget: nat, early: seq<Message>, rest: seq<Item>, events: seq<Message>)
    requires |early| <= budget && NoneAnswers(early, id)
    ensures Await(id, budget, Messages(early) + rest, events) == Await(id, budget - |early|, rest, events + early)
  {
    if early == [] {
      assert Messages(early) + rest == rest && events + early == events;
    } else {
      var inbox := Messages(early) + rest;
      assert inbox[0] == Msg(early[0]) && inbox[1..] == Messages(early[1..]) + rest;
      AwaitSkips(id, budget - 1, early[1..], rest, events + [early[0]]);
      assert events + [early[0]] + early[1..] == events + early;
    }
  }

  /** Main fact, a reply within the budget: it is returned, everything before it is logged, everything after it
      waits. */
  lemma CallReturnsReply(c: Client, budget: nat, early: seq<Message>, m: Message, rest: seq<Item>)
    requires c.inbox == Messages(early) + ([Msg(m)] + rest) && |early| < budget
    requires NoneAnswers(early, c.counter + 1) && m.id == Some(c.counter + 1)
    ensures CallStep(c, budget)
         == (Client(c.counter + 1, c.events + early, rest), if m.isError then Failed(m) else Reply(m))
  {
    AwaitSkips(c.counter + 1, budget, early, [Msg(m)] + rest, c.events);
    assert ([Msg(m)] + rest)[1..] == rest;
  }

  /** No reply within the budget: that many messages are logged and the rest waits. */
  lemma CallTimesOut(c: Client, early: seq<Message>, rest: seq<Item>)
    requires c.inbox == Messages(early) + rest && NoneAnswers(early, c.counter + 1)
    ensures CallStep(c, |early|) == (Client(c.counter + 1, c.events + early, rest), TimedOut)
  {
    AwaitSkips(c.counter + 1, |early|, early, rest, c.events);
  }

  /** The stream ends or breaks first: the error is consumed, and what follows it waits. */
  lemma CallBreaks(c: Client, budget: nat, early: seq<Message>, rest: seq<Item>)
    requires c.inbox == Messages(early) + rest && |early| < budget && NoneAnswers(early, c.counter + 1)
    requires rest == [] || rest[0] == Break
    ensures CallStep(c, budget)
         == (Client(c.counter + 1, c.events + early, if rest == [] then [] else rest[1..]), Broken)
  {
    AwaitSkips(c.counter + 1, budget, early, rest, c.events);
  }

  /** The first k items are messages, none of which answers the call. */
  ghost predicate Skips(inbox: seq<Item>, id: int, k: nat) {
    k <= |inbox| && forall j :: 0 <= j < k ==> inbox[j].Msg? && inbox[j].message.id != Some(id)
  }

  lemma SkipsRest(inbox: seq<Item>, id: int, k: nat)
    requires inbox != [] && inbox[0].Msg? && inbox[0].message.id != Some(id)
    ensures Skips(inbox, id, k + 1) <==> Skips(inbox[1..], id, k)
  {
    if Skips(inbox[1..], id, k) {
      forall j | 0 <= j < k + 1 ensures inbox[j].Msg? && inbox[j].message.id != Some(id) {
        assert j > 0 ==> inbox[j] == inbox[1..][j - 1];
      }
    }
  }

  /** What the k-th item makes of a call that got there. */
  predicate EndsAt(inbox: seq<Item>, id: int, k: nat, outcome: Outcome)
    requires k <= |inbox|
  {
    if k == |inbox| || inbox[k] == Break then outcome == Broken
    else
      var m := inbox[k].message;
      m.id == Some(id) && outcome == if m.isError then Failed(m) else Reply(m)
  }

  lemma {:induction false} AwaitEnds(id: int, budget: nat, inbox: seq<Item>, events: seq<Message>) returns (k: nat)
    ensures Skips(inbox, id, k) && k <= budget
    ensures var outcome := Await(id, budget, inbox, events).0;
      if k == budget then outcome == TimedOut else EndsAt(inbox, id, k, outcome)
  {
    if budget == 0 || inbox == [] || inbox[0] == Break || inbox[0].message.id == Some(id) {
      k := 0;
    } else {
      k := AwaitEnds(id, budget - 1, inbox[1..], events + [inbox[0].message]);
      SkipsRest(inbox, id, k);
      k := k + 1;
    }
  }

  /** Main fact, every ending: a call times out iff as many messages as its budget wait and none of them answers it;
      it ends in any other way iff that is what the first item does, within the budget, that is not a message for
      somebody else. */
  lemma CallEndsIff(c: Client, id: int, budget: nat, outcome: Outcome)
    requires id == c.counter + 1
    ensures CallStep(c, budget).1 == TimedOut <==> Skips(c.inbox, id, budget)
    ensures outcome != TimedOut ==>
      (CallStep(c, budget).1 == outcome
       <==> exists k: nat :: k < budget && Skips(c.inbox, id, k) && EndsAt(c.inbox, id, k, outcome))
  {
    var k := AwaitEnds(id, budget, c.inbox, c.events);
    forall j: nat | j < budget && Skips(c.inbox, id, j) && EndsAt(c.inbox, id, j, outcome) ensures j == k {
    }
  }

  function RunCalls(c: Client, budgets: seq<nat>): (Client, seq<Outcome>)
    decreases |budgets|
  {
    if budgets == [] then (c, [])
    else
      var (next, outcome) := CallStep(c, budgets[0]);
      var (last, outcomes) := RunCalls(next, budgets[1..]);
      (last, [outcome] + outcomes)
  }

  /** How often m occurs among some items, some messages and the messages some calls handed back. */
  function Waiting(items: seq<Item>, m: Message): nat {
    if items == [] then 0 else (if items[0] == Msg(m) then 1 else 0) + Waiting(items[1..], m)
  }

  function Logged(ms: seq<Message>, m: Message): nat {
    if ms == [] then 0 else (if ms[0] == m then 1 else 0) + Logged(ms[1..], m)
  }

  function Returned(outcomes: seq<Outcome>, m: Message): nat {
    if outcomes == [] then 0
    else (if outcomes[0] == Reply(m) || outcomes[0] == Failed(m) then 1 else 0) + Returned(outcomes[1..], m)
  }

  /** The three counts are multiplicities. */
  lemma {:induction false} WaitingIsMultiplicity(items: seq<Item>, m: Message)
    ensures Waiting(items, m) == multiset(items)[Msg(m)]
  {
    if items == [] {
    } else {
      WaitingIsMultiplicity(items[1..], m);
      assert items == [items[0]] + items[1..];
    }
  }

  lemma {:induction false} LoggedIsMultiplicity(ms: seq<Message>, m: Message)
    ensures Logged(ms, m) == multiset(ms)[m]
  {
    if ms == [] {
    } else {
      LoggedIsMultiplicity(ms[1..], m);
      assert ms == [ms[0]] + ms[1..];
    }
  }

  lemma {:induction false} ReturnedIsMultiplicity(outcomes: seq<Outcome>, m: Message)
    ensures Returned(outcomes, m) == multiset(outcomes)[Reply(m)] + multiset(outcomes)[Failed(m)]
  {
    if outcomes == [] {
    } else {
      ReturnedIsMultiplicity(outcomes[1..], m);
      assert outcomes == [outcomes[0]] + outcomes[1..];
    }
  }

  lemma {:induction false} WaitingConcat(a: seq<Item>, b: seq<Item>, m: Message)
    ensures Waiting(a + b, m) == Waiting(a, m) + Waiting(b, m)
  {
    if a == [] {
      assert a + b == b;
    } else {
      WaitingConcat(a[1..], b, m);
      assert (a + b)[0] == a[0] && (a + b)[1..] == a[1..] + b;
    }
  }

  lemma {:induction false} LoggedConcat(a: seq<Message>, b: seq<Message>, m: Message)
    ensures Logged(a + b, m) == Logged(a, m) + Logged(b, m)
  {
    if a == [] {
      assert a + b == b;
    } else {
      LoggedConcat(a[1..], b, m);
      assert (a + b)[0] == a[0] && (a + b)[1..] == a[1..] + b;
    }
  }

  lemma {:induction false} WaitingMessages(ms: seq<Message>, m: Message)
    ensures Waiting(Messages(ms), m) == Logged(ms, m)
  {
    if ms == [] {
    } else {
      WaitingMessages(ms[1..], m);
      assert Messages(ms)[1..] == Messages(ms[1..]);
    }
  }

  lemma CallConserves(c: Client, budget: nat, m: Message)
    ensures var (next, outcome) := CallStep(c, budget);
      Waiting(c.inbox, m) + Logged(c.events, m)
        == Waiting(next.inbox, m) + Logged(next.events, m) + Returned([outcome], m)
  {
    var (next, outcome) := CallStep(c, budget);
    var logged, byFrame := AwaitConserves(c.counter + 1, budget, c.inbox, c.events);
    WaitingConcat(Messages(logged) + LastItem(outcome, byFrame), next.inbox, m);
    WaitingConcat(Messages(logged), LastItem(outcome, byFrame), m);
    WaitingMessages(logged, m);
    LoggedConcat(c.events, logged, m);
  }

  /** Main fact, any run of calls: every message is still waiting, logged or returned, exactly as often as
      the peer sent it. */
  lemma {:induction false} RunConserves(c: Client, budgets: seq<nat>, m: Message)
    ensures var (last, outcomes) := RunCalls(c, budgets);
      Waiting(c.inbox, m) + Logged(c.events, m)
        == Waiting(last.inbox, m) + Logged(last.events, m) + Returned(outcomes, m)
    decreases |budgets|
  {
    if budgets == [] {
    } else {
      CallConserves(c, budgets[0], m);
      RunConserves(CallStep(c, budgets[0]).0, budgets[1..], m);
    }
  }

  /** Main fact, any run of calls: ids strictly increase, `events` only grows, and the k-th call returns
      only a message bearing its own id. */
  lemma {:induction false} RunReturnsOwnReplies(c: Client, budgets: seq<nat>)
    ensures var (last, outcomes) := RunCalls(c, budgets);
      && |outcomes| == |budgets| && last.counter == c.counter + |budgets| && c.events <= last.events
      && forall k :: 0 <= k < |outcomes| ==> OwnReply(outcomes[k], c.counter + k + 1)
    decreases |budgets|
  {
    if budgets == [] {
    } else {
      var logged, byFrame := AwaitConserves(c.counter + 1, budgets[0], c.inbox, c.events);
      var (next, outcome) := CallStep(c, budgets[0]);
      RunReturnsOwnReplies(next, budgets[1..]);
      var outcomes := RunCalls(c, budgets).1;
      assert outcomes == [outcome] + RunCalls(next, budgets[1..]).1;
      assert forall k :: 1 <= k < |outcomes| ==> outcomes[k] == RunCalls(next, budgets[1..]).1[k - 1];
    }
  }

  predicate OwnReply(outcome: Outcome, id: int) {
    outcome.Reply? || outcome.Failed? ==> outcome.message.id == Some(id)
  }

  lemma {:induction false} LaterIdsOnly(outcomes: seq<Outcome>, counter: nat, m: Message)
    requires forall k :: 0 <= k < |outcomes| ==> OwnReply(outcomes[k], counter + k + 1)
    requires m.id.Some? && m.id.value <= counter
    ensures Returned(outcomes, m) == 0
  {
    if outcomes == [] {
    } else {
      assert OwnReply(outcomes[0], counter + 1);
      forall k | 0 <= k < |outcomes[1..]| ensures OwnReply(outcomes[1..][k], (counter + 1) + k + 1) {
        assert OwnReply(outcomes[k + 1], counter + (k + 1) + 1);
      }
      LaterIdsOnly(outcomes[1..], counter + 1, m);
    }
  }

  /** Main fact, late replies: what answers an earlier, timed-out call is never returned by a later one;
      whenever it leaves the inbox it is in `events`. */
  lemma LateRepliesAreKept(c: Client, budgets: seq<nat>, late: Message)
    requires late.id.Some? && late.id.value <= c.counter
    ensures var (last, outcomes) := RunCalls(c, budgets);
      && Returned(outcomes, late) == 0
      && Waiting(c.inbox, late) + Logged(c.events, late) == Waiting(last.inbox, late) + Logged(last.events, late)
  {
    RunConserves(c, budgets, late);
    RunReturnsOwnReplies(c, budgets);
    LaterIdsOnly(RunCalls(c, budgets).1, c.counter, late);
  }
}
