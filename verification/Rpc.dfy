/** The JSON-RPC pending-call table: many callers, each with a one-place response channel
    registered under a fresh id, one read loop that hands responses over, and the drain that
    closes the remaining channels when the server exits (section 5 of the JSON-RPC 2.0
    Specification ties a response to its request by id). */
module PendingCalls {
  import opened Wrappers

  datatype Response = Response(id: int, body: string)

  /** A channel with room for one response. */
  datatype Channel = Channel(buffer: Option<Response>, closed: bool)

  datatype Outcome = Got(response: Response) | ServerCrashed | Cancelled | WriteFailed

  /** A call takes its id, registers its channel, writes its request, waits, and on the way
      out deletes its table entry. */
  datatype Call =
    | Numbered
    | Registered
    | Waiting
    | Leaving(outcome: Outcome)
    | Returned(outcome: Outcome)

  datatype Loop = Reading | Delivering(response: Response) | Stopped

  /** `lines` is everything the server has written. The two flags record what must never
      happen: a send on or a second close of a closed channel, and a blocked read loop. */
  datatype Client = Client(
    nextId: int,
    calls: map<int, Call>,
    channels: map<int, Channel>,
    pending: set<int>,
    loop: Loop,
    closed: bool,
    lines: seq<Response>,
    panicked: bool,
    blocked: bool)

  const START := Client(0, map[], map[], {}, Reading, false, [], false, false)

  datatype Step =
    | TakeId
    | Register(id: int)
    | WriteRequest(id: int, ok: bool)
    | Cancel(id: int)
    | TakeResponse(id: int)
    | Leave(id: int)
    | ServerLine(response: Response)
    | Deliver
    | ServerExit

  predicate IsIn(c: Client, id: int, call: Call) {
    id in c.calls && c.calls[id] == call
  }

  function WithCall(c: Client, id: int, call: Call): Client {
    c.(calls := c.calls[id := call])
  }

  predicate Answered(c: Client, id: int) {
    exists i :: 0 <= i < |c.lines| && c.lines[i].id == id
  }

  /** The server answers each id at most once; lines without a call's id may come at will. */
  predicate ServerMaySay(c: Client, response: Response) {
    response.id <= 0 || !Answered(c, response.id)
  }

  function DrainedChannels(c: Client): map<int, Channel> {
    map id | id in c.channels :: if id in c.pending then c.channels[id].(closed := true) else c.channels[id]
  }

  /** A step that is not possible changes nothing. */
  function Next(c: Client, step: Step): Client {
    match step
    case TakeId => WithCall(c, c.nextId + 1, Numbered).(nextId := c.nextId + 1)
    case Register(id) =>
      if IsIn(c, id, Numbered) then
        WithCall(c, id, Registered).(channels := c.channels[id := Channel(None, false)], pending := c.pending + {id})
      else c
    case WriteRequest(id, ok) =>
      if IsIn(c, id, Registered) then WithCall(c, id, if ok then Waiting else Leaving(WriteFailed)) else c
    case Cancel(id) =>
      if IsIn(c, id, Waiting) then WithCall(c, id, Leaving(Cancelled)) else c
    case TakeResponse(id) =>
      if IsIn(c, id, Waiting) && id in c.channels then
        match c.channels[id]
        case Channel(Some(response), closed) =>
          WithCall(c, id, Leaving(Got(response))).(channels := c.channels[id := Channel(None, closed)])
        case Channel(None, true) => WithCall(c, id, Leaving(ServerCrashed))
        case Channel(None, false) => c
      else c
    case Leave(id) =>
      if id in c.calls && c.calls[id].Leaving? then
        WithCall(c, id, Returned(c.calls[id].outcome)).(pending := c.pending - {id})
      else c
    case ServerLine(response) =>
      if c.loop.Reading? && ServerMaySay(c, response) then
        c.(lines := c.lines + [response],
           loop := if response.id in c.pending then Delivering(response) else Reading)
      else c
    case Deliver =>
      if c.loop.Delivering? && c.loop.response.id in c.channels then
        var response := c.loop.response;
        var ch := c.channels[response.id];
        if ch.closed then c.(panicked := true)
        else if ch.buffer.Some? then c.(blocked := true)
        else c.(channels := c.channels[response.id := Channel(Some(response), false)], loop := Reading)
      else c
    case ServerExit =>
      if c.loop.Reading? then
        c.(loop := Stopped, closed := true, pending := {}, channels := DrainedChannels(c),
           panicked := c.panicked || exists id :: id in c.pending && id in c.channels && c.channels[id].closed)
      else c
  }

  function After(c: Client, steps: seq<Step>): Client {
    if steps == [] then c else Next(After(c, steps[..|steps| - 1]), steps[|steps| - 1])
  }

  function Run(steps: seq<Step>): Client {
    After(START, steps)
  }

  // ---------- the invariant ----------

  /** A response in transit or taken is the one line the server wrote for that id. */
  ghost predicate Genuine(c: Client, id: int, response: Response) {
    response.id == id && response in c.lines
  }

  ghost predicate CallFits(c: Client, id: int)
    requires id in c.calls
  {
    && 0 < id <= c.nextId
    && (c.calls[id].Numbered? <==> id !in c.channels)
    && match c.calls[id]
       case Leaving(Got(response)) => Genuine(c, id, response)
       case Returned(Got(response)) => Genuine(c, id, response)
       case _ => true
  }

  ghost predicate ChannelFits(c: Client, id: int)
    requires id in c.channels
  {
    && id in c.calls
    && (c.channels[id].buffer.Some? ==> Genuine(c, id, c.channels[id].buffer.value))
    && (c.channels[id].closed ==> c.loop.Stopped?)
  }

  /** The response being delivered is the only one for its id, so its channel has room. */
  ghost predicate LoopFits(c: Client) {
    match c.loop
    case Delivering(response) =>
      && response.id in c.channels && response in c.lines
      && c.channels[response.id].buffer == None
    case _ => true
  }

  ghost predicate Invariant(c: Client) {
    && !c.panicked && !c.blocked
    && (forall id :: id in c.calls ==> CallFits(c, id))
    && (forall id :: id in c.channels ==> ChannelFits(c, id))
    && c.pending <= c.channels.Keys
    && LoopFits(c)
    && (forall i, j :: 0 <= i < j < |c.lines| && c.lines[i].id > 0 ==> c.lines[i].id != c.lines[j].id)
    && c.nextId >= 0
  }

  /** One call moves on; everything else stays. */
  lemma CallStepKeepsInvariant(c: Client, id: int, call: Call)
    requires Invariant(c) && id in c.calls && !c.calls[id].Numbered? && !call.Numbered?
    requires match call
      case Leaving(Got(response)) => Genuine(c, id, response)
      case Returned(Got(response)) => Genuine(c, id, response)
      case _ => true
    ensures Invariant(WithCall(c, id, call))
  {
    var c' := WithCall(c, id, call);
    forall k | k in c'.calls ensures CallFits(c', k) {
      assert CallFits(c, if k in c.calls then k else id);
    }
    forall k | k in c'.channels ensures ChannelFits(c', k) {
      assert ChannelFits(c, k);
    }
  }

  lemma RegisterKeepsInvariant(c: Client, id: int)
    requires Invariant(c)
    ensures Invariant(Next(c, Register(id)))
  {
    var c' := Next(c, Register(id));
    forall k | k in c'.calls ensures CallFits(c', k) {
      assert CallFits(c, k);
    }
    forall k | k in c'.channels ensures ChannelFits(c', k) {
      if k in c.channels {
        assert ChannelFits(c, k);
      }
    }
  }

  lemma TakeIdKeepsInvariant(c: Client)
    requires Invariant(c)
    ensures Invariant(Next(c, TakeId))
  {
    var c' := Next(c, TakeId);
    forall k | k in c'.channels ensures ChannelFits(c', k) {
      assert ChannelFits(c, k) && CallFits(c, k);
    }
    forall k | k in c'.calls ensures CallFits(c', k) {
      if k in c.calls {
        assert CallFits(c, k);
      } else {
        assert k !in c.channels;
      }
    }
  }

  lemma TakeResponseKeepsInvariant(c: Client, id: int)
    requires Invariant(c)
    ensures Invariant(Next(c, TakeResponse(id)))
  {
    if IsIn(c, id, Waiting) && id in c.channels {
      assert ChannelFits(c, id);
      match c.channels[id]
      case Channel(Some(response), closed) =>
        CallStepKeepsInvariant(c, id, Leaving(Got(response)));
        var d := WithCall(c, id, Leaving(Got(response)));
        EmptiedKeepsInvariant(d, id);
      case Channel(None, true) => CallStepKeepsInvariant(c, id, Leaving(ServerCrashed));
      case Channel(None, false) =>
    }
  }

  lemma EmptiedKeepsInvariant(c: Client, id: int)
    requires Invariant(c) && id in c.channels
    ensures Invariant(c.(channels := c.channels[id := Channel(None, c.channels[id].closed)]))
  {
    var c' := c.(channels := c.channels[id := Channel(None, c.channels[id].closed)]);
    forall k | k in c'.calls ensures CallFits(c', k) {
      assert CallFits(c, k);
    }
    forall k | k in c'.channels ensures ChannelFits(c', k) {
      assert ChannelFits(c, k);
    }
  }

  /** The channel of an unanswered id is empty, so the response will fit. */
  lemma ServerLineKeepsInvariant(c: Client, response: Response)
    requires Invariant(c)
    ensures Invariant(Next(c, ServerLine(response)))
  {
    if c.loop.Reading? && ServerMaySay(c, response) {
      var c' := Next(c, ServerLine(response));
      forall k | k in c'.calls ensures CallFits(c', k) {
        assert CallFits(c, k);
      }
      forall k | k in c'.channels ensures ChannelFits(c', k) {
        assert ChannelFits(c, k);
      }
      if response.id in c.pending {
        assert ChannelFits(c, response.id) && CallFits(c, response.id);
      }
    }
  }

  lemma DeliverKeepsInvariant(c: Client)
    requires Invariant(c)
    ensures Invariant(Next(c, Deliver))
    ensures c.loop.Delivering? ==> Next(c, Deliver).loop.Reading?
  {
    if c.loop.Delivering? {
      var c' := Next(c, Deliver);
      assert ChannelFits(c, c.loop.response.id);
      forall k | k in c'.calls ensures CallFits(c', k) {
        assert CallFits(c, k);
      }
      forall k | k in c'.channels ensures ChannelFits(c', k) {
        assert ChannelFits(c, k);
      }
    }
  }

  lemma ServerExitKeepsInvariant(c: Client)
    requires Invariant(c)
    ensures Invariant(Next(c, ServerExit))
  {
    if c.loop.Reading? {
      var c' := Next(c, ServerExit);
      forall k | k in c'.calls ensures CallFits(c', k) {
        assert CallFits(c, k);
      }
      forall k | k in c'.channels ensures ChannelFits(c', k) {
        assert ChannelFits(c, k);
      }
      forall k | k in c.pending ensures k in c.channels && !c.channels[k].closed {
        assert ChannelFits(c, k);
      }
    }
  }

  lemma StepKeepsInvariant(c: Client, step: Step)
    requires Invariant(c)
    ensures Invariant(Next(c, step))
  {
    match step
    case TakeId => TakeIdKeepsInvariant(c);
    case Register(id) => RegisterKeepsInvariant(c, id);
    case WriteRequest(id, ok) =>
      if IsIn(c, id, Registered) {
        CallStepKeepsInvariant(c, id, if ok then Waiting else Leaving(WriteFailed));
      }
    case Cancel(id) =>
      if IsIn(c, id, Waiting) {
        CallStepKeepsInvariant(c, id, Leaving(Cancelled));
      }
    case TakeResponse(id) => TakeResponseKeepsInvariant(c, id);
    case Leave(id) =>
      if id in c.calls && c.calls[id].Leaving? {
        assert CallFits(c, id);
        CallStepKeepsInvariant(c, id, Returned(c.calls[id].outcome));
        FewerPending(WithCall(c, id, Returned(c.calls[id].outcome)), c.pending - {id});
      }
    case ServerLine(response) => ServerLineKeepsInvariant(c, response);
    case Deliver => DeliverKeepsInvariant(c);
    case ServerExit => ServerExitKeepsInvariant(c);
  }

  lemma FewerPending(c: Client, pending: set<int>)
    requires Invariant(c) && pending <= c.pending
    ensures Invariant(c.(pending := pending))
  {
    var c' := c.(pending := pending);
    forall k | k in c'.calls ensures CallFits(c', k) {
      assert CallFits(c, k);
    }
    forall k | k in c'.channels ensures ChannelFits(c', k) {
      assert ChannelFits(c, k);
    }
  }

  lemma {:induction false} AfterKeepsInvariant(c: Client, steps: seq<Step>)
    requires Invariant(c)
    ensures Invariant(After(c, steps))
  {
    if steps != [] {
      AfterKeepsInvariant(c, steps[..|steps| - 1]);
      StepKeepsInvariant(After(c, steps[..|steps| - 1]), steps[|steps| - 1]);
    }
  }

  lemma EveryRunKeepsInvariant(steps: seq<Step>)
    ensures Invariant(Run(steps))
  {
    AfterKeepsInvariant(START, steps);
  }

  /** A call that has registered its channel and not yet returned. */
  predicate Underway(c: Client, id: int) {
    id in c.calls && !c.calls[id].Numbered? && !c.calls[id].Returned?
  }

  /** While the read loop runs, the table lists exactly the calls underway; afterwards it
      lists nothing else. */
  ghost predicate TableFits(c: Client) {
    && (forall id :: id in c.pending ==> Underway(c, id))
    && (!c.loop.Stopped? ==> forall id :: Underway(c, id) ==> id in c.pending)
  }

  lemma StepKeepsTable(c: Client, step: Step)
    requires Invariant(c) && TableFits(c)
    ensures TableFits(Next(c, step))
  {
    var c' := Next(c, step);
    match step
    case TakeId =>
      forall id | Underway(c, id) ensures CallFits(c, id) {}
      assert forall id :: id != c.nextId + 1 ==> (Underway(c', id) <==> Underway(c, id));
    case Register(k) => assert forall id :: id != k ==> (Underway(c', id) <==> Underway(c, id));
    case Leave(k) => assert forall id :: id != k ==> (Underway(c', id) <==> Underway(c, id));
    case _ => assert forall id :: Underway(c', id) <==> Underway(c, id);
  }

  // ---------- what the protocol guarantees ----------

  /** No entry outlives its call, and no call underway is missing while the loop runs. */
  lemma {:induction false} TableListsCallsUnderway(steps: seq<Step>)
    ensures TableFits(Run(steps))
  {
    if steps != [] {
      var front := steps[..|steps| - 1];
      TableListsCallsUnderway(front);
      EveryRunKeepsInvariant(front);
      StepKeepsTable(Run(front), steps[|steps| - 1]);
    }
  }

  predicate Unreturned(c: Client, id: int) {
    IsIn(c, id, Registered) || IsIn(c, id, Waiting)
  }

  /** The response is on its way to the call or lies in its channel. */
  predicate Available(c: Client, id: int, response: Response) {
    c.loop == Delivering(response) || (id in c.channels && c.channels[id].buffer == Some(response))
  }

  ghost predicate KeptFor(c: Client, id: int, response: Response) {
    id in c.calls && !c.calls[id].Numbered? && (Unreturned(c, id) ==> Available(c, id, response))
  }

  lemma StepKeepsResponse(c: Client, step: Step, id: int, response: Response)
    requires Invariant(c) && response.id == id && KeptFor(c, id, response)
    ensures KeptFor(Next(c, step), id, response)
  {
    assert CallFits(c, id);
    if step.Deliver? {
      DeliveryKeepsResponse(c, id, response);
    }
  }

  lemma DeliveryKeepsResponse(c: Client, id: int, response: Response)
    requires Invariant(c) && response.id == id && KeptFor(c, id, response)
    ensures KeptFor(Next(c, Deliver), id, response)
  {
    if c.loop.Delivering? {
      assert ChannelFits(c, c.loop.response.id);
    }
  }

  /** However the steps interleave afterwards, the response the server writes for a call in
      the table stays available to the call until it takes it or gives up, and taking it
      ends the wait with that response. */
  lemma {:induction false} AnsweredCallsReceive(before: seq<Step>, later: seq<Step>, id: int, body: string)
    requires Run(before).loop.Reading? && id in Run(before).pending && !Answered(Run(before), id)
    ensures
      var response := Response(id, body);
      var c := After(Next(Run(before), ServerLine(response)), later);
      && KeptFor(c, id, response)
      && (IsIn(c, id, Waiting) && c.loop != Delivering(response) ==>
            IsIn(Next(c, TakeResponse(id)), id, Leaving(Got(response))))
  {
    var response := Response(id, body);
    var c := Next(Run(before), ServerLine(response));
    EveryRunKeepsInvariant(before);
    StepKeepsInvariant(Run(before), ServerLine(response));
    if later == [] {
      TableListsCallsUnderway(before);
      assert Underway(Run(before), id) && ChannelFits(Run(before), id);
    } else {
      var front := later[..|later| - 1];
      AnsweredCallsReceive(before, front, id, body);
      AfterKeepsInvariant(c, front);
      StepKeepsResponse(After(c, front), later[|later| - 1], id, response);
    }
  }

  predicate Received(c: Client, id: int, response: Response) {
    IsIn(c, id, Returned(Got(response))) || IsIn(c, id, Leaving(Got(response)))
  }

  /** In every interleaving a call gets only the response with its own id, the one line the
      server wrote for it, and no two calls get the same response. */
  lemma ResponsesReachTheirCalls(steps: seq<Step>, id: int, response: Response)
    requires Received(Run(steps), id, response)
    ensures response.id == id && response in Run(steps).lines
    ensures forall other, r :: other != id && Received(Run(steps), other, r) ==> r != response
  {
    EveryRunKeepsInvariant(steps);
    assert CallFits(Run(steps), id);
    forall other, r | other != id && Received(Run(steps), other, r) ensures r != response {
      assert CallFits(Run(steps), other);
    }
  }

  predicate Ended(c: Client, id: int, outcome: Outcome) {
    IsIn(c, id, Leaving(outcome)) || IsIn(c, id, Returned(outcome))
  }

  predicate Happened(steps: seq<Step>, step: Step) {
    exists i :: 0 <= i < |steps| && steps[i] == step
  }

  lemma {:induction false} StoppedByExit(steps: seq<Step>)
    requires Run(steps).loop.Stopped?
    ensures Happened(steps, ServerExit)
  {
    var front, last := steps[..|steps| - 1], steps[|steps| - 1];
    if Run(front).loop.Stopped? {
      StoppedByExit(front);
      HappenedBefore(steps, ServerExit);
    } else {
      assert steps[|steps| - 1] == ServerExit;
    }
  }

  lemma StepKeepsClosed(c: Client, step: Step)
    requires c.closed <==> c.loop.Stopped?
    ensures Next(c, step).closed <==> Next(c, step).loop.Stopped?
  {
  }

  /** The closed flag is up exactly when the read loop has ended. */
  lemma {:induction false} ClosedTellsExit(steps: seq<Step>)
    ensures Run(steps).closed <==> Run(steps).loop.Stopped?
  {
    if steps != [] {
      ClosedTellsExit(steps[..|steps| - 1]);
      StepKeepsClosed(Run(steps[..|steps| - 1]), steps[|steps| - 1]);
    }
  }

  lemma HappenedBefore(steps: seq<Step>, step: Step)
    requires steps != [] && Happened(steps[..|steps| - 1], step)
    ensures Happened(steps, step)
  {
    var i :| 0 <= i < |steps| - 1 && steps[..|steps| - 1][i] == step;
    assert steps[i] == step;
  }

  /** A call ends for the reason it reports: it was cancelled, its request could not be
      written, or the server had exited. */
  lemma {:induction false} OutcomesHaveCauses(steps: seq<Step>, id: int)
    ensures Ended(Run(steps), id, Cancelled) ==> Happened(steps, Cancel(id))
    ensures Ended(Run(steps), id, WriteFailed) ==> Happened(steps, WriteRequest(id, false))
    ensures Ended(Run(steps), id, ServerCrashed) ==> Happened(steps, ServerExit)
  {
    if steps != [] {
      var front, last := steps[..|steps| - 1], steps[|steps| - 1];
      OutcomesHaveCauses(front, id);
      EveryRunKeepsInvariant(front);
      CauseOfStep(Run(front), last, id);
      if Happened(front, Cancel(id)) { HappenedBefore(steps, Cancel(id)); }
      if Happened(front, WriteRequest(id, false)) { HappenedBefore(steps, WriteRequest(id, false)); }
      if Happened(front, ServerExit) { HappenedBefore(steps, ServerExit); }
      if Run(front).loop.Stopped? {
        StoppedByExit(front);
      }
      assert steps[|steps| - 1] == last;
    }
  }

  lemma CauseOfStep(c: Client, step: Step, id: int)
    requires Invariant(c)
    ensures Ended(Next(c, step), id, Cancelled) ==> Ended(c, id, Cancelled) || step == Cancel(id)
    ensures Ended(Next(c, step), id, WriteFailed) ==> Ended(c, id, WriteFailed) || step == WriteRequest(id, false)
    ensures Ended(Next(c, step), id, ServerCrashed) ==> Ended(c, id, ServerCrashed) || c.loop.Stopped?
  {
    if step.TakeResponse? && IsIn(c, step.id, Waiting) && step.id in c.channels {
      assert ChannelFits(c, step.id);
    }
  }

  /** Each way to end a call works at any point of a run: a waiting call can be cancelled, a
      failed write ends its call, and leaving hands the outcome on and clears the table. */
  lemma CallsCanEnd(steps: seq<Step>, id: int)
    ensures IsIn(Run(steps), id, Waiting) ==> Ended(Run(steps + [Cancel(id)]), id, Cancelled)
    ensures IsIn(Run(steps), id, Registered) ==>
      && Ended(Run(steps + [WriteRequest(id, false)]), id, WriteFailed)
      && IsIn(Run(steps + [WriteRequest(id, true)]), id, Waiting)
    ensures forall outcome :: IsIn(Run(steps), id, Leaving(outcome)) ==>
      && IsIn(Run(steps + [Leave(id)]), id, Returned(outcome))
      && id !in Run(steps + [Leave(id)]).pending
  {
    forall step ensures Run(steps + [step]) == Next(Run(steps), step) {
      assert (steps + [step])[..|steps|] == steps;
    }
  }

  /** Nothing is ever sent on or closed twice on a closed channel, and the read loop never
      blocks on a send: whenever it has a response in hand, handing it over succeeds. */
  lemma ReadLoopIsSafe(steps: seq<Step>)
    ensures !Run(steps).panicked && !Run(steps).blocked
    ensures Run(steps).loop.Delivering? ==> Next(Run(steps), Deliver).loop.Reading?
  {
    EveryRunKeepsInvariant(steps);
    DeliverKeepsInvariant(Run(steps));
  }

  /** After the server's exit, told calls have a closed channel; whoever else still waits
      has one that stays open and empty. */
  ghost predicate Drained(c: Client, told: set<int>) {
    && c.loop.Stopped?
    && (forall id :: id in told ==> id in c.channels && c.channels[id].closed && Known(c, id))
    && (forall id :: id in c.channels && id !in told && Unreturned(c, id) ==> c.channels[id] == Channel(None, false))
  }

  predicate Known(c: Client, id: int) {
    id in c.calls && !c.calls[id].Numbered?
  }

  lemma ExitDrains(c: Client)
    requires Invariant(c) && TableFits(c) && c.loop.Reading?
    ensures Drained(Next(c, ServerExit), c.pending)
    ensures forall id :: id in c.channels && id !in c.pending ==> Next(c, ServerExit).channels[id] == c.channels[id]
  {
    var c' := Next(c, ServerExit);
    forall id | id in c.pending ensures id in c'.channels && c'.channels[id].closed && Known(c', id) {
      assert Underway(c, id);
    }
    forall id | id in c'.channels && id !in c.pending ensures !Unreturned(c', id) {
      assert !Underway(c, id);
    }
  }

  lemma StepKeepsDrained(c: Client, told: set<int>, step: Step)
    requires Invariant(c) && Drained(c, told)
    ensures Drained(Next(c, step), told)
  {
    var c' := Next(c, step);
    forall id | id in told ensures id in c'.channels && c'.channels[id].closed && Known(c', id) {
      assert Known(c, id) && CallFits(c, id);
    }
    forall id | id in c'.channels && id !in told && Unreturned(c', id)
      ensures c'.channels[id] == Channel(None, false)
    {
      if id in c.channels {
        assert ChannelFits(c, id) && CallFits(c, id);
      }
    }
  }

  lemma {:induction false} RunKeepsDrained(c: Client, told: set<int>, steps: seq<Step>)
    requires Invariant(c) && Drained(c, told)
    ensures Drained(After(c, steps), told)
  {
    if steps != [] {
      var front := steps[..|steps| - 1];
      RunKeepsDrained(c, told, front);
      AfterKeepsInvariant(c, front);
      StepKeepsDrained(After(c, front), told, steps[|steps| - 1]);
    }
  }

  /** Whether the server's exit releases a call: at any later point of any run, a call that
      waits can leave through its channel exactly when it was in the table at the exit. One
      that registered after the drain is never told and waits for its cancellation. */
  lemma ExitReleasesExactly(before: seq<Step>, later: seq<Step>, id: int)
    requires Run(before).loop.Reading?
    requires IsIn(After(Next(Run(before), ServerExit), later), id, Waiting)
    ensures
      var c := After(Next(Run(before), ServerExit), later);
      !IsIn(Next(c, TakeResponse(id)), id, Waiting) <==> id in Run(before).pending
  {
    var c0 := Run(before);
    EveryRunKeepsInvariant(before);
    TableListsCallsUnderway(before);
    ExitDrains(c0);
    StepKeepsInvariant(c0, ServerExit);
    RunKeepsDrained(Next(c0, ServerExit), c0.pending, later);
    AfterKeepsInvariant(Next(c0, ServerExit), later);
    assert CallFits(After(Next(c0, ServerExit), later), id);
  }

  /** Such late calls exist. */
  lemma LateCallsExist()
    ensures
      var before, later := [TakeId], [Register(1), WriteRequest(1, true)];
      && Run(before).loop.Reading? && 1 !in Run(before).pending
      && IsIn(After(Next(Run(before), ServerExit), later), 1, Waiting)
  {
    var before, later := [TakeId], [Register(1), WriteRequest(1, true)];
    assert before[..0] == [] && Run(before) == Next(START, TakeId);
    var exited := Next(Run(before), ServerExit);
    assert later[..1] == [Register(1)] && later[..1][..0] == [];
    assert After(exited, later[..1]) == Next(exited, Register(1));
  }
}
