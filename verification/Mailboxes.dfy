/** Sending under concurrency: many senders, receivers draining the mailboxes, and events
    broadcast past the senders. A send checks for room, takes a number, journals, and only
    then pushes without blocking; steps of different senders interleave. */
module MailboxProtocol {

  const CAP: nat := 256

  /** A queued item: a sent message, or a broadcast event that no sender journaled. */
  datatype Item = Sent(seqNo: nat, to: string, payload: string) | Event(payload: string)

  datatype Sender =
    | Idle
    | Checked(to: string, payload: string)
    | Numbered(item: Item)
    | Journaled(item: Item)

  /** `received` and `overflowed` record what left each mailbox and what found it full after
      being journaled; `refused` counts sends turned away before the journal. */
  datatype Net = Net(
    senders: seq<Sender>,
    boxes: map<string, seq<Item>>,
    next: nat,
    journal: seq<Item>,
    received: map<string, seq<Item>>,
    overflowed: seq<Item>,
    refused: nat)

  function At(boxes: map<string, seq<Item>>, worker: string): seq<Item> {
    if worker in boxes then boxes[worker] else []
  }

  datatype Step =
    | Check(s: nat, to: string, payload: string)
    | TakeNumber(s: nat)
    | Journal(s: nat)
    | Push(s: nat)
    | Inbox(worker: string)
    | Receive(worker: string)
    | Broadcast(workers: set<string>, payload: string)

  function Offered(box: seq<Item>, item: Item): seq<Item> {
    if |box| < CAP then box + [item] else box
  }

  function Moved(n: Net, s: nat, phase: Sender): Net
    requires s < |n.senders|
  {
    n.(senders := n.senders[s := phase])
  }

  /** A step that is not possible changes nothing. */
  function Next(n: Net, step: Step): Net {
    match step
    case Check(s, to, payload) =>
      if s < |n.senders| && n.senders[s].Idle? then
        if |At(n.boxes, to)| >= CAP then n.(refused := n.refused + 1)
        else Moved(n, s, Checked(to, payload)).(boxes := n.boxes[to := At(n.boxes, to)])
      else n
    case TakeNumber(s) =>
      if s < |n.senders| && n.senders[s].Checked? then
        Moved(n, s, Numbered(Sent(n.next, n.senders[s].to, n.senders[s].payload))).(next := n.next + 1)
      else n
    case Journal(s) =>
      if s < |n.senders| && n.senders[s].Numbered? then
        Moved(n, s, Journaled(n.senders[s].item)).(journal := n.journal + [n.senders[s].item])
      else n
    case Push(s) =>
      if s < |n.senders| && n.senders[s].Journaled? && n.senders[s].item.Sent? then
        var item := n.senders[s].item;
        var box := At(n.boxes, item.to);
        if |box| < CAP then Moved(n, s, Idle).(boxes := n.boxes[item.to := box + [item]])
        else Moved(n, s, Idle).(overflowed := n.overflowed + [item])
      else n
    case Inbox(worker) => n.(boxes := n.boxes[worker := At(n.boxes, worker)])
    case Receive(worker) =>
      var box := At(n.boxes, worker);
      if box == [] then n
      else n.(boxes := n.boxes[worker := box[1..]],
              received := n.received[worker := At(n.received, worker) + [box[0]]])
    case Broadcast(workers, payload) =>
      n.(boxes := map w | w in n.boxes :: if w in workers then Offered(n.boxes[w], Event(payload)) else n.boxes[w])
  }

  function Start(senders: nat): Net {
    Net(seq(senders, _ => Idle), map[], 0, [], map[], [], 0)
  }

  function Run(start: Net, steps: seq<Step>): Net {
    if steps == [] then start else Next(Run(start, steps[..|steps| - 1]), steps[|steps| - 1])
  }

  // ---------- conservation, message by message ----------

  function Copies(items: seq<Item>, x: Item): nat {
    if items == [] then 0
    else Copies(items[..|items| - 1], x) + if items[|items| - 1] == x then 1 else 0
  }

  function InHand(s: Sender, x: Item): nat {
    if s == Journaled(x) then 1 else 0
  }

  /** Journaled by a sender that has not pushed yet. */
  function InHands(senders: seq<Sender>, x: Item): nat {
    if senders == [] then 0
    else InHands(senders[..|senders| - 1], x) + InHand(senders[|senders| - 1], x)
  }

  lemma {:induction false} HandChanges(senders: seq<Sender>, s: nat, phase: Sender, x: Item)
    requires s < |senders|
    ensures InHands(senders[s := phase], x) == InHands(senders, x) - InHand(senders[s], x) + InHand(phase, x)
    decreases |senders|
  {
    var n := |senders| - 1;
    if s == n {
      assert senders[s := phase][..n] == senders[..n];
    } else {
      assert senders[s := phase][..n] == senders[..n][s := phase];
      HandChanges(senders[..n], s, phase, x);
    }
  }

  lemma OneMoreCopy(items: seq<Item>, item: Item, x: Item)
    ensures Copies(items + [item], x) == Copies(items, x) + if item == x then 1 else 0
  {
    assert (items + [item])[..|items|] == items;
  }

  lemma {:induction false} HeadCopy(items: seq<Item>, x: Item)
    requires items != []
    ensures Copies(items, x) == (if items[0] == x then 1 else 0) + Copies(items[1..], x)
  {
    var front := items[..|items| - 1];
    if front != [] {
      HeadCopy(front, x);
      assert items[1..][..|items[1..]| - 1] == front[1..];
    }
  }

  lemma {:induction false} CopiesOfMember(items: seq<Item>, x: Item)
    ensures Copies(items, x) > 0 <==> x in items
  {
    if items != [] {
      CopiesOfMember(items[..|items| - 1], x);
      assert items == items[..|items| - 1] + [items[|items| - 1]];
    }
  }

  /** Every copy of a message that was journaled has been received by its recipient, waits in
      the recipient's mailbox, is still held by its sender, or overflowed; and no other copy
      exists. */
  ghost predicate Conserved(n: Net, x: Item)
    requires x.Sent?
  {
    Copies(n.journal, x) ==
      Copies(At(n.received, x.to), x) + Copies(At(n.boxes, x.to), x) + InHands(n.senders, x) + Copies(n.overflowed, x)
  }

  /** Mailboxes stay within their capacity and hold nobody else's messages. */
  ghost predicate InPlace(n: Net) {
    && (forall w :: w in n.boxes ==> |n.boxes[w]| <= CAP)
    && (forall w, i :: w in n.boxes && 0 <= i < |n.boxes[w]| && n.boxes[w][i].Sent? ==> n.boxes[w][i].to == w)
    && (forall w, i :: w in n.received && 0 <= i < |n.received[w]| && n.received[w][i].Sent? ==>
          n.received[w][i].to == w)
    && (forall s :: 0 <= s < |n.senders| && (n.senders[s].Numbered? || n.senders[s].Journaled?) ==>
          n.senders[s].item.Sent?)
  }

  ghost predicate Invariant(n: Net) {
    InPlace(n) && forall x: Item :: x.Sent? ==> Conserved(n, x)
  }

  lemma StepKeepsInPlace(n: Net, step: Step)
    requires InPlace(n)
    ensures InPlace(Next(n, step))
  {
    match step
    case Receive(w) => ReceiveKeepsInPlace(n, w);
    case Push(s) => PushKeepsInPlace(n, s);
    case _ =>
  }

  lemma ReceiveKeepsInPlace(n: Net, w: string)
    requires InPlace(n)
    ensures InPlace(Next(n, Receive(w)))
  {
  }

  lemma PushKeepsInPlace(n: Net, s: nat)
    requires InPlace(n)
    ensures InPlace(Next(n, Push(s)))
  {
  }

  lemma PushConserves(n: Net, s: nat, x: Item)
    requires x.Sent? && Conserved(n, x)
    ensures Conserved(Next(n, Push(s)), x)
  {
    if s < |n.senders| && n.senders[s].Journaled? && n.senders[s].item.Sent? {
      if |At(n.boxes, n.senders[s].item.to)| < CAP {
        DeliveryConserves(n, s, n.senders[s].item, x);
      } else {
        HandChanges(n.senders, s, Idle, x);
        OneMoreCopy(n.overflowed, n.senders[s].item, x);
      }
    }
  }

  lemma DeliveryConserves(n: Net, s: nat, item: Item, x: Item)
    requires x.Sent? && Conserved(n, x) && s < |n.senders| && n.senders[s] == Journaled(item) && item.Sent?
    requires |At(n.boxes, item.to)| < CAP
    ensures Conserved(Next(n, Push(s)), x)
  {
    HandChanges(n.senders, s, Idle, x);
    OneMoreCopy(At(n.boxes, x.to), item, x);
    var n' := Next(n, Push(s));
    if item.to == x.to {
      assert At(n'.boxes, x.to) == At(n.boxes, x.to) + [item];
    } else {
      assert At(n'.boxes, x.to) == At(n.boxes, x.to);
    }
  }

  lemma ReceiveConserves(n: Net, w: string, x: Item)
    requires x.Sent? && Conserved(n, x)
    ensures Conserved(Next(n, Receive(w)), x)
  {
    var box, n' := At(n.boxes, w), Next(n, Receive(w));
    if box != [] {
      if w == x.to {
        assert At(n'.boxes, x.to) == box[1..] && At(n'.received, x.to) == At(n.received, x.to) + [box[0]];
        HeadCopy(box, x);
        OneMoreCopy(At(n.received, w), box[0], x);
      } else {
        assert At(n'.boxes, x.to) == At(n.boxes, x.to) && At(n'.received, x.to) == At(n.received, x.to);
      }
    }
  }

  lemma NumberConserves(n: Net, s: nat, x: Item)
    requires x.Sent? && Conserved(n, x)
    ensures Conserved(Next(n, TakeNumber(s)), x)
  {
    if s < |n.senders| && n.senders[s].Checked? {
      HandChanges(n.senders, s, Numbered(Sent(n.next, n.senders[s].to, n.senders[s].payload)), x);
    }
  }

  lemma JournalConserves(n: Net, s: nat, x: Item)
    requires x.Sent? && Conserved(n, x)
    ensures Conserved(Next(n, Journal(s)), x)
  {
    if s < |n.senders| && n.senders[s].Numbered? {
      var item := n.senders[s].item;
      HandChanges(n.senders, s, Journaled(item), x);
      OneMoreCopy(n.journal, item, x);
      assert Next(n, Journal(s)) == Moved(n, s, Journaled(item)).(journal := n.journal + [item]);
    }
  }

  lemma InboxConserves(n: Net, w: string, x: Item)
    requires x.Sent? && Conserved(n, x)
    ensures Conserved(Next(n, Inbox(w)), x)
  {
    assert At(Next(n, Inbox(w)).boxes, x.to) == At(n.boxes, x.to);
  }

  lemma CheckConserves(n: Net, s: nat, to: string, payload: string, x: Item)
    requires x.Sent? && Conserved(n, x)
    ensures Conserved(Next(n, Check(s, to, payload)), x)
  {
    if s < |n.senders| && n.senders[s].Idle? {
      HandChanges(n.senders, s, Checked(to, payload), x);
      assert At(Next(n, Check(s, to, payload)).boxes, x.to) == At(n.boxes, x.to);
    }
  }

  lemma BroadcastConserves(n: Net, workers: set<string>, payload: string, x: Item)
    requires x.Sent? && Conserved(n, x)
    ensures Conserved(Next(n, Broadcast(workers, payload)), x)
  {
    OneMoreCopy(At(n.boxes, x.to), Event(payload), x);
    var n' := Next(n, Broadcast(workers, payload));
    assert At(n'.boxes, x.to) == At(n.boxes, x.to) || At(n'.boxes, x.to) == At(n.boxes, x.to) + [Event(payload)];
  }

  lemma StepConserves(n: Net, step: Step, x: Item)
    requires x.Sent? && Conserved(n, x)
    ensures Conserved(Next(n, step), x)
  {
    match step
    case Check(s, to, payload) => CheckConserves(n, s, to, payload, x);
    case TakeNumber(s) => NumberConserves(n, s, x);
    case Journal(s) => JournalConserves(n, s, x);
    case Push(s) => PushConserves(n, s, x);
    case Inbox(w) => InboxConserves(n, w, x);
    case Receive(w) => ReceiveConserves(n, w, x);
    case Broadcast(workers, payload) => BroadcastConserves(n, workers, payload, x);
  }

  lemma {:induction false} EveryRunConserves(senders: nat, steps: seq<Step>)
    ensures Invariant(Run(Start(senders), steps))
  {
    if steps == [] {
      forall x: Item | x.Sent? ensures Conserved(Start(senders), x) {
        NobodyHolds(senders, x);
      }
    } else {
      var front := steps[..|steps| - 1];
      EveryRunConserves(senders, front);
      var n := Run(Start(senders), front);
      StepKeepsInPlace(n, steps[|steps| - 1]);
      forall x: Item | x.Sent? ensures Conserved(Run(Start(senders), steps), x) {
        StepConserves(n, steps[|steps| - 1], x);
      }
    }
  }

  lemma {:induction false} NobodyHolds(senders: nat, x: Item)
    ensures InHands(seq(senders, _ => Idle), x) == 0
  {
    if senders > 0 {
      var all := seq(senders, _ => Idle);
      assert all[..senders - 1] == seq(senders - 1, _ => Idle);
      NobodyHolds(senders - 1, x);
    }
  }

  /** In every interleaving a mailbox holds at most 256 items, and every sent message that is
      queued or received was journaled with the same number, recipient and payload. */
  lemma BoundedAndDurable(senders: nat, steps: seq<Step>, worker: string, item: Item)
    ensures var n := Run(Start(senders), steps);
      && |At(n.boxes, worker)| <= 256
      && (item.Sent? && (item in At(n.boxes, worker) || item in At(n.received, worker)) ==>
            item.to == worker && item in n.journal)
  {
    EveryRunConserves(senders, steps);
    var n := Run(Start(senders), steps);
    if item.Sent? {
      assert Conserved(n, item);
      CopiesOfMember(At(n.boxes, worker), item);
      CopiesOfMember(At(n.received, worker), item);
      CopiesOfMember(n.journal, item);
    }
  }

  /** An event reaches every mailbox it is meant for that has room, and touches nothing else. */
  lemma EventReaches(n: Net, workers: set<string>, payload: string, w: string)
    requires w in n.boxes
    ensures var n' := Next(n, Broadcast(workers, payload));
      && n'.boxes.Keys == n.boxes.Keys
      && n'.boxes[w] == (if w in workers && |n.boxes[w]| < 256 then n.boxes[w] + [Event(payload)] else n.boxes[w])
      && n'.senders == n.senders && n'.journal == n.journal && n'.received == n.received && n'.next == n.next
  {
  }

  /** Asking for an inbox makes a mailbox that events reach, and keeps one that exists. */
  lemma InboxIsReached(n: Net, w: string, payload: string)
    ensures var asked := Next(n, Inbox(w));
      && w in asked.boxes && asked.boxes[w] == (if w in n.boxes then n.boxes[w] else [])
      && (w !in n.boxes ==> Next(asked, Broadcast({w}, payload)).boxes[w] == [Event(payload)])
  {
  }

  /** A receiver takes the oldest item. */
  lemma ReceiverTakesOldest(n: Net, w: string)
    ensures var n', box := Next(n, Receive(w)), At(n.boxes, w);
      if box == [] then n' == n
      else At(n'.boxes, w) == box[1..] && At(n'.received, w) == At(n.received, w) + [box[0]]
  {
  }

  /** What has been received from a mailbox, followed by what still waits in it. */
  function Passed(n: Net, worker: string): seq<Item> {
    At(n.received, worker) + At(n.boxes, worker)
  }

  lemma StepKeepsOrder(n: Net, step: Step, worker: string)
    ensures Passed(n, worker) <= Passed(Next(n, step), worker)
  {
    match step
    case Receive(w) =>
      var box := At(n.boxes, w);
      if w == worker && box != [] {
        assert At(n.received, w) + [box[0]] + box[1..] == At(n.received, w) + box;
      }
    case _ =>
  }

  /** Mailboxes are first in, first out: whatever happens later, everything received or
      waiting now comes first, in the same order. */
  lemma {:induction false} OrderIsKept(start: Net, steps: seq<Step>, p: nat, worker: string)
    requires p <= |steps|
    ensures Passed(Run(start, steps[..p]), worker) <= Passed(Run(start, steps), worker)
    decreases |steps|
  {
    if p == |steps| {
      assert steps[..p] == steps;
    } else {
      var front := steps[..|steps| - 1];
      assert front[..p] == steps[..p];
      OrderIsKept(start, front, p, worker);
      StepKeepsOrder(Run(start, front), steps[|steps| - 1], worker);
    }
  }

  /** A send that nobody disturbs refuses, or journals and delivers under the next number. */
  lemma UndisturbedSend(n: Net, s: nat, to: string, payload: string)
    requires s < |n.senders| && n.senders[s].Idle?
    ensures
      var n' := Next(Next(Next(Next(n, Check(s, to, payload)), TakeNumber(s)), Journal(s)), Push(s));
      var item := Sent(n.next, to, payload);
      n' == if |At(n.boxes, to)| >= 256 then n.(refused := n.refused + 1)
            else n.(boxes := n.boxes[to := At(n.boxes, to) + [item]], journal := n.journal + [item], next := n.next + 1)
  {
    var checked := Next(n, Check(s, to, payload));
    if |At(n.boxes, to)| < CAP {
      assert checked == Moved(n, s, Checked(to, payload)).(boxes := n.boxes[to := At(n.boxes, to)]);
      DeliversNext(checked, s, to, payload);
      assert n.senders[s := Checked(to, payload)][s := Idle] == n.senders;
      assert n.boxes[to := At(n.boxes, to)][to := At(n.boxes, to) + [Sent(n.next, to, payload)]] ==
        n.boxes[to := At(n.boxes, to) + [Sent(n.next, to, payload)]];
    }
  }

  lemma DeliversNext(n: Net, s: nat, to: string, payload: string)
    requires s < |n.senders| && n.senders[s] == Checked(to, payload) && |At(n.boxes, to)| < CAP
    ensures
      var n' := Next(Next(Next(n, TakeNumber(s)), Journal(s)), Push(s));
      var item := Sent(n.next, to, payload);
      n' == Moved(n, s, Idle).(boxes := n.boxes[to := At(n.boxes, to) + [item]],
                               journal := n.journal + [item], next := n.next + 1)
  {
    var item := Sent(n.next, to, payload);
    assert n.senders[s := Numbered(item)][s := Journaled(item)] == n.senders[s := Journaled(item)];
    assert n.senders[s := Journaled(item)][s := Idle] == n.senders[s := Idle];
  }

  // ---------- when the check before the journal suffices ----------

  /** Without events nothing but the senders pushes into mailboxes. */
  predicate Allowed(steps: seq<Step>, events: bool) {
    forall i :: 0 <= i < |steps| ==> events || !steps[i].Broadcast?
  }

  /** The step ends a send with the answer that the mailbox is full. */
  predicate AnswersFull(n: Net, step: Step) {
    match step
    case Check(s, to, _) => s < |n.senders| && n.senders[s].Idle? && |At(n.boxes, to)| >= CAP
    case Push(s) =>
      && s < |n.senders| && n.senders[s].Journaled? && n.senders[s].item.Sent?
      && |At(n.boxes, n.senders[s].item.to)| >= CAP
    case _ => false
  }

  /** Over every run, nothing is journaled and then refused. */
  ghost predicate NeverOverflows(senders: nat, events: bool) {
    forall steps :: Allowed(steps, events) ==> Run(Start(senders), steps).overflowed == []
  }

  /** The answer comes at the call's first step, and the step only counts it. */
  ghost predicate LeavesNoTrace(n: Net, step: Step) {
    step.Check? && Next(n, step) == n.(refused := n.refused + 1)
  }

  /** Over every run, whoever is told that the mailbox is full finds journal, mailboxes and
      counter as they were before the call. */
  ghost predicate RefusalsLeaveNoTrace(senders: nat, events: bool) {
    forall steps, step :: Allowed(steps + [step], events) && AnswersFull(Run(Start(senders), steps), step) ==>
      LeavesNoTrace(Run(Start(senders), steps), step)
  }

  /** At most one sender, and whoever passed the check still finds room. */
  ghost predicate RoomKept(n: Net) {
    && |n.senders| <= 1
    && n.overflowed == []
    && (n.senders != [] ==>
          match n.senders[0]
          case Idle => true
          case Checked(to, _) => |At(n.boxes, to)| < CAP
          case Numbered(item) => item.Sent? && |At(n.boxes, item.to)| < CAP
          case Journaled(item) => item.Sent? && |At(n.boxes, item.to)| < CAP)
  }

  /** With one sender and no broadcasts a full mailbox is always noticed before the journal. */
  lemma {:induction false} SingleSenderNeverOverflows(senders: nat, steps: seq<Step>)
    requires senders <= 1 && Allowed(steps, false)
    ensures RoomKept(Run(Start(senders), steps))
  {
    if steps != [] {
      var front := steps[..|steps| - 1];
      SingleSenderNeverOverflows(senders, front);
      StepKeepsRoom(Run(Start(senders), front), steps[|steps| - 1]);
    }
  }

  lemma StepKeepsRoom(n: Net, step: Step)
    requires RoomKept(n) && !step.Broadcast?
    ensures RoomKept(Next(n, step))
  {
  }

  lemma RunOneMore(start: Net, steps: seq<Step>, step: Step)
    ensures Run(start, steps + [step]) == Next(Run(start, steps), step)
  {
    assert (steps + [step])[..|steps|] == steps;
  }

  /** One undisturbed send after the other leaves any number of messages in a mailbox. */
  lemma {:induction false} FillMailbox(senders: nat, to: string, count: nat) returns (steps: seq<Step>)
    requires senders >= 1 && count <= CAP
    ensures Allowed(steps, false)
    ensures var n := Run(Start(senders), steps);
      n.senders == Start(senders).senders && |At(n.boxes, to)| == count && n.overflowed == []
  {
    steps := [];
    if count > 0 {
      steps := FillMailbox(senders, to, count - 1);
      steps := SendUndisturbed(Start(senders), steps, 0, to);
    }
  }

  lemma SendUndisturbed(start: Net, steps: seq<Step>, s: nat, to: string) returns (longer: seq<Step>)
    requires Allowed(steps, false)
    requires var n := Run(start, steps); s < |n.senders| && n.senders[s].Idle? && |At(n.boxes, to)| < CAP
    ensures Allowed(longer, false)
    ensures var n, n' := Run(start, steps), Run(start, longer);
      && n'.senders == n.senders && n'.overflowed == n.overflowed
      && n'.boxes == n.boxes[to := At(n.boxes, to) + [Sent(n.next, to, "")]]
  {
    UndisturbedSend(Run(start, steps), s, to, "");
    RunOneMore(start, steps, Check(s, to, ""));
    var one := steps + [Check(s, to, "")];
    RunOneMore(start, one, TakeNumber(s));
    var two := one + [TakeNumber(s)];
    RunOneMore(start, two, Journal(s));
    var three := two + [Journal(s)];
    RunOneMore(start, three, Push(s));
    longer := three + [Push(s)];
  }

  /** A sender that passed the check finds the mailbox full after journaling. */
  lemma LosesPlace(start: Net, steps: seq<Step>, s: nat, to: string, payload: string) returns (longer: seq<Step>)
    requires var n := Run(start, steps);
      s < |n.senders| && n.senders[s] == Checked(to, payload) && |At(n.boxes, to)| == CAP
    ensures longer == steps + [TakeNumber(s), Journal(s)]
    ensures var n, n' := Run(start, steps), Run(start, longer);
      && AnswersFull(n', Push(s))
      && n'.journal == n.journal + [Sent(n.next, to, payload)]
      && Next(n', Push(s)).overflowed == n.overflowed + [Sent(n.next, to, payload)]
  {
    var n, item := Run(start, steps), Sent(Run(start, steps).next, to, payload);
    RunOneMore(start, steps, TakeNumber(s));
    var one := steps + [TakeNumber(s)];
    assert Run(start, one).senders[s] == Numbered(item);
    RunOneMore(start, one, Journal(s));
    longer := one + [Journal(s)];
    assert Run(start, longer).senders[s] == Journaled(item);
  }

  /** With two senders the last free place can be lost between check and push: then the
      message is journaled although its sender is told the mailbox is full. */
  lemma TwoSendersCanOverflow(senders: nat, to: string, payload: string) returns (steps: seq<Step>, lost: Item)
    requires senders >= 2
    ensures Allowed(steps, false) && AnswersFull(Run(Start(senders), steps), Push(1))
    ensures lost.Sent? && lost.to == to && lost.payload == payload && lost in Run(Start(senders), steps).journal
    ensures Run(Start(senders), steps + [Push(1)]).overflowed == [lost]
  {
    var start := Start(senders);
    var filled := FillMailbox(senders, to, CAP - 1);
    RunOneMore(start, filled, Check(1, to, payload));
    var checked := filled + [Check(1, to, payload)];
    var full := SendUndisturbed(start, checked, 0, to);
    steps := LosesPlace(start, full, 1, to, payload);
    lost := Sent(Run(start, full).next, to, payload);
    RunOneMore(start, steps, Push(1));
  }

  /** A broadcast event between check and push can take the last place as well, even with a
      single sender. */
  lemma EventCanTakeTheLastPlace(senders: nat, to: string, payload: string, event: string)
    returns (steps: seq<Step>, lost: Item)
    requires senders >= 1
    ensures Allowed(steps, true) && AnswersFull(Run(Start(senders), steps), Push(0))
    ensures lost.Sent? && lost.to == to && lost.payload == payload && lost in Run(Start(senders), steps).journal
    ensures Run(Start(senders), steps + [Push(0)]).overflowed == [lost]
  {
    var start := Start(senders);
    var filled := FillMailbox(senders, to, CAP - 1);
    RunOneMore(start, filled, Check(0, to, payload));
    var checked := filled + [Check(0, to, payload)];
    RunOneMore(start, checked, Broadcast({to}, event));
    var full := checked + [Broadcast({to}, event)];
    steps := LosesPlace(start, full, 0, to, payload);
    lost := Sent(Run(start, full).next, to, payload);
    RunOneMore(start, steps, Push(0));
  }

  /** Any other configuration has a run in which a journaled message is refused. */
  lemma OverflowingRun(senders: nat, events: bool) returns (steps: seq<Step>, s: nat)
    requires senders >= 2 || (senders == 1 && events)
    ensures Allowed(steps, events) && AnswersFull(Run(Start(senders), steps), Push(s))
    ensures Run(Start(senders), steps + [Push(s)]).overflowed != []
  {
    var lost: Item;
    if senders >= 2 {
      steps, lost := TwoSendersCanOverflow(senders, "", "");
      s := 1;
    } else {
      steps, lost := EventCanTakeTheLastPlace(senders, "", "", "");
      s := 0;
    }
  }

  /** The check before the journal keeps refused messages out of it exactly for a single
      sender without broadcasts. */
  lemma OverflowsExactly(senders: nat, events: bool)
    ensures NeverOverflows(senders, events) <==> senders == 0 || (senders == 1 && !events)
    ensures RefusalsLeaveNoTrace(senders, events) <==> senders == 0 || (senders == 1 && !events)
  {
    if senders >= 2 || (senders == 1 && events) {
      var steps, s := OverflowingRun(senders, events);
      assert Allowed(steps + [Push(s)], events);
      assert !LeavesNoTrace(Run(Start(senders), steps), Push(s));
    } else if senders == 0 {
      forall steps ensures Run(Start(0), steps).overflowed == [] && Run(Start(0), steps).senders == [] {
        NoSendersNoMessages(steps);
      }
    } else {
      forall steps | Allowed(steps, false) ensures RoomKept(Run(Start(1), steps)) {
        SingleSenderNeverOverflows(1, steps);
      }
      forall steps, step | Allowed(steps + [step], false) && AnswersFull(Run(Start(1), steps), step)
        ensures LeavesNoTrace(Run(Start(1), steps), step)
      {
        SingleSenderRefusal(steps, step);
      }
    }
  }

  /** A send that is told the mailbox is full in a run with one sender and no broadcasts has
      changed neither journal nor mailboxes nor counter since it was called. */
  lemma SingleSenderRefusal(steps: seq<Step>, step: Step)
    requires Allowed(steps + [step], false) && AnswersFull(Run(Start(1), steps), step)
    ensures LeavesNoTrace(Run(Start(1), steps), step)
  {
    assert forall i :: 0 <= i < |steps| ==> (steps + [step])[i] == steps[i];
    SingleSenderNeverOverflows(1, steps);
  }

  lemma {:induction false} NoSendersNoMessages(steps: seq<Step>)
    ensures Run(Start(0), steps).overflowed == [] && Run(Start(0), steps).senders == []
  {
    if steps != [] {
      NoSendersNoMessages(steps[..|steps| - 1]);
    }
  }
}
