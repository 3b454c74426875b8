/** Sequence numbers under concurrency. Task, message, stall and panic producers each take a
    number from the team's counter and later append an envelope carrying it; the steps of
    different producers interleave, and crashes lose a suffix of the journal and everything
    in memory. */
module SeqNumbers {
  import opened Transport
  import opened TeamSpec

  /** `holding` are the numbers taken by producers that have not appended yet. */
  datatype Counter = Counter(next: nat, holding: map<nat, nat>, log: seq<Envelope>)

  datatype Step =
    | Take(producer: nat)
    | Append(producer: nat, env: Envelope)
    | Reopen(kept: nat)

  function Next(c: Counter, step: Step): Counter {
    match step
    case Take(p) =>
      if p in c.holding then c else c.(next := c.next + 1, holding := c.holding[p := c.next])
    case Append(p, env) =>
      if p in c.holding && env.seqNo == c.holding[p] then c.(holding := c.holding - {p}, log := c.log + [env])
      else c
    case Reopen(kept) =>
      if kept <= |c.log| then Counter(MaxSeq(c.log[..kept]) + 1, map[], c.log[..kept]) else c
  }

  function Run(start: Counter, steps: seq<Step>): Counter {
    if steps == [] then start else Next(Run(start, steps[..|steps| - 1]), steps[|steps| - 1])
  }

  ghost predicate Unique(log: seq<Envelope>) {
    forall i, j :: 0 <= i < j < |log| ==> log[i].seqNo != log[j].seqNo
  }

  /** Everything taken or journaled is different and below the counter. */
  ghost predicate Invariant(c: Counter) {
    && Unique(c.log)
    && (forall i :: 0 <= i < |c.log| ==> c.log[i].seqNo < c.next)
    && (forall p :: p in c.holding ==> c.holding[p] < c.next)
    && (forall p, q :: p in c.holding && q in c.holding && p != q ==> c.holding[p] != c.holding[q])
    && (forall p, i :: p in c.holding && 0 <= i < |c.log| ==> c.holding[p] != c.log[i].seqNo)
  }

  lemma StepKeepsInvariant(c: Counter, step: Step)
    requires Invariant(c)
    ensures Invariant(Next(c, step))
  {
    match step
    case Take(_) =>
    case Append(_, _) =>
    case Reopen(kept) =>
      if kept <= |c.log| {
        MaxSeqBounds(c.log[..kept]);
      }
  }

  lemma {:induction false} EveryRunKeepsInvariant(start: Counter, steps: seq<Step>)
    requires Invariant(start)
    ensures Invariant(Run(start, steps))
  {
    if steps != [] {
      EveryRunKeepsInvariant(start, steps[..|steps| - 1]);
      StepKeepsInvariant(Run(start, steps[..|steps| - 1]), steps[|steps| - 1]);
    }
  }

  /** After opening, the next number exceeds every recovered one. */
  lemma ReopenedExceedsAll(c: Counter, kept: nat, i: nat)
    requires i < kept <= |c.log|
    ensures Next(c, Step.Reopen(kept)).next > c.log[i].seqNo
  {
    MaxSeqBounds(c.log[..kept]);
    assert c.log[..kept][i] == c.log[i];
  }

  /** Creating a team starts the counter at 0, whatever its journal already holds. */
  function CreatedOver(log: seq<Envelope>): Counter {
    Counter(0, map[], log)
  }

  function Produce(n: nat, env: Envelope): seq<Step> {
    if n == 0 then [] else Produce(n - 1, env) + [Take(0), Append(0, env.(seqNo := n - 1))]
  }

  lemma {:induction false} RunConcat(start: Counter, a: seq<Step>, b: seq<Step>)
    ensures Run(start, a + b) == Run(Run(start, a), b)
  {
    if b == [] {
      assert a + b == a;
    } else {
      assert (a + b)[..|a + b| - 1] == a + b[..|b| - 1];
      RunConcat(start, a, b[..|b| - 1]);
    }
  }

  lemma {:induction false} ProduceCounts(log: seq<Envelope>, n: nat, env: Envelope)
    ensures var c := Run(CreatedOver(log), Produce(n, env));
      && c.next == n && c.holding == map[] && |c.log| == |log| + n && log <= c.log
      && (n > 0 ==> c.log[|c.log| - 1].seqNo == n - 1)
  {
    if n > 0 {
      ProduceCounts(log, n - 1, env);
      var two := [Take(0), Append(0, env.(seqNo := n - 1))];
      RunConcat(CreatedOver(log), Produce(n - 1, env), two);
      var c := Run(CreatedOver(log), Produce(n - 1, env));
      assert two[..1] == [Take(0)] && two[..1][..0] == [];
      assert Run(c, two[..1]) == Next(c, Take(0));
      assert Run(c, two) == Next(Next(c, Take(0)), two[1]);
      assert c.holding[0 := n - 1] - {0} == map[];
    }
  }

  ghost predicate AlwaysUnique(start: Counter) {
    forall steps :: Unique(Run(start, steps).log)
  }

  /** Sequence numbers stay unique over every interleaving and every number of crashes
      exactly when the team was created over an empty journal. */
  lemma UniqueIffCreatedEmpty(log: seq<Envelope>)
    ensures AlwaysUnique(CreatedOver(log)) <==> log == []
  {
    if log == [] {
      forall steps ensures Unique(Run(CreatedOver(log), steps).log) {
        EveryRunKeepsInvariant(CreatedOver(log), steps);
      }
    } else {
      var s := log[0].seqNo;
      var steps := Produce(s + 1, log[0]);
      ProduceCounts(log, s + 1, log[0]);
      var c := Run(CreatedOver(log), steps);
      assert c.log[0].seqNo == c.log[|c.log| - 1].seqNo;
      assert !Unique(c.log);
    }
  }
}
