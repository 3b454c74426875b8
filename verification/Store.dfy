/** The versioned key-value store: one JSON file shared by many processes, each write a
    lock / read / write temporary file / rename / unlock sequence, with lock timeouts and
    crashes anywhere. */
module VersionedStore {
  import opened Wrappers

  datatype Key = Key(text: string)

  datatype Entry = Entry(v: nat, value: string)

  type File = map<Key, Entry>

  datatype Request =
    | Write(key: Key, value: string)
    | WriteIfVersion(key: Key, value: string, expected: nat)
    | Clear(prefix: string)

  datatype Answer = Version(v: nat) | Removed(n: nat) | Mismatch(current: nat) | Busy

  function VersionOf(f: File, key: Key): nat {
    if key in f then f[key].v else 0
  }

  predicate Matches(prefix: string, key: Key) {
    prefix <= key.text
  }

  function MatchingKeys(f: File, prefix: string): set<Key> {
    set k | k in f && Matches(prefix, k)
  }

  /** Does the request change the file it found? */
  predicate Changes(f: File, req: Request) {
    match req
    case Write(_, _) => true
    case WriteIfVersion(key, _, expected) => VersionOf(f, key) == expected
    case Clear(prefix) => MatchingKeys(f, prefix) != {}
  }

  function Effect(f: File, req: Request): File {
    match req
    case Write(key, value) => f[key := Entry(VersionOf(f, key) + 1, value)]
    case WriteIfVersion(key, value, _) => f[key := Entry(VersionOf(f, key) + 1, value)]
    case Clear(prefix) => f - MatchingKeys(f, prefix)
  }

  function AnswerTo(f: File, req: Request): Answer {
    match req
    case Write(key, _) => Version(VersionOf(f, key) + 1)
    case WriteIfVersion(key, _, expected) =>
      if VersionOf(f, key) == expected then Version(expected + 1) else Mismatch(VersionOf(f, key))
    case Clear(prefix) => Removed(|MatchingKeys(f, prefix)|)
  }

  // ---------- one process at a time: the methods ----------

  class JsonStore {
    var file: File

    constructor ()
      ensures file == map[]
    {
      file := map[];
    }

    method Read(key: Key) returns (entry: Option<Entry>)
      ensures entry == if key in file then Some(file[key]) else None
    {
      if key !in file {
        return None;
      }
      return Some(file[key]);
    }

    method WriteKey(key: Key, value: string) returns (answer: Answer)
      modifies this
      ensures answer == AnswerTo(old(file), Write(key, value))
      ensures file == Effect(old(file), Write(key, value))
      ensures answer == Version(if key in old(file) then old(file)[key].v + 1 else 1)
      ensures file == old(file)[key := Entry(answer.v, value)]
    {
      var v := if key in file then file[key].v else 0;
      file := file[key := Entry(v + 1, value)];
      return Version(v + 1);
    }

    method WriteKeyIfVersion(key: Key, value: string, expected: nat) returns (answer: Answer)
      modifies this
      ensures var req := WriteIfVersion(key, value, expected);
        && answer == AnswerTo(old(file), req)
        && file == if Changes(old(file), req) then Effect(old(file), req) else old(file)
      ensures var current := if key in old(file) then old(file)[key].v else 0;
        if current == expected then
          answer == Version(expected + 1) && file == old(file)[key := Entry(expected + 1, value)]
        else answer == Mismatch(current) && file == old(file)
    {
      var current := if key in file then file[key].v else 0;
      if current != expected {
        return Mismatch(current);
      }
      file := file[key := Entry(current + 1, value)];
      return Version(current + 1);
    }

    method ClearPrefix(prefix: string) returns (answer: Answer)
      modifies this
      ensures answer == AnswerTo(old(file), Clear(prefix))
      ensures file == Effect(old(file), Clear(prefix))
      ensures forall k :: k in file <==> k in old(file) && !(prefix <= k.text)
      ensures forall k :: k in file ==> file[k] == old(file)[k]
      ensures answer == Removed(|old(file)| - |file|)
    {
      ClearDoes(file, prefix);
      var entries, removed := Sweep(prefix);
      if removed == 0 {
        return Removed(0);
      }
      file := entries;
      return Removed(removed);
    }

    /** The loop over the entries: what remains without the prefix, and how many go. */
    method Sweep(prefix: string) returns (entries: File, removed: nat)
      ensures entries == file - MatchingKeys(file, prefix)
      ensures removed == |MatchingKeys(file, prefix)|
    {
      entries, removed := file, 0;
      var rest := file.Keys;
      ghost var gone := MatchingKeys(file, prefix);
      assert gone - rest == {} && file - {} == file;
      while rest != {}
        invariant rest <= file.Keys
        invariant removed == |gone - rest| && entries == file - (gone - rest)
        decreases rest
      {
        var k :| k in rest;
        DeleteOne(file, gone, rest, k);
        rest := rest - {k};
        if prefix <= k.text {
          entries := entries - {k};
          removed := removed + 1;
        }
      }
      assert gone - rest == gone;
    }
  }

  lemma KeysGone(f: File, gone: set<Key>)
    requires gone <= f.Keys
    ensures |f - gone| == |f| - |gone|
  {
    assert (f - gone).Keys == f.Keys - gone;
    assert |f - gone| == |(f - gone).Keys| && |f| == |f.Keys|;
  }

  lemma ClearDoes(f: File, prefix: string)
    ensures var f' := f - MatchingKeys(f, prefix);
      && Effect(f, Clear(prefix)) == f' && AnswerTo(f, Clear(prefix)) == Removed(|MatchingKeys(f, prefix)|)
      && |MatchingKeys(f, prefix)| == |f| - |f'|
      && (|MatchingKeys(f, prefix)| == 0 ==> f' == f)
      && (forall k :: k in f' <==> k in f && !(prefix <= k.text))
      && forall k :: k in f' ==> f'[k] == f[k]
  {
    var gone := MatchingKeys(f, prefix);
    KeysGone(f, gone);
    assert forall k :: k in gone <==> k in f && prefix <= k.text;
    if |gone| == 0 {
      assert gone == {};
      assert f - gone == f;
    }
  }

  /** What each request does to the file and answers, in terms of the entries themselves. */
  lemma RequestsDo(f: File, req: Request)
    ensures req.Write? ==>
      var v := if req.key in f then f[req.key].v + 1 else 1;
      && Changes(f, req) && Effect(f, req) == f[req.key := Entry(v, req.value)] && AnswerTo(f, req) == Version(v)
    ensures req.WriteIfVersion? ==>
      var current := if req.key in f then f[req.key].v else 0;
      && (Changes(f, req) <==> current == req.expected)
      && (current == req.expected ==>
            && Effect(f, req) == f[req.key := Entry(req.expected + 1, req.value)]
            && AnswerTo(f, req) == Version(req.expected + 1))
      && (current != req.expected ==> AnswerTo(f, req) == Mismatch(current))
    ensures req.Clear? ==>
      && (forall k :: k in Effect(f, req) <==> k in f && !(req.prefix <= k.text))
      && (forall k :: k in Effect(f, req) ==> Effect(f, req)[k] == f[k])
      && AnswerTo(f, req) == Removed(|f| - |Effect(f, req)|)
      && (Changes(f, req) <==> exists k :: k in f && req.prefix <= k.text)
  {
    if req.Clear? {
      ClearDoes(f, req.prefix);
      assert forall k :: k in MatchingKeys(f, req.prefix) <==> k in f && req.prefix <= k.text;
    }
  }

  lemma DeleteOne(f: File, gone: set<Key>, rest: set<Key>, k: Key)
    requires k in rest
    ensures k in gone ==> |gone - (rest - {k})| == |gone - rest| + 1
    ensures k in gone ==> f - (gone - (rest - {k})) == f - (gone - rest) - {k}
    ensures k !in gone ==> gone - (rest - {k}) == gone - rest
  {
    if k in gone {
      assert gone - (rest - {k}) == (gone - rest) + {k};
    } else {
      assert gone - (rest - {k}) == gone - rest;
    }
  }

  // ---------- many processes ----------

  /** What the shared temporary file holds: nothing, an unfinished write, or a whole file. */
  datatype Tmp = NoTmp | Torn | Whole(file: File)

  datatype Phase =
    | Idle
    | Waiting(req: Request)
    | Locked(req: Request)
    | Loaded(req: Request, found: File)
    | Staging(req: Request, found: File)
    | Staged(req: Request, found: File)
    | Renamed(req: Request, answer: Answer, at: nat)

  /** `log` lists the requests that changed the file, in rename order; a reply remembers
      which entry of the log it reports, if any. */
  datatype Reply = Reply(req: Request, answer: Answer, position: Option<nat>)

  datatype World = World(
    file: File, tmp: Tmp, lock: Option<nat>, procs: map<nat, Phase>, log: seq<Request>, replies: seq<Reply>)

  const START := World(map[], NoTmp, None, map[], [], [])

  function PhaseOf(w: World, p: nat): Phase {
    if p in w.procs then w.procs[p] else Idle
  }

  function Moved(w: World, p: nat, phase: Phase): World {
    w.(procs := w.procs[p := phase])
  }

  function Released(w: World, p: nat, reply: Reply): World {
    Moved(w, p, Idle).(lock := None, replies := w.replies + [reply])
  }

  datatype Step =
    | Call(p: nat, req: Request)
    | Acquire(p: nat)
    | GiveUp(p: nat)
    | Load(p: nat)
    | Refuse(p: nat)
    | BeginTmp(p: nat)
    | EndTmp(p: nat)
    | Rename(p: nat)
    | Return(p: nat)
    | Crash(p: nat)

  /** One step of one process; a step that is not possible changes nothing. */
  function Next(w: World, step: Step): World {
    var p := step.p;
    match (step, PhaseOf(w, p))
    case (Call(_, req), Idle) => Moved(w, p, Waiting(req))
    case (Acquire(_), Waiting(req)) =>
      if w.lock == None then Moved(w, p, Locked(req)).(lock := Some(p)) else w
    case (GiveUp(_), Waiting(req)) => Moved(w, p, Idle).(replies := w.replies + [Reply(req, Busy, None)])
    case (Load(_), Locked(req)) => Moved(w, p, Loaded(req, w.file))
    case (Refuse(_), Loaded(req, found)) =>
      if Changes(found, req) then w else Released(w, p, Reply(req, AnswerTo(found, req), None))
    case (BeginTmp(_), Loaded(req, found)) =>
      if Changes(found, req) then Moved(w, p, Staging(req, found)).(tmp := Torn) else w
    case (EndTmp(_), Staging(req, found)) => Moved(w, p, Staged(req, found)).(tmp := Whole(Effect(found, req)))
    case (Rename(_), Staged(req, found)) =>
      if w.tmp.Whole? then
        Moved(w, p, Renamed(req, AnswerTo(found, req), |w.log|)).(
          file := w.tmp.file, tmp := NoTmp, log := w.log + [req])
      else w
    case (Return(_), Renamed(req, answer, at)) => Released(w, p, Reply(req, answer, Some(at)))
    case (Crash(_), _) => Moved(w, p, Idle).(lock := if w.lock == Some(p) then None else w.lock)
    case _ => w
  }

  function After(w: World, steps: seq<Step>): World {
    if steps == [] then w else Next(After(w, steps[..|steps| - 1]), steps[|steps| - 1])
  }

  function Run(steps: seq<Step>): World {
    After(START, steps)
  }

  // ---------- the reference: the log alone ----------

  function AppliedTo(f: File, log: seq<Request>): File {
    if log == [] then f else Effect(AppliedTo(f, log[..|log| - 1]), log[|log| - 1])
  }

  function Applied(log: seq<Request>): File {
    AppliedTo(map[], log)
  }

  predicate WritesTo(req: Request, key: Key) {
    (req.Write? || req.WriteIfVersion?) && req.key == key
  }

  /** The part of the log after the last Clear that covers the key. */
  function SinceClear(log: seq<Request>, key: Key): seq<Request> {
    if log == [] then []
    else
      var last := log[|log| - 1];
      if last.Clear? && Matches(last.prefix, key) then []
      else SinceClear(log[..|log| - 1], key) + [last]
  }

  function CountWrites(log: seq<Request>, key: Key): nat {
    if log == [] then 0
    else CountWrites(log[..|log| - 1], key) + if WritesTo(log[|log| - 1], key) then 1 else 0
  }

  /** A key's version in the file is the number of writes to it since it was last cleared. */
  lemma {:induction false} VersionCountsWrites(log: seq<Request>, key: Key)
    ensures VersionOf(Applied(log), key) == CountWrites(SinceClear(log, key), key)
  {
    if log != [] {
      var front, last := log[..|log| - 1], log[|log| - 1];
      VersionCountsWrites(front, key);
      if !Covers(last, key) {
        assert SinceClear(log, key)[..|SinceClear(log, key)| - 1] == SinceClear(front, key);
      }
    }
  }

  /** The value written last, unless the key was cleared after that. */
  function LastWritten(log: seq<Request>, key: Key): Option<string> {
    if log == [] then None
    else
      var last := log[|log| - 1];
      if WritesTo(last, key) then Some(last.value)
      else if Covers(last, key) then None
      else LastWritten(log[..|log| - 1], key)
  }

  predicate Covers(req: Request, key: Key) {
    req.Clear? && Matches(req.prefix, key)
  }

  /** A reader finds exactly the value written last, and nothing after a clear. */
  lemma {:induction false} FileHoldsLastWritten(log: seq<Request>, key: Key)
    ensures key in Applied(log) <==> LastWritten(log, key).Some?
    ensures key in Applied(log) ==> Some(Applied(log)[key].value) == LastWritten(log, key)
  {
    if log != [] {
      FileHoldsLastWritten(log[..|log| - 1], key);
    }
  }

  predicate JustifiedAt(log: seq<Request>, i: nat)
    requires i < |log|
  {
    Changes(Applied(log[..i]), log[i])
  }

  /** Every conditional write in the log found the version it expected. */
  predicate Justified(log: seq<Request>) {
    forall i :: 0 <= i < |log| ==> JustifiedAt(log, i)
  }

  // ---------- the invariant ----------

  predicate InLock(phase: Phase) {
    !phase.Idle? && !phase.Waiting?
  }

  ghost predicate PhaseFits(w: World, p: nat) {
    match PhaseOf(w, p)
    case Loaded(_, found) => found == w.file
    case Staging(req, found) => found == w.file && Changes(found, req)
    case Staged(req, found) => found == w.file && Changes(found, req) && w.tmp == Whole(Effect(found, req))
    case Renamed(req, answer, at) => Truthful(Reply(req, answer, Some(at)), w.log)
    case _ => true
  }

  /** The request would have changed nothing after the first i commits, and this answers it. */
  predicate RefusedAt(req: Request, answer: Answer, log: seq<Request>, i: nat) {
    i <= |log| && !Changes(Applied(log[..i]), req) && answer == AnswerTo(Applied(log[..i]), req)
  }

  /** A successful reply reports the log entry it stands for, answered on the state before it;
      any other says that the lock was busy, or what was true after some commit. */
  ghost predicate Truthful(r: Reply, log: seq<Request>) {
    match r.position
    case Some(i) => i < |log| && log[i] == r.req && r.answer == AnswerTo(Applied(log[..i]), r.req)
    case None => r.answer == Busy || exists i: nat :: RefusedAt(r.req, r.answer, log, i)
  }

  ghost predicate Invariant(w: World) {
    && w.file == Applied(w.log)
    && Justified(w.log)
    && (forall p: nat :: InLock(PhaseOf(w, p)) <==> w.lock == Some(p))
    && (forall p: nat :: PhaseFits(w, p))
    && (forall i :: 0 <= i < |w.replies| ==> Truthful(w.replies[i], w.log))
    && (forall i, j :: 0 <= i < j < |w.replies| && w.replies[i].position.Some? ==>
          w.replies[i].position != w.replies[j].position)
    && (forall p: nat, i :: PhaseOf(w, p).Renamed? && 0 <= i < |w.replies| ==>
          w.replies[i].position != Some(PhaseOf(w, p).at))
  }

  lemma TruthfulLater(r: Reply, log: seq<Request>, req: Request)
    requires Truthful(r, log)
    ensures Truthful(r, log + [req])
  {
    if r.position.Some? {
      assert (log + [req])[..r.position.value] == log[..r.position.value];
    } else if r.answer != Busy {
      var i: nat :| RefusedAt(r.req, r.answer, log, i);
      assert (log + [req])[..i] == log[..i];
      assert RefusedAt(r.req, r.answer, log + [req], i);
    }
  }

  lemma AppliedLonger(log: seq<Request>, req: Request)
    ensures Applied(log + [req]) == Effect(Applied(log), req)
  {
    assert (log + [req])[..|log|] == log;
  }

  /** What entry i found does not depend on later entries. */
  lemma JustifiedAtLonger(log: seq<Request>, req: Request, i: nat)
    requires i < |log| && JustifiedAt(log, i)
    ensures JustifiedAt(log + [req], i)
  {
    assert (log + [req])[..i] == log[..i];
  }

  lemma JustifiedLonger(log: seq<Request>, req: Request)
    requires Justified(log) && Changes(Applied(log), req)
    ensures Justified(log + [req])
  {
    forall i | 0 <= i < |log + [req]| ensures JustifiedAt(log + [req], i) {
      if i < |log| {
        JustifiedAtLonger(log, req, i);
      } else {
        assert (log + [req])[..i] == log;
      }
    }
  }

  lemma LastIsTruthful(log: seq<Request>, req: Request)
    ensures Truthful(Reply(req, AnswerTo(Applied(log), req), Some(|log|)), log + [req])
  {
    assert (log + [req])[..|log|] == log;
  }

  /** The rename is the one step that changes the file, and it does so under the lock. */
  lemma RenameKeepsInvariant(w: World, p: nat)
    requires Invariant(w) && PhaseOf(w, p).Staged?
    ensures Invariant(Next(w, Rename(p)))
  {
    var req, w' := PhaseOf(w, p).req, Next(w, Rename(p));
    assert PhaseFits(w, p) && InLock(PhaseOf(w, p));
    assert w' == Published(w, p, req);
    JustifiedLonger(w.log, req);
    AppliedLonger(w.log, req);
    forall q: nat ensures PhaseFits(w', q) && (InLock(PhaseOf(w', q)) <==> w'.lock == Some(q)) {
      RenameKeepsPhase(w, p, q);
    }
    RenameKeepsReplies(w, p);
  }

  /** The world after the rename of a staged request. */
  function Published(w: World, p: nat, req: Request): World {
    Moved(w, p, Renamed(req, AnswerTo(w.file, req), |w.log|)).(
      file := Effect(w.file, req), tmp := NoTmp, log := w.log + [req])
  }

  lemma RenameKeepsPhase(w: World, p: nat, q: nat)
    requires Invariant(w) && PhaseOf(w, p).Staged?
    ensures var w' := Published(w, p, PhaseOf(w, p).req);
      PhaseFits(w', q) && (InLock(PhaseOf(w', q)) <==> w'.lock == Some(q))
  {
    assert PhaseFits(w, p) && InLock(PhaseOf(w, p));
    assert InLock(PhaseOf(w, q)) <==> w.lock == Some(q);
    if q == p {
      LastIsTruthful(w.log, PhaseOf(w, p).req);
    } else {
      assert PhaseOf(Published(w, p, PhaseOf(w, p).req), q) == PhaseOf(w, q);
    }
  }

  lemma RenameKeepsReplies(w: World, p: nat)
    requires Invariant(w) && PhaseOf(w, p).Staged?
    ensures var w' := Published(w, p, PhaseOf(w, p).req);
      && (forall i :: 0 <= i < |w'.replies| ==> Truthful(w'.replies[i], w'.log))
      && (forall q: nat, i :: PhaseOf(w', q).Renamed? && 0 <= i < |w'.replies| ==>
            w'.replies[i].position != Some(PhaseOf(w', q).at))
  {
    var req := PhaseOf(w, p).req;
    var w' := Published(w, p, req);
    forall i | 0 <= i < |w'.replies| ensures Truthful(w'.replies[i], w'.log) {
      TruthfulLater(w.replies[i], w.log, req);
    }
    forall q: nat, i | PhaseOf(w', q).Renamed? && 0 <= i < |w'.replies|
      ensures w'.replies[i].position != Some(PhaseOf(w', q).at)
    {
      assert Truthful(w.replies[i], w.log);
      if q != p {
        assert PhaseOf(w', q) == PhaseOf(w, q);
      }
    }
  }

  lemma RefusalIsTruthful(req: Request, log: seq<Request>)
    requires !Changes(Applied(log), req)
    ensures Truthful(Reply(req, AnswerTo(Applied(log), req), None), log)
  {
    assert log[..|log|] == log;
    assert RefusedAt(req, AnswerTo(Applied(log), req), log, |log|);
  }

  /** A step that neither renames nor replies moves one process between phases. */
  lemma QuietStepKeepsInvariant(w: World, step: Step)
    requires Invariant(w)
    requires !step.Rename? && Next(w, step).replies == w.replies
    ensures Invariant(Next(w, step))
  {
    var w', p := Next(w, step), step.p;
    assert PhaseFits(w, p) && (InLock(PhaseOf(w, p)) <==> w.lock == Some(p));
    forall q: nat ensures PhaseFits(w', q) && (InLock(PhaseOf(w', q)) <==> w'.lock == Some(q)) {
      assert PhaseFits(w, q) && (InLock(PhaseOf(w, q)) <==> w.lock == Some(q));
    }
    forall q: nat, i | PhaseOf(w', q).Renamed? && 0 <= i < |w'.replies|
      ensures w'.replies[i].position != Some(PhaseOf(w', q).at)
    {
      assert PhaseOf(w', q) == PhaseOf(w, q);
    }
  }

  /** A reply frees whatever its process held; what it says is true and new. */
  lemma ReplyKeepsInvariant(w: World, p: nat, reply: Reply)
    requires Invariant(w) && Truthful(reply, w.log)
    requires reply.position.Some? ==> PhaseOf(w, p).Renamed? && reply.position == Some(PhaseOf(w, p).at)
    ensures InLock(PhaseOf(w, p)) ==> Invariant(Released(w, p, reply))
    ensures PhaseOf(w, p).Waiting? ==> Invariant(Moved(w, p, Idle).(replies := w.replies + [reply]))
  {
    var w' := if InLock(PhaseOf(w, p)) then Released(w, p, reply)
      else Moved(w, p, Idle).(replies := w.replies + [reply]);
    assert InLock(PhaseOf(w, p)) <==> w.lock == Some(p);
    forall q: nat ensures PhaseFits(w', q) && (InLock(PhaseOf(w', q)) ==> InLock(PhaseOf(w, q))) {
      assert PhaseFits(w, q);
    }
    forall q: nat ensures q != p ==> (InLock(PhaseOf(w', q)) <==> w'.lock == Some(q)) {
      assert InLock(PhaseOf(w, q)) <==> w.lock == Some(q);
    }
    forall q: nat, i | PhaseOf(w', q).Renamed? && 0 <= i < |w'.replies|
      ensures w'.replies[i].position != Some(PhaseOf(w', q).at)
    {
      assert q != p && PhaseOf(w', q) == PhaseOf(w, q);
      assert InLock(PhaseOf(w, q)) <==> w.lock == Some(q);
    }
  }

  lemma StepKeepsInvariant(w: World, step: Step)
    requires Invariant(w)
    ensures Invariant(Next(w, step))
  {
    var p := step.p;
    assert PhaseFits(w, p);
    match (step, PhaseOf(w, p)) {
      case (Rename(_), Staged(_, _)) => RenameKeepsInvariant(w, p);
      case (GiveUp(_), Waiting(req)) => ReplyKeepsInvariant(w, p, Reply(req, Busy, None));
      case (Refuse(_), Loaded(req, found)) =>
        if !Changes(found, req) {
          RefusalIsTruthful(req, w.log);
          ReplyKeepsInvariant(w, p, Reply(req, AnswerTo(found, req), None));
        }
      case (Return(_), Renamed(req, answer, at)) => ReplyKeepsInvariant(w, p, Reply(req, answer, Some(at)));
      case _ =>
        if !step.Rename? {
          QuietStepKeepsInvariant(w, step);
        }
    }
  }

  lemma {:induction false} EveryRunKeepsInvariant(steps: seq<Step>)
    ensures Invariant(Run(steps))
  {
    if steps != [] {
      EveryRunKeepsInvariant(steps[..|steps| - 1]);
      StepKeepsInvariant(Run(steps[..|steps| - 1]), steps[|steps| - 1]);
    }
  }

  /** A call's own steps when nothing gets in between. */
  function CallSteps(f: File, p: nat, req: Request): seq<Step> {
    if Changes(f, req) then [Call(p, req), Acquire(p), Load(p), BeginTmp(p), EndTmp(p), Rename(p), Return(p)]
    else [Call(p, req), Acquire(p), Load(p), Refuse(p)]
  }

  /** An undisturbed call on a free lock does what the method does: same file, same answer. */
  lemma UndisturbedCall(w: World, p: nat, req: Request)
    requires w.lock == None && PhaseOf(w, p).Idle?
    ensures var w' := After(w, CallSteps(w.file, p, req));
      && w'.file == (if Changes(w.file, req) then Effect(w.file, req) else w.file)
      && w'.lock == None && PhaseOf(w', p).Idle?
      && |w'.replies| == |w.replies| + 1 && w'.replies[|w.replies|].answer == AnswerTo(w.file, req)
  {
    var steps := CallSteps(w.file, p, req);
    var loaded := Next(Next(Next(w, Call(p, req)), Acquire(p)), Load(p));
    AfterThree(w, steps);
    LocksAndLoads(w, p, req);
    if Changes(w.file, req) {
      Committed(loaded, p);
      assert steps[3..] == [BeginTmp(p), EndTmp(p), Rename(p), Return(p)];
    } else {
      AfterFirst(loaded, [Refuse(p)]);
      assert steps[3..] == [Refuse(p)];
    }
  }

  lemma LocksAndLoads(w: World, p: nat, req: Request)
    requires w.lock == None && PhaseOf(w, p).Idle?
    ensures var loaded := Next(Next(Next(w, Call(p, req)), Acquire(p)), Load(p));
      PhaseOf(loaded, p) == Loaded(req, w.file) && loaded.file == w.file && loaded.replies == w.replies
  {
    var waiting := Next(w, Call(p, req));
    assert waiting == Moved(w, p, Waiting(req));
    var locked := Next(waiting, Acquire(p));
    assert locked == Moved(waiting, p, Locked(req)).(lock := Some(p));
  }

  lemma Committed(w: World, p: nat)
    requires PhaseOf(w, p).Loaded? && Changes(w.file, PhaseOf(w, p).req) && PhaseOf(w, p).found == w.file
    ensures var w', req := After(w, [BeginTmp(p), EndTmp(p), Rename(p), Return(p)]), PhaseOf(w, p).req;
      && w'.file == Effect(w.file, req) && w'.lock == None && PhaseOf(w', p).Idle?
      && w'.replies == w.replies + [Reply(req, AnswerTo(w.file, req), Some(|w.log|))]
  {
    var steps := [BeginTmp(p), EndTmp(p), Rename(p), Return(p)];
    AfterFirst(w, steps);
    AfterFirst(Next(w, steps[0]), steps[1..]);
    assert steps[1..][1..] == [Rename(p), Return(p)];
    TmpIsWritten(w, p);
    RenameAndReturn(Next(Next(w, BeginTmp(p)), EndTmp(p)), p);
  }

  lemma TmpIsWritten(w: World, p: nat)
    requires PhaseOf(w, p).Loaded? && Changes(w.file, PhaseOf(w, p).req) && PhaseOf(w, p).found == w.file
    ensures var w', req := Next(Next(w, BeginTmp(p)), EndTmp(p)), PhaseOf(w, p).req;
      && PhaseOf(w', p) == Staged(req, w.file) && w'.tmp == Whole(Effect(w.file, req))
      && w'.file == w.file && w'.log == w.log && w'.replies == w.replies
  {
  }

  lemma RenameAndReturn(w: World, p: nat)
    requires PhaseOf(w, p).Staged? && PhaseOf(w, p).found == w.file
    requires w.tmp == Whole(Effect(w.file, PhaseOf(w, p).req))
    ensures var w', req := After(w, [Rename(p), Return(p)]), PhaseOf(w, p).req;
      && w'.file == Effect(w.file, req) && w'.lock == None && PhaseOf(w', p).Idle?
      && w'.replies == w.replies + [Reply(req, AnswerTo(w.file, req), Some(|w.log|))]
  {
    var req := PhaseOf(w, p).req;
    var renamed := Next(w, Rename(p));
    assert renamed == Published(w, p, req);
    assert Next(renamed, Return(p)) ==
      Released(renamed, p, Reply(req, AnswerTo(w.file, req), Some(|w.log|)));
    AfterFirst(w, [Rename(p), Return(p)]);
    assert [Rename(p), Return(p)][1..] == [Return(p)];
    AfterFirst(renamed, [Return(p)]);
    assert [Return(p)][1..] == [];
  }

  lemma {:induction false} AfterFirst(w: World, steps: seq<Step>)
    requires steps != []
    ensures After(w, steps) == After(Next(w, steps[0]), steps[1..])
    decreases |steps|
  {
    if |steps| > 1 {
      AfterFirst(w, steps[..|steps| - 1]);
      assert steps[1..][..|steps| - 2] == steps[..|steps| - 1][1..];
    }
  }

  lemma AfterThree(w: World, steps: seq<Step>)
    requires |steps| >= 3
    ensures After(w, steps) == After(Next(Next(Next(w, steps[0]), steps[1]), steps[2]), steps[3..])
  {
    AfterFirst(w, steps);
    AfterFirst(Next(w, steps[0]), steps[1..]);
    AfterFirst(Next(Next(w, steps[0]), steps[1]), steps[2..]);
    assert steps[1..][1..] == steps[2..] && steps[2..][1..] == steps[3..];
  }

  // ---------- what the protocol guarantees ----------

  /** In every interleaving, timeouts and crashes included, the file is the committed
      requests applied in rename order: a key holds the value committed last, and its version
      is its number of writes since it was last cleared. */
  lemma FileIsTheLog(steps: seq<Step>, key: Key)
    ensures Run(steps).file == Applied(Run(steps).log)
    ensures var f := Run(steps).file;
      (if key in f then Some(f[key].value) else None) == LastWritten(Run(steps).log, key)
    ensures VersionOf(Run(steps).file, key) == CountWrites(SinceClear(Run(steps).log, key), key)
  {
    EveryRunKeepsInvariant(steps);
    FileHoldsLastWritten(Run(steps).log, key);
    VersionCountsWrites(Run(steps).log, key);
  }

  /** Whatever was committed at some point of a run stays committed, in the same order: the
      file later on is the earlier file with the later commits applied to it. */
  lemma {:induction false} NothingCommittedIsLost(steps: seq<Step>, p: nat)
    requires p <= |steps|
    ensures Run(steps[..p]).log <= Run(steps).log
    ensures Run(steps).file == AppliedTo(Run(steps[..p]).file, Run(steps).log[|Run(steps[..p]).log|..])
  {
    LogGrows(steps, p);
    EveryRunKeepsInvariant(steps);
    EveryRunKeepsInvariant(steps[..p]);
    var early, late := Run(steps[..p]).log, Run(steps).log;
    assert early + late[|early|..] == late;
    AppliedInParts(early, late[|early|..]);
  }

  lemma {:induction false} AppliedInParts(early: seq<Request>, late: seq<Request>)
    ensures Applied(early + late) == AppliedTo(Applied(early), late)
  {
    if late == [] {
      assert early + late == early;
    } else {
      AppliedInParts(early, late[..|late| - 1]);
      AppliedLonger(early + late[..|late| - 1], late[|late| - 1]);
      assert early + late[..|late| - 1] + [late[|late| - 1]] == early + late;
    }
  }

  lemma {:induction false} LogGrows(steps: seq<Step>, p: nat)
    requires p <= |steps|
    ensures Run(steps[..p]).log <= Run(steps).log
    decreases |steps|
  {
    if p == |steps| {
      assert steps[..p] == steps;
    } else {
      assert steps[..|steps| - 1][..p] == steps[..p];
      LogGrows(steps[..|steps| - 1], p);
    }
  }

  /** A returned version n means that the write was the key's n-th since its last Clear. */
  lemma ReturnedVersionCounts(steps: seq<Step>, i: nat)
    requires i < |Run(steps).replies| && Run(steps).replies[i].answer.Version?
    ensures var w := Run(steps); var r := w.replies[i];
      && r.position.Some? && r.position.value < |w.log| && w.log[r.position.value] == r.req
      && !r.req.Clear?
      && r.answer.v == CountWrites(SinceClear(w.log[..r.position.value + 1], r.req.key), r.req.key)
  {
    EveryRunKeepsInvariant(steps);
    var w := Run(steps);
    TruthfulVersionCounts(w.replies[i], w.log);
  }

  lemma TruthfulVersionCounts(r: Reply, log: seq<Request>)
    requires Justified(log) && Truthful(r, log) && r.answer.Version?
    ensures r.position.Some? && r.position.value < |log| && log[r.position.value] == r.req && !r.req.Clear?
    ensures r.answer.v == CountWrites(SinceClear(log[..r.position.value + 1], r.req.key), r.req.key)
  {
    var at := r.position.value;
    assert JustifiedAt(log, at);
    assert log[..at + 1][..at] == log[..at];
    VersionCountsWrites(log[..at + 1], r.req.key);
  }

  lemma {:induction false} LateCommitsComeLater(w: World, steps: seq<Step>, proc: nat)
    requires PhaseOf(w, proc).Idle?
    ensures var w' := After(w, steps);
      w.log <= w'.log && w.replies <= w'.replies && (PhaseOf(w', proc).Renamed? ==> PhaseOf(w', proc).at >= |w.log|)
  {
    if steps != [] {
      LateCommitsComeLater(w, steps[..|steps| - 1], proc);
    }
  }

  lemma {:induction false} RunInParts(w: World, a: seq<Step>, b: seq<Step>)
    ensures After(w, a + b) == After(After(w, a), b)
  {
    if b == [] {
      assert a + b == a;
    } else {
      RunInParts(w, a, b[..|b| - 1]);
      assert (a + b)[..|a + b| - 1] == a + b[..|b| - 1];
    }
  }

  /** Real-time order: a write acknowledged before another call begins is committed before
      whatever that call commits. The call is one of a process that is idle at that point,
      and it has renamed when it is about to return. */
  lemma RealTimeOrder(before: seq<Step>, later: seq<Step>, proc: nat, i: nat)
    requires PhaseOf(Run(before), proc).Idle? && i < |Run(before).replies|
    requires Run(before).replies[i].position.Some? && PhaseOf(Run(before + later), proc).Renamed?
    ensures var early, late := Run(before), Run(before + later);
      && i < |late.replies| && late.replies[i] == early.replies[i]
      && early.replies[i].position.value < PhaseOf(late, proc).at
  {
    RunInParts(START, before, later);
    LateCommitsComeLater(Run(before), later, proc);
    EveryRunKeepsInvariant(before);
    assert Truthful(Run(before).replies[i], Run(before).log);
  }

  /** The lock is never lost with its holder: whoever holds it is inside the protocol, a crash
      anywhere there frees it without touching file or commits, and the next waiting process
      can take it. A process that gives up waiting is told that the lock was busy. */
  lemma LockSurvivesCrashes(steps: seq<Step>, p: nat, q: nat)
    requires p != q
    ensures Run(steps).lock == Some(p) ==>
      var w := Run(steps + [Crash(p)]);
      && InLock(PhaseOf(Run(steps), p)) && w.lock == None && PhaseOf(w, p).Idle?
      && w.file == Run(steps).file && w.log == Run(steps).log && w.replies == Run(steps).replies
      && (PhaseOf(w, q).Waiting? ==> Run(steps + [Crash(p)] + [Acquire(q)]).lock == Some(q))
    ensures PhaseOf(Run(steps), p).Waiting? ==>
      var w, was := Run(steps + [GiveUp(p)]), Run(steps);
      && PhaseOf(w, p).Idle? && w.replies == was.replies + [Reply(PhaseOf(was, p).req, Busy, None)]
      && w.file == was.file && w.log == was.log && w.lock == was.lock
  {
    EveryRunKeepsInvariant(steps);
    OneMoreStep(steps, Crash(p));
    OneMoreStep(steps + [Crash(p)], Acquire(q));
    OneMoreStep(steps, GiveUp(p));
  }

  lemma OneMoreStep(steps: seq<Step>, step: Step)
    ensures Run(steps + [step]) == Next(Run(steps), step)
  {
    assert (steps + [step])[..|steps|] == steps;
  }

  lemma CommitIsNoMismatch(r: Reply, log: seq<Request>)
    requires Justified(log) && Truthful(r, log) && r.position.Some?
    ensures !r.answer.Mismatch?
  {
    assert JustifiedAt(log, r.position.value);
  }

  /** A mismatch is true: after some commit of the run the key had the reported version, and
      that was not the expected one. */
  lemma MismatchIsTrue(steps: seq<Step>, i: nat)
    requires i < |Run(steps).replies| && Run(steps).replies[i].answer.Mismatch?
    ensures var r, log := Run(steps).replies[i], Run(steps).log;
      && r.req.WriteIfVersion? && r.answer.current != r.req.expected
      && exists p: nat :: p <= |log| && VersionOf(Applied(log[..p]), r.req.key) == r.answer.current
  {
    EveryRunKeepsInvariant(steps);
    var r, log := Run(steps).replies[i], Run(steps).log;
    assert Truthful(r, log);
    if r.position.Some? {
      CommitIsNoMismatch(r, log);
    } else {
      var p: nat :| RefusedAt(r.req, r.answer, log, p);
      assert VersionOf(Applied(log[..p]), r.req.key) == r.answer.current;
    }
  }

  /** Two replies never report the same commit: every acknowledged write is its own entry. */
  lemma RepliesAreDistinctCommits(steps: seq<Step>, i: nat, j: nat)
    requires i < j < |Run(steps).replies|
    requires Run(steps).replies[i].answer.Version? && Run(steps).replies[j].answer.Version?
    ensures Run(steps).replies[i].position != Run(steps).replies[j].position
  {
    EveryRunKeepsInvariant(steps);
    assert Truthful(Run(steps).replies[i], Run(steps).log);
  }

  /** Without a Clear of the key in between, its version never goes back, and a write in
      between moves it forward. */
  lemma {:induction false} VersionsGrow(log: seq<Request>, key: Key, i: nat, j: nat)
    requires i <= j <= |log|
    requires forall k :: i <= k < j ==> !Covers(log[k], key)
    ensures VersionOf(Applied(log[..i]), key) <= VersionOf(Applied(log[..j]), key)
    ensures i < j && WritesTo(log[i], key) ==> VersionOf(Applied(log[..i]), key) < VersionOf(Applied(log[..j]), key)
    decreases j
  {
    if i < j {
      VersionsGrow(log, key, i, j - 1);
      assert log[..j][..j - 1] == log[..j - 1];
    }
  }

  /** Compare-and-set: between two Clears of a key at most one conditional write with a
      given expected version is ever committed. */
  lemma OneWinnerPerVersion(steps: seq<Step>, i: nat, j: nat, key: Key, expected: nat)
    requires i < j < |Run(steps).log|
    requires var log := Run(steps).log;
      && log[i].WriteIfVersion? && log[i].key == key && log[i].expected == expected
      && log[j].WriteIfVersion? && log[j].key == key && log[j].expected == expected
    ensures exists k :: i < k < j && Covers(Run(steps).log[k], key)
  {
    var log := Run(steps).log;
    if forall k :: i < k < j ==> !Covers(log[k], key) {
      EveryRunKeepsInvariant(steps);
      assert JustifiedAt(log, i) && JustifiedAt(log, j);
      VersionsGrow(log, key, i, j);
    }
  }
}
