/** The assumption made of the JSON codec can be met: an encoding in unary numbers is
    nonempty, free of line breaks and parses back. */
module CodecExists {
  import opened Graph
  import opened Transport

  // ---------- numbers to bytes ----------

  function Unary(n: nat): (b: seq<Byte>)
    ensures b != [] && b[|b| - 1] == 0 && NEWLINE !in b
  {
    if n == 0 then [0] else [1] + Unary(n - 1)
  }

  function Bytes(ns: seq<nat>): (b: seq<Byte>)
    ensures NEWLINE !in b
    ensures b == [] <==> ns == []
    ensures b != [] ==> b[|b| - 1] == 0
  {
    if ns == [] then [] else Unary(ns[0]) + Bytes(ns[1..])
  }

  lemma {:induction false} UnaryUnique(m: nat, n: nat, x: seq<Byte>, y: seq<Byte>)
    requires Unary(m) + x == Unary(n) + y
    ensures m == n && x == y
  {
    assert (Unary(m) + x)[0] == (Unary(n) + y)[0];
    if m == 0 || n == 0 {
      assert (Unary(m) + x)[1..] == x && (Unary(n) + y)[1..] == y;
    } else {
      assert (Unary(m) + x)[1..] == Unary(m - 1) + x && (Unary(n) + y)[1..] == Unary(n - 1) + y;
      UnaryUnique(m - 1, n - 1, x, y);
    }
  }

  lemma {:induction false} BytesUnique(ms: seq<nat>, ns: seq<nat>)
    requires Bytes(ms) == Bytes(ns)
    ensures ms == ns
  {
    if ms != [] && ns != [] {
      UnaryUnique(ms[0], ns[0], Bytes(ms[1..]), Bytes(ns[1..]));
      BytesUnique(ms[1..], ns[1..]);
      assert ms == [ms[0]] + ms[1..] && ns == [ns[0]] + ns[1..];
    }
  }

  // ---------- envelopes to numbers ----------

  function Whole(i: int): nat {
    if i >= 0 then 2 * i else -2 * i - 1
  }

  function Chars(s: string): seq<nat> {
    [|s|] + seq(|s|, i requires 0 <= i < |s| => s[i] as int)
  }

  function Content(s: seq<Byte>): seq<nat> {
    [|s|] + seq(|s|, i requires 0 <= i < |s| => s[i] as int)
  }

  function Ids(ids: seq<Id>): seq<nat> {
    if ids == [] then [0] else [1] + Chars(ids[0].name) + Ids(ids[1..])
  }

  function KindTag(k: Kind): nat {
    match k
    case TeamCreate => 0
    case TaskCreate => 1
    case TaskUpdate => 2
    case Message => 3
    case AgentDown => 4
    case Stalled => 5
    case OtherKind(_) => 6
  }

  function KindText(k: Kind): string {
    if k.OtherKind? then k.text else ""
  }

  function KindCode(k: Kind): seq<nat> {
    [KindTag(k)] + Chars(KindText(k))
  }

  function PayloadCode(p: Payload): seq<nat> {
    match p
    case TeamInfo(workers) => [0, Whole(workers)]
    case NewTask(id, deps, owner, createdAt) => [1, Whole(createdAt)] + (Chars(id.name) + (Chars(owner) + Ids(deps)))
    case NewStatus(task, text) => [2] + (Chars(task.name) + Chars(text))
    case Raw(content) => [3] + Content(content)
  }

  function Numbers(e: Envelope): seq<nat> {
    [Whole(e.v), e.seqNo, Whole(e.ts)] +
    (Chars(e.from) + (Chars(e.to) + (KindCode(e.kind) + PayloadCode(e.payload))))
  }

  lemma CharsUnique(s: string, t: string, x: seq<nat>, y: seq<nat>)
    requires Chars(s) + x == Chars(t) + y
    ensures s == t && x == y
  {
    var a, b := Chars(s) + x, Chars(t) + y;
    assert a[0] == |s| && b[0] == |t|;
    assert forall i :: 0 <= i < |s| ==> a[i + 1] == s[i] as int && b[i + 1] == t[i] as int;
    assert x == a[|s| + 1..] && y == b[|s| + 1..];
  }

  lemma ContentUnique(s: seq<Byte>, t: seq<Byte>)
    requires Content(s) == Content(t)
    ensures s == t
  {
    assert Content(s)[0] == |s| && Content(t)[0] == |t|;
    assert forall i :: 0 <= i < |s| ==> Content(s)[i + 1] == s[i] as int && Content(t)[i + 1] == t[i] as int;
  }

  lemma {:induction false} IdsUnique(a: seq<Id>, b: seq<Id>)
    requires Ids(a) == Ids(b)
    ensures a == b
  {
    assert Ids(a)[0] == Ids(b)[0];
    if a != [] {
      assert Ids(a)[1..] == Chars(a[0].name) + Ids(a[1..]) && Ids(b)[1..] == Chars(b[0].name) + Ids(b[1..]);
      CharsUnique(a[0].name, b[0].name, Ids(a[1..]), Ids(b[1..]));
      IdsUnique(a[1..], b[1..]);
      assert a == [a[0]] + a[1..] && b == [b[0]] + b[1..];
    }
  }

  lemma KindUnique(j: Kind, k: Kind, x: seq<nat>, y: seq<nat>)
    requires KindCode(j) + x == KindCode(k) + y
    ensures j == k && x == y
  {
    var a, b := KindCode(j) + x, KindCode(k) + y;
    assert a[0] == KindTag(j) && b[0] == KindTag(k);
    assert a[1..] == Chars(KindText(j)) + x && b[1..] == Chars(KindText(k)) + y;
    CharsUnique(KindText(j), KindText(k), x, y);
  }

  lemma PayloadUnique(p: Payload, q: Payload)
    requires PayloadCode(p) == PayloadCode(q)
    ensures p == q
  {
    var a, b := PayloadCode(p), PayloadCode(q);
    assert a[0] == b[0];
    match p
    case TeamInfo(_) => assert a[1] == b[1];
    case NewTask(id, deps, owner, _) =>
      assert a[1] == b[1];
      assert a[2..] == Chars(id.name) + (Chars(owner) + Ids(deps));
      assert b[2..] == Chars(q.id.name) + (Chars(q.owner) + Ids(q.dependsOn));
      CharsUnique(id.name, q.id.name, Chars(owner) + Ids(deps), Chars(q.owner) + Ids(q.dependsOn));
      CharsUnique(owner, q.owner, Ids(deps), Ids(q.dependsOn));
      IdsUnique(deps, q.dependsOn);
    case NewStatus(task, text) =>
      assert a[1..] == Chars(task.name) + Chars(text) && b[1..] == Chars(q.task.name) + Chars(q.text);
      CharsUnique(task.name, q.task.name, Chars(text), Chars(q.text));
      assert Chars(text) + [] == Chars(text) && Chars(q.text) + [] == Chars(q.text);
      CharsUnique(text, q.text, [], []);
    case Raw(content) =>
      assert a[1..] == Content(content) && b[1..] == Content(q.content);
      ContentUnique(content, q.content);
  }

  lemma NumbersUnique(d: Envelope, e: Envelope)
    requires Numbers(d) == Numbers(e)
    ensures d == e
  {
    var a, b := Numbers(d), Numbers(e);
    assert a[0] == b[0] && a[1] == b[1] && a[2] == b[2];
    var x, y := KindCode(d.kind) + PayloadCode(d.payload), KindCode(e.kind) + PayloadCode(e.payload);
    assert a[3..] == Chars(d.from) + (Chars(d.to) + x) && b[3..] == Chars(e.from) + (Chars(e.to) + y);
    CharsUnique(d.from, e.from, Chars(d.to) + x, Chars(e.to) + y);
    CharsUnique(d.to, e.to, x, y);
    KindUnique(d.kind, e.kind, PayloadCode(d.payload), PayloadCode(e.payload));
    PayloadUnique(d.payload, e.payload);
  }

  // ---------- the codec ----------

  ghost function Encode(e: Envelope): seq<Byte> {
    Bytes(Numbers(e))
  }

  ghost function Parse(line: seq<Byte>): Parsed {
    if exists e :: Encode(e) == line then
      var e :| Encode(e) == line;
      Parsed.Whole(e)
    else NotJson
  }

  /** One codec is faithful on every envelope at once. */
  lemma AFaithfulCodecExists() returns (codec: Codec)
    ensures forall e :: codec.FaithfulOn(e)
  {
    codec := Codec(Encode, Parse);
    forall e ensures codec.FaithfulOn(e) {
      var parsed := Parse(Encode(e));
      assert Encode(e) == Encode(e);
      assert parsed.Whole? && Encode(parsed.env) == Encode(e);
      BytesUnique(Numbers(parsed.env), Numbers(e));
      NumbersUnique(parsed.env, e);
    }
  }
}
