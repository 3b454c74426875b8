/** NDJSON framing: how envelopes become lines of bytes and lines become envelopes again. */
module Transport {
  import opened Wrappers
  import opened Graph

  newtype Byte = x: int | 0 <= x < 256

  const NEWLINE: Byte := 10
  const RETURN: Byte := 13

  /** What an envelope carries, as far as replay looks into it. */
  datatype Payload =
    | TeamInfo(workers: int)
    | NewTask(id: Id, dependsOn: seq<Id>, owner: string, createdAt: int)
    | NewStatus(task: Id, text: string)
    | Raw(content: seq<Byte>)

  datatype Kind = TeamCreate | TaskCreate | TaskUpdate | Message | AgentDown | Stalled | OtherKind(text: string)

  datatype Envelope =
    Envelope(v: int, seqNo: nat, from: string, to: string, kind: Kind, payload: Payload, ts: int)

  const ENVELOPE_VERSION := 1

  datatype DecodeError = Malformed | UnsupportedVersion(v: int) | EndOfInput

  /** What JSON parsing makes of a line: nothing, only a version, or a whole envelope. */
  datatype Parsed = NotJson | OnlyVersion(v: int) | Whole(env: Envelope)

  /** The JSON encoder and parser, of which only the following is used. */
  datatype Codec = Codec(enc: Envelope -> seq<Byte>, dec: seq<Byte> -> Parsed) {

    predicate FaithfulOn(e: Envelope) {
      && enc(e) != []
      && NEWLINE !in enc(e)
      && enc(e)[|enc(e)| - 1] != RETURN
      && dec(enc(e)) == Whole(e)
    }

    /** These encodings are nonempty, free of line breaks and parse back to what was encoded. */
    predicate FaithfulTo(envs: seq<Envelope>) {
      forall i :: 0 <= i < |envs| ==> FaithfulOn(envs[i])
    }

    function Line(e: Envelope): seq<Byte> {
      enc(e) + [NEWLINE]
    }

    /** The journal bytes of a list of envelopes. */
    function EncodeAll(envs: seq<Envelope>): seq<Byte> {
      if envs == [] then [] else EncodeAll(envs[..|envs| - 1]) + Line(envs[|envs| - 1])
    }

    /** Reading a journal line looks at the version before the rest of the envelope. */
    function DecodeLine(line: seq<Byte>): Result<Envelope, DecodeError> {
      match dec(line)
      case NotJson => Err(Malformed)
      case OnlyVersion(v) => if v != ENVELOPE_VERSION then Err(UnsupportedVersion(v)) else Err(Malformed)
      case Whole(e) => if e.v != ENVELOPE_VERSION then Err(UnsupportedVersion(e.v)) else Ok(e)
    }

    /** Receiving a line parses the whole envelope first. */
    function ReceiveLine(line: seq<Byte>): Result<Envelope, DecodeError> {
      match dec(line)
      case NotJson => Err(Malformed)
      case OnlyVersion(_) => Err(Malformed)
      case Whole(e) => if e.v != ENVELOPE_VERSION then Err(UnsupportedVersion(e.v)) else Ok(e)
    }

    /** All the envelopes of a list of lines, blank lines skipped, up to the first bad one. */
    function DecodeLines(lines: seq<seq<Byte>>): Result<seq<Envelope>, DecodeError> {
      if lines == [] then Ok([])
      else
        match DecodeLines(lines[..|lines| - 1])
        case Err(e) => Err(e)
        case Ok(envs) =>
          var last := lines[|lines| - 1];
          if last == [] then Ok(envs)
          else
            match DecodeLine(last)
            case Err(e) => Err(e)
            case Ok(env) => Ok(envs + [env])
    }

    function ReadAll(data: seq<Byte>): Result<seq<Envelope>, DecodeError> {
      DecodeLines(Lines(data))
    }
  }

  // ---------- line splitting ----------

  function FirstBreak(data: seq<Byte>): (i: nat)
    ensures i <= |data| && NEWLINE !in data[..i]
    ensures i < |data| ==> data[i] == NEWLINE
  {
    if data == [] || data[0] == NEWLINE then 0
    else
      var i := 1 + FirstBreak(data[1..]);
      assert data[..i] == [data[0]] + data[1..][..i - 1];
      i
  }

  function DropReturn(line: seq<Byte>): seq<Byte> {
    if line != [] && line[|line| - 1] == RETURN then line[..|line| - 1] else line
  }

  /** The tokens a line scanner yields; a last line without a newline counts. */
  function Lines(data: seq<Byte>): seq<seq<Byte>> {
    if data == [] then []
    else
      var i := FirstBreak(data);
      [DropReturn(data[..i])] + if i < |data| then Lines(data[i + 1..]) else []
  }

  /** The first break is the only place that can end the first line. */
  lemma {:induction false} FirstBreakIs(line: seq<Byte>, rest: seq<Byte>)
    requires NEWLINE !in line
    ensures FirstBreak(line + [NEWLINE] + rest) == |line|
    ensures FirstBreak(line) == |line|
  {
    if line != [] {
      FirstBreakIs(line[1..], rest);
      assert (line + [NEWLINE] + rest)[1..] == line[1..] + [NEWLINE] + rest;
    }
  }

  /** Lines of one terminated line followed by more data. */
  lemma LinesOfLine(line: seq<Byte>, rest: seq<Byte>)
    requires NEWLINE !in line
    ensures Lines(line + [NEWLINE] + rest) == [DropReturn(line)] + Lines(rest)
  {
    var data := line + [NEWLINE] + rest;
    FirstBreakIs(line, rest);
    assert data[..|line|] == line;
    assert data[|line| + 1..] == rest;
  }

  ghost predicate EndsLine(data: seq<Byte>) {
    data == [] || data[|data| - 1] == NEWLINE
  }

  lemma FirstLineEnds(a: seq<Byte>) returns (line: seq<Byte>, rest: seq<Byte>)
    requires EndsLine(a) && a != []
    ensures NEWLINE !in line && a == line + [NEWLINE] + rest
    ensures EndsLine(rest)
  {
    var i := FirstBreak(a);
    assert a[..|a|] == a;
    line, rest := a[..i], a[i + 1..];
  }

  /** Splitting distributes over concatenation at a line boundary. */
  lemma {:induction false} LinesConcat(a: seq<Byte>, b: seq<Byte>)
    requires EndsLine(a)
    ensures Lines(a + b) == Lines(a) + Lines(b)
    decreases |a|
  {
    if a == [] {
      assert a + b == b;
    } else {
      var line, rest := FirstLineEnds(a);
      assert a + b == line + [NEWLINE] + (rest + b);
      LinesOfLine(line, rest);
      LinesOfLine(line, rest + b);
      LinesConcat(rest, b);
      PrependConcat(DropReturn(line), Lines(rest), Lines(b));
    }
  }

  lemma PrependConcat<T>(x: T, a: seq<T>, b: seq<T>)
    ensures ([x] + a) + b == [x] + (a + b)
  {
  }

  lemma AppendConcat<T>(a: seq<T>, b: seq<T>, x: T)
    ensures a + (b + [x]) == (a + b) + [x]
  {
  }

  lemma EncodedEndsLine(codec: Codec, envs: seq<Envelope>)
    ensures EndsLine(codec.EncodeAll(envs))
  {
  }

  function Encodings(codec: Codec, envs: seq<Envelope>): seq<seq<Byte>> {
    if envs == [] then [] else Encodings(codec, envs[..|envs| - 1]) + [codec.enc(envs[|envs| - 1])]
  }

  /** Framing round trip: the lines of encoded envelopes are their encodings, in order. */
  lemma {:induction false} LinesOfEncoded(codec: Codec, envs: seq<Envelope>)
    requires codec.FaithfulTo(envs)
    ensures Lines(codec.EncodeAll(envs)) == Encodings(codec, envs)
  {
    if envs != [] {
      var front, last := envs[..|envs| - 1], envs[|envs| - 1];
      LinesOfEncoded(codec, front);
      EncodedEndsLine(codec, front);
      LinesConcat(codec.EncodeAll(front), codec.Line(last));
      OneLine(codec, last);
    }
  }

  lemma OneLine(codec: Codec, env: Envelope)
    requires codec.FaithfulOn(env)
    ensures Lines(codec.Line(env)) == [codec.enc(env)]
    ensures codec.enc(env) != [] && codec.dec(codec.enc(env)) == Whole(env)
  {
    LinesOfLine(codec.enc(env), []);
    assert codec.enc(env) + [NEWLINE] + [] == codec.Line(env);
  }

  predicate Current(envs: seq<Envelope>) {
    forall i :: 0 <= i < |envs| ==> envs[i].v == ENVELOPE_VERSION
  }

  /** The envelope whose version stops a read, if there is one. */
  predicate FirstForeign(envs: seq<Envelope>, k: int) {
    0 <= k < |envs| && Current(envs[..k]) && envs[k].v != ENVELOPE_VERSION
  }

  lemma {:induction false} DecodeCurrent(codec: Codec, envs: seq<Envelope>)
    requires codec.FaithfulTo(envs) && Current(envs)
    ensures codec.DecodeLines(Encodings(codec, envs)) == Ok(envs)
  {
    if envs != [] {
      var n := |envs| - 1;
      DecodeCurrent(codec, envs[..n]);
      OneLine(codec, envs[n]);
      assert envs[..n] + [envs[n]] == envs;
      assert Encodings(codec, envs)[..|Encodings(codec, envs)| - 1] == Encodings(codec, envs[..n]);
    }
  }

  lemma {:induction false} DecodeForeign(codec: Codec, envs: seq<Envelope>, k: nat)
    requires codec.FaithfulTo(envs) && FirstForeign(envs, k)
    ensures codec.DecodeLines(Encodings(codec, envs)) == Err(UnsupportedVersion(envs[k].v))
    decreases |envs|
  {
    var n := |envs| - 1;
    var front := envs[..n];
    OneLine(codec, envs[n]);
    assert Encodings(codec, envs)[..|Encodings(codec, envs)| - 1] == Encodings(codec, front);
    if k < n {
      assert front[..k] == envs[..k];
      DecodeForeign(codec, front, k);
    } else {
      DecodeCurrent(codec, front);
    }
  }

  /** Reading back what was encoded gives the same envelopes when all of them carry the
      current version; otherwise it fails with the first other version. */
  lemma ReadBack(codec: Codec, envs: seq<Envelope>)
    requires codec.FaithfulTo(envs)
    ensures Current(envs) ==> codec.ReadAll(codec.EncodeAll(envs)) == Ok(envs)
    ensures forall k :: FirstForeign(envs, k) ==>
        codec.ReadAll(codec.EncodeAll(envs)) == Err(UnsupportedVersion(envs[k].v))
  {
    LinesOfEncoded(codec, envs);
    if Current(envs) {
      DecodeCurrent(codec, envs);
    }
    forall k | FirstForeign(envs, k)
      ensures codec.ReadAll(codec.EncodeAll(envs)) == Err(UnsupportedVersion(envs[k].v))
    {
      DecodeForeign(codec, envs, k);
    }
  }

  /** The receiving side accepts an encoded envelope exactly when its version is current;
      the k-th line of encoded envelopes is the k-th envelope. */
  lemma {:induction false} ReceiveEncoded(codec: Codec, envs: seq<Envelope>, k: nat)
    requires codec.FaithfulTo(envs) && k < |envs|
    ensures var lines := Lines(codec.EncodeAll(envs));
      && |lines| == |envs| && lines[k] != []
      && codec.ReceiveLine(lines[k]) ==
           if envs[k].v == 1 then Ok(envs[k]) else Err(UnsupportedVersion(envs[k].v))
  {
    LinesOfEncoded(codec, envs);
    EncodingAt(codec, envs, k);
    OneLine(codec, envs[k]);
  }

  /** A line of something else stops the read: it is malformed if it is no JSON or lacks the
      rest of an envelope, and unsupported if it says so. */
  lemma BadLineStopsRead(codec: Codec, envs: seq<Envelope>, line: seq<Byte>)
    requires codec.FaithfulTo(envs) && Current(envs)
    requires NEWLINE !in line && line != [] && line[|line| - 1] != RETURN && !codec.dec(line).Whole?
    ensures codec.ReadAll(codec.EncodeAll(envs) + line + [NEWLINE]) ==
      match codec.dec(line)
      case OnlyVersion(v) => if v == 1 then Err(Malformed) else Err(UnsupportedVersion(v))
      case _ => Err(Malformed)
  {
    var data := codec.EncodeAll(envs);
    LinesOfEncoded(codec, envs);
    DecodeCurrent(codec, envs);
    EncodedEndsLine(codec, envs);
    LinesConcat(data, line + [NEWLINE]);
    LinesOfLine(line, []);
    assert line + [NEWLINE] + [] == line + [NEWLINE] && data + line + [NEWLINE] == data + (line + [NEWLINE]);
    var lines := Encodings(codec, envs) + [line];
    assert lines[..|lines| - 1] == Encodings(codec, envs) && Lines(data + (line + [NEWLINE])) == lines;
  }

  /** The journal and the receiving side judge a line alike, except for one that has a foreign
      version and is no envelope: that one is malformed to the receiver. */
  lemma ReceivedAsRead(codec: Codec, line: seq<Byte>)
    ensures
      if codec.dec(line).OnlyVersion? && codec.dec(line).v != 1 then
        && codec.DecodeLine(line) == Err(UnsupportedVersion(codec.dec(line).v))
        && codec.ReceiveLine(line) == Err(Malformed)
      else codec.ReceiveLine(line) == codec.DecodeLine(line)
    ensures codec.DecodeLine(line).Ok? ==> codec.dec(line) == Whole(codec.DecodeLine(line).value)
    ensures codec.dec(line).NotJson? ==> codec.DecodeLine(line) == Err(Malformed)
  {
  }

  /** A carriage return before the line break does not belong to the line. */
  lemma ReturnIsDropped(line: seq<Byte>, rest: seq<Byte>)
    requires 10 !in line
    ensures Lines(line + [13, 10] + rest) == [line] + Lines(rest)
  {
    LinesOfLine(line + [13], rest);
    assert line + [13] + [NEWLINE] + rest == line + [13, 10] + rest;
    assert (line + [13])[..|line|] == line;
  }

  lemma UnterminatedLine(line: seq<Byte>)
    requires NEWLINE !in line && line != []
    ensures Lines(line) == [DropReturn(line)]
    ensures Lines(line + [NEWLINE]) == [DropReturn(line)]
  {
    FirstBreakIs(line, []);
    assert line[..|line|] == line;
    LinesOfLine(line, []);
    assert line + [NEWLINE] + [] == line + [NEWLINE];
  }

  /** A last line counts without its line break, too. */
  lemma LastLineCounts(data: seq<Byte>, line: seq<Byte>)
    requires EndsLine(data) && 10 !in line && line != []
    ensures Lines(data + line) ==
      Lines(data) + [if line[|line| - 1] == 13 then line[..|line| - 1] else line]
    ensures Lines(data + (line + [10])) == Lines(data + line)
  {
    UnterminatedLine(line);
    LinesConcat(data, line);
    LinesConcat(data, line + [NEWLINE]);
  }

  lemma BlankFirst(rest: seq<Byte>)
    ensures Lines([NEWLINE] + rest) == [[]] + Lines(rest)
  {
    LinesOfLine([], rest);
    assert [] + [NEWLINE] + rest == [NEWLINE] + rest;
  }

  /** A blank line in a journal stands for nothing. */
  lemma BlankLineIsSkipped(codec: Codec, front: seq<Envelope>, back: seq<Envelope>)
    requires codec.FaithfulTo(front) && codec.FaithfulTo(back) && Current(front) && Current(back)
    ensures codec.ReadAll(codec.EncodeAll(front) + ([10] + codec.EncodeAll(back))) == Ok(front + back)
  {
    LinesOfEncoded(codec, front);
    LinesOfEncoded(codec, back);
    EncodedEndsLine(codec, front);
    LinesConcat(codec.EncodeAll(front), [NEWLINE] + codec.EncodeAll(back));
    BlankFirst(codec.EncodeAll(back));
    DecodeAround(codec, front, back);
  }

  lemma DecodeOneMore(codec: Codec, lines: seq<seq<Byte>>, envs: seq<Envelope>, env: Envelope)
    requires codec.DecodeLines(lines) == Ok(envs) && codec.FaithfulOn(env) && env.v == ENVELOPE_VERSION
    ensures codec.DecodeLines(lines + [codec.enc(env)]) == Ok(envs + [env])
  {
    OneLine(codec, env);
    assert (lines + [codec.enc(env)])[..|lines|] == lines;
  }

  lemma {:induction false} DecodeAround(codec: Codec, front: seq<Envelope>, back: seq<Envelope>)
    requires codec.FaithfulTo(front) && codec.FaithfulTo(back) && Current(front) && Current(back)
    ensures codec.DecodeLines(Encodings(codec, front) + ([[]] + Encodings(codec, back))) == Ok(front + back)
  {
    var ahead := Encodings(codec, front);
    if back == [] {
      var lines := ahead + [[]];
      assert lines == ahead + ([[]] + []) && lines[..|ahead|] == ahead && lines[|ahead|] == [];
      DecodeCurrent(codec, front);
      assert front + back == front;
    } else {
      var n := |back| - 1;
      var lines := Encodings(codec, back[..n]);
      DecodeAround(codec, front, back[..n]);
      DecodeOneMore(codec, ahead + ([[]] + lines), front + back[..n], back[n]);
      AppendConcat(ahead, [[]] + lines, codec.enc(back[n]));
      AppendConcat([[]], lines, codec.enc(back[n]));
      AppendConcat(front, back[..n], back[n]);
      assert back[..n] + [back[n]] == back;
    }
  }

  lemma {:induction false} EncodingAt(codec: Codec, envs: seq<Envelope>, k: nat)
    requires k < |envs|
    ensures |Encodings(codec, envs)| == |envs| && Encodings(codec, envs)[k] == codec.enc(envs[k])
  {
    if |envs| > 1 {
      EncodingAt(codec, envs[..|envs| - 1], if k < |envs| - 1 then k else 0);
    }
  }

  // ---------- the scanner and the receiving side ----------

  class Scanner {
    const data: seq<Byte>
    var pos: nat

    constructor (data: seq<Byte>)
      ensures this.data == data && pos == 0
    {
      this.data, pos := data, 0;
    }

    ghost predicate Valid()
      reads this
    {
      pos <= |data|
    }

    /** The lines not yet returned. */
    ghost function Left(): seq<seq<Byte>>
      requires Valid()
      reads this
    {
      Lines(data[pos..])
    }

    method Scan() returns (more: bool, line: seq<Byte>)
      requires Valid()
      modifies this
      ensures Valid()
      ensures more <==> old(Left()) != []
      ensures more ==> old(Left()) == [line] + Left() && pos > old(pos)
      ensures !more ==> pos == old(pos)
    {
      if pos == |data| {
        return false, [];
      }
      var end := LineEnd();
      SplitHere(data, pos, end);
      more, line := true, DropReturn(data[pos..end]);
      pos := if end < |data| then end + 1 else end;
    }

    method LineEnd() returns (end: nat)
      requires Valid()
      ensures pos <= end <= |data| && NEWLINE !in data[pos..end]
      ensures end < |data| ==> data[end] == NEWLINE
    {
      end := pos;
      while end < |data| && data[end] != NEWLINE
        invariant pos <= end <= |data|
        invariant NEWLINE !in data[pos..end]
      {
        end := end + 1;
      }
    }
  }

  lemma SplitHere(data: seq<Byte>, pos: nat, end: nat)
    requires pos <= end <= |data| && pos < |data| && NEWLINE !in data[pos..end]
    requires end < |data| ==> data[end] == NEWLINE
    ensures Lines(data[pos..]) ==
        [DropReturn(data[pos..end])] + Lines(data[if end < |data| then end + 1 else end..])
  {
    if end < |data| {
      assert data[pos..] == data[pos..end] + [NEWLINE] + data[end + 1..];
      LinesOfLine(data[pos..end], data[end + 1..]);
    } else {
      assert data[pos..] == data[pos..end];
      FirstBreakIs(data[pos..], []);
      assert data[pos..][..end - pos] == data[pos..];
      assert data[end..] == [];
    }
  }

  lemma TakeLine(lines: seq<seq<Byte>>, k: nat, line: seq<Byte>, left: seq<seq<Byte>>)
    requires k <= |lines| && lines[k..] == [line] + left
    ensures k < |lines| && lines[k] == line && left == lines[k + 1..]
  {
    assert lines[k..][0] == line && lines[k..][1..] == lines[k + 1..];
  }

  /** Receives the next envelope: skips blank lines, then parses one line. */
  method DecodeNext(codec: Codec, s: Scanner) returns (r: Result<Envelope, DecodeError>)
    requires s.Valid()
    modifies s
    ensures s.Valid()
    ensures r == Err(EndOfInput) ==> s.Left() == [] && forall line :: line in old(s.Left()) ==> line == []
    ensures r != Err(EndOfInput) ==> exists k ::
        && 0 <= k < |old(s.Left())|
        && (forall i :: 0 <= i < k ==> old(s.Left())[i] == [])
        && old(s.Left())[k] != []
        && r == codec.ReceiveLine(old(s.Left())[k])
        && s.Left() == old(s.Left())[k + 1..]
  {
    ghost var all, k := s.Left(), 0;
    var more, line := s.Scan();
    while more
      invariant s.Valid()
      invariant 0 <= k <= |all|
      invariant forall i :: 0 <= i < k ==> all[i] == []
      invariant more ==> all[k..] == [line] + s.Left()
      invariant !more ==> k == |all| && s.Left() == []
      decreases |s.data| - s.pos, more
    {
      TakeLine(all, k, line, s.Left());
      if line != [] {
        return codec.ReceiveLine(line);
      }
      k := k + 1;
      more, line := s.Scan();
    }
    return Err(EndOfInput);
  }
}
