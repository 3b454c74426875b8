/** The append-only journal file: appending lines, reading them back, and dropping a torn
    tail after a crash. */
module Journaling {
  import opened Wrappers
  import opened Transport

  /** How many leading bytes belong to lines that were written completely. */
  function WholeLines(data: seq<Byte>): (n: nat)
    ensures n <= |data|
  {
    if data == [] then 0
    else if data[|data| - 1] == NEWLINE then |data|
    else WholeLines(data[..|data| - 1])
  }

  function Recovered(data: seq<Byte>): seq<Byte> {
    data[..WholeLines(data)]
  }

  class Journal {
    const codec: Codec
    var data: seq<Byte>

    constructor (codec: Codec, data: seq<Byte>)
      ensures this.codec == codec && this.data == Recovered(data)
    {
      this.codec, this.data := codec, data;
      new;
      RecoverTornTail();
    }

    method Append(env: Envelope)
      modifies this
      ensures data == old(data) + codec.Line(env)
    {
      data := data + codec.enc(env) + [NEWLINE];
    }

    method Read() returns (r: Result<seq<Envelope>, DecodeError>)
      ensures r == codec.ReadAll(data)
    {
      var envs: seq<Envelope> := [];
      var scanner := new Scanner(data);
      assert data[0..] == data;
      ghost var all, k := Lines(data), 0;
      assert all[0..] == all && all[..|all|] == all;
      var more, line := scanner.Scan();
      while more
        invariant scanner.Valid()
        invariant k <= |all|
        invariant more ==> all[k..] == [line] + scanner.Left()
        invariant !more ==> k == |all|
        invariant codec.DecodeLines(all[..k]) == Ok(envs)
        decreases |scanner.data| - scanner.pos, more
      {
        NextLine(codec, all, k, line, scanner.Left());
        if line != [] {
          var decoded := codec.DecodeLine(line);
          if decoded.Err? {
            FirstErrorWins(codec, all, k + 1);
            return Err(decoded.error);
          }
          envs := envs + [decoded.value];
        }
        k := k + 1;
        more, line := scanner.Scan();
      }
      return Ok(envs);
    }

    method RecoverTornTail()
      modifies this
      ensures data == Recovered(old(data))
    {
      if |data| == 0 {
        return;
      }
      var lastNewline, pos := 0, 0;
      while pos < |data|
        invariant 0 <= pos <= |data|
        invariant lastNewline == WholeLines(data[..pos])
      {
        var b := data[pos];
        assert data[..pos + 1][..pos] == data[..pos];
        pos := pos + 1;
        if b == NEWLINE {
          lastNewline := pos;
        }
      }
      assert data[..pos] == data;
      if lastNewline < |data| {
        data := data[..lastNewline];
      }
    }
  }

  lemma NextLine(codec: Codec, lines: seq<seq<Byte>>, k: nat, line: seq<Byte>, left: seq<seq<Byte>>)
    requires k <= |lines| && lines[k..] == [line] + left && codec.DecodeLines(lines[..k]).Ok?
    ensures k < |lines| && left == lines[k + 1..]
    ensures
      var sofar, next := codec.DecodeLines(lines[..k]).value, codec.DecodeLines(lines[..k + 1]);
      if line == [] then next == Ok(sofar)
      else match codec.DecodeLine(line)
        case Ok(env) => next == Ok(sofar + [env])
        case Err(e) => next == Err(e)
  {
    TakeLine(lines, k, line, left);
    assert lines[..k + 1][..k] == lines[..k];
  }

  lemma {:induction false} FirstErrorWins(codec: Codec, lines: seq<seq<Byte>>, k: nat)
    requires k <= |lines| && codec.DecodeLines(lines[..k]).Err?
    ensures codec.DecodeLines(lines) == codec.DecodeLines(lines[..k])
    decreases |lines|
  {
    if k < |lines| {
      var front := lines[..|lines| - 1];
      assert front[..k] == lines[..k];
      FirstErrorWins(codec, front, k);
    } else {
      assert lines[..k] == lines;
    }
  }

  // ---------- crashes ----------

  /** How many envelopes have their line complete within the first `cut` bytes. */
  function Survivors(codec: Codec, envs: seq<Envelope>, cut: nat): (m: nat)
    ensures m <= |envs|
  {
    if envs == [] || |codec.EncodeAll(envs)| <= cut then |envs|
    else Survivors(codec, envs[..|envs| - 1], cut)
  }

  lemma {:induction false} TornLineIsDropped(whole: seq<Byte>, torn: seq<Byte>)
    requires EndsLine(whole) && NEWLINE !in torn
    ensures WholeLines(whole + torn) == |whole|
  {
    if torn == [] {
      assert whole + torn == whole;
    } else {
      var front := torn[..|torn| - 1];
      assert (whole + torn)[..|whole + torn| - 1] == whole + front;
      TornLineIsDropped(whole, front);
    }
  }

  /** The survivors are exactly the envelopes whose lines end within the cut. */
  lemma {:induction false} SurvivorsAreMaximal(codec: Codec, envs: seq<Envelope>, cut: nat, k: nat)
    requires k <= |envs|
    ensures |codec.EncodeAll(envs[..k])| <= cut || k == 0 <==> k <= Survivors(codec, envs, cut)
    decreases |envs|
  {
    var n := |envs|;
    if k == n {
      assert envs[..k] == envs;
    } else {
      var front := envs[..n - 1];
      assert front[..k] == envs[..k];
      SurvivorsAreMaximal(codec, front, cut, k);
      if |codec.EncodeAll(envs)| <= cut {
        EncodedLengthGrows(codec, envs, k);
      }
    }
  }

  lemma {:induction false} EncodedLengthGrows(codec: Codec, envs: seq<Envelope>, k: nat)
    requires k <= |envs|
    ensures codec.EncodeAll(envs[..k]) <= codec.EncodeAll(envs)
    ensures k < |envs| ==> |codec.EncodeAll(envs[..k])| < |codec.EncodeAll(envs)|
    decreases |envs|
  {
    if k == |envs| {
      assert envs[..k] == envs;
    } else {
      var front := envs[..|envs| - 1];
      assert front[..k] == envs[..k];
      EncodedLengthGrows(codec, front, k);
    }
  }

  /** Wherever the file is cut, recovery leaves the whole lines before the cut. */
  lemma {:induction false} RecoverAnyCut(codec: Codec, envs: seq<Envelope>, cut: nat)
    requires codec.FaithfulTo(envs) && cut <= |codec.EncodeAll(envs)|
    ensures Recovered(codec.EncodeAll(envs)[..cut]) == codec.EncodeAll(envs[..Survivors(codec, envs, cut)])
  {
    var data := codec.EncodeAll(envs);
    if cut == |data| {
      assert data[..cut] == data;
      assert envs[..|envs|] == envs;
      EncodedEndsLine(codec, envs);
    } else {
      var front, last := envs[..|envs| - 1], envs[|envs| - 1];
      var before := codec.EncodeAll(front);
      if cut <= |before| {
        assert data[..cut] == before[..cut];
        RecoverAnyCut(codec, front, cut);
        assert front[..Survivors(codec, front, cut)] == envs[..Survivors(codec, front, cut)];
      } else {
        var torn := codec.enc(last)[..cut - |before|];
        assert data[..cut] == before + torn;
        assert codec.FaithfulOn(last);
        EncodedEndsLine(codec, front);
        TornLineIsDropped(before, torn);
        assert (before + torn)[..|before|] == before;
        SurvivorsAreMaximal(codec, front, cut, |front|);
        assert front[..|front|] == front;
        assert envs[..|front|] == front;
      }
    }
  }

  lemma RecoveryIsIdempotent(data: seq<Byte>)
    ensures Recovered(Recovered(data)) == Recovered(data)
    ensures EndsLine(Recovered(data))
    ensures Recovered(data) <= data && NEWLINE !in data[|Recovered(data)|..]
  {
    if data != [] && data[|data| - 1] != NEWLINE {
      var front := data[..|data| - 1];
      RecoveryIsIdempotent(front);
      assert Recovered(front) == Recovered(data);
      assert data[|Recovered(data)|..] == front[|Recovered(data)|..] + [data[|data| - 1]];
    } else {
      assert data[..|data|] == data;
    }
  }

  // ---------- many crashes ----------

  /** The life of a journal file: appends, and crashes that keep a prefix of the file and
      are followed by reopening it. */
  datatype Event = Appended(env: Envelope) | CrashedAt(cut: nat)

  function FileAfter(codec: Codec, events: seq<Event>): seq<Byte> {
    if events == [] then []
    else
      var file := FileAfter(codec, events[..|events| - 1]);
      match events[|events| - 1]
      case Appended(env) => file + codec.Line(env)
      case CrashedAt(cut) => Recovered(if cut <= |file| then file[..cut] else file)
  }

  /** The envelopes the journal should still hold: each crash loses a suffix of them. */
  function Kept(codec: Codec, events: seq<Event>): seq<Envelope> {
    if events == [] then []
    else
      var envs := Kept(codec, events[..|events| - 1]);
      match events[|events| - 1]
      case Appended(env) => envs + [env]
      case CrashedAt(cut) => envs[..Survivors(codec, envs, cut)]
  }

  lemma AppendOne(codec: Codec, envs: seq<Envelope>, env: Envelope)
    ensures codec.EncodeAll(envs + [env]) == codec.EncodeAll(envs) + codec.Line(env)
  {
    assert (envs + [env])[..|envs|] == envs;
  }

  /** A crash that keeps some prefix of whole lines, and what recovery makes of it. */
  lemma CrashOnWholeLines(codec: Codec, envs: seq<Envelope>, cut: nat)
    requires codec.FaithfulTo(envs)
    ensures var file := codec.EncodeAll(envs);
      Recovered(if cut <= |file| then file[..cut] else file) ==
        codec.EncodeAll(envs[..Survivors(codec, envs, cut)])
  {
    var file := codec.EncodeAll(envs);
    if cut <= |file| {
      RecoverAnyCut(codec, envs, cut);
    } else {
      EncodedEndsLine(codec, envs);
      TornLineIsDropped(file, []);
      assert file + [] == file && envs[..|envs|] == envs;
    }
  }

  lemma {:induction false} FileHoldsKept(codec: Codec, events: seq<Event>)
    requires forall i :: 0 <= i < |events| && events[i].Appended? ==> codec.FaithfulOn(events[i].env)
    ensures codec.FaithfulTo(Kept(codec, events))
    ensures FileAfter(codec, events) == codec.EncodeAll(Kept(codec, events))
  {
    if events != [] {
      var before := events[..|events| - 1];
      FileHoldsKept(codec, before);
      match events[|events| - 1]
      case Appended(env) => AppendOne(codec, Kept(codec, before), env);
      case CrashedAt(cut) => CrashOnWholeLines(codec, Kept(codec, before), cut);
    }
  }

  /** Over any number of appends and crashes the file is a concatenation of whole encoded
      lines, and reading it gives the surviving envelopes in order. */
  lemma JournalSurvivesManyCrashes(codec: Codec, events: seq<Event>)
    requires forall i :: 0 <= i < |events| && events[i].Appended? ==> codec.FaithfulOn(events[i].env)
    ensures codec.FaithfulTo(Kept(codec, events))
    ensures FileAfter(codec, events) == codec.EncodeAll(Kept(codec, events))
    ensures Current(Kept(codec, events)) ==> codec.ReadAll(FileAfter(codec, events)) == Ok(Kept(codec, events))
  {
    FileHoldsKept(codec, events);
    ReadBack(codec, Kept(codec, events));
  }
}
