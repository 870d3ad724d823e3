/** Runs of reader calls: what they report does not depend on how the input was split. */
module ChunkIndependence {
  import opened Bytes
  import opened TlvFormat
  import opened ReaderSpec
  import opened TlvReaders

  datatype Call =
    | CallNext
    | CallNextExpecting(expectedType: int, expectedTag: nat)
    | CallSkip
    | CallEnter
    | CallExit(outer: int)
    | CallGetUnsigned
    | CallGetSigned
    | CallGetBool
    | CallGetBytes(bufSize: nat)
    | CallDupString

  /** Everything a caller can observe of one call. */
  datatype Outcome = Outcome(
    error: Error, elementType: int, tag: nat, length: nat, containerType: int, value: int,
    data: seq<Byte>, lenRead: nat)

  function Observe(err: Error, s: Reader, value: int, data: seq<Byte>): Outcome {
    Outcome(err, GetType(s), s.tag, GetLength(s), s.containerType, value, data, s.pos)
  }

  function Perform(s: Reader, call: Call): (r: (Outcome, Reader))
    requires s.Valid()
    ensures Advances(s, r.1) && r.0.lenRead == r.1.pos
  {
    match call
    case CallNext => var (err, t) := Next(s); (Observe(err, t, 0, []), t)
    case CallNextExpecting(ty, tag) => var (err, t) := NextExpecting(s, ty, tag); (Observe(err, t, 0, []), t)
    case CallSkip => var (err, t) := Skip(s); (Observe(err, t, 0, []), t)
    case CallEnter => var (err, t, outer) := EnterContainer(s); (Observe(err, t, outer, []), t)
    case CallExit(outer) => var (err, t) := ExitContainer(s, outer); (Observe(err, t, 0, []), t)
    case CallGetUnsigned => var (err, v) := GetU64(s); (Observe(err, s, v, []), s)
    case CallGetSigned => var (err, v) := GetI64(s); (Observe(err, s, v, []), s)
    case CallGetBool => var (err, v) := GetBool(s); (Observe(err, s, if v then 1 else 0, []), s)
    case CallGetBytes(n) => var (err, data, t) := GetBytes(s, n); (Observe(err, t, 0, data), t)
    case CallDupString => var (err, data, t) := DupString(s); (Observe(err, t, 0, data), t)
  }

  function Replay(s: Reader, calls: seq<Call>): (r: (seq<Outcome>, Reader))
    requires s.Valid()
    ensures Advances(s, r.1) && |r.0| == |calls|
    decreases calls
  {
    if calls == [] then ([], s)
    else
      var (outcome, t) := Perform(s, calls[0]);
      var (log, u) := Replay(t, calls[1..]);
      ([outcome] + log, u)
  }

  lemma {:induction false} ReplayAppends(s: Reader, calls: seq<Call>, call: Call)
    requires s.Valid()
    ensures var (log, t) := Replay(s, calls);
            var (outcome, u) := Perform(t, call);
            Replay(s, calls + [call]) == (log + [outcome], u)
    decreases calls
  {
    hide Perform;
    if calls == [] {
      assert calls + [call] == [call] && [call][1..] == [];
      var (outcome, t) := Perform(s, call);
      assert Replay(t, []) == ([], t) && Replay(s, calls) == ([], s);
      assert [outcome] + [] == [] + [outcome];
    } else {
      var (first, t) := Perform(s, calls[0]);
      ReplayAppends(t, calls[1..], call);
      assert (calls + [call])[1..] == calls[1..] + [call];
      var (log, u) := Replay(t, calls[1..]);
      var last := Perform(u, call).0;
      assert [first] + (log + [last]) == ([first] + log) + [last];
    }
  }

  /**
    Safety of every run over arbitrary bytes: the position never moves back and never passes
    the maximum length, and every Next that succeeds has moved it.
   */
  lemma {:induction false} RunsAreSafe(s: Reader, calls: seq<Call>, i: nat, j: nat)
    requires s.Valid() && i <= j < |calls|
    ensures var log := Replay(s, calls).0;
            && s.pos <= log[i].lenRead <= log[j].lenRead <= |s.input| <= s.maxLen
            && (i < j && calls[j].CallNext? && log[j].error == NoError ==> log[i].lenRead < log[j].lenRead)
    decreases calls
  {
    hide ReaderSpec.Next, ReaderSpec.NextExpecting, ReaderSpec.Skip, EnterContainer, ExitContainer, GetU64, GetI64,
         ReaderSpec.GetBool, GetBytes, ReaderSpec.DupString, Observe;
    var (outcome, t) := Perform(s, calls[0]);
    if i > 0 {
      RunsAreSafe(t, calls[1..], i - 1, j - 1);
    } else if j > 0 {
      RunsAreSafe(t, calls[1..], j - 1, j - 1);
      FromStart(t, calls[1..], j - 1);
    }
  }

  lemma {:induction false} FromStart(s: Reader, calls: seq<Call>, j: nat)
    requires s.Valid() && j < |calls|
    ensures var log := Replay(s, calls).0;
            calls[j].CallNext? && log[j].error == NoError ==> s.pos < log[j].lenRead
    decreases calls
  {
    hide ReaderSpec.NextExpecting, ReaderSpec.Skip, EnterContainer, ExitContainer, GetU64, GetI64,
         ReaderSpec.GetBool, GetBytes, ReaderSpec.DupString;
    if j > 0 {
      hide Perform;
      FromStart(Perform(s, calls[0]).1, calls[1..], j - 1);
    }
  }

  /** Performs one call on a reader object. */
  method PerformOn(r: TlvReader, call: Call) returns (outcome: Outcome)
    requires r.Valid()
    modifies r
    ensures r.Valid() && (outcome, r.State()) == Perform(old(r.State()), call)
    ensures r.oneBuffer == old(r.oneBuffer) && r.input == old(r.input)
  {
    hide Feeds, ReaderSpec.Next, ReaderSpec.NextExpecting, ReaderSpec.Skip, ReaderSpec.ExitContainer,
         ReaderSpec.DupString, ReaderSpec.GetU64, ReaderSpec.GetI64;
    var err: Error, value: int, data: seq<Byte> := NoError, 0, [];
    match call {
    case CallNext => err := r.Next();
    case CallNextExpecting(ty, tag) => err := r.NextExpecting(ty, tag);
    case CallSkip => err := r.Skip();
    case CallEnter => err, value := r.EnterContainer();
    case CallExit(outer) => err := r.ExitContainer(outer);
    case CallGetUnsigned => err, value := r.GetU64();
    case CallGetSigned => err, value := r.GetI64();
    case CallGetBool =>
      var b;
      err, b := r.GetBool();
      value := if b then 1 else 0;
    case CallDupString => err, data := r.DupString();
    case CallGetBytes(bufSize) =>
      var dest := new Byte[bufSize];
      var n := r.GetLength();
      err := r.GetBytes(dest, bufSize);
      if err == NoError {
        data := dest[..n];
      }
    }
    outcome := Outcome(err, r.GetType(), r.elemTag, r.GetLength(), r.containerType, value, data, r.lenRead);
  }

  /**
    Performs the calls one after another. Over one buffer, the read point stays as far behind
    the beginning of the data as bytes were read.
   */
  method ReplayOn(r: TlvReader, calls: seq<Call>) returns (log: seq<Outcome>)
    requires r.Valid()
    modifies r
    ensures r.Valid() && (log, r.State()) == Replay(old(r.State()), calls)
    ensures r.oneBuffer == old(r.oneBuffer)
    ensures r.oneBuffer ==> r.buffer == r.input == old(r.input) && r.readPoint == r.lenRead
  {
    hide Feeds, Perform, Replay;
    log := [];
    var i := 0;
    ReplayEmpty(r.State());
    assert calls[..0] == [];
    while i < |calls|
      invariant i <= |calls| && r.Valid() && r.oneBuffer == old(r.oneBuffer) && r.input == old(r.input)
      invariant (log, r.State()) == Replay(old(r.State()), calls[..i])
    {
      ReplayAppends(old(r.State()), calls[..i], calls[i]);
      assert calls[..i] + [calls[i]] == calls[..i + 1];
      var outcome := PerformOn(r, calls[i]);
      log := log + [outcome];
      i := i + 1;
    }
    assert calls[..i] == calls;
  }

  lemma ReplayEmpty(s: Reader)
    requires s.Valid()
    ensures Replay(s, []) == ([], s)
  {
  }

  /** The same calls over any two splits of the same bytes report the same, call by call. */
  method SplitsAreIndistinguishable(
    first: seq<Byte>, rest: seq<seq<Byte>>, first': seq<Byte>, rest': seq<seq<Byte>>, calls: seq<Call>)
    returns (log: seq<Outcome>, log': seq<Outcome>)
    requires first + Flatten(rest) == first' + Flatten(rest') && |first + Flatten(rest)| < 0x1_0000_0000
    requires forall b :: b in rest ==> |b| > 0
    requires forall b :: b in rest' ==> |b| > 0
    ensures log == log' == Replay(Init(first + Flatten(rest)), calls).0
  {
    hide Replay, Flatten, Feeds;
    var r := new TlvReader.FromBuffers(first, rest);
    log := ReplayOn(r, calls);
    var r' := new TlvReader.FromBuffers(first', rest');
    log' := ReplayOn(r', calls);
  }
}
