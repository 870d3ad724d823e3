/** What the message tracker computes, on a chain of messages in the order they were added. */
module MessageChains {
  import opened Options

  datatype Message = Message(frame: nat, fingerprint: nat, initiator: bool)

  // ---- Exchange start ----

  /** How far back the run of initiator messages with one fingerprint goes from `j`. */
  function FirstOfRun(chain: seq<Message>, j: nat): (k: nat)
    requires j < |chain|
    ensures k <= j
  {
    if j > 0 && chain[j - 1].initiator && chain[j - 1].fingerprint == chain[j].fingerprint
    then FirstOfRun(chain, j - 1) else j
  }

  /** FindStartOfExchange of message `i`, as a position in its exchange chain. */
  function StartOfExchange(chain: seq<Message>, i: nat): (k: nat)
    requires i < |chain|
    ensures k <= i
  {
    if chain[i].initiator then FirstOfRun(chain, i)
    else if i == 0 then 0
    else StartOfExchange(chain, i - 1)
  }

  lemma {:induction false} RunIsUniform(chain: seq<Message>, j: nat, m: nat)
    requires j < |chain| && chain[j].initiator && FirstOfRun(chain, j) <= m <= j
    ensures chain[m].initiator && chain[m].fingerprint == chain[j].fingerprint
    ensures FirstOfRun(chain, m) == FirstOfRun(chain, j)
  {
    if m < j {
      RunIsUniform(chain, j - 1, m);
    }
  }

  /** The run does not go on before its beginning. */
  lemma {:induction false} RunIsMaximal(chain: seq<Message>, j: nat)
    requires j < |chain| && chain[j].initiator
    ensures var k := FirstOfRun(chain, j);
            k > 0 ==> !(chain[k - 1].initiator && chain[k - 1].fingerprint == chain[j].fingerprint)
  {
    if FirstOfRun(chain, j) < j {
      RunIsMaximal(chain, j - 1);
    }
  }

  /**
    The exact answer: `m` is the last initiator message at or before `i`, and the start is the
    first of the unbroken run of initiator messages up to `m` that have its fingerprint.
   */
  lemma {:induction false} StartIsExact(chain: seq<Message>, i: nat, m: nat)
    requires m <= i < |chain| && chain[m].initiator
    requires forall j :: m < j <= i ==> !chain[j].initiator
    ensures var k := StartOfExchange(chain, i);
            && k <= m
            && (forall j :: k <= j <= m ==> chain[j].initiator && chain[j].fingerprint == chain[m].fingerprint)
            && (k > 0 ==> !(chain[k - 1].initiator && chain[k - 1].fingerprint == chain[m].fingerprint))
  {
    if m < i {
      StartIsExact(chain, i - 1, m);
    } else {
      RunIsMaximal(chain, m);
      forall j | FirstOfRun(chain, m) <= j <= m
        ensures chain[j].initiator && chain[j].fingerprint == chain[m].fingerprint
      {
        RunIsUniform(chain, m, j);
      }
    }
  }

  /** The start is an initiator message whenever there is one at or before the message. */
  lemma {:induction false} StartIsInitiator(chain: seq<Message>, i: nat, m: nat)
    requires m <= i < |chain| && chain[m].initiator
    ensures chain[StartOfExchange(chain, i)].initiator
  {
    if chain[i].initiator {
      RunIsUniform(chain, i, FirstOfRun(chain, i));
    } else {
      StartIsInitiator(chain, i - 1, m);
    }
  }

  /** Without one it is the chain's first message. */
  lemma {:induction false} StartWithoutInitiator(chain: seq<Message>, i: nat)
    requires i < |chain| && forall m :: 0 <= m <= i ==> !chain[m].initiator
    ensures StartOfExchange(chain, i) == 0
  {
    if i > 0 {
      StartWithoutInitiator(chain, i - 1);
    }
  }

  lemma {:induction false} StartIsIdempotent(chain: seq<Message>, i: nat)
    requires i < |chain|
    ensures StartOfExchange(chain, StartOfExchange(chain, i)) == StartOfExchange(chain, i)
  {
    if chain[i].initiator {
      RunIsUniform(chain, i, FirstOfRun(chain, i));
    } else if i > 0 {
      StartIsIdempotent(chain, i - 1);
    }
  }

  lemma {:induction false} StartIsMonotone(chain: seq<Message>, i: nat, j: nat)
    requires i <= j < |chain|
    ensures StartOfExchange(chain, i) <= StartOfExchange(chain, j)
    decreases j
  {
    if i < j {
      if chain[j].initiator {
        var k := FirstOfRun(chain, j);
        if k <= i {
          RunIsUniform(chain, j, i);
        }
      } else {
        StartIsMonotone(chain, i, j - 1);
      }
    }
  }

  /** So the starts cut the chain into contiguous segments, each holding its own start. */
  lemma ExchangeSegments(chain: seq<Message>, i: nat, m: nat)
    requires i < |chain| && StartOfExchange(chain, i) <= m <= i
    ensures StartOfExchange(chain, m) == StartOfExchange(chain, i)
  {
    StartIsIdempotent(chain, i);
    StartIsMonotone(chain, StartOfExchange(chain, i), m);
    StartIsMonotone(chain, m, i);
  }

  /** No later message changes an earlier message's start. */
  lemma {:induction false} StartIsStable(chain: seq<Message>, later: seq<Message>, i: nat)
    requires i < |chain|
    ensures StartOfExchange(chain + later, i) == StartOfExchange(chain, i)
  {
    if chain[i].initiator {
      RunIsStable(chain, later, i);
    } else if i > 0 {
      StartIsStable(chain, later, i - 1);
    }
  }

  lemma {:induction false} RunIsStable(chain: seq<Message>, later: seq<Message>, j: nat)
    requires j < |chain|
    ensures FirstOfRun(chain + later, j) == FirstOfRun(chain, j)
  {
    if j > 0 {
      RunIsStable(chain, later, j - 1);
    }
  }

  // ---- Retransmissions and reused counters ----

  /** How many messages of `part` have (or, with `same` false, have not) the fingerprint. */
  function Count(part: seq<Message>, fingerprint: nat, same: bool): (n: nat)
    ensures n <= |part|
  {
    if part == [] then 0
    else Count(part[..|part| - 1], fingerprint, same)
         + if (part[|part| - 1].fingerprint == fingerprint) == same then 1 else 0
  }

  /** The position of the lowest-frame such message, if there is one. */
  function Lowest(part: seq<Message>, fingerprint: nat, same: bool): (r: int)
    ensures -1 <= r < |part|
  {
    if part == [] then -1
    else
      var n := |part| - 1;
      var r := Lowest(part[..n], fingerprint, same);
      if (part[n].fingerprint == fingerprint) == same && (r == -1 || part[n].frame < part[r].frame) then n else r
  }

  function RetransNum(chain: seq<Message>, i: nat): nat
    requires i < |chain|
  {
    Count(chain[..i], chain[i].fingerprint, true)
  }

  function TotalRetrans(chain: seq<Message>, i: nat): nat
    requires i < |chain|
  {
    RetransNum(chain, i) + Count(chain[i + 1..], chain[i].fingerprint, true)
  }

  function RetransOf(chain: seq<Message>, i: nat): int
    requires i < |chain|
  {
    Lowest(chain[..i], chain[i].fingerprint, true)
  }

  function ReusesFrom(chain: seq<Message>, i: nat): int
    requires i < |chain|
  {
    Lowest(chain[..i], chain[i].fingerprint, false)
  }

  /** No later message changes what an earlier one retransmits or reuses; its total only grows. */
  lemma HistoryIsStable(chain: seq<Message>, later: seq<Message>, i: nat)
    requires i < |chain|
    ensures RetransNum(chain + later, i) == RetransNum(chain, i)
    ensures RetransOf(chain + later, i) == RetransOf(chain, i)
    ensures ReusesFrom(chain + later, i) == ReusesFrom(chain, i)
    ensures TotalRetrans(chain, i) <= TotalRetrans(chain + later, i)
  {
    assert (chain + later)[..i] == chain[..i];
    assert (chain + later)[i + 1..] == chain[i + 1..] + later;
    CountGrows(chain[i + 1..], later, chain[i].fingerprint);
  }

  lemma {:induction false} CountGrows(part: seq<Message>, later: seq<Message>, fingerprint: nat)
    ensures Count(part, fingerprint, true) <= Count(part + later, fingerprint, true)
  {
    if later == [] {
      assert part + later == part;
    } else {
      var n := |later| - 1;
      CountGrows(part, later[..n], fingerprint);
      assert (part + later)[..|part| + n] == part + later[..n];
    }
  }

  /** The positions of a fingerprint class, in order. */
  function Class(chain: seq<Message>, fingerprint: nat): (ps: seq<nat>)
    ensures |ps| == Count(chain, fingerprint, true)
    ensures forall k :: 0 <= k < |ps| ==> ps[k] < |chain| && chain[ps[k]].fingerprint == fingerprint
  {
    if chain == [] then []
    else
      var n := |chain| - 1;
      var ps := Class(chain[..n], fingerprint);
      assert forall k :: 0 <= k < |ps| ==> chain[..n][ps[k]] == chain[ps[k]];
      if chain[n].fingerprint == fingerprint then ps + [n] else ps
  }

  /** The class is every message of the fingerprint, in order. */
  lemma {:induction false} ClassIsAll(chain: seq<Message>, fingerprint: nat, i: nat)
    requires i < |chain|
    ensures var ps := Class(chain, fingerprint);
            && (i in ps <==> chain[i].fingerprint == fingerprint)
            && forall a, b :: 0 <= a < b < |ps| ==> ps[a] < ps[b]
    decreases |chain|
  {
    var n := |chain| - 1;
    if i < n {
      ClassIsAll(chain[..n], fingerprint, i);
    } else if n > 0 {
      ClassIsAll(chain[..n], fingerprint, 0);
    }
  }

  /** The k-th message of its class, counted from zero, has retransmission number k. */
  lemma {:induction false} RetransmissionsAreNumbered(chain: seq<Message>, i: nat)
    requires i < |chain|
    ensures var ps := Class(chain, chain[i].fingerprint);
            RetransNum(chain, i) < |ps| && ps[RetransNum(chain, i)] == i
    decreases |chain|
  {
    var n := |chain| - 1;
    if i < n {
      assert chain[..n][..i] == chain[..i];
      RetransmissionsAreNumbered(chain[..n], i);
    }
  }

  lemma {:induction false} CountSplits(chain: seq<Message>, i: nat, fingerprint: nat)
    requires i < |chain|
    ensures Count(chain, fingerprint, true) ==
            Count(chain[..i], fingerprint, true) + Count(chain[i + 1..], fingerprint, true)
            + if chain[i].fingerprint == fingerprint then 1 else 0
    decreases |chain|
  {
    var n := |chain| - 1;
    if i < n {
      CountSplits(chain[..n], i, fingerprint);
      assert chain[..n][..i] == chain[..i];
      assert chain[..n][i + 1..] == chain[i + 1..][..n - i - 1];
    }
  }

  /** Every message of a class reports the same total: the class size less one. */
  lemma TotalIsClassSize(chain: seq<Message>, i: nat)
    requires i < |chain|
    ensures TotalRetrans(chain, i) == |Class(chain, chain[i].fingerprint)| - 1
  {
    CountSplits(chain, i, chain[i].fingerprint);
  }

  lemma {:induction false} CountsAreComplementary(part: seq<Message>, fingerprint: nat)
    ensures Count(part, fingerprint, true) + Count(part, fingerprint, false) == |part|
  {
    if part != [] {
      CountsAreComplementary(part[..|part| - 1], fingerprint);
    }
  }

  /** Lowest is the position of the least frame among the messages it ranges over. */
  lemma {:induction false} LowestIsLeast(part: seq<Message>, fingerprint: nat, same: bool)
    ensures var r := Lowest(part, fingerprint, same);
            && (r == -1 <==> Count(part, fingerprint, same) == 0)
            && (r >= 0 ==> (part[r].fingerprint == fingerprint) == same)
            && (forall k :: 0 <= k < |part| && (part[k].fingerprint == fingerprint) == same ==>
                              r >= 0 && part[r].frame <= part[k].frame)
  {
    if part != [] {
      var n := |part| - 1;
      LowestIsLeast(part[..n], fingerprint, same);
      forall k | 0 <= k < n
        ensures part[..n][k] == part[k]
      {
      }
    }
  }

  /**
    Chain position is retransmission number plus the number of earlier messages that differ;
    a reused counter is reported exactly when that second number is not zero, and then it
    names the lowest-frame such message. Likewise for the message that is retransmitted.
   */
  lemma RetransmissionsAndReuse(chain: seq<Message>, i: nat)
    requires i < |chain|
    ensures var fp := chain[i].fingerprint;
            var differing := Count(chain[..i], fp, false);
            && i == RetransNum(chain, i) + differing
            && (ReusesFrom(chain, i) == -1 <==> differing == 0)
            && (RetransOf(chain, i) == -1 <==> RetransNum(chain, i) == 0)
    ensures var r := ReusesFrom(chain, i);
            r >= 0 ==> chain[r].fingerprint != chain[i].fingerprint &&
                       forall k :: 0 <= k < i && chain[k].fingerprint != chain[i].fingerprint ==>
                           chain[r].frame <= chain[k].frame
    ensures var r := RetransOf(chain, i);
            r >= 0 ==> chain[r].fingerprint == chain[i].fingerprint &&
                       forall k :: 0 <= k < i && chain[k].fingerprint == chain[i].fingerprint ==>
                           chain[r].frame <= chain[k].frame
  {
    var fp := chain[i].fingerprint;
    CountsAreComplementary(chain[..i], fp);
    LowestIsLeast(chain[..i], fp, true);
    LowestIsLeast(chain[..i], fp, false);
    assert forall k :: 0 <= k < i ==> chain[..i][k] == chain[k];
  }

  // ---- Acknowledgements ----

  /** The acknowledging frame a message of frame `frame` ends up with after the calls `ackers`. */
  function Earliest(frame: nat, ackers: seq<nat>): Option<nat> {
    if ackers == [] then None
    else
      var n := |ackers| - 1;
      var e := Earliest(frame, ackers[..n]);
      if frame < ackers[n] && (e.None? || ackers[n] < e.value) then Some(ackers[n]) else e
  }

  /** It is the lowest of the frames above the message's own. */
  lemma {:induction false} EarliestIsLeast(frame: nat, ackers: seq<nat>)
    ensures var e := Earliest(frame, ackers);
            && (e.Some? ==> e.value in ackers && frame < e.value)
            && (forall a :: a in ackers && frame < a ==> e.Some? && e.value <= a)
  {
    if ackers != [] {
      var n := |ackers| - 1;
      EarliestIsLeast(frame, ackers[..n]);
      assert ackers == ackers[..n] + [ackers[n]];
    }
  }

  /** Neither the order of the calls nor their repetition matters. */
  lemma EarliestIgnoresOrder(frame: nat, ackers: seq<nat>, others: seq<nat>)
    requires forall a :: a in ackers <==> a in others
    ensures Earliest(frame, ackers) == Earliest(frame, others)
  {
    EarliestIsLeast(frame, ackers);
    EarliestIsLeast(frame, others);
  }

  /** Further calls can only move it to an earlier frame. */
  lemma EarliestOnlyFalls(frame: nat, ackers: seq<nat>, more: seq<nat>)
    requires Earliest(frame, ackers).Some?
    ensures Earliest(frame, ackers + more).Some?
    ensures Earliest(frame, ackers + more).value <= Earliest(frame, ackers).value
  {
    EarliestIsLeast(frame, ackers);
    EarliestIsLeast(frame, ackers + more);
    assert Earliest(frame, ackers).value in ackers + more;
  }
}
