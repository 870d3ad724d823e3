/**
  The message tracker: heap records on two doubly linked chains, found through tables. The
  ghost chains say which records each table entry leads to, and in which order.
 */
module MessageTrackers {
  import opened MessageChains
  import opened Options

  // ---- Keys ----

  datatype Table =
    | UnencryptedUdp | SessionEncryptedUdp | GroupEncryptedUdp
    | UnencryptedTcp | SessionEncryptedTcp | GroupEncryptedTcp

  /** A message counter table with the parts of the key used in it. */
  datatype CounterKey = CounterKey(table: Table, parts: seq<nat>)

  datatype ExchangeKey = ExchangeKey(initiatorNodeId: nat, respNodeId: nat, exchangeId: nat)

  const ENCRYPTION_NONE := 0
  const SESSION_TYPES := 0x10
  const TYPE_SESSION := 0x2000

  /** MatterSessionId::GetType: the low four bits. */
  function SessionIdType(sessionId: nat): nat { sessionId % SESSION_TYPES }

  function TableAndKey(srcNodeId: nat, msgId: nat, encType: nat, sessionId: nat, isTcp: bool, streamId: nat)
    : CounterKey
  {
    if isTcp then
      if encType == ENCRYPTION_NONE then CounterKey(UnencryptedTcp, [srcNodeId, msgId, streamId])
      else if SessionIdType(sessionId) == TYPE_SESSION then
        CounterKey(SessionEncryptedTcp, [srcNodeId, msgId, streamId, sessionId])
      else CounterKey(GroupEncryptedTcp, [srcNodeId, msgId, streamId])
    else
      if encType == ENCRYPTION_NONE then CounterKey(UnencryptedUdp, [srcNodeId, msgId])
      else if SessionIdType(sessionId) == TYPE_SESSION then
        CounterKey(SessionEncryptedUdp, [srcNodeId, msgId, sessionId])
      else CounterKey(GroupEncryptedUdp, [srcNodeId, msgId])
  }

  /** The session tables are never chosen, so two sessions' messages can share a chain. */
  lemma SessionsShareChains(srcNodeId: nat, msgId: nat, encType: nat, sessionId: nat, other: nat,
                            isTcp: bool, streamId: nat)
    ensures TableAndKey(srcNodeId, msgId, encType, sessionId, isTcp, streamId)
            == TableAndKey(srcNodeId, msgId, encType, other, isTcp, streamId)
    ensures TableAndKey(srcNodeId, msgId, encType, sessionId, isTcp, streamId).table
            !in {SessionEncryptedUdp, SessionEncryptedTcp}
  {
    assert SessionIdType(sessionId) < TYPE_SESSION && SessionIdType(other) < TYPE_SESSION;
  }

  /** The fields of MatterMessageInfo the tracker reads; the fingerprint is given. */
  datatype MessageInfo = MessageInfo(
    msgVersion: nat, srcNodeId: nat, destNodeId: nat, msgId: nat, ackMsgCntr: nat, exchId: nat, exchHeader: nat,
    sessionType: nat, sessionId: nat, fingerprint: nat)
  {
    predicate FromInitiator() { exchHeader % 2 == 1 }

    predicate HasAck() { exchHeader / 2 % 2 == 1 }

    function Exchange(): ExchangeKey {
      if FromInitiator() then ExchangeKey(srcNodeId, destNodeId, exchId) else ExchangeKey(destNodeId, srcNodeId, exchId)
    }
  }

  /** Bit 0 of the exchange header says who sent the message, and bit 1 that it acknowledges one. */
  lemma HeaderBits(m: MessageInfo, initiator: nat, ack: nat, others: nat)
    requires initiator < 2 && ack < 2 && m.exchHeader == initiator + 2 * ack + 4 * others
    ensures m.FromInitiator() <==> initiator == 1
    ensures m.HasAck() <==> ack == 1
  {
  }

  /** Two messages belong to one exchange: same side and direction, or other side and reversed. */
  predicate SameExchange(a: MessageInfo, b: MessageInfo) {
    && a.exchId == b.exchId
    && if a.exchHeader % 2 == b.exchHeader % 2
       then a.srcNodeId == b.srcNodeId && a.destNodeId == b.destNodeId
       else a.srcNodeId == b.destNodeId && a.destNodeId == b.srcNodeId
  }

  lemma ExchangeKeys(a: MessageInfo, b: MessageInfo)
    ensures a.Exchange() == b.Exchange() <==> SameExchange(a, b)
  {
  }

  /** A message as it was sent: over TCP in a stream, or over UDP. */
  datatype Sending = Sending(info: MessageInfo, isTcp: bool, streamId: nat)
  {
    function CounterKey(): CounterKey {
      TableAndKey(info.srcNodeId, info.msgId, info.sessionType, info.sessionId, isTcp, if isTcp then streamId else 0)
    }
  }

  /**
    Two messages share a counter chain: same sender and counter, both or neither encrypted, over
    the same stream or both over UDP. The session makes no difference.
   */
  predicate SameCounter(a: Sending, b: Sending) {
    && a.info.srcNodeId == b.info.srcNodeId && a.info.msgId == b.info.msgId
    && (a.info.sessionType == ENCRYPTION_NONE <==> b.info.sessionType == ENCRYPTION_NONE)
    && a.isTcp == b.isTcp && (a.isTcp ==> a.streamId == b.streamId)
  }

  lemma CounterKeys(a: Sending, b: Sending)
    ensures a.CounterKey() == b.CounterKey() <==> SameCounter(a, b)
  {
    assert SessionIdType(a.info.sessionId) < TYPE_SESSION && SessionIdType(b.info.sessionId) < TYPE_SESSION;
  }

  /** The chain an acknowledgement addresses. */
  function AckedKey(info: MessageInfo): CounterKey {
    TableAndKey(info.destNodeId, info.ackMsgCntr, info.sessionType, info.sessionId, false, 0)
  }

  /** It holds the UDP messages that its destination sent with the acknowledged counter. */
  lemma AckAddresses(ack: MessageInfo, m: Sending)
    ensures AckedKey(ack) == m.CounterKey() <==>
            && !m.isTcp && m.info.srcNodeId == ack.destNodeId && m.info.msgId == ack.ackMsgCntr
            && (m.info.sessionType == ENCRYPTION_NONE <==> ack.sessionType == ENCRYPTION_NONE)
  {
    assert SessionIdType(ack.sessionId) < TYPE_SESSION && SessionIdType(m.info.sessionId) < TYPE_SESSION;
  }

  // ---- Records ----

  class MessageRecord {
    const frameNum: nat
    const fingerprint: nat
    const isInitiator: bool
    var ackedByMsgRec: MessageRecord?
    var nextByMsgCntr: MessageRecord?
    var prevByMsgCntr: MessageRecord?
    var nextByExchange: MessageRecord?
    var prevByExchange: MessageRecord?

    // The message, where the record stands in the tracker's chains, and how many acknowledgements came before it.
    ghost const sending: Sending
    ghost const counterKey: CounterKey
    ghost const counterPos: nat
    ghost const exchangeKey: ExchangeKey
    ghost const exchangePos: nat
    ghost const bornAfter: nat

    constructor (frameNum: nat, fingerprint: nat, isInitiator: bool, ghost sending: Sending,
                 ghost counterKey: CounterKey, ghost counterPos: nat,
                 ghost exchangeKey: ExchangeKey, ghost exchangePos: nat, ghost bornAfter: nat)
      ensures this.frameNum == frameNum && this.fingerprint == fingerprint && this.isInitiator == isInitiator
      ensures this.sending == sending
      ensures this.counterKey == counterKey && this.counterPos == counterPos
      ensures this.exchangeKey == exchangeKey && this.exchangePos == exchangePos && this.bornAfter == bornAfter
      ensures ackedByMsgRec == null && nextByMsgCntr == null && prevByMsgCntr == null
      ensures nextByExchange == null && prevByExchange == null
    {
      this.frameNum, this.fingerprint, this.isInitiator := frameNum, fingerprint, isInitiator;
      this.sending, this.counterKey, this.counterPos := sending, counterKey, counterPos;
      this.exchangeKey, this.exchangePos, this.bornAfter := exchangeKey, exchangePos, bornAfter;
      ackedByMsgRec, nextByMsgCntr, prevByMsgCntr := null, null, null;
      nextByExchange, prevByExchange := null, null;
    }

    ghost function Value(): Message {
      Message(frameNum, fingerprint, isInitiator)
    }
  }

  /** The messages on a chain of records. */
  ghost function Messages(chain: seq<MessageRecord>): (ms: seq<Message>)
    ensures |ms| == |chain| && forall i :: 0 <= i < |ms| ==> ms[i] == chain[i].Value()
  {
    seq(|chain|, i requires 0 <= i < |chain| => chain[i].Value())
  }

  /** One call of FindAckedMessages: the chain it addressed and the acknowledging record. */
  datatype Ack = Ack(key: CounterKey, acker: MessageRecord)

  /** The frames of the calls that addressed `key`. */
  ghost function AckersOf(log: seq<Ack>, key: CounterKey): seq<nat> {
    if log == [] then []
    else
      var last := log[|log| - 1];
      AckersOf(log[..|log| - 1], key) + if last.key == key then [last.acker.frameNum] else []
  }

  ghost predicate CarriesMessage(r: MessageRecord) {
    && r.counterKey == r.sending.CounterKey() && r.exchangeKey == r.sending.info.Exchange()
    && r.fingerprint == r.sending.info.fingerprint && (r.isInitiator <==> r.sending.info.FromInitiator())
  }

  ghost predicate OrderIs(created: seq<MessageRecord>, counterChains: map<CounterKey, seq<MessageRecord>>,
                          exchangeChains: map<ExchangeKey, seq<MessageRecord>>)
  {
    && (forall k :: ChainOf(counterChains, k) == WithCounterKey(created, k))
    && (forall k :: ChainOf(exchangeChains, k) == WithExchangeKey(created, k))
  }

  ghost predicate Covers(records: set<MessageRecord>, counterChains: map<CounterKey, seq<MessageRecord>>,
                         exchangeChains: map<ExchangeKey, seq<MessageRecord>>, protoData: map<nat, MessageRecord>)
  {
    && (forall r :: r in records ==>
          && r.counterKey in counterChains && r.counterPos < |counterChains[r.counterKey]|
          && counterChains[r.counterKey][r.counterPos] == r
          && r.exchangeKey in exchangeChains && r.exchangePos < |exchangeChains[r.exchangeKey]|
          && exchangeChains[r.exchangeKey][r.exchangePos] == r
          && r.frameNum in protoData && protoData[r.frameNum] == r)
    && (forall f :: f in protoData ==> protoData[f] in records && protoData[f].frameNum == f)
  }

  /** The records created with a key, in order of creation. */
  ghost function WithCounterKey(created: seq<MessageRecord>, k: CounterKey): seq<MessageRecord> {
    if created == [] then []
    else
      var last := created[|created| - 1];
      WithCounterKey(created[..|created| - 1], k) + if last.counterKey == k then [last] else []
  }

  /** The records created with a key, in order of creation. */
  ghost function WithExchangeKey(created: seq<MessageRecord>, k: ExchangeKey): seq<MessageRecord> {
    if created == [] then []
    else
      var last := created[|created| - 1];
      WithExchangeKey(created[..|created| - 1], k) + if last.exchangeKey == k then [last] else []
  }

  ghost function ChainOf<K>(chains: map<K, seq<MessageRecord>>, k: K): seq<MessageRecord> {
    if k in chains then chains[k] else []
  }

  /** The record is where it says it is on its exchange chain. */
  ghost predicate OnExchange(chains: map<ExchangeKey, seq<MessageRecord>>, r: MessageRecord) {
    && r.exchangeKey in chains && r.exchangePos < |chains[r.exchangeKey]|
    && chains[r.exchangeKey][r.exchangePos] == r
  }

  /** The record that starts the exchange of `r`. */
  ghost function StartIn(chains: map<ExchangeKey, seq<MessageRecord>>, r: MessageRecord): MessageRecord
    requires OnExchange(chains, r)
  {
    var chain := chains[r.exchangeKey];
    chain[StartOfExchange(Messages(chain), r.exchangePos)]
  }

  /** The record is where it says it is on its counter chain. */
  ghost predicate OnCounter(chains: map<CounterKey, seq<MessageRecord>>, r: MessageRecord) {
    && r.counterKey in chains && r.counterPos < |chains[r.counterKey]|
    && chains[r.counterKey][r.counterPos] == r
  }

  /** What FindRetransmissions and FindReusedMessageIds say of a record. */
  datatype History = History(retransOf: MessageRecord?, retransNum: nat, totalRetrans: nat, reusesFrom: MessageRecord?)

  ghost function HistoryIn(chains: map<CounterKey, seq<MessageRecord>>, r: MessageRecord): History
    requires OnCounter(chains, r)
  {
    var chain, i := chains[r.counterKey], r.counterPos;
    var ms := Messages(chain);
    History(At(chain, RetransOf(ms, i)), RetransNum(ms, i), TotalRetrans(ms, i), At(chain, ReusesFrom(ms, i)))
  }

  /** A record at the end of a chain changes nobody's history, except that totals may grow. */
  lemma HistoryStays(chains: map<CounterKey, seq<MessageRecord>>, msgRec: MessageRecord, r: MessageRecord)
    requires OnCounter(chains, r)
    ensures var later := chains[msgRec.counterKey := ChainOf(chains, msgRec.counterKey) + [msgRec]];
            && OnCounter(later, r)
            && var h, h' := HistoryIn(chains, r), HistoryIn(later, r);
               h' == h.(totalRetrans := h'.totalRetrans) && h.totalRetrans <= h'.totalRetrans
  {
    var chain := chains[r.counterKey];
    if r.counterKey == msgRec.counterKey {
      assert Messages(chain + [msgRec]) == Messages(chain) + [msgRec.Value()];
      HistoryIsStable(Messages(chain), [msgRec.Value()], r.counterPos);
    }
  }

  /** A record at the end of a chain changes nobody's start of exchange. */
  lemma StartStays(chains: map<ExchangeKey, seq<MessageRecord>>, msgRec: MessageRecord, r: MessageRecord)
    requires OnExchange(chains, r)
    ensures var later := chains[msgRec.exchangeKey := ChainOf(chains, msgRec.exchangeKey) + [msgRec]];
            OnExchange(later, r) && StartIn(later, r) == StartIn(chains, r)
  {
    var chain := chains[r.exchangeKey];
    if r.exchangeKey == msgRec.exchangeKey {
      assert Messages(chain + [msgRec]) == Messages(chain) + [msgRec.Value()];
      StartIsStable(Messages(chain), [msgRec.Value()], r.exchangePos);
    }
  }

  /** A new record at the end of both of its chains is covered, and the others still are. */
  lemma Enrolled(records: set<MessageRecord>, counterChains: map<CounterKey, seq<MessageRecord>>,
                 exchangeChains: map<ExchangeKey, seq<MessageRecord>>, protoData: map<nat, MessageRecord>,
                 msgRec: MessageRecord)
    requires Covers(records, counterChains, exchangeChains, protoData) && msgRec.frameNum !in protoData
    requires msgRec.counterPos == |ChainOf(counterChains, msgRec.counterKey)|
    requires msgRec.exchangePos == |ChainOf(exchangeChains, msgRec.exchangeKey)|
    ensures Covers(records + {msgRec},
                   counterChains[msgRec.counterKey := ChainOf(counterChains, msgRec.counterKey) + [msgRec]],
                   exchangeChains[msgRec.exchangeKey := ChainOf(exchangeChains, msgRec.exchangeKey) + [msgRec]],
                   protoData[msgRec.frameNum := msgRec])
  {
  }

  /** What a call of FindAckedMessages leaves in the field of a record it passes. */
  ghost function Earlier(r: MessageRecord, acker: MessageRecord?, msgRec: MessageRecord): MessageRecord? {
    if r.frameNum < msgRec.frameNum && (acker == null || msgRec.frameNum < acker.frameNum) then msgRec else acker
  }

  /** Which calls were made decides every answer; their order and repetition do not. */
  lemma AcksIgnoreOrder(frame: nat, key: CounterKey, log: seq<Ack>, other: seq<Ack>)
    requires (forall a :: a in log ==> a in other) && (forall a :: a in other ==> a in log)
    ensures Earliest(frame, AckersOf(log, key)) == Earliest(frame, AckersOf(other, key))
  {
    forall f
      ensures f in AckersOf(log, key) <==> f in AckersOf(other, key)
    {
      if f in AckersOf(log, key) {
        AckersWithin(log, other, key, f);
      }
      if f in AckersOf(other, key) {
        AckersWithin(other, log, key, f);
      }
    }
    EarliestIgnoresOrder(frame, AckersOf(log, key), AckersOf(other, key));
  }

  lemma AckersWithin(log: seq<Ack>, other: seq<Ack>, key: CounterKey, f: nat)
    requires (forall a :: a in log ==> a in other) && f in AckersOf(log, key)
    ensures f in AckersOf(other, key)
  {
    AckersAre(log, key, f);
    AckersAre(other, key, f);
  }

  lemma {:induction false} AckersAre(log: seq<Ack>, key: CounterKey, f: nat)
    ensures f in AckersOf(log, key) <==> exists a :: a in log && a.key == key && a.acker.frameNum == f
  {
    if log != [] {
      var n := |log| - 1;
      AckersAre(log[..n], key, f);
      assert log == log[..n] + [log[n]];
    }
  }

  lemma AckersGrow(log: seq<Ack>, ack: Ack, key: CounterKey)
    ensures AckersOf(log + [ack], key) ==
            if ack.key == key then AckersOf(log, key) + [ack.acker.frameNum] else AckersOf(log, key)
  {
    assert (log + [ack])[..|log|] == log;
    assert AckersOf(log, key) + [] == AckersOf(log, key);
  }

  lemma EarliestGrows(frame: nat, ackers: seq<nat>, f: nat)
    ensures var e := Earliest(frame, ackers);
            Earliest(frame, ackers + [f]) == if frame < f && (e.None? || f < e.value) then Some(f) else e
  {
    assert (ackers + [f])[..|ackers|] == ackers;
  }

  // ---- What the loops over a chain look for ----

  ghost function At(chain: seq<MessageRecord>, i: int): MessageRecord?
    requires -1 <= i < |chain|
  {
    if i == -1 then null else chain[i]
  }

  /** `best` is the lowest-frame record between `lo` and `hi` that has, or has not, the fingerprint. */
  ghost predicate IsLowest(chain: seq<MessageRecord>, lo: nat, hi: nat, fingerprint: nat,
                           same: bool, best: MessageRecord?)
    requires lo <= hi <= |chain|
  {
    && (best != null ==> best in chain[lo..hi] && (best.fingerprint == fingerprint) == same)
    && (forall i :: lo <= i < hi && (chain[i].fingerprint == fingerprint) == same ==>
                      best != null && best.frameNum <= chain[i].frameNum)
  }

  /** `best` is the highest-frame record among `ackedMsg` and the first `n` records below `frame`. */
  ghost predicate IsLatest(chain: seq<MessageRecord>, n: nat, frame: nat,
                           ackedMsg: MessageRecord?, best: MessageRecord?)
    requires n <= |chain|
  {
    && (best == null || best == ackedMsg || (best in chain[..n] && best.frameNum < frame))
    && (ackedMsg != null ==> best != null && ackedMsg.frameNum <= best.frameNum)
    && (forall i :: 0 <= i < n && chain[i].frameNum < frame ==> best != null && chain[i].frameNum <= best.frameNum)
  }

  lemma LowestOfNone(chain: seq<MessageRecord>, pos: nat, fingerprint: nat, same: bool)
    requires pos <= |chain|
    ensures IsLowest(chain, pos, pos, fingerprint, same, null)
  {
  }

  lemma LowestBefore(chain: seq<MessageRecord>, i: nat, hi: nat, fingerprint: nat, same: bool, best: MessageRecord?)
    requires i < hi <= |chain| && IsLowest(chain, i + 1, hi, fingerprint, same, best)
    ensures var p := chain[i];
            var next := if (p.fingerprint == fingerprint) == same &&
                (best == null || p.frameNum < best.frameNum) then p else best;
            IsLowest(chain, i, hi, fingerprint, same, next)
  {
    assert chain[i..hi] == [chain[i]] + chain[i + 1..hi];
  }

  lemma CountBefore(ms: seq<Message>, i: nat, hi: nat, fingerprint: nat)
    requires i < hi <= |ms|
    ensures Count(ms[i..hi], fingerprint, true) ==
            Count(ms[i + 1..hi], fingerprint, true) + if ms[i].fingerprint == fingerprint then 1 else 0
  {
    CountSplits(ms[i..hi], 0, fingerprint);
    assert ms[i..hi][1..] == ms[i + 1..hi];
  }

  lemma CountAfter(ms: seq<Message>, lo: nat, i: nat, fingerprint: nat)
    requires lo <= i < |ms|
    ensures Count(ms[lo..lo], fingerprint, true) == 0
    ensures Count(ms[lo..i + 1], fingerprint, true) ==
            Count(ms[lo..i], fingerprint, true) + if ms[i].fingerprint == fingerprint then 1 else 0
  {
    assert ms[lo..i + 1][..i - lo] == ms[lo..i];
  }

  lemma LatestOfNone(chain: seq<MessageRecord>, frame: nat, ackedMsg: MessageRecord?)
    ensures IsLatest(chain, 0, frame, ackedMsg, ackedMsg)
  {
  }

  lemma LatestAfter(chain: seq<MessageRecord>, i: nat, frame: nat, ackedMsg: MessageRecord?, best: MessageRecord?)
    requires i < |chain| && IsLatest(chain, i, frame, ackedMsg, best)
    ensures var p := chain[i];
            var next := if p.frameNum < frame && (best == null || p.frameNum > best.frameNum) then p else best;
            IsLatest(chain, i + 1, frame, ackedMsg, next)
  {
    assert chain[..i + 1] == chain[..i] + [chain[i]];
  }

  lemma LowestIsAt(chain: seq<MessageRecord>, pos: nat, fingerprint: nat, same: bool, best: MessageRecord?)
    requires pos <= |chain| && IsLowest(chain, 0, pos, fingerprint, same, best)
    requires forall i, j :: 0 <= i < j < |chain| ==> chain[i].frameNum != chain[j].frameNum
    ensures best == At(chain, Lowest(Messages(chain)[..pos], fingerprint, same))
  {
    var part := Messages(chain)[..pos];
    LowestIsLeast(part, fingerprint, same);
    assert forall i :: 0 <= i < pos ==> part[i] == chain[i].Value();
    if best != null {
      var b :| 0 <= b < pos && chain[b] == best;
      assert part[b] == best.Value();
    }
  }

  class MessageTracker {
    var messageIdTable: map<CounterKey, MessageRecord>
    var exchangeTable: map<ExchangeKey, MessageRecord>
    /** The record attached to each packet. */
    var protoData: map<nat, MessageRecord>

    ghost var records: set<MessageRecord>
    ghost var created: seq<MessageRecord>
    ghost var counterChains: map<CounterKey, seq<MessageRecord>>
    ghost var exchangeChains: map<ExchangeKey, seq<MessageRecord>>
    ghost var acks: seq<Ack>

    /** Every chain starts at its table entry and is doubly linked in order. */
    ghost predicate CountersLinked()
      reads this`messageIdTable, this`counterChains, this`records, records`nextByMsgCntr, records`prevByMsgCntr
    {
      && messageIdTable.Keys == counterChains.Keys
      && (forall k :: k in counterChains ==> counterChains[k] != [] && messageIdTable[k] == counterChains[k][0])
      && (forall k, i :: k in counterChains && 0 <= i < |counterChains[k]| ==> CounterLinked(k, counterChains[k], i))
    }

    ghost predicate ExchangesLinked()
      reads this`exchangeTable, this`exchangeChains, this`records, records`nextByExchange, records`prevByExchange
    {
      && exchangeTable.Keys == exchangeChains.Keys
      && (forall k :: k in exchangeChains ==> exchangeChains[k] != [] && exchangeTable[k] == exchangeChains[k][0])
      && (forall k, i :: k in exchangeChains && 0 <= i < |exchangeChains[k]| ==>
            ExchangeLinked(k, exchangeChains[k], i))
    }

    /** Record `i` of the chain of `k` knows its neighbours. */
    ghost predicate CounterLinked(k: CounterKey, chain: seq<MessageRecord>, i: nat)
      requires i < |chain|
      reads this`records, records`nextByMsgCntr, records`prevByMsgCntr
    {
      && chain[i] in records && chain[i].counterKey == k && chain[i].counterPos == i
      && chain[i].nextByMsgCntr == (if i + 1 < |chain| then chain[i + 1] else null)
      && chain[i].prevByMsgCntr == (if i > 0 then chain[i - 1] else null)
    }

    /** Record `i` of the chain of `k` knows its neighbours. */
    ghost predicate ExchangeLinked(k: ExchangeKey, chain: seq<MessageRecord>, i: nat)
      requires i < |chain|
      reads this`records, records`nextByExchange, records`prevByExchange
    {
      && chain[i] in records && chain[i].exchangeKey == k && chain[i].exchangePos == i
      && chain[i].nextByExchange == (if i + 1 < |chain| then chain[i + 1] else null)
      && chain[i].prevByExchange == (if i > 0 then chain[i - 1] else null)
    }

    /** Every record is on the two chains of its keys, and belongs to exactly one packet. */
    ghost predicate Covered()
      reads this`records, this`created, this`counterChains, this`exchangeChains, this`protoData
    {
      && records == (set r | r in created)
      && Covers(records, counterChains, exchangeChains, protoData)
    }

    /** Each chain holds exactly the records of its key, in order of creation. */
    ghost predicate InOrder()
      reads this`created, this`counterChains, this`exchangeChains
    {
      OrderIs(created, counterChains, exchangeChains)
    }

    /** Each record points at the earliest acknowledgement among the calls since it was added. */
    ghost predicate Acknowledged()
      reads this`records, this`acks, records`ackedByMsgRec
    {
      && (forall i :: 0 <= i < |acks| ==> acks[i].acker in records)
      && (forall r :: r in records ==> r.bornAfter <= |acks| && IsEarliest(r, r.ackedByMsgRec, acks[r.bornAfter..]))
    }

    ghost predicate IsEarliest(r: MessageRecord, acker: MessageRecord?, since: seq<Ack>)
      reads this`records
    {
      var e := Earliest(r.frameNum, AckersOf(since, r.counterKey));
      if acker == null then e.None? else acker in records && e == Some(acker.frameNum)
    }

    /** Each record carries what its message says. */
    ghost predicate Keyed()
      reads this`records
    {
      forall r :: r in records ==> CarriesMessage(r)
    }

    ghost predicate Valid()
      reads this, records
    {
      Keyed() && CountersLinked() && ExchangesLinked() && Covered() && InOrder() && Acknowledged()
    }

    ghost function StartOf(r: MessageRecord): MessageRecord
      requires Covered() && r in records
      reads this`records, this`created, this`counterChains, this`exchangeChains, this`protoData
    {
      StartIn(exchangeChains, r)
    }

    ghost function HistoryOf(r: MessageRecord): History
      requires Covered() && r in records
      reads this`records, this`created, this`counterChains, this`exchangeChains, this`protoData
    {
      HistoryIn(counterChains, r)
    }

    constructor ()
      ensures Valid() && created == [] && acks == []
    {
      messageIdTable, exchangeTable, protoData := map[], map[], map[];
      records, created, acks := {}, [], [];
      counterChains, exchangeChains := map[], map[];
    }

    /** Appends at the end of the chain; the table entry changes only for a new chain. */
    method AddMessageToMessageIdTable(k: CounterKey, msgRec: MessageRecord)
      requires CountersLinked() && msgRec in records
      requires msgRec.counterKey == k && msgRec.counterPos == |ChainOf(counterChains, k)|
      requires msgRec.nextByMsgCntr == null && msgRec.prevByMsgCntr == null
      modifies this`messageIdTable, this`counterChains, records`nextByMsgCntr, records`prevByMsgCntr
      ensures CountersLinked()
      ensures counterChains == old(counterChains)[k := ChainOf(old(counterChains), k) + [msgRec]]
      ensures k in old(messageIdTable) ==> messageIdTable == old(messageIdTable)
    {
      var p := if k in messageIdTable then messageIdTable[k] else null;
      var lastMsgRec: MessageRecord? := null;
      ghost var chain := ChainOf(counterChains, k);
      ghost var i := 0;
      while p != null
        invariant i <= |chain| && p == (if i < |chain| then chain[i] else null)
        invariant lastMsgRec == (if i > 0 then chain[i - 1] else null)
        decreases |chain| - i
      {
        assert chain == counterChains[k] && CounterLinked(k, chain, i);
        lastMsgRec := p;
        p := p.nextByMsgCntr;
        i := i + 1;
      }
      if lastMsgRec != null {
        assert chain == counterChains[k] && CounterLinked(k, chain, i - 1);
        lastMsgRec.nextByMsgCntr := msgRec;
        msgRec.prevByMsgCntr := lastMsgRec;
      } else {
        messageIdTable := messageIdTable[k := msgRec];
      }
      counterChains := counterChains[k := chain + [msgRec]];
      forall k', j | k' in counterChains && 0 <= j < |counterChains[k']|
        ensures CounterLinked(k', counterChains[k'], j)
      {
        if k' != k || j < |chain| {
          assert old(CounterLinked(k', counterChains[k'], j));
        }
      }
    }

    method AddMessageToExchangeTable(k: ExchangeKey, msgRec: MessageRecord)
      requires ExchangesLinked() && msgRec in records
      requires msgRec.exchangeKey == k && msgRec.exchangePos == |ChainOf(exchangeChains, k)|
      requires msgRec.nextByExchange == null && msgRec.prevByExchange == null
      modifies this`exchangeTable, this`exchangeChains, records`nextByExchange, records`prevByExchange
      ensures ExchangesLinked()
      ensures exchangeChains == old(exchangeChains)[k := ChainOf(old(exchangeChains), k) + [msgRec]]
      ensures k in old(exchangeTable) ==> exchangeTable == old(exchangeTable)
    {
      var p := if k in exchangeTable then exchangeTable[k] else null;
      var lastMsgRec: MessageRecord? := null;
      ghost var chain := ChainOf(exchangeChains, k);
      ghost var i := 0;
      while p != null
        invariant i <= |chain| && p == (if i < |chain| then chain[i] else null)
        invariant lastMsgRec == (if i > 0 then chain[i - 1] else null)
        decreases |chain| - i
      {
        assert chain == exchangeChains[k] && ExchangeLinked(k, chain, i);
        lastMsgRec := p;
        p := p.nextByExchange;
        i := i + 1;
      }
      if lastMsgRec != null {
        assert chain == exchangeChains[k] && ExchangeLinked(k, chain, i - 1);
        lastMsgRec.nextByExchange := msgRec;
        msgRec.prevByExchange := lastMsgRec;
      } else {
        exchangeTable := exchangeTable[k := msgRec];
      }
      exchangeChains := exchangeChains[k := chain + [msgRec]];
      forall k', j | k' in exchangeChains && 0 <= j < |exchangeChains[k']|
        ensures ExchangeLinked(k', exchangeChains[k'], j)
      {
        if k' != k || j < |chain| {
          assert old(ExchangeLinked(k', exchangeChains[k'], j));
        }
      }
    }

    /** The one record of a packet, or null if none was ever created for it. */
    method FindMessageRecord(frameNum: nat) returns (msgRec: MessageRecord?)
      requires Valid()
      ensures msgRec != null ==> msgRec in records && msgRec.frameNum == frameNum
      ensures msgRec == null <==> forall r :: r in created ==> r.frameNum != frameNum
    {
      hide CountersLinked, ExchangesLinked, InOrder, Acknowledged;
      msgRec := if frameNum in protoData then protoData[frameNum] else null;
    }

    /** A packet's record, made and put at the end of both of its chains the first time. */
    method FindOrCreateMessageRecord(frameNum: nat, isTcp: bool, streamId: nat, info: MessageInfo)
      returns (msgRec: MessageRecord)
      requires Valid()
      modifies this, records`nextByMsgCntr, records`prevByMsgCntr, records`nextByExchange, records`prevByExchange
      ensures Valid() && acks == old(acks)
      ensures frameNum in protoData && protoData[frameNum] == msgRec
      ensures frameNum in old(protoData) ==>
                created == old(created) && counterChains == old(counterChains) && exchangeChains == old(exchangeChains)
      ensures frameNum !in old(protoData) ==>
                var k := Sending(info, isTcp, streamId).CounterKey();
                && fresh(msgRec) && created == old(created) + [msgRec]
                && msgRec.sending == Sending(info, isTcp, streamId)
                && msgRec.Value() == Message(frameNum, info.fingerprint, info.FromInitiator())
                && msgRec.ackedByMsgRec == null && msgRec.bornAfter == |acks|
                && counterChains == old(counterChains)[k := ChainOf(old(counterChains), k) + [msgRec]]
                && exchangeChains ==
                   old(exchangeChains)[info.Exchange() := ChainOf(old(exchangeChains), info.Exchange()) + [msgRec]]
                && (k in old(messageIdTable) ==> messageIdTable == old(messageIdTable))
                && (info.Exchange() in old(exchangeTable) ==> exchangeTable == old(exchangeTable))
      ensures forall r :: r in old(records) ==>
                && r in records && StartOf(r) == old(StartOf(r))
                && HistoryOf(r) == old(HistoryOf(r)).(totalRetrans := HistoryOf(r).totalRetrans)
                && old(HistoryOf(r)).totalRetrans <= HistoryOf(r).totalRetrans
    {
      hide CountersLinked, ExchangesLinked, Covered, InOrder, Acknowledged, TableAndKey;
      if frameNum in protoData {
        msgRec := protoData[frameNum];
      } else {
        var key := TableAndKey(info.srcNodeId, info.msgId, info.sessionType, info.sessionId,
                               isTcp, if isTcp then streamId else 0);
        msgRec := CreateMessageRecord(frameNum, key, info, Sending(info, isTcp, streamId));
        forall r | r in old(records)
          ensures r in records && StartOf(r) == old(StartOf(r))
          ensures HistoryOf(r) == old(HistoryOf(r)).(totalRetrans := HistoryOf(r).totalRetrans)
          ensures old(HistoryOf(r)).totalRetrans <= HistoryOf(r).totalRetrans
        {
          CoveredOnChains(r);
          StartStays(old(exchangeChains), msgRec, r);
          HistoryStays(old(counterChains), msgRec, r);
        }
      }
    }

    twostate lemma CoveredOnChains(r: MessageRecord)
      requires old(Covered()) && r in old(records)
      ensures OnExchange(old(exchangeChains), r) && OnCounter(old(counterChains), r)
    {
    }

    method CreateMessageRecord(frameNum: nat, key: CounterKey, info: MessageInfo, ghost sending: Sending)
      returns (msgRec: MessageRecord)
      requires Valid() && frameNum !in protoData && sending.info == info && key == sending.CounterKey()
      modifies this, records`nextByMsgCntr, records`prevByMsgCntr, records`nextByExchange, records`prevByExchange
      ensures Valid() && acks == old(acks)
      ensures protoData == old(protoData)[frameNum := msgRec] && fresh(msgRec) && created == old(created) + [msgRec]
      ensures records == old(records) + {msgRec}
      ensures msgRec.exchangeKey == info.Exchange() && msgRec.counterKey == key && msgRec.sending == sending
      ensures msgRec.Value() == Message(frameNum, info.fingerprint, info.FromInitiator())
      ensures msgRec.ackedByMsgRec == null && msgRec.bornAfter == |acks|
      ensures counterChains == old(counterChains)[key := ChainOf(old(counterChains), key) + [msgRec]]
      ensures exchangeChains ==
              old(exchangeChains)[info.Exchange() := ChainOf(old(exchangeChains), info.Exchange()) + [msgRec]]
      ensures key in old(messageIdTable) ==> messageIdTable == old(messageIdTable)
      ensures info.Exchange() in old(exchangeTable) ==> exchangeTable == old(exchangeTable)
    {
      hide CountersLinked, ExchangesLinked, Covers, OrderIs, Acknowledged, IsEarliest, CounterLinked, ExchangeLinked,
           WithCounterKey, WithExchangeKey, MessageInfo.Exchange, Sending.CounterKey;
      msgRec := new MessageRecord(frameNum, info.fingerprint, info.FromInitiator(), sending,
                                  key, |ChainOf(counterChains, key)|,
                                  info.Exchange(), |ChainOf(exchangeChains, info.Exchange())|, |acks|);
      records := records + {msgRec};
      created := created + [msgRec];
      KeepsLinks(old(records));
      Enrolled(old(records), counterChains, exchangeChains, protoData, msgRec);
      OrderGrows(old(created), counterChains, exchangeChains, msgRec);
      OneMore(old(created), msgRec);
      Enroll(msgRec, key, info.Exchange());
      StaysAcknowledged(msgRec);
    }

    static lemma OneMore(created: seq<MessageRecord>, msgRec: MessageRecord)
      ensures (set r | r in created + [msgRec]) == (set r | r in created) + {msgRec}
    {
    }

    /** Adding the newest record at the end of its chains keeps them in order of creation. */
    static lemma OrderGrows(created: seq<MessageRecord>, counterChains: map<CounterKey, seq<MessageRecord>>,
                     exchangeChains: map<ExchangeKey, seq<MessageRecord>>, msgRec: MessageRecord)
      requires OrderIs(created, counterChains, exchangeChains)
      ensures OrderIs(created + [msgRec],
                      counterChains[msgRec.counterKey := ChainOf(counterChains, msgRec.counterKey) + [msgRec]],
                      exchangeChains[msgRec.exchangeKey := ChainOf(exchangeChains, msgRec.exchangeKey) + [msgRec]])
    {
      hide ChainOf, WithCounterKey, WithExchangeKey;
      forall k {
        CounterOrderGrows(created, counterChains, msgRec, k);
      }
      forall k {
        ExchangeOrderGrows(created, exchangeChains, msgRec, k);
      }
    }

    static lemma CounterOrderGrows(created: seq<MessageRecord>, chains: map<CounterKey, seq<MessageRecord>>,
                                   msgRec: MessageRecord, k: CounterKey)
      requires ChainOf(chains, k) == WithCounterKey(created, k)
      ensures var key := msgRec.counterKey;
              ChainOf(chains[key := ChainOf(chains, key) + [msgRec]], k) == WithCounterKey(created + [msgRec], k)
    {
      assert (created + [msgRec])[..|created|] == created;
      assert WithCounterKey(created, k) + [] == WithCounterKey(created, k);
    }

    static lemma ExchangeOrderGrows(created: seq<MessageRecord>, chains: map<ExchangeKey, seq<MessageRecord>>,
                                    msgRec: MessageRecord, k: ExchangeKey)
      requires ChainOf(chains, k) == WithExchangeKey(created, k)
      ensures var key := msgRec.exchangeKey;
              ChainOf(chains[key := ChainOf(chains, key) + [msgRec]], k) == WithExchangeKey(created + [msgRec], k)
    {
      assert (created + [msgRec])[..|created|] == created;
      assert WithExchangeKey(created, k) + [] == WithExchangeKey(created, k);
    }

    /** Puts a new record on its chains and attaches it to its packet. */
    method Enroll(msgRec: MessageRecord, k: CounterKey, e: ExchangeKey)
      requires CountersLinked() && ExchangesLinked() && msgRec in records
      requires msgRec.counterKey == k && msgRec.counterPos == |ChainOf(counterChains, k)|
      requires msgRec.exchangeKey == e && msgRec.exchangePos == |ChainOf(exchangeChains, e)|
      requires msgRec.nextByMsgCntr == null && msgRec.prevByMsgCntr == null
      requires msgRec.nextByExchange == null && msgRec.prevByExchange == null
      modifies this`messageIdTable, this`counterChains, this`exchangeTable, this`exchangeChains, this`protoData
      modifies records`nextByMsgCntr, records`prevByMsgCntr, records`nextByExchange, records`prevByExchange
      ensures CountersLinked() && ExchangesLinked()
      ensures counterChains == old(counterChains)[k := ChainOf(old(counterChains), k) + [msgRec]]
      ensures exchangeChains == old(exchangeChains)[e := ChainOf(old(exchangeChains), e) + [msgRec]]
      ensures k in old(messageIdTable) ==> messageIdTable == old(messageIdTable)
      ensures e in old(exchangeTable) ==> exchangeTable == old(exchangeTable)
      ensures protoData == old(protoData)[msgRec.frameNum := msgRec]
    {
      hide CountersLinked, ExchangesLinked;
      AddMessageToMessageIdTable(k, msgRec);
      AddMessageToExchangeTable(e, msgRec);
      protoData := protoData[msgRec.frameNum := msgRec];
    }

    /** A new record has no acknowledgement yet, and the others keep theirs. */
    twostate lemma StaysAcknowledged(new msgRec: MessageRecord)
      requires old(Acknowledged()) && records == old(records) + {msgRec} && acks == old(acks)
      requires msgRec.ackedByMsgRec == null && msgRec.bornAfter == |acks|
      requires forall r :: r in old(records) ==> r.ackedByMsgRec == old(r.ackedByMsgRec)
      ensures Acknowledged()
    {
      forall r | r in records
        ensures r.bornAfter <= |acks| && IsEarliest(r, r.ackedByMsgRec, acks[r.bornAfter..])
      {
        if r in old(records) {
          assert old(IsEarliest(r, r.ackedByMsgRec, acks[r.bornAfter..]));
        }
      }
    }

    /** A larger set of records leaves the chains linked. */
    twostate lemma KeepsLinks(before: set<MessageRecord>)
      requires before == old(records) <= records && old(CountersLinked()) && old(ExchangesLinked())
      requires messageIdTable == old(messageIdTable) && counterChains == old(counterChains)
      requires exchangeTable == old(exchangeTable) && exchangeChains == old(exchangeChains)
      requires forall r :: r in before ==> unchanged(r)
      ensures CountersLinked() && ExchangesLinked()
    {
      forall k, i | k in counterChains && 0 <= i < |counterChains[k]|
        ensures CounterLinked(k, counterChains[k], i)
      {
        assert old(CounterLinked(k, counterChains[k], i));
      }
      forall k, i | k in exchangeChains && 0 <= i < |exchangeChains[k]|
        ensures ExchangeLinked(k, exchangeChains[k], i)
      {
        assert old(ExchangeLinked(k, exchangeChains[k], i));
      }
    }

    /** The first message of the exchange a record belongs to. */
    method FindStartOfExchange(msgRec: MessageRecord) returns (start: MessageRecord)
      requires Valid() && msgRec in records
      ensures start == StartOf(msgRec)
    {
      hide CountersLinked, InOrder, Acknowledged;
      ghost var chain := exchangeChains[msgRec.exchangeKey];
      ghost var ms := Messages(chain);
      ghost var pos := msgRec.exchangePos;
      var firstInChain := msgRec;
      var p: MessageRecord? := msgRec;
      ghost var i: int := pos;
      while p != null
        invariant -1 <= i <= pos && p == (if i >= 0 then chain[i] else null)
        invariant i < 0 ==> firstInChain == chain[0] && StartOfExchange(ms, pos) == 0
        invariant i >= 0 ==> StartOfExchange(ms, i) == StartOfExchange(ms, pos)
        decreases i
      {
        assert ExchangeLinked(msgRec.exchangeKey, chain, i);
        firstInChain := p;
        if p.isInitiator {
          start := p;
          ghost var j: nat := i;
          while start.prevByExchange != null && start.prevByExchange.isInitiator
                && start.prevByExchange.fingerprint == start.fingerprint
            invariant j <= i && start == chain[j] && FirstOfRun(ms, j) == StartOfExchange(ms, pos)
            invariant ExchangeLinked(msgRec.exchangeKey, chain, j)
            decreases j
          {
            start := start.prevByExchange;
            j := j - 1;
            assert ExchangeLinked(msgRec.exchangeKey, chain, j);
          }
          return start;
        }
        p := p.prevByExchange;
        i := i - 1;
      }
      start := firstInChain;
    }

    /** The earliest-frame earlier message with the same counter and other content, if any. */
    method FindReusedMessageIds(msgRec: MessageRecord) returns (reusesFrom: MessageRecord?)
      requires Valid() && msgRec in records
      ensures reusesFrom == HistoryOf(msgRec).reusesFrom
    {
      hide ExchangesLinked, InOrder, Acknowledged, IsLowest;
      ghost var chain := counterChains[msgRec.counterKey];
      ghost var pos := msgRec.counterPos;
      reusesFrom := null;
      LowestOfNone(chain, pos, msgRec.fingerprint, false);
      var p := msgRec.prevByMsgCntr;
      ghost var i := pos;
      assert CounterLinked(msgRec.counterKey, chain, pos);
      while p != null
        invariant 0 <= i <= pos && p == (if i > 0 then chain[i - 1] else null)
        invariant IsLowest(chain, i, pos, msgRec.fingerprint, false, reusesFrom)
        decreases i
      {
        i := i - 1;
        assert CounterLinked(msgRec.counterKey, chain, i);
        LowestBefore(chain, i, pos, msgRec.fingerprint, false, reusesFrom);
        if msgRec.fingerprint != p.fingerprint {
          if reusesFrom == null || p.frameNum < reusesFrom.frameNum {
            reusesFrom := p;
          }
        }
        p := p.prevByMsgCntr;
      }
      FramesDiffer(msgRec.counterKey);
      LowestIsAt(chain, pos, msgRec.fingerprint, false, reusesFrom);
    }

    /** Which message this one retransmits, how many times it was sent before, and in all. */
    method FindRetransmissions(msgRec: MessageRecord)
      returns (retransOf: MessageRecord?, retransNum: nat, totalRetrans: nat)
      requires Valid() && msgRec in records
      ensures var h := HistoryOf(msgRec);
              retransOf == h.retransOf && retransNum == h.retransNum && totalRetrans == h.totalRetrans
    {
      hide ExchangesLinked, InOrder, Acknowledged, IsLowest;
      ghost var chain := counterChains[msgRec.counterKey];
      ghost var ms := Messages(chain);
      ghost var pos := msgRec.counterPos;
      ghost var fp := msgRec.fingerprint;
      retransOf, retransNum, totalRetrans := null, 0, 0;
      var p := msgRec.prevByMsgCntr;
      ghost var i := pos;
      assert CounterLinked(msgRec.counterKey, chain, pos);
      LowestOfNone(chain, pos, fp, true);
      while p != null
        invariant 0 <= i <= pos && p == (if i > 0 then chain[i - 1] else null)
        invariant retransNum == totalRetrans == Count(ms[i..pos], fp, true)
        invariant IsLowest(chain, i, pos, fp, true, retransOf)
        decreases i
      {
        i := i - 1;
        assert CounterLinked(msgRec.counterKey, chain, i);
        CountBefore(ms, i, pos, fp);
        LowestBefore(chain, i, pos, fp, true, retransOf);
        if msgRec.fingerprint == p.fingerprint {
          if retransOf == null || p.frameNum < retransOf.frameNum {
            retransOf := p;
          }
          retransNum := retransNum + 1;
          totalRetrans := totalRetrans + 1;
        }
        p := p.prevByMsgCntr;
      }
      assert ms[0..pos] == ms[..pos];
      FramesDiffer(msgRec.counterKey);
      LowestIsAt(chain, pos, fp, true, retransOf);
      totalRetrans := CountLater(msgRec, totalRetrans);
    }

    lemma OnItsChain(msgRec: MessageRecord)
      requires Covered() && msgRec in records
      ensures msgRec.counterKey in counterChains && msgRec.counterPos < |counterChains[msgRec.counterKey]|
      ensures counterChains[msgRec.counterKey][msgRec.counterPos] == msgRec
    {
    }

    /** Adds the retransmissions after the message. */
    method CountLater(msgRec: MessageRecord, earlier: nat) returns (totalRetrans: nat)
      requires CountersLinked() && Covered() && msgRec in records
      ensures var ms := Messages(counterChains[msgRec.counterKey]);
              totalRetrans == earlier + Count(ms[msgRec.counterPos + 1..], msgRec.fingerprint, true)
    {
      hide Covered, Count;
      OnItsChain(msgRec);
      ghost var chain := counterChains[msgRec.counterKey];
      ghost var ms := Messages(chain);
      ghost var pos := msgRec.counterPos;
      totalRetrans := earlier;
      assert CounterLinked(msgRec.counterKey, chain, pos);
      var p := msgRec.nextByMsgCntr;
      ghost var i := pos + 1;
      while p != null
        invariant pos < i <= |chain| && p == (if i < |chain| then chain[i] else null)
        invariant totalRetrans == earlier + Count(ms[pos + 1..i], msgRec.fingerprint, true)
        decreases |chain| - i
      {
        assert CounterLinked(msgRec.counterKey, chain, i);
        CountAfter(ms, pos + 1, i, msgRec.fingerprint);
        if msgRec.fingerprint == p.fingerprint {
          totalRetrans := totalRetrans + 1;
        }
        p := p.nextByMsgCntr;
        i := i + 1;
      }
      assert ms[pos + 1..|chain|] == ms[pos + 1..];
    }

    /** Records of one chain belong to different packets. */
    lemma FramesDiffer(k: CounterKey)
      requires CountersLinked() && Covered() && k in counterChains
      ensures var chain := counterChains[k];
              forall i, j :: 0 <= i < j < |chain| ==> chain[i].frameNum != chain[j].frameNum
    {
      var chain := counterChains[k];
      forall i, j | 0 <= i < j < |chain|
        ensures chain[i].frameNum != chain[j].frameNum
      {
        assert CounterLinked(k, chain, i) && CounterLinked(k, chain, j);
      }
    }

    /**
      Marks the messages this one acknowledges, and reports the latest of them. A record keeps
      the earliest message that acknowledged it.
     */
    method FindAckedMessages(isUdp: bool, msgRec: MessageRecord, info: MessageInfo, ackedMsg: MessageRecord?)
      returns (latest: MessageRecord?)
      requires Valid() && msgRec in records
      modifies this`acks, records`ackedByMsgRec
      ensures Valid()
      ensures !(isUdp && info.msgVersion > 1 && info.HasAck()) ==>
                latest == ackedMsg && acks == old(acks) && forall r :: r in records ==> unchanged(r)
      ensures isUdp && info.msgVersion > 1 && info.HasAck() ==>
                var k := AckedKey(info);
                && acks == old(acks) + [Ack(k, msgRec)]
                && IsLatest(ChainOf(counterChains, k), |ChainOf(counterChains, k)|, msgRec.frameNum, ackedMsg, latest)
    {
      hide CountersLinked, ExchangesLinked, Covered, InOrder, TableAndKey, IsLatest, IsEarliest;
      latest := ackedMsg;
      if isUdp && info.msgVersion > 1 && info.HasAck() {
        var k := TableAndKey(info.destNodeId, info.ackMsgCntr, info.sessionType, info.sessionId, false, 0);
        ghost var before := map r | r in records :: r.ackedByMsgRec;
        latest := MarkAcked(k, msgRec, ackedMsg);
        LogAck(k, msgRec, before);
      }
    }

    /** Logs a call that has marked its chain. */
    ghost method LogAck(k: CounterKey, msgRec: MessageRecord, before: map<MessageRecord, MessageRecord?>)
      requires before.Keys == records && msgRec in records
      requires forall i :: 0 <= i < |acks| ==> acks[i].acker in records
      requires forall r :: r in records ==> r.bornAfter <= |acks| && IsEarliest(r, before[r], acks[r.bornAfter..])
      requires forall r :: r in records ==>
                 r.ackedByMsgRec == if r.counterKey == k then Earlier(r, before[r], msgRec) else before[r]
      modifies this`acks
      ensures acks == old(acks) + [Ack(k, msgRec)] && Acknowledged()
    {
      ghost var log := acks;
      acks := acks + [Ack(k, msgRec)];
      forall r | r in records
        ensures r.bornAfter <= |acks| && IsEarliest(r, r.ackedByMsgRec, acks[r.bornAfter..])
      {
        AckIsLogged(r, before[r], log[r.bornAfter..], k, msgRec);
        assert acks[r.bornAfter..] == log[r.bornAfter..] + [Ack(k, msgRec)];
      }
    }

    /** The records of a key are the ones on its chain. */
    lemma OnTheirChain(k: CounterKey)
      requires Covered()
      ensures var chain := ChainOf(counterChains, k);
              forall r :: r in records && r.counterKey == k ==> r.counterPos < |chain| && chain[r.counterPos] == r
    {
    }

    method MarkAcked(k: CounterKey, msgRec: MessageRecord, ackedMsg: MessageRecord?) returns (latest: MessageRecord?)
      requires CountersLinked() && Covered()
      modifies records`ackedByMsgRec
      ensures IsLatest(ChainOf(counterChains, k), |ChainOf(counterChains, k)|, msgRec.frameNum, ackedMsg, latest)
      ensures forall r :: r in records ==>
                r.ackedByMsgRec ==
                if r.counterKey == k then Earlier(r, old(r.ackedByMsgRec), msgRec) else old(r.ackedByMsgRec)
    {
      hide IsLatest, Covers;
      latest := ackedMsg;
      var p := if k in messageIdTable then messageIdTable[k] else null;
      ghost var chain := ChainOf(counterChains, k);
      OnTheirChain(k);
      LatestOfNone(chain, msgRec.frameNum, ackedMsg);
      ghost var i := 0;
      while p != null
        invariant 0 <= i <= |chain| && p == (if i < |chain| then chain[i] else null)
        invariant IsLatest(chain, i, msgRec.frameNum, ackedMsg, latest)
        invariant forall r :: r in records ==>
                    r.ackedByMsgRec == if r.counterKey == k && r.counterPos < i
                                       then Earlier(r, old(r.ackedByMsgRec), msgRec) else old(r.ackedByMsgRec)
        decreases |chain| - i
      {
        assert chain == counterChains[k] && CounterLinked(k, chain, i);
        LatestAfter(chain, i, msgRec.frameNum, ackedMsg, latest);
        if p.frameNum < msgRec.frameNum {
          if p.ackedByMsgRec == null || msgRec.frameNum < p.ackedByMsgRec.frameNum {
            p.ackedByMsgRec := msgRec;
          }
          if latest == null || p.frameNum > latest.frameNum {
            latest := p;
          }
        }
        p := p.nextByMsgCntr;
        i := i + 1;
      }
    }

    /** Marking a chain is what logging the call asks of a record. */
    lemma AckIsLogged(r: MessageRecord, acker: MessageRecord?, since: seq<Ack>, k: CounterKey, msgRec: MessageRecord)
      requires IsEarliest(r, acker, since) && msgRec in records
      ensures IsEarliest(r, if r.counterKey == k then Earlier(r, acker, msgRec) else acker, since + [Ack(k, msgRec)])
    {
      AckersGrow(since, Ack(k, msgRec), r.counterKey);
      EarliestGrows(r.frameNum, AckersOf(since, r.counterKey), msgRec.frameNum);
    }

    /** Two records are on one exchange chain exactly if their messages belong to one exchange. */
    lemma ExchangeIsShared(r: MessageRecord, q: MessageRecord)
      requires Valid() && r in records && q in records
      ensures r.exchangeKey in exchangeChains && r in exchangeChains[r.exchangeKey]
      ensures q in exchangeChains[r.exchangeKey] <==> SameExchange(r.sending.info, q.sending.info)
    {
      hide CountersLinked, InOrder, Acknowledged, SameExchange, MessageInfo.Exchange;
      ExchangeKeys(r.sending.info, q.sending.info);
      var chain := exchangeChains[r.exchangeKey];
      if q in chain {
        var i :| 0 <= i < |chain| && chain[i] == q;
        assert ExchangeLinked(r.exchangeKey, chain, i);
      }
    }

    /** And on one counter chain exactly if they share sender, counter and transport. */
    lemma CounterIsShared(r: MessageRecord, q: MessageRecord)
      requires Valid() && r in records && q in records
      ensures r.counterKey in counterChains && r in counterChains[r.counterKey]
      ensures q in counterChains[r.counterKey] <==> SameCounter(r.sending, q.sending)
    {
      hide ExchangesLinked, InOrder, Acknowledged, SameCounter, Sending.CounterKey;
      CounterKeys(r.sending, q.sending);
      var chain := counterChains[r.counterKey];
      if q in chain {
        var i :| 0 <= i < |chain| && chain[i] == q;
        assert CounterLinked(r.counterKey, chain, i);
      }
    }

    /** A record's acknowledgement is the lowest-frame one above it among the calls since it was added. */
    lemma AckedByIsEarliest(r: MessageRecord, a: Ack)
      requires Acknowledged() && r in records
      ensures r.ackedByMsgRec != null ==>
                && r.frameNum < r.ackedByMsgRec.frameNum
                && exists c :: c in acks[r.bornAfter..] && c.key == r.counterKey &&
                    c.acker.frameNum == r.ackedByMsgRec.frameNum
      ensures a in acks[r.bornAfter..] && a.key == r.counterKey && r.frameNum < a.acker.frameNum ==>
                r.ackedByMsgRec != null && r.ackedByMsgRec.frameNum <= a.acker.frameNum
    {
      var since := acks[r.bornAfter..];
      var ackers := AckersOf(since, r.counterKey);
      assert IsEarliest(r, r.ackedByMsgRec, since);
      EarliestIsLeast(r.frameNum, ackers);
      AckersAre(since, r.counterKey, a.acker.frameNum);
      if r.ackedByMsgRec != null {
        AckersAre(since, r.counterKey, r.ackedByMsgRec.frameNum);
      }
    }

    /** Following acknowledgements only ever leads to later frames, so never back. */
    lemma AcksAreAcyclic(path: seq<MessageRecord>, i: nat, j: nat)
      requires Acknowledged() && i < j < |path|
      requires forall m :: 0 <= m < |path| ==> path[m] in records
      requires forall m :: 0 <= m < |path| - 1 ==> path[m].ackedByMsgRec == path[m + 1]
      ensures path[i].frameNum < path[j].frameNum
      decreases j
    {
      var r := path[j - 1];
      assert r.ackedByMsgRec == path[j - 1 + 1];
      assert IsEarliest(r, r.ackedByMsgRec, acks[r.bornAfter..]);
      EarliestIsLeast(r.frameNum, AckersOf(acks[r.bornAfter..], r.counterKey));
      if i < j - 1 {
        AcksAreAcyclic(path, i, j - 1);
      }
    }
  }
}
