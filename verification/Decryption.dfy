/** The search for a key that decrypts a message; the cipher itself is a parameter. */
module Decryption {
  import opened Bytes
  import opened Options
  import opened MessageKeys
  import opened HintLines
  import opened Numerals

  const SESSION_TYPE_UNICAST := 0
  const SESSION_ID_UNSECURED := 0
  const ENCRYPTION_AES128CCM := 1

  /** Authenticated decryption of key, nonce, additional data and encrypted data. */
  type Aead = (seq<Byte>, seq<Byte>, seq<Byte>, seq<Byte>) -> Option<seq<Byte>>

  datatype Message = Message(
    sessionType: nat, sessionId: nat, secFlags: Byte, msgId: nat, srcNodeId: nat, aad: seq<Byte>, encData: seq<Byte>)

  /** The user's keys and node ids, and the hints from the file and from the capture. */
  datatype Settings = Settings(prefs: seq<KeyData>, nodes: seq<nat>, fileHints: seq<Hint>, dsbHints: seq<Hint>)

  /** Only a unicast message of session 0 is in the clear; a group message never is. */
  lemma OnlyUnsecuredIsClear(msg: Message)
    ensures msg.sessionType == 1 ==> MessageIsEncrypted(msg)
    ensures msg.sessionType == 0 ==> (MessageIsEncrypted(msg) <==> msg.sessionId != 0)
  {
  }

  predicate MessageIsEncrypted(msg: Message) {
    !(msg.sessionType == SESSION_TYPE_UNICAST && msg.sessionId == SESSION_ID_UNSECURED)
  }

  // ---- One attempt ----

  function Nonce(secFlags: Byte, msgId: nat, srcNodeId: nat): (n: seq<Byte>)
    ensures |n| == 13
  {
    [secFlags] + WriteLE(msgId, 4) + WriteLE(srcNodeId, 8)
  }

  /** Where the fields stand: flags, then counter and sender with their low bytes first. */
  lemma NonceFields(secFlags: Byte, msgId: nat, srcNodeId: nat)
    requires msgId < 0x1_0000_0000 && srcNodeId < 0x1_0000_0000_0000_0000
    ensures var n := Nonce(secFlags, msgId, srcNodeId);
            n[0] == secFlags && ReadLE(n[1..5]) == msgId && ReadLE(n[5..13]) == srcNodeId
  {
    var n := Nonce(secFlags, msgId, srcNodeId);
    assert n[1..5] == WriteLE(msgId, 4) && n[5..13] == WriteLE(srcNodeId, 8);
    Widths();
    ReadAfterWrite(msgId, 4);
    ReadAfterWrite(srcNodeId, 8);
  }

  /** Different headers never share a nonce. */
  lemma NonceIsInjective(secFlags: Byte, msgId: nat, srcNodeId: nat, secFlags': Byte, msgId': nat, srcNodeId': nat)
    requires msgId < 0x1_0000_0000 && msgId' < 0x1_0000_0000
    requires srcNodeId < 0x1_0000_0000_0000_0000 && srcNodeId' < 0x1_0000_0000_0000_0000
    requires Nonce(secFlags, msgId, srcNodeId) == Nonce(secFlags', msgId', srcNodeId')
    ensures (secFlags, msgId, srcNodeId) == (secFlags', msgId', srcNodeId')
  {
    var n, n' := Nonce(secFlags, msgId, srcNodeId), Nonce(secFlags', msgId', srcNodeId');
    Widths();
    ReadAfterWrite(msgId, 4);
    ReadAfterWrite(msgId', 4);
    ReadAfterWrite(srcNodeId, 8);
    ReadAfterWrite(srcNodeId', 8);
    assert n[0] == secFlags && n[1..5] == WriteLE(msgId, 4) && n[5..] == WriteLE(srcNodeId, 8);
    assert n'[0] == secFlags' && n'[1..5] == WriteLE(msgId', 4) && n'[5..] == WriteLE(srcNodeId', 8);
  }

  /** TryDecryptMessage_AES128CCM, for a message sent by `node`. */
  function Attempt(aead: Aead, msg: Message, key: seq<Byte>, node: nat): Option<seq<Byte>> {
    if |key| != KEY_LENGTH then None
    else aead(key, Nonce(msg.secFlags, msg.msgId, node), msg.aad, msg.encData)
  }

  /** What the cipher is given, and that only keys of 16 bytes are tried. */
  lemma AttemptIsCipher(aead: Aead, msg: Message, key: seq<Byte>, node: nat, nonce: seq<Byte>)
    requires |nonce| == 13 && nonce[0] == msg.secFlags
    requires ReadLE(nonce[1..5]) == msg.msgId < 0x1_0000_0000
    requires ReadLE(nonce[5..13]) == node < 0x1_0000_0000_0000_0000
    ensures |key| == 16 ==> Attempt(aead, msg, key, node) == aead(key, nonce, msg.aad, msg.encData)
    ensures |key| != 16 ==> Attempt(aead, msg, key, node) == None
  {
    WriteAfterRead(nonce[1..5]);
    WriteAfterRead(nonce[5..13]);
    assert nonce == [nonce[0]] + nonce[1..5] + nonce[5..13];
  }

  // ---- The candidates, in the order they are tried ----

  /** A key and sender to try, and the key to remember if it works. */
  datatype Candidate = Candidate(key: seq<Byte>, node: nat, learned: Option<KeyData>)

  /** The sender assumed for a key of the table. */
  function TableNode(key: KeyData, msg: Message): nat {
    if key.srcNodeId != 0 && msg.srcNodeId == 0 then key.srcNodeId else msg.srcNodeId
  }

  function TableCandidates(keys: seq<KeyData>, msg: Message): seq<Candidate> {
    if keys == [] then []
    else [Candidate(keys[0].dataEncKey, TableNode(keys[0], msg), None)] + TableCandidates(keys[1..], msg)
  }

  function Remembered(pref: KeyData, msg: Message, node: nat): KeyData {
    pref.(keyId := msg.sessionId, srcNodeId := node)
  }

  function NodeCandidates(pref: KeyData, nodes: seq<nat>, msg: Message): seq<Candidate> {
    if nodes == [] then []
    else [Candidate(pref.dataEncKey, nodes[0], Some(Remembered(pref, msg, nodes[0])))]
         + NodeCandidates(pref, nodes[1..], msg)
  }

  function OfPref(pref: KeyData, nodes: seq<nat>, msg: Message): seq<Candidate> {
    [Candidate(pref.dataEncKey, msg.srcNodeId, Some(Remembered(pref, msg, msg.srcNodeId)))]
    + if msg.srcNodeId == 0 then NodeCandidates(pref, nodes, msg) else []
  }

  function PrefCandidates(prefs: seq<KeyData>, nodes: seq<nat>, msg: Message): seq<Candidate> {
    if prefs == [] then [] else OfPref(prefs[0], nodes, msg) + PrefCandidates(prefs[1..], nodes, msg)
  }

  function HintKey(hint: Hint, msg: Message): KeyData {
    KeyData(msg.sessionId, ENCRYPTION_AES128CCM, hint.key,
            if hint.srcNodeId.Some? then hint.srcNodeId.value else msg.srcNodeId)
  }

  predicate HintApplies(hint: Hint, msg: Message) {
    hint.keyId.Some? ==> hint.keyId.value == msg.sessionId
  }

  function OfHint(hint: Hint, msg: Message): seq<Candidate> {
    if !HintApplies(hint, msg) then []
    else
      [Candidate(hint.key, msg.srcNodeId, Some(HintKey(hint, msg)))]
      + if msg.srcNodeId == 0 && hint.srcNodeId.Some?
        then [Candidate(hint.key, hint.srcNodeId.value, Some(HintKey(hint, msg)))] else []
  }

  function HintCandidates(hints: seq<Hint>, msg: Message): seq<Candidate> {
    if hints == [] then [] else OfHint(hints[0], msg) + HintCandidates(hints[1..], msg)
  }

  function Candidates(table: KeyTable, settings: Settings, msg: Message): seq<Candidate> {
    TableCandidates(KeysOf(table, msg.sessionId), msg) + OtherCandidates(settings, msg)
  }

  function OtherCandidates(settings: Settings, msg: Message): seq<Candidate> {
    PrefCandidates(settings.prefs, settings.nodes, msg)
    + (HintCandidates(settings.fileHints, msg) + HintCandidates(settings.dsbHints, msg))
  }

  // ---- The search ----

  datatype Found = Found(candidate: Candidate, plain: seq<Byte>)

  /** The first candidate that authenticates. */
  function Search(aead: Aead, msg: Message, cs: seq<Candidate>): Option<Found> {
    if cs == [] then None
    else
      var plain := Attempt(aead, msg, cs[0].key, cs[0].node);
      if plain.Some? then Some(Found(cs[0], plain.value)) else Search(aead, msg, cs[1..])
  }

  datatype Outcome = Outcome(plain: Option<seq<Byte>>, table: KeyTable)

  function Conclude(found: Option<Found>, table: KeyTable): Outcome {
    if found.None? then Outcome(None, table)
    else
      Outcome(Some(found.value.plain),
              if found.value.candidate.learned.Some? then Added(table, found.value.candidate.learned.value) else table)
  }

  /** TryDecryptMessage: what it returns and the table it leaves. */
  function Decrypt(aead: Aead, msg: Message, table: KeyTable, settings: Settings): Outcome {
    if MessageIsEncrypted(msg) then Conclude(Search(aead, msg, Candidates(table, settings, msg)), table)
    else Outcome(None, table)
  }

  lemma {:induction false} SearchInTwo(aead: Aead, msg: Message, a: seq<Candidate>, b: seq<Candidate>)
    ensures Search(aead, msg, a + b) ==
            if Search(aead, msg, a).Some? then Search(aead, msg, a) else Search(aead, msg, b)
  {
    if a == [] {
      assert a + b == b;
    } else {
      assert (a + b)[1..] == a[1..] + b;
      SearchInTwo(aead, msg, a[1..], b);
    }
  }

  lemma {:induction false} SearchIsFirst(aead: Aead, msg: Message, cs: seq<Candidate>)
    ensures Search(aead, msg, cs).None? <==> forall c :: c in cs ==> Attempt(aead, msg, c.key, c.node).None?
    ensures var found := Search(aead, msg, cs);
            found.Some? ==>
              && found.value.candidate in cs
              && Attempt(aead, msg, found.value.candidate.key, found.value.candidate.node) == Some(found.value.plain)
  {
    if cs != [] {
      SearchIsFirst(aead, msg, cs[1..]);
      assert cs == [cs[0]] + cs[1..];
    }
  }

  lemma {:induction false} FirstIsTaken(aead: Aead, msg: Message, cs: seq<Candidate>, i: nat)
    requires i < |cs| && Attempt(aead, msg, cs[i].key, cs[i].node).Some?
    requires forall j :: 0 <= j < i ==> Attempt(aead, msg, cs[j].key, cs[j].node).None?
    ensures Search(aead, msg, cs) == Some(Found(cs[i], Attempt(aead, msg, cs[i].key, cs[i].node).value))
  {
    if i > 0 {
      FirstIsTaken(aead, msg, cs[1..], i - 1);
    }
  }

  /** The table is searched first, then preferences, hints of the file, and hints of the capture. */
  lemma SourcesInOrder(aead: Aead, msg: Message, table: KeyTable, settings: Settings)
    requires MessageIsEncrypted(msg)
    ensures var inTable := Search(aead, msg, TableCandidates(KeysOf(table, msg.sessionId), msg));
            var inPrefs := Search(aead, msg, PrefCandidates(settings.prefs, settings.nodes, msg));
            var inFile := Search(aead, msg, HintCandidates(settings.fileHints, msg));
            var inDsb := Search(aead, msg, HintCandidates(settings.dsbHints, msg));
            Decrypt(aead, msg, table, settings) ==
            Conclude(if inTable.Some? then inTable else if inPrefs.Some? then inPrefs
                     else if inFile.Some? then inFile else inDsb, table)
  {
    var file, dsb := HintCandidates(settings.fileHints, msg), HintCandidates(settings.dsbHints, msg);
    SearchInTwo(aead, msg, TableCandidates(KeysOf(table, msg.sessionId), msg), OtherCandidates(settings, msg));
    SearchInTwo(aead, msg, PrefCandidates(settings.prefs, settings.nodes, msg), file + dsb);
    SearchInTwo(aead, msg, file, dsb);
  }

  /** A message that the table decrypts teaches nothing. */
  lemma TableTeachesNothing(aead: Aead, msg: Message, table: KeyTable, settings: Settings)
    requires TableServes(aead, msg, table)
    ensures Decrypt(aead, msg, table, settings).table == table
  {
    var cs := TableCandidates(KeysOf(table, msg.sessionId), msg);
    SearchInTwo(aead, msg, cs, OtherCandidates(settings, msg));
    SearchIsFirst(aead, msg, cs);
    NothingToLearn(KeysOf(table, msg.sessionId), msg, Search(aead, msg, cs).value.candidate);
  }

  lemma {:induction false} NothingToLearn(keys: seq<KeyData>, msg: Message, c: Candidate)
    requires c in TableCandidates(keys, msg)
    ensures c.learned.None?
  {
    if c in TableCandidates(keys[1..], msg) {
      NothingToLearn(keys[1..], msg, c);
    }
  }

  // ---- Which keys and senders are tried ----

  ghost predicate InTable(table: KeyTable, msg: Message, key: seq<Byte>, node: nat) {
    exists k :: k in KeysOf(table, msg.sessionId) && k.dataEncKey == key && node == KeyNode(k, msg)
  }

  /** The message's sender if it names one, and otherwise the sender the key is for, if any. */
  function KeyNode(k: KeyData, msg: Message): nat {
    if msg.srcNodeId != 0 then msg.srcNodeId else k.srcNodeId
  }

  ghost predicate InPrefs(settings: Settings, msg: Message, key: seq<Byte>, node: nat) {
    && (exists p :: p in settings.prefs && p.dataEncKey == key)
    && (node == msg.srcNodeId || (msg.srcNodeId == 0 && node in settings.nodes))
  }

  ghost predicate InHints(hints: seq<Hint>, msg: Message, key: seq<Byte>, node: nat) {
    exists h :: h in hints && h.keyId in {None, Some(msg.sessionId)} && h.key == key && HintNode(h, msg, node)
  }

  ghost predicate HintNode(h: Hint, msg: Message, node: nat) {
    node == msg.srcNodeId || (msg.srcNodeId == 0 && h.srcNodeId == Some(node))
  }

  ghost predicate IsCandidate(table: KeyTable, settings: Settings, msg: Message, key: seq<Byte>, node: nat) {
    || InTable(table, msg, key, node) || InPrefs(settings, msg, key, node)
    || InHints(settings.fileHints, msg, key, node) || InHints(settings.dsbHints, msg, key, node)
  }

  ghost predicate Tried(cs: seq<Candidate>, key: seq<Byte>, node: nat) {
    exists c :: c in cs && c.key == key && c.node == node
  }

  lemma TriedInTwo(a: seq<Candidate>, b: seq<Candidate>, key: seq<Byte>, node: nat)
    ensures Tried(a + b, key, node) <==> Tried(a, key, node) || Tried(b, key, node)
  {
    if Tried(a, key, node) {
      var c :| c in a && c.key == key && c.node == node;
      assert c in a + b;
    }
    if Tried(b, key, node) {
      var c :| c in b && c.key == key && c.node == node;
      assert c in a + b;
    }
  }

  lemma {:induction false} TableTried(keys: seq<KeyData>, msg: Message, key: seq<Byte>, node: nat)
    ensures Tried(TableCandidates(keys, msg), key, node)
            <==> exists k :: k in keys && k.dataEncKey == key && TableNode(k, msg) == node
  {
    if keys != [] {
      var c := Candidate(keys[0].dataEncKey, TableNode(keys[0], msg), None);
      TableTried(keys[1..], msg, key, node);
      TriedInTwo([c], TableCandidates(keys[1..], msg), key, node);
      assert c in [c];
      assert keys == [keys[0]] + keys[1..];
    }
  }

  lemma {:induction false} NodesTried(pref: KeyData, nodes: seq<nat>, msg: Message, key: seq<Byte>, node: nat)
    ensures Tried(NodeCandidates(pref, nodes, msg), key, node) <==> pref.dataEncKey == key && node in nodes
  {
    if nodes != [] {
      var c := Candidate(pref.dataEncKey, nodes[0], Some(Remembered(pref, msg, nodes[0])));
      NodesTried(pref, nodes[1..], msg, key, node);
      TriedInTwo([c], NodeCandidates(pref, nodes[1..], msg), key, node);
      assert c in [c];
      assert nodes == [nodes[0]] + nodes[1..];
    }
  }

  lemma {:induction false} PrefsTried(prefs: seq<KeyData>, nodes: seq<nat>, msg: Message, key: seq<Byte>, node: nat)
    ensures Tried(PrefCandidates(prefs, nodes, msg), key, node)
            <==> (exists p :: p in prefs && p.dataEncKey == key)
                 && (node == msg.srcNodeId || (msg.srcNodeId == 0 && node in nodes))
  {
    if prefs != [] {
      var p := prefs[0];
      var c := Candidate(p.dataEncKey, msg.srcNodeId, Some(Remembered(p, msg, msg.srcNodeId)));
      PrefsTried(prefs[1..], nodes, msg, key, node);
      NodesTried(p, nodes, msg, key, node);
      TriedInTwo([c], if msg.srcNodeId == 0 then NodeCandidates(p, nodes, msg) else [], key, node);
      TriedInTwo(OfPref(p, nodes, msg), PrefCandidates(prefs[1..], nodes, msg), key, node);
      assert c in [c];
      assert prefs == [p] + prefs[1..];
    }
  }

  lemma HintTried(hint: Hint, msg: Message, key: seq<Byte>, node: nat)
    ensures Tried(OfHint(hint, msg), key, node) <==>
            HintApplies(hint, msg) && hint.key == key && HintNode(hint, msg, node)
  {
    var cs := OfHint(hint, msg);
    if HintApplies(hint, msg) {
      assert cs[0] in cs;
      if msg.srcNodeId == 0 && hint.srcNodeId.Some? {
        assert cs[1] in cs;
      }
    }
  }

  lemma {:induction false} HintsTried(hints: seq<Hint>, msg: Message, key: seq<Byte>, node: nat)
    ensures Tried(HintCandidates(hints, msg), key, node) <==> InHints(hints, msg, key, node)
  {
    if hints != [] {
      HintsTried(hints[1..], msg, key, node);
      HintTried(hints[0], msg, key, node);
      TriedInTwo(OfHint(hints[0], msg), HintCandidates(hints[1..], msg), key, node);
      assert hints == [hints[0]] + hints[1..];
    }
  }

  lemma CandidatesAre(table: KeyTable, settings: Settings, msg: Message, key: seq<Byte>, node: nat)
    ensures Tried(Candidates(table, settings, msg), key, node) <==> IsCandidate(table, settings, msg, key, node)
  {
    hide Tried;
    TableTried(KeysOf(table, msg.sessionId), msg, key, node);
    PrefsTried(settings.prefs, settings.nodes, msg, key, node);
    HintsTried(settings.fileHints, msg, key, node);
    HintsTried(settings.dsbHints, msg, key, node);
    var file, dsb := HintCandidates(settings.fileHints, msg), HintCandidates(settings.dsbHints, msg);
    TriedInTwo(file, dsb, key, node);
    TriedInTwo(PrefCandidates(settings.prefs, settings.nodes, msg), file + dsb, key, node);
    TriedInTwo(TableCandidates(KeysOf(table, msg.sessionId), msg), OtherCandidates(settings, msg), key, node);
  }

  // ---- What the search finds ----

  /** Some candidate authenticates the message. */
  ghost predicate Decryptable(aead: Aead, msg: Message, table: KeyTable, settings: Settings) {
    && MessageIsEncrypted(msg)
    && exists key, node: nat :: IsCandidate(table, settings, msg, key, node) && Attempt(aead, msg, key, node).Some?
  }

  /** A message decrypts exactly when some candidate authenticates, and then as one of them says. */
  lemma DecryptsExactly(aead: Aead, msg: Message, table: KeyTable, settings: Settings)
    ensures Decrypt(aead, msg, table, settings).plain.Some? <==> Decryptable(aead, msg, table, settings)
    ensures var plain := Decrypt(aead, msg, table, settings).plain;
            plain.Some? ==>
              exists key, node: nat :: IsCandidate(table, settings, msg, key, node) &&
                  Attempt(aead, msg, key, node) == plain
  {
    hide IsCandidate, Candidates;
    var cs := Candidates(table, settings, msg);
    SearchIsFirst(aead, msg, cs);
    var found := Search(aead, msg, cs);
    if found.Some? {
      var c := found.value.candidate;
      CandidatesAre(table, settings, msg, c.key, c.node);
    }
    if Decryptable(aead, msg, table, settings) {
      var key, node: nat :| IsCandidate(table, settings, msg, key, node) && Attempt(aead, msg, key, node).Some?;
      CandidatesAre(table, settings, msg, key, node);
    }
  }

  lemma CandidatesStay(table: KeyTable, later: KeyTable, settings: Settings, msg: Message, key: seq<Byte>, node: nat)
    requires Grows(table, later) && IsCandidate(table, settings, msg, key, node)
    ensures IsCandidate(later, settings, msg, key, node)
  {
    if InTable(table, msg, key, node) {
      var k :| k in KeysOf(table, msg.sessionId) && k.dataEncKey == key && TableNode(k, msg) == node;
      var keys, more := table[msg.sessionId], later[msg.sessionId];
      assert EndsWith(more, keys);
      assert more == more[..|more| - |keys|] + keys;
      assert k in KeysOf(later, msg.sessionId);
    }
  }

  /** A growing table never loses a message. */
  lemma GrowthLosesNothing(aead: Aead, msg: Message, table: KeyTable, later: KeyTable, settings: Settings)
    requires Grows(table, later) && Decrypt(aead, msg, table, settings).plain.Some?
    ensures Decrypt(aead, msg, later, settings).plain.Some?
  {
    hide IsCandidate, Decrypt;
    DecryptsExactly(aead, msg, table, settings);
    DecryptsExactly(aead, msg, later, settings);
    var key, node: nat :| IsCandidate(table, settings, msg, key, node) && Attempt(aead, msg, key, node).Some?;
    CandidatesStay(table, later, settings, msg, key, node);
  }

  /** No two candidates authenticate the message. */
  ghost predicate Unambiguous(aead: Aead, msg: Message, table: KeyTable, settings: Settings) {
    forall key, node: nat, key', node': nat ::
      IsCandidate(table, settings, msg, key, node) && Attempt(aead, msg, key, node).Some? &&
      IsCandidate(table, settings, msg, key', node') && Attempt(aead, msg, key', node').Some? ==>
        key == key' && node == node'
  }

  /** Nor does it change the plaintext of one that only one candidate authenticates. */
  lemma GrowthKeepsPlaintext(aead: Aead, msg: Message, table: KeyTable, later: KeyTable, settings: Settings)
    requires Grows(table, later) && Unambiguous(aead, msg, later, settings)
    requires Decrypt(aead, msg, table, settings).plain.Some?
    ensures Decrypt(aead, msg, later, settings).plain == Decrypt(aead, msg, table, settings).plain
  {
    hide IsCandidate, Decrypt;
    DecryptsExactly(aead, msg, table, settings);
    DecryptsExactly(aead, msg, later, settings);
    var plain := Decrypt(aead, msg, table, settings).plain;
    var key, node: nat :| IsCandidate(table, settings, msg, key, node) && Attempt(aead, msg, key, node) == plain;
    CandidatesStay(table, later, settings, msg, key, node);
    GrowthLosesNothing(aead, msg, table, later, settings);
  }

  // ---- Runs ----

  /** The table after decrypting the messages one after another. */
  function TableAfter(aead: Aead, msgs: seq<Message>, table: KeyTable, settings: Settings): KeyTable {
    if msgs == [] then table
    else Decrypt(aead, msgs[|msgs| - 1], TableAfter(aead, msgs[..|msgs| - 1], table, settings), settings).table
  }

  lemma DecryptKeepsTable(aead: Aead, msg: Message, table: KeyTable, settings: Settings)
    requires WellKept(table)
    ensures var later := Decrypt(aead, msg, table, settings).table;
            WellKept(later) && Grows(table, later)
  {
    var found := Search(aead, msg, Candidates(table, settings, msg));
    if found.Some? && found.value.candidate.learned.Some? {
      AddKeeps(table, found.value.candidate.learned.value);
    }
  }

  lemma {:induction false} RunKeepsTable(aead: Aead, msgs: seq<Message>, table: KeyTable, settings: Settings)
    requires WellKept(table)
    ensures WellKept(TableAfter(aead, msgs, table, settings)) && Grows(table, TableAfter(aead, msgs, table, settings))
  {
    hide WellKept, Grows, Decrypt;
    if msgs != [] {
      var before := TableAfter(aead, msgs[..|msgs| - 1], table, settings);
      RunKeepsTable(aead, msgs[..|msgs| - 1], table, settings);
      DecryptKeepsTable(aead, msgs[|msgs| - 1], before, settings);
      GrowsFurther(table, before, TableAfter(aead, msgs, table, settings));
    } else {
      AddNothing(table);
    }
  }

  /** Whatever is decrypted in between, a message that decrypts once decrypts ever after. */
  lemma OnceDecryptedAlwaysDecrypted(aead: Aead, msg: Message, msgs: seq<Message>, table: KeyTable, settings: Settings)
    requires WellKept(table) && Decrypt(aead, msg, table, settings).plain.Some?
    ensures var later := TableAfter(aead, msgs, table, settings);
            && Decrypt(aead, msg, later, settings).plain.Some?
            && (Unambiguous(aead, msg, later, settings) ==>
                  Decrypt(aead, msg, later, settings).plain == Decrypt(aead, msg, table, settings).plain)
  {
    hide Decrypt, TableAfter, Unambiguous;
    var later := TableAfter(aead, msgs, table, settings);
    RunKeepsTable(aead, msgs, table, settings);
    GrowthLosesNothing(aead, msg, table, later, settings);
    if Unambiguous(aead, msg, later, settings) {
      GrowthKeepsPlaintext(aead, msg, table, later, settings);
    }
  }

  // ---- Learning ----

  /** The table alone decrypts the message. */
  predicate TableServes(aead: Aead, msg: Message, table: KeyTable) {
    Search(aead, msg, TableCandidates(KeysOf(table, msg.sessionId), msg)).Some?
  }

  /**
    A key found outside the table is remembered under the message's session. The table then
    decrypts the message by itself exactly when the key was not there yet for another sender and
    it is remembered with a sender that authenticates.
   */
  lemma LearnedKeyServes(aead: Aead, msg: Message, table: KeyTable, settings: Settings)
    requires MessageIsEncrypted(msg) && !TableServes(aead, msg, table)
    requires Decrypt(aead, msg, table, settings).plain.Some?
    ensures var found := Search(aead, msg, OtherCandidates(settings, msg));
            && found.Some? && found.value.candidate.learned.Some?
            && var c := found.value.candidate;
               var k := c.learned.value;
               && k.keyId == msg.sessionId && k.dataEncKey == c.key
               && (TableNode(k, msg) == c.node || (c.node == msg.srcNodeId == 0 && k.srcNodeId != 0))
               && (TableServes(aead, msg, Decrypt(aead, msg, table, settings).table)
                   <==> !HasSame(KeysOf(table, msg.sessionId), k) && Attempt(aead, msg, c.key, TableNode(k, msg)).Some?)
  {
    var keys := KeysOf(table, msg.sessionId);
    var others := OtherCandidates(settings, msg);
    SearchInTwo(aead, msg, TableCandidates(keys, msg), others);
    SearchIsFirst(aead, msg, others);
    var c := Search(aead, msg, others).value.candidate;
    OthersLearn(settings, msg, c);
    var k := c.learned.value;
    if !HasSame(keys, k) {
      assert ([k] + keys)[1..] == keys;
      assert TableCandidates([k] + keys, msg)[0] == Candidate(k.dataEncKey, TableNode(k, msg), None);
      assert TableCandidates([k] + keys, msg)[1..] == TableCandidates(keys, msg);
    }
  }

  /** What a candidate from outside the table is remembered as. */
  ghost predicate Learns(c: Candidate, msg: Message) {
    && c.learned.Some? && c.learned.value.keyId == msg.sessionId && c.learned.value.dataEncKey == c.key
    && (TableNode(c.learned.value, msg) == c.node || (c.node == msg.srcNodeId == 0 && c.learned.value.srcNodeId != 0))
  }

  lemma OthersLearn(settings: Settings, msg: Message, c: Candidate)
    requires c in OtherCandidates(settings, msg)
    ensures Learns(c, msg)
  {
    if c in PrefCandidates(settings.prefs, settings.nodes, msg) {
      PrefsLearn(settings.prefs, settings.nodes, msg, c);
    } else if c in HintCandidates(settings.fileHints, msg) {
      HintsLearn(settings.fileHints, msg, c);
    } else {
      HintsLearn(settings.dsbHints, msg, c);
    }
  }

  lemma {:induction false} NodesLearn(pref: KeyData, nodes: seq<nat>, msg: Message, c: Candidate)
    requires msg.srcNodeId == 0 && c in NodeCandidates(pref, nodes, msg)
    ensures Learns(c, msg) && c.learned == Some(KeyData(msg.sessionId, pref.sessionType, pref.dataEncKey, c.node))
  {
    if c in NodeCandidates(pref, nodes[1..], msg) {
      NodesLearn(pref, nodes[1..], msg, c);
    }
  }

  /** A preference is remembered with its type and bytes, for the session and sender it was tried with. */
  lemma {:induction false} PrefsLearn(prefs: seq<KeyData>, nodes: seq<nat>, msg: Message, c: Candidate)
    requires c in PrefCandidates(prefs, nodes, msg)
    ensures Learns(c, msg)
    ensures exists p :: p in prefs && c.learned == Some(KeyData(msg.sessionId, p.sessionType, p.dataEncKey, c.node))
  {
    assert prefs[0] in prefs;
    if c in PrefCandidates(prefs[1..], nodes, msg) {
      PrefsLearn(prefs[1..], nodes, msg, c);
    } else if msg.srcNodeId == 0 && c in NodeCandidates(prefs[0], nodes, msg) {
      NodesLearn(prefs[0], nodes, msg, c);
    }
  }

  /** A hint is remembered for the session, and for its own sender or else the message's. */
  lemma {:induction false} HintsLearn(hints: seq<Hint>, msg: Message, c: Candidate)
    requires c in HintCandidates(hints, msg)
    ensures Learns(c, msg)
    ensures exists h :: h in hints && c.learned ==
              Some(KeyData(msg.sessionId, 1, h.key, if h.srcNodeId == None then msg.srcNodeId else h.srcNodeId.value))
  {
    assert hints[0] in hints;
    if c in HintCandidates(hints[1..], msg) {
      HintsLearn(hints[1..], msg, c);
    }
  }

  /**
    So learning can fail: with the key already in the table for another sender nothing is added,
    and the same message is looked for outside the table every time.
   */
  lemma LearningMayFail(aead: Aead, key: seq<Byte>, plain: seq<Byte>)
    requires var msg := Message(SESSION_TYPE_UNICAST, 9, 0, 1, 0, [], []);
             && Attempt(aead, msg, key, 0).None? && Attempt(aead, msg, key, 5).None?
             && Attempt(aead, msg, key, 7) == Some(plain)
    ensures var msg := Message(SESSION_TYPE_UNICAST, 9, 0, 1, 0, [], []);
            var table: KeyTable := map[9 := [KeyData(9, ENCRYPTION_AES128CCM, key, 5)]];
            var settings := Settings([KeyData(0, ENCRYPTION_AES128CCM, key, 0)], [7], [], []);
            && Decrypt(aead, msg, table, settings) == Outcome(Some(plain), table)
            && !TableServes(aead, msg, table)
  {
    hide Attempt;
    var msg := Message(SESSION_TYPE_UNICAST, 9, 0, 1, 0, [], []);
    var stored := KeyData(9, ENCRYPTION_AES128CCM, key, 5);
    var pref := KeyData(0, ENCRYPTION_AES128CCM, key, 0);
    var table: KeyTable := map[9 := [stored]];
    var settings := Settings([pref], [7], [], []);
    var first := Candidate(key, 0, Some(Remembered(pref, msg, 0)));
    var second := Candidate(key, 7, Some(Remembered(pref, msg, 7)));
    ExampleCandidates(pref, stored, table, settings, msg);
    var cs := [Candidate(key, 5, None), first, second];
    assert cs[1..] == [first, second] && cs[1..][1..] == [second];
    assert Search(aead, msg, [second]) == Some(Found(second, plain));
    assert Search(aead, msg, cs) == Some(Found(second, plain));
    assert [stored][0].IsSameKey(second.learned.value);
    assert Added(table, second.learned.value) == table;
    assert Search(aead, msg, [Candidate(key, 5, None)]).None?;
  }

  lemma ExampleCandidates(pref: KeyData, stored: KeyData, table: KeyTable, settings: Settings, msg: Message)
    requires msg.srcNodeId == 0 && msg.sessionId == 9 && stored.srcNodeId == 5
    requires table == map[9 := [stored]] && settings == Settings([pref], [7], [], [])
    ensures TableCandidates(KeysOf(table, 9), msg) == [Candidate(stored.dataEncKey, 5, None)]
    ensures Candidates(table, settings, msg) ==
            [Candidate(stored.dataEncKey, 5, None), Candidate(pref.dataEncKey, 0, Some(Remembered(pref, msg, 0))),
             Candidate(pref.dataEncKey, 7, Some(Remembered(pref, msg, 7)))]
  {
    assert [stored][1..] == [] && [pref][1..] == [];
    assert [7][1..] == [];
    assert NodeCandidates(pref, [7], msg) == [Candidate(pref.dataEncKey, 7, Some(Remembered(pref, msg, 7)))];
    assert HintCandidates(settings.fileHints, msg) == [] && HintCandidates(settings.dsbHints, msg) == [];
    assert PrefCandidates([pref][1..], [7], msg) == [];
    assert PrefCandidates([pref], [7], msg) == OfPref(pref, [7], msg);
    assert OfPref(pref, [7], msg) == [Candidate(pref.dataEncKey, 0, Some(Remembered(pref, msg, 0))),
                                      Candidate(pref.dataEncKey, 7, Some(Remembered(pref, msg, 7)))];
    assert OtherCandidates(settings, msg) == OfPref(pref, [7], msg);
  }

  /**
    The other way: a hint for another sender fits a message that names no sender. Its key is
    remembered for that sender, and does not fit from the table.
   */
  lemma HintedSenderMayFail(aead: Aead, key: seq<Byte>, plain: seq<Byte>)
    requires var msg := Message(SESSION_TYPE_UNICAST, 9, 0, 1, 0, [], []);
             Attempt(aead, msg, key, 0) == Some(plain) && Attempt(aead, msg, key, 5).None?
    ensures var msg := Message(SESSION_TYPE_UNICAST, 9, 0, 1, 0, [], []);
            var settings := Settings([], [], [Hint(key, None, Some(5))], []);
            var later: KeyTable := map[9 := [KeyData(9, ENCRYPTION_AES128CCM, key, 5)]];
            && Decrypt(aead, msg, map[], settings) == Outcome(Some(plain), later)
            && !TableServes(aead, msg, later)
  {
    hide Attempt;
    var msg := Message(SESSION_TYPE_UNICAST, 9, 0, 1, 0, [], []);
    var hint := Hint(key, None, Some(5));
    var settings := Settings([], [], [hint], []);
    var stored := KeyData(9, ENCRYPTION_AES128CCM, key, 5);
    var first, second := Candidate(key, 0, Some(stored)), Candidate(key, 5, Some(stored));
    OneHint(hint, settings, msg);
    hide Candidates;
    assert Search(aead, msg, [first, second]) == Some(Found(first, plain));
    FirstKeyIsAdded(stored);
    OneKey(stored, msg);
    assert HintKey(hint, msg) == stored;
    assert Decrypt(aead, msg, map[], settings) == Outcome(Some(plain), Added(map[], stored));
    assert [Candidate(key, 5, None)][1..] == [];
    assert Search(aead, msg, [Candidate(key, 5, None)]).None?;
  }

  lemma OneHint(hint: Hint, settings: Settings, msg: Message)
    requires hint.keyId.None? && hint.srcNodeId.Some? && settings == Settings([], [], [hint], []) && msg.srcNodeId == 0
    ensures Candidates(map[], settings, msg) ==
            [Candidate(hint.key, 0, Some(HintKey(hint, msg))),
             Candidate(hint.key, hint.srcNodeId.value, Some(HintKey(hint, msg)))]
  {
    assert [hint][1..] == [];
    assert HintCandidates([hint], msg) == OfHint(hint, msg) + HintCandidates([], msg) == OfHint(hint, msg);
    assert OtherCandidates(settings, msg) == HintCandidates([hint], msg);
  }

  lemma FirstKeyIsAdded(stored: KeyData)
    ensures Added(map[], stored) == map[stored.keyId := [stored]]
  {
    assert [stored] + [] == [stored];
  }

  lemma OneKey(stored: KeyData, msg: Message)
    requires stored.keyId == msg.sessionId
    ensures TableCandidates(KeysOf(map[stored.keyId := [stored]], msg.sessionId), msg) ==
            [Candidate(stored.dataEncKey, TableNode(stored, msg), None)]
  {
    assert [stored][1..] == [];
  }

  // ---- The search as it is made ----

  method TryDecryptMessage(aead: Aead, msg: Message, table: MessageEncryptionKeyTable, settings: Settings)
    returns (plain: Option<seq<Byte>>)
    requires table.Valid()
    modifies table
    ensures table.Valid() && Outcome(plain, table.Table()) == Decrypt(aead, msg, old(table.Table()), settings)
  {
    if !MessageIsEncrypted(msg) {
      return None;
    }

    ghost var cs := Candidates(table.Table(), settings, msg);
    var keys := table.FindKeysById(msg.sessionId);
    var found := SearchTable(aead, msg, keys, table.Nodes(msg.sessionId));
    SearchInTwo(aead, msg, TableCandidates(KeysOf(table.Table(), msg.sessionId), msg), OtherCandidates(settings, msg));
    ghost var hints := HintCandidates(settings.fileHints, msg) + HintCandidates(settings.dsbHints, msg);
    SearchInTwo(aead, msg, PrefCandidates(settings.prefs, settings.nodes, msg), hints);
    SearchInTwo(aead, msg, HintCandidates(settings.fileHints, msg), HintCandidates(settings.dsbHints, msg));
    if found.None? {
      found := SearchPrefs(aead, msg, settings.prefs, settings.nodes);
    }
    if found.None? {
      found := SearchHints(aead, msg, settings.fileHints);
      if found.None? {
        found := SearchHints(aead, msg, settings.dsbHints);
      }
    }
    assert found == Search(aead, msg, cs);
    if found.None? {
      return None;
    }
    plain := Some(found.value.plain);
    if found.value.candidate.learned.Some? {
      var _ := table.AddKey(found.value.candidate.learned.value);
    }
  }

  method SearchTable(aead: Aead, msg: Message, keys: MessageEncryptionKey?, ghost nodes: seq<MessageEncryptionKey>)
    returns (found: Option<Found>)
    requires IsList(keys, nodes)
    ensures found == Search(aead, msg, TableCandidates(DataOf(nodes), msg))
  {
    found := None;
    var p := keys;
    ghost var i := 0;
    ghost var all := DataOf(nodes);
    while p != null && found.None?
      invariant i <= |nodes| && IsList(p, nodes[i..])
      invariant Search(aead, msg, TableCandidates(all, msg)) ==
                if found.Some? then found else Search(aead, msg, TableCandidates(all[i..], msg))
      decreases |nodes| - i
    {
      assert nodes[i..][0] == nodes[i] && nodes[i..][1..] == nodes[i + 1..];
      assert all[i..][0] == p.data && all[i..][1..] == all[i + 1..];
      var c := Candidate(p.data.dataEncKey, TableNode(p.data, msg), None);
      SearchInTwo(aead, msg, [c], TableCandidates(all[i + 1..], msg));
      found := TryOne(aead, msg, c);
      p := p.nextKey;
      i := i + 1;
    }
  }

  method TryOne(aead: Aead, msg: Message, c: Candidate) returns (found: Option<Found>)
    ensures found == Search(aead, msg, [c])
  {
    var plain := Attempt(aead, msg, c.key, c.node);
    found := if plain.Some? then Some(Found(c, plain.value)) else None;
  }

  method SearchPrefs(aead: Aead, msg: Message, prefs: seq<KeyData>, nodes: seq<nat>) returns (found: Option<Found>)
    ensures found == Search(aead, msg, PrefCandidates(prefs, nodes, msg))
  {
    found := None;
    var i := 0;
    while found.None? && i < |prefs|
      invariant i <= |prefs|
      invariant Search(aead, msg, PrefCandidates(prefs, nodes, msg)) ==
                if found.Some? then found else Search(aead, msg, PrefCandidates(prefs[i..], nodes, msg))
    {
      var pref := prefs[i];
      assert prefs[i..][0] == pref && prefs[i..][1..] == prefs[i + 1..];
      var c := Candidate(pref.dataEncKey, msg.srcNodeId, Some(Remembered(pref, msg, msg.srcNodeId)));
      SearchInTwo(aead, msg, OfPref(pref, nodes, msg), PrefCandidates(prefs[i + 1..], nodes, msg));
      SearchInTwo(aead, msg, [c], if msg.srcNodeId == 0 then NodeCandidates(pref, nodes, msg) else []);
      found := TryOne(aead, msg, c);
      if found.None? && msg.srcNodeId == 0 {
        found := SearchNodes(aead, msg, pref, nodes);
      }
      i := i + 1;
    }
  }

  method SearchNodes(aead: Aead, msg: Message, pref: KeyData, nodes: seq<nat>) returns (found: Option<Found>)
    ensures found == Search(aead, msg, NodeCandidates(pref, nodes, msg))
  {
    found := None;
    var j := 0;
    while found.None? && j < |nodes|
      invariant j <= |nodes|
      invariant Search(aead, msg, NodeCandidates(pref, nodes, msg)) ==
                if found.Some? then found else Search(aead, msg, NodeCandidates(pref, nodes[j..], msg))
    {
      assert nodes[j..][0] == nodes[j] && nodes[j..][1..] == nodes[j + 1..];
      var c := Candidate(pref.dataEncKey, nodes[j], Some(Remembered(pref, msg, nodes[j])));
      SearchInTwo(aead, msg, [c], NodeCandidates(pref, nodes[j + 1..], msg));
      found := TryOne(aead, msg, c);
      j := j + 1;
    }
  }

  method SearchHints(aead: Aead, msg: Message, hints: seq<Hint>) returns (found: Option<Found>)
    ensures found == Search(aead, msg, HintCandidates(hints, msg))
  {
    found := None;
    var i := 0;
    while i < |hints|
      invariant i <= |hints| && found.None?
      invariant Search(aead, msg, HintCandidates(hints, msg)) == Search(aead, msg, HintCandidates(hints[i..], msg))
    {
      var hint := hints[i];
      assert hints[i..][0] == hint && hints[i..][1..] == hints[i + 1..];
      SearchInTwo(aead, msg, OfHint(hint, msg), HintCandidates(hints[i + 1..], msg));
      i := i + 1;
      if !HintApplies(hint, msg) {
        continue;
      }
      var key := HintKey(hint, msg);
      var c := Candidate(hint.key, msg.srcNodeId, Some(key));
      SearchInTwo(aead, msg, [c], OfHint(hint, msg)[1..]);
      found := TryOne(aead, msg, c);
      if found.None? && msg.srcNodeId == 0 && hint.srcNodeId.Some? {
        found := TryOne(aead, msg, Candidate(hint.key, hint.srcNodeId.value, Some(key)));
      }
      if found.Some? {
        break;
      }
    }
  }

  /** A hint that names its session goes into the table at once. */
  method PreloadHintKeyBySessionId(table: MessageEncryptionKeyTable, hint: Hint)
    requires table.Valid()
    modifies table
    ensures table.Valid()
    ensures hint.keyId.None? ==> table.Table() == old(table.Table())
    ensures hint.keyId.Some? ==>
              var src := if hint.srcNodeId.Some? then hint.srcNodeId.value else 0;
              table.Table() ==
              Added(old(table.Table()), KeyData(hint.keyId.value, ENCRYPTION_AES128CCM, hint.key, src))
  {
    if hint.keyId.None? {
      return;
    }
    var src := if hint.srcNodeId.Some? then hint.srcNodeId.value else 0;
    var _ := table.AddKey(KeyData(hint.keyId.value, ENCRYPTION_AES128CCM, hint.key, src));
  }
}
