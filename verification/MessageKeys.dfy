/** The table of message encryption keys: a linked list of keys for each key id. */
module MessageKeys {
  import opened Bytes

  datatype KeyData = KeyData(keyId: nat, sessionType: nat, dataEncKey: seq<Byte>, srcNodeId: nat)
  {
    /** IsSameKey: the key id and the node do not count. */
    predicate IsSameKey(other: KeyData) {
      && sessionType == other.sessionType
      && |dataEncKey| == |other.dataEncKey|
      && dataEncKey == other.dataEncKey
    }
  }

  /** Keys are the same by type and bytes; their id and sender do not tell them apart. */
  lemma SameKeys(a: KeyData, b: KeyData)
    ensures a.sessionType != b.sessionType || a.dataEncKey != b.dataEncKey ==> !a.IsSameKey(b)
    ensures b == a.(keyId := b.keyId, srcNodeId := b.srcNodeId) ==> a.IsSameKey(b)
  {
  }

  // ---- The table as a value ----

  type KeyTable = map<nat, seq<KeyData>>

  function KeysOf(table: KeyTable, keyId: nat): seq<KeyData> {
    if keyId in table then table[keyId] else []
  }

  predicate HasSame(keys: seq<KeyData>, key: KeyData) {
    exists i :: 0 <= i < |keys| && keys[i].IsSameKey(key)
  }

  /** What AddKey does: a key that is there already in the sense of IsSameKey changes nothing. */
  function Added(table: KeyTable, key: KeyData): KeyTable {
    if HasSame(KeysOf(table, key.keyId), key) then table
    else table[key.keyId := [key] + KeysOf(table, key.keyId)]
  }

  /** No two keys of one id are the same, and each is filed under its own id. */
  predicate WellKept(table: KeyTable) {
    && (forall id, i :: id in table && 0 <= i < |table[id]| ==> table[id][i].keyId == id)
    && (forall id, i, j :: id in table && 0 <= i < j < |table[id]| ==> !table[id][i].IsSameKey(table[id][j]))
  }

  /** Every list of `table` is still there, behind newer keys. */
  predicate Grows(table: KeyTable, later: KeyTable) {
    forall id :: id in table ==> id in later && EndsWith(later[id], table[id])
  }

  predicate EndsWith(keys: seq<KeyData>, tail: seq<KeyData>) {
    |tail| <= |keys| && keys[|keys| - |tail|..] == tail
  }

  /** Adds keys one after another. */
  function AddedAll(table: KeyTable, keys: seq<KeyData>): KeyTable {
    if keys == [] then table else Added(AddedAll(table, keys[..|keys| - 1]), keys[|keys| - 1])
  }

  /** However many keys are added, no duplicates appear, no key is lost, and every key is findable. */
  lemma {:induction false} TableIsKept(table: KeyTable, keys: seq<KeyData>)
    requires WellKept(table)
    ensures WellKept(AddedAll(table, keys)) && Grows(table, AddedAll(table, keys))
    ensures forall k :: k in keys ==> HasSame(KeysOf(AddedAll(table, keys), k.keyId), k)
  {
    hide WellKept, Grows, HasSame, Added;
    if keys == [] {
      AddNothing(table);
    } else {
      var n := |keys| - 1;
      var before := AddedAll(table, keys[..n]);
      TableIsKept(table, keys[..n]);
      AddKeeps(before, keys[n]);
      GrowsFurther(table, before, Added(before, keys[n]));
      forall k | k in keys
        ensures HasSame(KeysOf(AddedAll(table, keys), k.keyId), k)
      {
        assert keys == keys[..n] + [keys[n]];
        if k in keys[..n] {
          SameStays(before, Added(before, keys[n]), k);
        }
      }
    }
  }

  lemma AddNothing(table: KeyTable)
    ensures Grows(table, table)
  {
  }

  lemma AddKeeps(table: KeyTable, key: KeyData)
    requires WellKept(table)
    ensures WellKept(Added(table, key)) && Grows(table, Added(table, key))
    ensures HasSame(KeysOf(Added(table, key), key.keyId), key)
    ensures !HasSame(KeysOf(table, key.keyId), key) ==> key in KeysOf(Added(table, key), key.keyId)
    ensures HasSame(KeysOf(table, key.keyId), key) ==> Added(table, key) == table
  {
    var later: KeyTable := Added(table, key);
    if later != table {
      assert later[key.keyId][0].IsSameKey(key);
      assert later[key.keyId][1..] == KeysOf(table, key.keyId);
    }
  }

  lemma GrowsFurther(a: KeyTable, b: KeyTable, c: KeyTable)
    requires Grows(a, b) && Grows(b, c)
    ensures Grows(a, c)
  {
    forall id | id in a
      ensures id in c && EndsWith(c[id], a[id])
    {
      assert EndsWith(b[id], a[id]) && EndsWith(c[id], b[id]);
      assert c[id][|c[id]| - |a[id]|..] == c[id][|c[id]| - |b[id]|..][|b[id]| - |a[id]|..];
    }
  }

  lemma SameStays(table: KeyTable, later: KeyTable, key: KeyData)
    requires Grows(table, later) && HasSame(KeysOf(table, key.keyId), key)
    ensures HasSame(KeysOf(later, key.keyId), key)
  {
    var keys, more := table[key.keyId], later[key.keyId];
    var i :| 0 <= i < |keys| && keys[i].IsSameKey(key);
    assert more[|more| - |keys|..][i] == keys[i];
    assert more[|more| - |keys| + i] == keys[i];
  }

  // ---- The table on the heap ----

  class MessageEncryptionKey {
    const data: KeyData
    const nextKey: MessageEncryptionKey?

    constructor (data: KeyData, nextKey: MessageEncryptionKey?)
      ensures this.data == data && this.nextKey == nextKey
    {
      this.data, this.nextKey := data, nextKey;
    }
  }

  /** The list at `head` holds `nodes`, in order. */
  ghost predicate IsList(head: MessageEncryptionKey?, nodes: seq<MessageEncryptionKey>) {
    if nodes == [] then head == null else head == nodes[0] && IsList(head.nextKey, nodes[1..])
  }

  ghost function DataOf(nodes: seq<MessageEncryptionKey>): (keys: seq<KeyData>)
    ensures |keys| == |nodes| && forall i :: 0 <= i < |keys| ==> keys[i] == nodes[i].data
  {
    seq(|nodes|, i requires 0 <= i < |nodes| => nodes[i].data)
  }

  ghost function TableOf(lists: map<nat, seq<MessageEncryptionKey>>): KeyTable {
    map id | id in lists :: DataOf(lists[id])
  }

  /** Each id leads to its list. */
  ghost predicate Linked(heads: map<nat, MessageEncryptionKey>, lists: map<nat, seq<MessageEncryptionKey>>) {
    && heads.Keys == lists.Keys
    && forall id :: id in lists ==> IsList(heads[id], lists[id])
  }

  lemma LinkedInFront(heads: map<nat, MessageEncryptionKey>, lists: map<nat, seq<MessageEncryptionKey>>,
                      id: nat, key: MessageEncryptionKey)
    requires Linked(heads, lists) && key.nextKey == if id in heads then heads[id] else null
    ensures Linked(heads[id := key], lists[id := [key] + if id in lists then lists[id] else []])
  {
    var nodes := if id in lists then lists[id] else [];
    assert ([key] + nodes)[1..] == nodes;
    assert IsList(key.nextKey, nodes) && IsList(key, [key] + nodes);
  }

  /** A new node in front of its list is a new key in front of its keys. */
  lemma NodeIsAdded(lists: map<nat, seq<MessageEncryptionKey>>, key: MessageEncryptionKey)
    requires !HasSame(KeysOf(TableOf(lists), key.data.keyId), key.data)
    ensures var id := key.data.keyId;
            TableOf(lists[id := [key] + if id in lists then lists[id] else []]) == Added(TableOf(lists), key.data)
  {
    var id := key.data.keyId;
    var nodes := if id in lists then lists[id] else [];
    assert DataOf([key] + nodes) == [key.data] + KeysOf(TableOf(lists), id);
  }

  class MessageEncryptionKeyTable {
    var sKeys: map<nat, MessageEncryptionKey>
    ghost var lists: map<nat, seq<MessageEncryptionKey>>

    ghost predicate Valid()
      reads this
    {
      Linked(sKeys, lists) && WellKept(Table())
    }

    ghost function Table(): KeyTable
      reads this
    {
      TableOf(lists)
    }

    constructor ()
      ensures Valid() && Table() == map[]
    {
      sKeys, lists := map[], map[];
    }

    /** The list for an id. */
    ghost function Nodes(keyId: nat): seq<MessageEncryptionKey>
      reads this
    {
      if keyId in lists then lists[keyId] else []
    }

    /** The head of the list for an id, or null. */
    method FindKeysById(keyId: nat) returns (keys: MessageEncryptionKey?)
      requires Valid()
      ensures IsList(keys, Nodes(keyId)) && DataOf(Nodes(keyId)) == KeysOf(Table(), keyId)
      ensures keys == if keyId in sKeys then sKeys[keyId] else null
    {
      keys := if keyId in sKeys then sKeys[keyId] else null;
    }

    /** Adds a key in front of its list, or finds the same key there. */
    method AddKey(keyData: KeyData) returns (key: MessageEncryptionKey)
      requires Valid()
      modifies this
      ensures Valid() && Table() == Added(old(Table()), keyData)
      ensures key.data.IsSameKey(keyData) && key.data in KeysOf(Table(), keyData.keyId)
    {
      hide WellKept, DataOf, TableOf, Linked, IsList, Added;
      AddKeeps(Table(), keyData);
      var existingKeys := FindKeysById(keyData.keyId);
      ghost var nodes := Nodes(keyData.keyId);
      var same := FindSame(existingKeys, nodes, keyData);
      if same != null {
        return same;
      }
      key := new MessageEncryptionKey(keyData, existingKeys);
      NodeIsAdded(lists, key);
      LinkedInFront(sKeys, lists, keyData.keyId, key);
      sKeys := sKeys[keyData.keyId := key];
      lists := lists[keyData.keyId := [key] + nodes];
    }

    static method FindSame(keys: MessageEncryptionKey?, ghost nodes: seq<MessageEncryptionKey>, keyData: KeyData)
      returns (same: MessageEncryptionKey?)
      requires IsList(keys, nodes)
      ensures same == null ==> !HasSame(DataOf(nodes), keyData)
      ensures same != null ==> same.data in DataOf(nodes) && same.data.IsSameKey(keyData)
    {
      same := keys;
      ghost var i := 0;
      while same != null
        invariant i <= |nodes| && IsList(same, nodes[i..])
        invariant forall j :: 0 <= j < i ==> !nodes[j].data.IsSameKey(keyData)
        decreases |nodes| - i
      {
        assert nodes[i..][0] == nodes[i] && nodes[i..][1..] == nodes[i + 1..];
        if same.data.IsSameKey(keyData) {
          assert DataOf(nodes)[i] == same.data;
          return;
        }
        same := same.nextKey;
        i := i + 1;
      }
    }
  }
}
