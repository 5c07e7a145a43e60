/** The arena-backed interner: an open-addressed, linearly probed table that doubles. */
module Interning {
  import opened Relations
  import opened Powers

  const EMPTY_SLOT: nat := 0xFFFF_FFFF
  const MAX_LEN: nat := 0xFFFF_FFFF      // lengths are stored as u32

  type Byte = x: nat | x < 256
  type Key = seq<Byte>

  /** `h & mask` for a table whose size is a power of two. */
  function Home(h: nat, cap: nat): (i: nat)
    requires cap > 0
    ensures i < cap
  {
    h % cap
  }

  /** The slot `d` probes after the home slot, wrapping round. */
  function At(home: nat, d: nat, cap: nat): (i: nat)
    requires home < cap && d <= cap
    ensures i < cap
  {
    if home + d < cap then home + d else home + d - cap
  }

  /** One step of `(i + 1) & mask`. */
  function NextSlot(i: nat, cap: nat): nat
    requires i < cap
  {
    (i + 1) % cap
  }

  lemma AtNext(home: nat, d: nat, cap: nat)
    requires home < cap && d < cap
    ensures NextSlot(At(home, d, cap), cap) == At(home, d + 1, cap)
  {
  }

  /** Probing a whole table visits every slot. */
  lemma EverySlotProbed(home: nat, cap: nat, i: nat) returns (d: nat)
    requires home < cap && i < cap
    ensures d < cap && At(home, d, cap) == i
  {
    d := if i >= home then i - home else i + cap - home;
  }

  /** The first `d` slots probed are taken. */
  ghost predicate Taken(table: seq<nat>, home: nat, d: nat) {
    home < |table| && d <= |table| && forall e :: 0 <= e < d ==> table[At(home, e, |table|)] != EMPTY_SLOT
  }

  /** A probe starting at `home` meets `id` before any free slot. */
  ghost predicate Reachable(table: seq<nat>, home: nat, id: nat) {
    home < |table| && exists d :: 0 <= d < |table| && Taken(table, home, d) && table[At(home, d, |table|)] == id
  }

  /** The table holds exactly the ids in `ids`, each reachable from its key's home slot. */
  ghost predicate Holds(table: seq<nat>, slotHash: seq<nat>, keys: seq<Key>, hash: Key -> nat, ids: set<nat>) {
    && |table| == |slotHash| > 0
    && (forall id :: id in ids ==> id < |keys| && Reachable(table, Home(hash(keys[id]), |table|), id))
    && (forall i :: 0 <= i < |table| && table[i] != EMPTY_SLOT ==>
          table[i] in ids && table[i] < |keys| && slotHash[i] == hash(keys[table[i]]))
    && (forall i, j :: 0 <= i < j < |table| && table[i] == table[j] ==> table[i] == EMPTY_SLOT)
  }

  /** Fewer ids than slots leaves a free slot, so a probe cannot run all the way round. */
  lemma ProbeEnds(table: seq<nat>, slotHash: seq<nat>, keys: seq<Key>, hash: Key -> nat, ids: set<nat>, home: nat,
                  d: nat)
    requires Holds(table, slotHash, keys, hash, ids) && home < |table|
    requires |ids| < |table| && Taken(table, home, d)
    ensures d < |table|
  {
    var free := FreeSlot(table, slotHash, keys, hash, ids);
    var e := EverySlotProbed(home, |table|, free);
  }

  lemma FreeSlot(table: seq<nat>, slotHash: seq<nat>, keys: seq<Key>, hash: Key -> nat, ids: set<nat>) returns (i: nat)
    requires Holds(table, slotHash, keys, hash, ids) && |ids| < |table|
    ensures i < |table| && table[i] == EMPTY_SLOT
  {
    NoDupLength(table);
    if Elems(table) <= ids {
      SubsetSize(Elems(table), ids);
      i :| 0 <= i < |table| && table[i] == EMPTY_SLOT;
    } else {
      var x :| x in Elems(table) && x !in ids;
      i :| 0 <= i < |table| && table[i] == x;
    }
  }

  /** Putting a new id into the free slot a probe ends at. */
  lemma PlaceKeepsHolds(table: seq<nat>, slotHash: seq<nat>, keys: seq<Key>, hash: Key -> nat, ids: set<nat>,
                        id: nat, d: nat)
    requires Holds(table, slotHash, keys, hash, ids) && id < |keys| && id !in ids && id != EMPTY_SLOT
    requires d < |table| && Taken(table, Home(hash(keys[id]), |table|), d)
    requires table[At(Home(hash(keys[id]), |table|), d, |table|)] == EMPTY_SLOT
    requires EMPTY_SLOT !in ids
    ensures var i := At(Home(hash(keys[id]), |table|), d, |table|);
      Holds(table[i := id], slotHash[i := hash(keys[id])], keys, hash, ids + {id})
  {
    var home := Home(hash(keys[id]), |table|);
    var i := At(home, d, |table|);
    var table' := table[i := id];
    forall x | x in ids ensures Reachable(table', Home(hash(keys[x]), |table'|), x) {
      ReachableKept(table, Home(hash(keys[x]), |table|), x, i, id);
    }
    assert Taken(table', home, d);
    assert table'[At(home, d, |table'|)] == id;
  }

  lemma ReachableKept(table: seq<nat>, home: nat, x: nat, i: nat, id: nat)
    requires Reachable(table, home, x) && i < |table| && table[i] == EMPTY_SLOT && id != EMPTY_SLOT && x != EMPTY_SLOT
    ensures Reachable(table[i := id], home, x)
  {
    var table' := table[i := id];
    var d :| 0 <= d < |table| && Taken(table, home, d) && table[At(home, d, |table|)] == x;
    assert Taken(table', home, d);
    assert table'[At(home, d, |table'|)] == x;
  }

  lemma NotFurtherOn(table: seq<nat>, keys: seq<Key>, key: Key, home: nat, d: nat, id: nat)
    requires Reachable(table, home, id) && id != EMPTY_SLOT && id < |keys|
    requires Passed(table, keys, key, home, d) && d < |table| && table[At(home, d, |table|)] == EMPTY_SLOT
    ensures keys[id] != key
  {
    var d' :| 0 <= d' < |table| && Taken(table, home, d') && table[At(home, d', |table|)] == id;
    assert d' < d;
  }

  /** A probe that has passed no slot holding the key and stands on a free one proves it absent. */
  lemma FreeMeansAbsent(table: seq<nat>, slotHash: seq<nat>, keys: seq<Key>, hash: Key -> nat, ids: set<nat>,
                        key: Key, d: nat)
    requires Holds(table, slotHash, keys, hash, ids) && EMPTY_SLOT !in ids && d < |table|
    requires var home := Home(hash(key), |table|);
      Passed(table, keys, key, home, d) && table[At(home, d, |table|)] == EMPTY_SLOT
    ensures forall id :: id in ids ==> keys[id] != key
  {
    var home := Home(hash(key), |table|);
    forall id | id in ids ensures keys[id] != key {
      if Home(hash(keys[id]), |table|) == home {
        NotFurtherOn(table, keys, key, home, d, id);
      }
    }
  }

  /** The first `d` slots probed are taken by other keys. */
  ghost predicate Passed(table: seq<nat>, keys: seq<Key>, key: Key, home: nat, d: nat) {
    home < |table| && d <= |table| && forall e :: 0 <= e < d ==>
      var id := table[At(home, e, |table|)]; id != EMPTY_SLOT && id < |keys| && keys[id] != key
  }

  lemma SlotFacts(table: seq<nat>, slotHash: seq<nat>, keys: seq<Key>, hash: Key -> nat, ids: set<nat>, i: nat)
    requires Holds(table, slotHash, keys, hash, ids) && i < |table| && table[i] != EMPTY_SLOT
    ensures table[i] in ids && table[i] < |keys| && i < |slotHash| && slotHash[i] == hash(keys[table[i]])
  {
  }

  /** A probe may step past a slot that holds another key. */
  lemma ProbeStep(table: seq<nat>, slotHash: seq<nat>, keys: seq<Key>, hash: Key -> nat, ids: set<nat>,
                  key: Key, home: nat, d: nat)
    requires Holds(table, slotHash, keys, hash, ids) && |ids| < |table|
    requires Passed(table, keys, key, home, d) && d < |table|
    requires var id := table[At(home, d, |table|)]; id != EMPTY_SLOT && id < |keys| && keys[id] != key
    ensures Passed(table, keys, key, home, d + 1) && d + 1 < |table|
    ensures NextSlot(At(home, d, |table|), |table|) == At(home, d + 1, |table|)
  {
    AtNext(home, d, |table|);
    PassedIsTaken(table, keys, key, home, d + 1);
    ProbeEnds(table, slotHash, keys, hash, ids, home, d + 1);
  }

  lemma PassedIsTaken(table: seq<nat>, keys: seq<Key>, key: Key, home: nat, d: nat)
    requires Passed(table, keys, key, home, d)
    ensures Taken(table, home, d)
  {
  }

  lemma Sized(table: seq<nat>, slotHash: seq<nat>, keys: seq<Key>, hash: Key -> nat, ids: set<nat>)
    requires Holds(table, slotHash, keys, hash, ids)
    ensures |table| == |slotHash| > 0
  {
  }

  lemma NothingPassed(table: seq<nat>, keys: seq<Key>, key: Key, home: nat)
    requires home < |table|
    ensures Passed(table, keys, key, home, 0)
  {
  }

  lemma HoldsMoreKeys(table: seq<nat>, slotHash: seq<nat>, keys: seq<Key>, key: Key, hash: Key -> nat, ids: set<nat>)
    requires Holds(table, slotHash, keys, hash, ids)
    ensures Holds(table, slotHash, keys + [key], hash, ids)
  {
    forall id | id in ids
      ensures id < |keys + [key]| && Reachable(table, Home(hash((keys + [key])[id]), |table|), id)
    {
      assert (keys + [key])[id] == keys[id];
    }
  }

  lemma BlankHolds(cap: nat, keys: seq<Key>, hash: Key -> nat)
    requires cap > 0
    ensures Holds(seq(cap, _ => EMPTY_SLOT), seq(cap, _ => 0), keys, hash, {})
  {
  }

  // ----- the arena

  /** Every id's bytes lie inside the arena. */
  ghost predicate Stored(arena: seq<Byte>, off: seq<nat>, len: seq<nat>) {
    |off| == |len| && forall id :: 0 <= id < |off| ==> off[id] + len[id] <= |arena|
  }

  /** The distinct keys in first-seen order. */
  ghost function KeysOf(arena: seq<Byte>, off: seq<nat>, len: seq<nat>): seq<Key>
    requires Stored(arena, off, len)
  {
    seq(|off|, id requires 0 <= id < |off| => arena[off[id]..off[id] + len[id]])
  }

  /** Appending a key's bytes leaves every stored key alone. */
  lemma ArenaAppend(arena: seq<Byte>, off: seq<nat>, len: seq<nat>, key: Key)
    requires Stored(arena, off, len)
    ensures Stored(arena + key, off + [|arena|], len + [|key|])
    ensures KeysOf(arena + key, off + [|arena|], len + [|key|]) == KeysOf(arena, off, len) + [key]
  {
    var keys, keys' := KeysOf(arena, off, len), KeysOf(arena + key, off + [|arena|], len + [|key|]);
    forall id | 0 <= id < |keys'| ensures keys'[id] == (keys + [key])[id] {
    }
  }

  lemma KeysAt(arena: seq<Byte>, off: seq<nat>, len: seq<nat>)
    requires Stored(arena, off, len)
    ensures |KeysOf(arena, off, len)| == |off|
    ensures forall id :: 0 <= id < |off| ==> KeysOf(arena, off, len)[id] == arena[off[id]..off[id] + len[id]]
  {
  }

  ghost predicate PowerOfTwo(n: nat) {
    exists k: nat :: n == Pow2(k)
  }

  /** What interning a new key makes of the arena and of the table. */
  lemma NewKey(arena: seq<Byte>, off: seq<nat>, len: seq<nat>, table: seq<nat>, slotHash: seq<nat>,
               key: Key, hash: Key -> nat, d: nat)
    requires Stored(arena, off, len) && |off| < EMPTY_SLOT
    requires NoDup(KeysOf(arena, off, len)) && key !in KeysOf(arena, off, len)
    requires Holds(table, slotHash, KeysOf(arena, off, len), hash, Ids(|off|))
    requires d < |table| && Taken(table, Home(hash(key), |table|), d)
    requires table[At(Home(hash(key), |table|), d, |table|)] == EMPTY_SLOT
    ensures |slotHash| == |table| > 0
    ensures Stored(arena + key, off + [|arena|], len + [|key|])
    ensures var keys := KeysOf(arena, off, len);
      var keys' := KeysOf(arena + key, off + [|arena|], len + [|key|]);
      && |keys| == |off| && keys' == keys + [key] && NoDup(keys') && keys'[|off|] == key
    ensures var i := At(Home(hash(key), |table|), d, |table|);
      Holds(table[i := |off|], slotHash[i := hash(key)],
            KeysOf(arena + key, off + [|arena|], len + [|key|]), hash, Ids(|off| + 1))
  {
    hide Holds;
    hide KeysOf;
    hide NoDup;
    hide Stored;
    hide Taken;
    hide Elems;
    hide Ids;
    var keys := KeysOf(arena, off, len);
    KeysAt(arena, off, len);
    ArenaAppend(arena, off, len, key);
    InsertKeepsHolds(table, slotHash, keys, key, hash, d);
    Snoc(keys, key);
  }

  function Ids(n: nat): (r: set<nat>)
    ensures forall id :: id in r <==> 0 <= id < n
    ensures |r| == n
  {
    if n == 0 then {} else Ids(n - 1) + {n - 1}
  }

  /** The distinct keys of `known` followed by `stream`, in the order they are first met. */
  function FirstSeen(known: seq<Key>, stream: seq<Key>): seq<Key>
    decreases |stream|
  {
    if stream == [] then known
    else
      var before := FirstSeen(known, stream[..|stream| - 1]);
      if stream[|stream| - 1] in before then before else before + [stream[|stream| - 1]]
  }

  lemma NothingSeen(known: seq<Key>, stream: seq<Key>)
    ensures FirstSeen(known, stream[..0]) == known
  {
  }

  lemma FirstSeenNext(known: seq<Key>, stream: seq<Key>, t: nat)
    requires t < |stream|
    ensures var before := FirstSeen(known, stream[..t]);
      FirstSeen(known, stream[..t + 1]) == if stream[t] in before then before else before + [stream[t]]
  {
    assert stream[..t + 1][..t] == stream[..t];
  }

  /** Keys already seen keep their positions however the stream goes on. */
  lemma {:induction false} FirstSeenGrows(known: seq<Key>, stream: seq<Key>, t: nat)
    requires t <= |stream|
    ensures FirstSeen(known, stream[..t]) <= FirstSeen(known, stream)
    decreases |stream| - t
  {
    if t < |stream| {
      FirstSeenGrows(known, stream, t + 1);
      FirstSeenNext(known, stream, t);
    } else {
      assert stream[..t] == stream;
    }
  }

  /** No key is kept twice, and none is lost or invented. */
  lemma {:induction false} FirstSeenIsTheSet(known: seq<Key>, stream: seq<Key>)
    requires NoDup(known)
    ensures NoDup(FirstSeen(known, stream))
    ensures Elems(FirstSeen(known, stream)) == Elems(known) + Elems(stream)
    decreases |stream|
  {
    if stream == [] {
      assert Elems(stream) == {};
    } else {
      var n := |stream| - 1;
      FirstSeenIsTheSet(known, stream[..n]);
      Snoc(FirstSeen(known, stream[..n]), stream[n]);
      TakeNext(stream, n);
    }
  }

  /** Each key sits as far along as there were distinct keys before its first appearance. */
  lemma FirstSeenOrder(known: seq<Key>, stream: seq<Key>, t: nat)
    requires t < |stream| && NoDup(known) && stream[t] !in known && stream[t] !in stream[..t]
    ensures var id := |Elems(known) + Elems(stream[..t])|;
      id < |FirstSeen(known, stream)| && FirstSeen(known, stream)[id] == stream[t]
  {
    var before := FirstSeen(known, stream[..t]);
    FirstSeenIsTheSet(known, stream[..t]);
    NoDupLength(before);
    assert stream[t] !in Elems(before);
    FirstSeenNext(known, stream, t);
    FirstSeenGrows(known, stream, t + 1);
    assert FirstSeen(known, stream[..t + 1])[|before|] == stream[t];
  }

  /** Looking the ids up in the keys gives back the stream of keys. */
  ghost predicate Replays(keys: seq<Key>, ids: seq<nat>, stream: seq<Key>) {
    |ids| == |stream| && forall t :: 0 <= t < |ids| ==> ids[t] < |keys| && keys[ids[t]] == stream[t]
  }

  lemma ReplaysNext(keys: seq<Key>, keys': seq<Key>, ids: seq<nat>, stream: seq<Key>, t: nat, id: nat)
    requires t < |stream| && Replays(keys, ids, stream[..t]) && keys <= keys'
    requires id < |keys'| && keys'[id] == stream[t]
    ensures Replays(keys', ids + [id], stream[..t + 1])
  {
  }

  class Interner {
    const hash: Key -> nat       // whatever hash the caller uses, fixed per key
    var arena: seq<Byte>
    var off: seq<nat>
    var len: seq<nat>
    var table: seq<nat>
    var slotHash: seq<nat>

    /** The table holds every id, and is at most half full. */
    ghost predicate Valid()
      reads this
    {
      && Stored(arena, off, len) && |off| <= EMPTY_SLOT
      && NoDup(Keys())
      && Holds(table, slotHash, Keys(), hash, Ids(|off|))
      && 2 * |off| <= |table| && PowerOfTwo(|table|)
    }

    ghost function Keys(): seq<Key>
      requires Stored(arena, off, len)
      reads this
    {
      KeysOf(arena, off, len)
    }

    /** Starts with 2^20 slots. */
    constructor (hash: Key -> nat)
      ensures Valid() && Keys() == [] && this.hash == hash && |table| == 0x10_0000
    {
      this.hash := hash;
      arena, off, len := [], [], [];
      table, slotHash := seq(0x10_0000, _ => EMPTY_SLOT), seq(0x10_0000, _ => 0);
      new;
      BlankHolds(0x10_0000, [], hash);
      InitialCapacity();
    }

    function Bytes(id: nat): Key
      requires id < |off| && Stored(arena, off, len)
      reads this
    {
      arena[off[id]..off[id] + len[id]]
    }

    /** Probe for the key: the id that holds it, or the free slot that ends the probe. */
    method Probe(key: Key, h: nat) returns (found: bool, id: nat, i: nat, ghost d: nat)
      requires Valid() && h == hash(key)
      ensures i < |table|
      ensures found <==> key in Keys()
      ensures found ==> id < |Keys()| && Keys()[id] == key
      ensures !found ==> table[i] == EMPTY_SLOT && d < |table| && i == At(Home(h, |table|), d, |table|)
      ensures !found ==> Taken(table, Home(h, |table|), d)
    {
      hide Holds;
      hide KeysOf;
      hide NoDup;
      hide PowerOfTwo;
      hide Passed;
      hide Taken;
      KeysAt(arena, off, len);
      Sized(table, slotHash, Keys(), hash, Ids(|off|));
      ghost var keys, home: nat, ids := Keys(), Home(h, |table|), Ids(|off|);
      i, d, found, id := Home(h, |table|), 0, false, 0;
      NothingPassed(table, keys, key, home);
      while table[i] != EMPTY_SLOT
        invariant d < |table| && i == At(home, d, |table|)
        invariant Passed(table, keys, key, home, d)
        decreases |table| - d
      {
        id := table[i];
        SlotFacts(table, slotHash, keys, hash, ids, i);
        if slotHash[i] == h && Bytes(id) == key {
          assert keys[id] == key;
          return true, id, i, d;
        }
        assert keys[id] != key;
        ProbeStep(table, slotHash, keys, hash, ids, key, home, d);
        i := NextSlot(i, |table|);
        d := d + 1;
      }
      PassedIsTaken(table, keys, key, home, d);
      FreeMeansAbsent(table, slotHash, keys, hash, ids, key, d);
      forall x | 0 <= x < |keys| ensures keys[x] != key {
        assert x in ids;
      }
    }

    /** The id of `key`: the one it already has, or the next dense one. */
    method Intern(key: Key, h: nat) returns (id: nat, isNew: bool)
      requires Valid() && h == hash(key)
      requires key in Keys() || |off| < EMPTY_SLOT    // the source panics on one id too many
      requires |key| <= MAX_LEN
      modifies this
      ensures Valid()
      ensures isNew <==> key !in old(Keys())
      ensures Keys() == if isNew then old(Keys()) + [key] else old(Keys())
      ensures id < |Keys()| && Keys()[id] == key
      ensures isNew ==> id == |old(Keys())|
      ensures old(arena) <= arena
      ensures |table| == old(|table|) * if isNew && 2 * |Keys()| > old(|table|) then 2 else 1
    {
      hide Holds;
      hide KeysOf;
      hide NoDup;
      hide PowerOfTwo;
      hide Taken;
      hide Stored;
      hide At;
      hide Ids;
      var found, known, i, d := Probe(key, h);
      if found {
        return known, false;
      }
      id := |off|;
      Append(key, h, i, d);
      if |off| * 2 > |table| {
        Grow();
      }
      isNew := true;
    }

    /** Store a new key behind the others and its id in the free slot its probe ended at. */
    method Append(key: Key, h: nat, i: nat, ghost d: nat)
      requires Valid() && key !in Keys() && h == hash(key) && |off| < EMPTY_SLOT && |key| <= MAX_LEN
      requires d < |table| && i == At(Home(h, |table|), d, |table|) && table[i] == EMPTY_SLOT
      requires Taken(table, Home(h, |table|), d)
      modifies this
      ensures Stored(arena, off, len) && |off| == old(|off|) + 1 && arena == old(arena) + key
      ensures |Keys()| == |off| && Keys() == old(Keys()) + [key] && NoDup(Keys())
      ensures |table| == old(|table|) && Holds(table, slotHash, Keys(), hash, Ids(|off|))
      ensures |old(Keys())| == old(|off|)
    {
      hide Holds;
      hide KeysOf;
      hide NoDup;
      hide PowerOfTwo;
      hide Taken;
      hide Stored;
      hide At;
      hide Home;
      NewKey(arena, off, len, table, slotHash, key, hash, d);
      var off', len', arena' := off + [|arena|], len + [|key|], arena + key;
      var table', slotHash' := table[i := |off|], slotHash[i := h];
      ghost var keys', ids' := KeysOf(arena', off', len'), Ids(|off'|);
      assert Holds(table', slotHash', keys', hash, ids');
      off, len, arena, table, slotHash := off', len', arena', table', slotHash';
      assert Keys() == keys' && Ids(|off|) == ids';
    }

    /** One key of a document behind the first `t`, whose ids are in `ids`. */
    method InternNext(ghost known: seq<Key>, stream: seq<Key>, t: nat, ghost ids: seq<nat>) returns (id: nat)
      requires Valid() && t < |stream|
      requires Keys() == FirstSeen(known, stream[..t]) && Replays(Keys(), ids, stream[..t])
      requires |FirstSeen(known, stream)| <= EMPTY_SLOT && |stream[t]| <= MAX_LEN
      modifies this
      ensures Valid() && id < EMPTY_SLOT
      ensures Keys() == FirstSeen(known, stream[..t + 1]) && Replays(Keys(), ids + [id], stream[..t + 1])
    {
      hide Holds;
      hide KeysOf;
      hide NoDup;
      hide PowerOfTwo;
      hide FirstSeen;
      hide Replays;
      KeysAt(arena, off, len);
      FirstSeenNext(known, stream, t);
      FirstSeenGrows(known, stream, t + 1);
      ghost var before := Keys();
      ghost var isNew;
      id, isNew := Intern(stream[t], hash(stream[t]));
      ReplaysNext(before, Keys(), ids, stream, t, id);
    }

    /** The main loop: intern the keys of a document one after the other. */
    method InternAll(stream: seq<Key>) returns (ids: seq<nat>)
      requires Valid()
      requires |FirstSeen(Keys(), stream)| <= EMPTY_SLOT && forall k :: k in stream ==> |k| <= MAX_LEN
      modifies this
      ensures Valid()
      ensures Keys() == FirstSeen(old(Keys()), stream)
      ensures Replays(Keys(), ids, stream)
    {
      hide Holds;
      hide KeysOf;
      hide NoDup;
      hide PowerOfTwo;
      hide FirstSeen;
      ghost var known := Keys();
      NothingSeen(known, stream);
      ids := [];
      for t := 0 to |stream|
        invariant Valid()
        invariant Keys() == FirstSeen(known, stream[..t])
        invariant Replays(Keys(), ids, stream[..t])
      {
        var id := InternNext(known, stream, t, ids);
        ids := ids + [id];
      }
      assert stream[..|stream|] == stream;
    }

    /** Double the table and re-place every id. */
    method Grow()
      requires Stored(arena, off, len) && |off| <= EMPTY_SLOT && NoDup(Keys()) && PowerOfTwo(|table|)
      requires Holds(table, slotHash, Keys(), hash, Ids(|off|)) && |off| <= |table|
      modifies this`table, this`slotHash
      ensures Valid() && |table| == 2 * old(|table|)
    {
      hide Holds;
      hide KeysOf;
      hide Stored;
      hide NoDup;
      hide PowerOfTwo;
      DoubledPower(|table|);
      var table', slotHash' := Replaced();
      table, slotHash := table', slotHash';
    }

    /** A table of twice the size holding the same ids. */
    method Replaced() returns (table': seq<nat>, slotHash': seq<nat>)
      requires Stored(arena, off, len) && |off| <= EMPTY_SLOT
      requires Holds(table, slotHash, Keys(), hash, Ids(|off|)) && |off| <= |table|
      ensures |table'| == 2 * |table| && Holds(table', slotHash', Keys(), hash, Ids(|off|))
    {
      hide Holds;
      hide KeysOf;
      hide Stored;
      hide InSlots;
      var cap := |table| * 2;
      table', slotHash' := seq(cap, _ => EMPTY_SLOT), seq(cap, _ => 0);
      ghost var keys, ids := Keys(), Ids(|off|);
      StartReplacing(table, slotHash, keys, hash, ids);
      var k: nat := 0;
      while k < |table|
        invariant 0 <= k <= |table| && |table'| == cap
        invariant Holds(table', slotHash', keys, hash, InSlots(table, k))
      {
        SlotsNext(table, slotHash, keys, hash, ids, k);
        if table[k] != EMPTY_SLOT {
          table', slotHash' := PlaceAt(table', slotHash', keys, InSlots(table, k), table[k], slotHash[k]);
        }
        k := k + 1;
      }
      AllInSlots(table, slotHash, keys, hash, ids);
    }

    /** Put an id into the first free slot from its home. */
    method PlaceAt(table: seq<nat>, slotHash: seq<nat>, ghost keys: seq<Key>, ghost ids: set<nat>, id: nat, h: nat)
      returns (table': seq<nat>, slotHash': seq<nat>)
      requires Holds(table, slotHash, keys, hash, ids) && |ids| < |table| && EMPTY_SLOT !in ids
      requires id < |keys| && id !in ids && id != EMPTY_SLOT && h == hash(keys[id])
      ensures |table'| == |table| && Holds(table', slotHash', keys, hash, ids + {id})
    {
      var i := Home(h, |table|);
      ghost var home, d: nat := i, 0;
      while table[i] != EMPTY_SLOT
        invariant d < |table| && i == At(home, d, |table|) && Taken(table, home, d)
        decreases |table| - d
      {
        AtNext(home, d, |table|);
        i := NextSlot(i, |table|);
        d := d + 1;
        ProbeEnds(table, slotHash, keys, hash, ids, home, d);
      }
      PlaceKeepsHolds(table, slotHash, keys, hash, ids, id, d);
      table', slotHash' := table[i := id], slotHash[i := h];
    }
  }

  lemma InitialCapacity()
    ensures PowerOfTwo(0x10_0000)
  {
    assert Pow2(1) == 2;
    Pow2Doubles(1, 1);
    Pow2Doubles(2, 2);
    Pow2Doubles(4, 1);
    Pow2Doubles(5, 5);
    Pow2Doubles(10, 10);
    assert 0x10_0000 == Pow2(20);
  }

  lemma DoubledPower(n: nat)
    requires PowerOfTwo(n)
    ensures PowerOfTwo(n * 2)
  {
    var k: nat :| n == Pow2(k);
    assert n * 2 == Pow2(k + 1);
  }

  lemma InsertKeepsHolds(table: seq<nat>, slotHash: seq<nat>, keys: seq<Key>, key: Key, hash: Key -> nat, d: nat)
    requires Holds(table, slotHash, keys, hash, Ids(|keys|)) && |keys| < EMPTY_SLOT
    requires d < |table| && Taken(table, Home(hash(key), |table|), d)
    requires table[At(Home(hash(key), |table|), d, |table|)] == EMPTY_SLOT
    ensures |slotHash| == |table| > 0
    ensures var i := At(Home(hash(key), |table|), d, |table|);
      Holds(table[i := |keys|], slotHash[i := hash(key)], keys + [key], hash, Ids(|keys| + 1))
  {
    HoldsMoreKeys(table, slotHash, keys, key, hash, Ids(|keys|));
    PlaceKeepsHolds(table, slotHash, keys + [key], hash, Ids(|keys|), |keys|, d);
  }

  /** The ids in the first `k` slots of a table. */
  ghost function InSlots(table: seq<nat>, k: nat): set<nat>
    requires k <= |table|
  {
    set i | 0 <= i < k && table[i] != EMPTY_SLOT :: table[i]
  }

  lemma StartReplacing(table: seq<nat>, slotHash: seq<nat>, keys: seq<Key>, hash: Key -> nat, ids: set<nat>)
    requires Holds(table, slotHash, keys, hash, ids)
    ensures |table| == |slotHash| > 0 && InSlots(table, 0) == {}
    ensures Holds(seq(|table| * 2, _ => EMPTY_SLOT), seq(|table| * 2, _ => 0), keys, hash, InSlots(table, 0))
  {
    BlankHolds(|table| * 2, keys, hash);
    assert InSlots(table, 0) == {};
  }

  lemma SlotsNext(table: seq<nat>, slotHash: seq<nat>, keys: seq<Key>, hash: Key -> nat, ids: set<nat>, k: nat)
    requires Holds(table, slotHash, keys, hash, ids) && k < |table| && |ids| <= |table|
    ensures InSlots(table, k + 1) == InSlots(table, k) + if table[k] == EMPTY_SLOT then {} else {table[k]}
    ensures table[k] != EMPTY_SLOT ==>
              table[k] !in InSlots(table, k) && table[k] < |keys| && slotHash[k] == hash(keys[table[k]])
    ensures InSlots(table, k) <= ids && |InSlots(table, k)| <= |table| && EMPTY_SLOT !in InSlots(table, k)
    ensures |slotHash| == |table|
  {
    SubsetSize(InSlots(table, k), ids);
  }

  lemma AllInSlots(table: seq<nat>, slotHash: seq<nat>, keys: seq<Key>, hash: Key -> nat, ids: set<nat>)
    requires Holds(table, slotHash, keys, hash, ids) && EMPTY_SLOT !in ids
    ensures InSlots(table, |table|) == ids
  {
    forall id | id in ids ensures id in InSlots(table, |table|) {
      var home := Home(hash(keys[id]), |table|);
      var d :| 0 <= d < |table| && Taken(table, home, d) && table[At(home, d, |table|)] == id;
    }
  }
}
