/** The emitted key file and id stream, and the bench that reads them back. */
module KeyFiles {
  import opened Wrappers
  import opened Relations
  import opened Interning

  const U32_LIMIT: nat := 0x1_0000_0000

  // ----- little-endian u32

  function Limit(width: nat): nat {
    if width == 0 then 1 else 0x100 * Limit(width - 1)
  }

  function ToBytes(n: nat, width: nat): (b: seq<Byte>)
    ensures |b| == width
    decreases width
  {
    if width == 0 then [] else [n % 0x100] + ToBytes(n / 0x100, width - 1)
  }

  function FromBytes(b: seq<Byte>): (n: nat)
    ensures n < Limit(|b|)
  {
    if b == [] then 0 else b[0] + 0x100 * FromBytes(b[1..])
  }

  lemma {:induction false} BytesRoundTrip(n: nat, width: nat)
    requires n < Limit(width)
    ensures FromBytes(ToBytes(n, width)) == n
    decreases width
  {
    if width > 0 {
      BytesRoundTrip(n / 0x100, width - 1);
      assert ToBytes(n, width)[1..] == ToBytes(n / 0x100, width - 1);
    }
  }

  lemma {:induction false} FromBytesRoundTrip(b: seq<Byte>)
    ensures ToBytes(FromBytes(b), |b|) == b
    decreases |b|
  {
    if b != [] {
      FromBytesRoundTrip(b[1..]);
      var rest, n := FromBytes(b[1..]), FromBytes(b);
      Digit(b[0], rest);
      assert ToBytes(n, |b|) == [n % 0x100] + ToBytes(n / 0x100, |b| - 1);
      hide ToBytes;
      hide FromBytes;
      assert b == [b[0]] + b[1..];
    }
  }

  lemma Digit(d: nat, rest: nat)
    requires d < 0x100
    ensures (d + 0x100 * rest) % 0x100 == d && (d + 0x100 * rest) / 0x100 == rest
  {
  }

  function U32(n: nat): (b: seq<Byte>)
    requires n < U32_LIMIT
    ensures |b| == 4
  {
    ToBytes(n, 4)
  }

  function FromU32(b: seq<Byte>): (n: nat)
    requires |b| == 4
    ensures n < U32_LIMIT
  {
    LimitAt4();
    FromBytes(b)
  }

  lemma LimitAt4()
    ensures Limit(4) == U32_LIMIT
  {
    assert Limit(2) == 0x1_0000;
    assert Limit(3) == 0x100_0000;
  }

  lemma U32RoundTrip(n: nat)
    requires n < U32_LIMIT
    ensures FromU32(U32(n)) == n
  {
    LimitAt4();
    BytesRoundTrip(n, 4);
  }

  lemma FromU32RoundTrip(b: seq<Byte>)
    requires |b| == 4
    ensures U32(FromU32(b)) == b
  {
    FromBytesRoundTrip(b);
  }

  /** The four bytes of `file` from `at` on spell `n`, least significant byte first. */
  ghost predicate WordAt(file: seq<Byte>, at: nat, n: nat) {
    && at + 4 <= |file|
    && file[at] == n % 0x100 && file[at + 1] == n / 0x100 % 0x100
    && file[at + 2] == n / 0x1_0000 % 0x100 && file[at + 3] == n / 0x100_0000
  }

  /** The least significant byte comes first. */
  lemma LittleEndian(n: nat)
    requires n < U32_LIMIT
    ensures U32(n)[0] == n % 0x100 && U32(n)[1] == n / 0x100 % 0x100
    ensures U32(n)[2] == n / 0x1_0000 % 0x100 && U32(n)[3] == n / 0x100_0000
  {
    var a, b, c := n / 0x100, n / 0x1_0000, n / 0x100_0000;
    assert a / 0x100 == b && b / 0x100 == c && c < 0x100;
    assert ToBytes(c, 1) == [c % 0x100];
    assert ToBytes(b, 2) == [b % 0x100] + ToBytes(c, 1);
    assert ToBytes(a, 3) == [a % 0x100] + ToBytes(b, 2);
    assert ToBytes(n, 4) == [n % 0x100] + ToBytes(a, 3);
  }

  // ----- the key file: each key's length, then its bytes

  predicate Fits(keys: seq<Key>) {
    forall k :: k in keys ==> |k| <= MAX_LEN
  }

  function Entry(key: Key): seq<Byte>
    requires |key| <= MAX_LEN
  {
    U32(|key|) + key
  }

  function KeyFile(keys: seq<Key>): seq<Byte>
    requires Fits(keys)
  {
    if keys == [] then [] else Entry(keys[0]) + KeyFile(keys[1..])
  }

  /** Reading stops cleanly when no whole header is left; a truncated key is an error. */
  function ReadKeyFile(b: seq<Byte>): Option<seq<Key>>
    decreases |b|
  {
    if |b| < 4 then Some([])
    else
      var l := FromU32(b[..4]);
      if |b| - 4 < l then None
      else
        match ReadKeyFile(b[4 + l..])
        case None => None
        case Some(rest) => Some([b[4..4 + l]] + rest)
  }

  /** `keys` read so far, then whatever the rest of the file holds. */
  function After(keys: seq<Key>, rest: Option<seq<Key>>): Option<seq<Key>> {
    match rest
    case None => None
    case Some(more) => Some(keys + more)
  }

  lemma KeyFileCons(key: Key, keys: seq<Key>)
    requires |key| <= MAX_LEN && Fits(keys)
    ensures Fits([key] + keys) && KeyFile([key] + keys) == Entry(key) + KeyFile(keys)
  {
    hide Entry;
    assert ([key] + keys)[1..] == keys;
  }

  lemma KeyFileUnfold(keys: seq<Key>)
    requires Fits(keys) && keys != []
    ensures |keys[0]| <= MAX_LEN && Fits(keys[1..]) && KeyFile(keys) == Entry(keys[0]) + KeyFile(keys[1..])
    ensures [keys[0]] + keys[1..] == keys
  {
    hide Entry;
  }

  lemma Regroup(a: seq<Byte>, b: seq<Byte>, c: seq<Byte>)
    ensures a + b + c == a + (b + c)
  {
  }

  lemma {:induction false} KeyFileSnoc(keys: seq<Key>, key: Key)
    requires Fits(keys) && |key| <= MAX_LEN
    ensures Fits(keys + [key]) && KeyFile(keys + [key]) == KeyFile(keys) + Entry(key)
    decreases |keys|
  {
    if keys == [] {
      KeyFileCons(key, []);
      assert [key] + [] == [key] && [] + [key] == [key];
      assert Entry(key) + [] == Entry(key) && [] + Entry(key) == Entry(key);
    } else {
      KeyFileUnfold(keys);
      hide Entry;
      hide KeyFile;
      hide Fits;
      KeyFileSnoc(keys[1..], key);
      KeyFileCons(keys[0], keys[1..] + [key]);
      assert [keys[0]] + (keys[1..] + [key]) == keys + [key];
      Regroup(Entry(keys[0]), KeyFile(keys[1..]), Entry(key));
    }
  }

  /** Where the entry of key `k` starts: four bytes and the key for each one before it. */
  function Offset(keys: seq<Key>, k: nat): nat
    requires k <= |keys|
  {
    if k == 0 then 0 else Offset(keys, k - 1) + 4 + |keys[k - 1]|
  }

  lemma {:induction false} KeyFileTo(keys: seq<Key>, k: nat)
    requires Fits(keys) && k <= |keys|
    ensures Fits(keys[..k]) && KeyFile(keys[..k]) <= KeyFile(keys) && |KeyFile(keys[..k])| == Offset(keys, k)
    decreases |keys| - k
  {
    KeyFileLength(keys, k);
    if k == |keys| {
      assert keys[..k] == keys;
    } else {
      KeyFileTo(keys, k + 1);
      assert keys[..k + 1] == keys[..k] + [keys[k]];
      KeyFileSnoc(keys[..k], keys[k]);
    }
  }

  lemma {:induction false} KeyFileLength(keys: seq<Key>, k: nat)
    requires Fits(keys) && k <= |keys|
    ensures Fits(keys[..k]) && |KeyFile(keys[..k])| == Offset(keys, k)
    decreases k
  {
    if k > 0 {
      KeyFileLength(keys, k - 1);
      assert keys[..k] == keys[..k - 1] + [keys[k - 1]];
      KeyFileSnoc(keys[..k - 1], keys[k - 1]);
      hide KeyFile;
    }
  }

  /** Each key's entry is its length, least significant byte first, and then its bytes; the entries
      follow one another without a gap, and nothing follows the last. */
  lemma KeyFileLayout(keys: seq<Key>, k: nat)
    requires Fits(keys) && k < |keys|
    ensures var file, at, n := KeyFile(keys), Offset(keys, k), |keys[k]|;
      WordAt(file, at, n) && at + 4 + n <= |file| == Offset(keys, |keys|) && file[at + 4..at + 4 + n] == keys[k]
  {
    hide KeyFile;
    hide Fits;
    hide Entry;
    hide WordAt;
    hide Offset;
    KeyFileTo(keys, k);
    KeyFileWhole(keys);
    var before := KeyFile(keys[..k]);
    KeyFileThrough(keys, k);
    EntryAt(KeyFile(keys), before, keys[k]);
  }

  lemma KeyFileWhole(keys: seq<Key>)
    requires Fits(keys)
    ensures |KeyFile(keys)| == Offset(keys, |keys|)
  {
    hide KeyFile;
    hide Offset;
    hide Fits;
    KeyFileTo(keys, |keys|);
    assert keys[..|keys|] == keys;
  }

  lemma KeyFileThrough(keys: seq<Key>, k: nat)
    requires Fits(keys) && k < |keys|
    ensures Fits(keys[..k]) && |keys[k]| <= MAX_LEN && KeyFile(keys[..k]) + Entry(keys[k]) <= KeyFile(keys)
  {
    hide KeyFile;
    hide Entry;
    hide Offset;
    KeyFileTo(keys, k + 1);
    assert keys[..k + 1] == keys[..k] + [keys[k]];
    KeyFileSnoc(keys[..k], keys[k]);
  }

  lemma EntryAt(file: seq<Byte>, before: seq<Byte>, key: Key)
    requires |key| <= MAX_LEN && before + Entry(key) <= file
    ensures |before| + 4 + |key| <= |file| && WordAt(file, |before|, |key|)
    ensures file[|before| + 4..|before| + 4 + |key|] == key
  {
    LittleEndian(|key|);
    hide U32;
    var upto := before + Entry(key);
    assert file[..|upto|] == upto;
    assert upto == before + U32(|key|) + key;
    WordWithin(upto, before, U32(|key|), key);
    assert file[|before| + 4..|before| + 4 + |key|] == upto[|before| + 4..];
  }

  lemma WordWithin(b: seq<Byte>, before: seq<Byte>, word: seq<Byte>, rest: seq<Byte>)
    requires b == before + word + rest && |word| == 4
    ensures b[|before|] == word[0] && b[|before| + 1] == word[1]
    ensures b[|before| + 2] == word[2] && b[|before| + 3] == word[3] && b[|before| + 4..] == rest
  {
  }

  lemma EntryRead(key: Key, more: seq<Byte>)
    requires |key| <= MAX_LEN
    ensures ReadKeyFile(Entry(key) + more) == After([key], ReadKeyFile(more))
  {
    var b := Entry(key) + more;
    U32RoundTrip(|key|);
    assert b[..4] == U32(|key|);
    hide U32;
    hide FromU32;
    assert b[4..4 + |key|] == key && b[4 + |key|..] == more;
  }

  lemma Cut(b: seq<Byte>, i: nat, j: nat)
    requires i <= j <= |b|
    ensures b == b[..i] + b[i..j] + b[j..]
  {
  }

  /** A key file with fewer than four stray bytes behind it reads back as its keys. */
  lemma {:induction false} KeysRecovered(keys: seq<Key>, stray: seq<Byte>)
    requires Fits(keys) && |stray| < 4
    ensures ReadKeyFile(KeyFile(keys) + stray) == Some(keys)
    decreases |keys|
  {
    if keys == [] {
      assert KeyFile(keys) + stray == stray;
    } else {
      hide Fits;
      hide Entry;
      hide ReadKeyFile;
      KeyFileUnfold(keys);
      hide KeyFile;
      var more := KeyFile(keys[1..]) + stray;
      KeysRecovered(keys[1..], stray);
      EntryRead(keys[0], more);
      Regroup(Entry(keys[0]), KeyFile(keys[1..]), stray);
    }
  }

  /** Whatever reads back as `keys` is their key file, up to fewer than four stray bytes. */
  lemma {:induction false} OnlyKeyFilesRead(b: seq<Byte>, keys: seq<Key>) returns (stray: seq<Byte>)
    requires ReadKeyFile(b) == Some(keys)
    ensures Fits(keys) && |stray| < 4 && b == KeyFile(keys) + stray
    decreases |b|
  {
    if |b| < 4 {
      stray := b;
      assert KeyFile([]) + b == b;
    } else {
      var l := FromU32(b[..4]);
      FirstEntry(b, keys);
      stray := OnlyKeyFilesRead(b[4 + l..], keys[1..]);
      KeyFileFold(keys);
      hide ReadKeyFile;
      hide Entry;
      hide FromU32;
      hide KeyFile;
      hide Fits;
      Regroup(Entry(keys[0]), KeyFile(keys[1..]), stray);
    }
  }

  lemma KeyFileFold(keys: seq<Key>)
    requires keys != [] && |keys[0]| <= MAX_LEN && Fits(keys[1..])
    ensures Fits(keys) && KeyFile(keys) == Entry(keys[0]) + KeyFile(keys[1..])
  {
    hide Entry;
    assert [keys[0]] + keys[1..] == keys;
  }

  lemma ReadStep(b: seq<Byte>)
    requires ReadKeyFile(b).Some? && |b| >= 4
    ensures 4 + FromU32(b[..4]) <= |b| && ReadKeyFile(b[4 + FromU32(b[..4])..]).Some?
    ensures var l := FromU32(b[..4]);
      ReadKeyFile(b) == Some([b[4..4 + l]] + ReadKeyFile(b[4 + l..]).value)
  {
    hide FromU32;
  }

  lemma HeadAndTail(k: Key, rest: seq<Key>)
    ensures ([k] + rest)[0] == k && ([k] + rest)[1..] == rest
  {
  }

  lemma FirstEntry(b: seq<Byte>, keys: seq<Key>)
    requires ReadKeyFile(b) == Some(keys) && |b| >= 4
    ensures keys != [] && 4 + FromU32(b[..4]) <= |b| && ReadKeyFile(b[4 + FromU32(b[..4])..]) == Some(keys[1..])
    ensures |keys[0]| <= MAX_LEN && b == Entry(keys[0]) + b[4 + FromU32(b[..4])..]
  {
    hide ReadKeyFile;
    var l := FromU32(b[..4]);
    FromU32RoundTrip(b[..4]);
    hide U32;
    hide FromU32;
    ReadStep(b);
    var rest := ReadKeyFile(b[4 + l..]).value;
    HeadAndTail(b[4..4 + l], rest);
    Cut(b, 4, 4 + l);
  }

  // ----- the id stream

  predicate Words(ids: seq<nat>) {
    forall k :: 0 <= k < |ids| ==> ids[k] < U32_LIMIT
  }

  function IdFile(ids: seq<nat>): seq<Byte>
    requires Words(ids)
  {
    if ids == [] then [] else U32(ids[0]) + IdFile(ids[1..])
  }

  /** Whole four-byte chunks; a short tail is ignored. */
  function ReadIdFile(b: seq<Byte>): seq<nat> {
    if |b| < 4 then [] else [FromU32(b[..4])] + ReadIdFile(b[4..])
  }

  lemma {:induction false} IdFileSnoc(ids: seq<nat>, id: nat)
    requires id < U32_LIMIT && Words(ids)
    ensures Words(ids + [id]) && IdFile(ids + [id]) == IdFile(ids) + U32(id)
    decreases |ids|
  {
    hide U32;
    if ids == [] {
      assert [id][1..] == [] && IdFile([id]) == U32(id) + IdFile([]);
    } else {
      IdFileSnoc(ids[1..], id);
      assert (ids + [id])[1..] == ids[1..] + [id];
      assert IdFile(ids + [id]) == U32(ids[0]) + (IdFile(ids[1..]) + U32(id));
    }
  }

  lemma IdRead(id: nat, more: seq<Byte>)
    requires id < U32_LIMIT
    ensures ReadIdFile(U32(id) + more) == [id] + ReadIdFile(more)
  {
    var b := U32(id) + more;
    U32RoundTrip(id);
    assert b[..4] == U32(id) && b[4..] == more;
    hide U32;
    hide FromU32;
  }

  lemma {:induction false} IdsRecovered(ids: seq<nat>)
    requires Words(ids)
    ensures ReadIdFile(IdFile(ids)) == ids
    decreases |ids|
  {
    if ids != [] {
      hide U32;
      IdsRecovered(ids[1..]);
      assert IdFile(ids) == U32(ids[0]) + IdFile(ids[1..]);
      hide IdFile;
      IdRead(ids[0], IdFile(ids[1..]));
      hide ReadIdFile;
      assert [ids[0]] + ids[1..] == ids;
    }
  }

  /** Four bytes for each id, least significant first, one after the other. */
  lemma {:induction false} IdFileLayout(ids: seq<nat>, t: nat)
    requires Words(ids) && t < |ids|
    ensures |IdFile(ids)| == 4 * |ids| && WordAt(IdFile(ids), 4 * t, ids[t])
    decreases |ids|
  {
    var word, rest := U32(ids[0]), IdFile(ids[1..]);
    FirstWord(ids[0], rest);
    assert IdFile(ids) == word + rest;
    if |ids| == 1 {
      assert rest == [];
    }
    hide U32;
    hide WordAt;
    if |ids| > 1 {
      IdFileLayout(ids[1..], if t == 0 then 0 else t - 1);
    }
    hide IdFile;
    if t > 0 {
      WordLater(word, rest, 4 * (t - 1), ids[t]);
    }
  }

  lemma FirstWord(n: nat, rest: seq<Byte>)
    requires n < U32_LIMIT
    ensures WordAt(U32(n) + rest, 0, n)
  {
    LittleEndian(n);
  }

  lemma WordLater(word: seq<Byte>, rest: seq<Byte>, at: nat, n: nat)
    requires |word| == 4 && WordAt(rest, at, n)
    ensures WordAt(word + rest, at + 4, n)
  {
  }

  // ----- the programs

  /** Write every interned key in id order. */
  method EmitKeys(interner: Interner) returns (file: seq<Byte>)
    requires interner.Valid() && Fits(interner.Keys())
    ensures file == KeyFile(interner.Keys())
  {
    hide Holds;
    hide KeysOf;
    hide NoDup;
    hide PowerOfTwo;
    hide KeyFile;
    ghost var keys := interner.Keys();
    KeysAt(interner.arena, interner.off, interner.len);
    NoKeys(keys);
    file := [];
    for id := 0 to |interner.off|
      invariant Fits(keys[..id]) && file == KeyFile(keys[..id])
    {
      var b := interner.Bytes(id);
      assert b == keys[id] && keys[..id + 1] == keys[..id] + [b];
      KeyFileSnoc(keys[..id], b);
      file := file + U32(|b|) + b;
    }
    assert keys[..|keys|] == keys;
  }

  lemma NoKeys(keys: seq<Key>)
    ensures Fits(keys[..0]) && KeyFile(keys[..0]) == []
  {
  }

  method EmitIds(ids: seq<nat>) returns (file: seq<Byte>)
    requires Words(ids)
    ensures file == IdFile(ids)
  {
    file := [];
    for t := 0 to |ids|
      invariant file == IdFile(ids[..t])
    {
      assert ids[..t + 1] == ids[..t] + [ids[t]];
      IdFileSnoc(ids[..t], ids[t]);
      file := file + U32(ids[t]);
    }
    assert ids[..|ids|] == ids;
  }

  /** The arena form the bench keeps the keys in. */
  datatype KeyArena = KeyArena(arena: seq<Byte>, off: seq<nat>, len: seq<nat>)

  lemma ReadNext(keys: seq<Key>, b: seq<Byte>)
    requires |b| >= 4
    ensures var l := FromU32(b[..4]);
      && (|b| - 4 < l ==> After(keys, ReadKeyFile(b)) == None)
      && (|b| - 4 >= l ==>
            After(keys, ReadKeyFile(b)) == After(keys + [b[4..4 + l]], ReadKeyFile(b[4 + l..])))
  {
    hide FromU32;
    var l := FromU32(b[..4]);
    if |b| - 4 >= l {
      var key, rest := b[4..4 + l], ReadKeyFile(b[4 + l..]);
      assert ReadKeyFile(b) == After([key], rest);
      hide ReadKeyFile;
      AfterAfter(keys, key, rest);
    }
  }

  lemma AfterAfter(keys: seq<Key>, key: Key, rest: Option<seq<Key>>)
    ensures After(keys, After([key], rest)) == After(keys + [key], rest)
  {
    if rest.Some? {
      assert keys + ([key] + rest.value) == keys + [key] + rest.value;
    }
  }

  lemma ReadDone(keys: seq<Key>, b: seq<Byte>)
    requires |b| < 4
    ensures After(keys, ReadKeyFile(b)) == Some(keys)
  {
    assert ReadKeyFile(b) == Some([]);
    assert keys + [] == keys;
  }

  /** Read a key file into one arena. */
  method ReadKeys(b: seq<Byte>) returns (r: Option<KeyArena>)
    ensures r == None <==> ReadKeyFile(b) == None
    ensures r.Some? ==> Stored(r.value.arena, r.value.off, r.value.len)
    ensures r.Some? ==> Some(KeysOf(r.value.arena, r.value.off, r.value.len)) == ReadKeyFile(b)
  {
    hide ReadKeyFile;
    hide KeysOf;
    hide Stored;
    var arena: seq<Byte>, off: seq<nat>, len: seq<nat> := [], [], [];
    var at: nat := 0;
    NothingRead(b);
    while at + 4 <= |b|
      invariant at <= |b| && Stored(arena, off, len)
      invariant After(KeysOf(arena, off, len), ReadKeyFile(b[at..])) == ReadKeyFile(b)
    {
      ghost var keys := KeysOf(arena, off, len);
      var l := FromU32(b[at..][..4]);
      ReadNext(keys, b[at..]);
      if |b| - at - 4 < l {
        return None;
      }
      var key := b[at..][4..4 + l];
      assert b[at..][4 + l..] == b[at + 4 + l..];
      ArenaAppend(arena, off, len, key);
      arena, off, len := arena + key, off + [|arena|], len + [l];
      at := at + 4 + l;
    }
    ReadDone(KeysOf(arena, off, len), b[at..]);
    r := Some(KeyArena(arena, off, len));
  }

  lemma NothingRead(b: seq<Byte>)
    ensures Stored([], [], []) && After(KeysOf([], [], []), ReadKeyFile(b[0..])) == ReadKeyFile(b)
  {
    assert KeysOf([], [], []) == [];
    assert b[0..] == b;
    if ReadKeyFile(b).Some? {
      assert [] + ReadKeyFile(b).value == ReadKeyFile(b).value;
    }
  }

  /** Intern a document's keys and emit both files.  Read back, the key file gives the distinct keys
      in first-seen order, and looking the id stream up in them replays the document. */
  method EmitCorpus(document: seq<Key>, hash: Key -> nat) returns (keyFile: seq<Byte>, idFile: seq<Byte>)
    requires |FirstSeen([], document)| <= EMPTY_SLOT && Fits(document)
    ensures ReadKeyFile(keyFile) == Some(FirstSeen([], document))
    ensures Replays(FirstSeen([], document), ReadIdFile(idFile), document)
  {
    hide Holds;
    hide KeysOf;
    hide NoDup;
    hide FirstSeen;
    hide KeyFile;
    hide ReadKeyFile;
    hide IdFile;
    hide ReadIdFile;
    var interner := new Interner(hash);
    var ids := interner.InternAll(document);
    KeptKeysFit(document);
    keyFile := EmitKeys(interner);
    assert keyFile + [] == keyFile;
    KeysRecovered(interner.Keys(), []);
    idFile := EmitIds(ids);
    IdsRecovered(ids);
  }

  lemma KeptKeysFit(document: seq<Key>)
    requires Fits(document)
    ensures Fits(FirstSeen([], document))
  {
    FirstSeenIsTheSet([], document);
    forall k | k in FirstSeen([], document) ensures |k| <= MAX_LEN {
      assert k in Elems(FirstSeen([], document));
      assert k in Elems(document);
    }
  }
}
