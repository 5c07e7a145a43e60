/** One simulated cache size: four table designs fed by the same probes. */
module CacheSimulator {
  import opened Relations
  import opened Powers
  import opened Interning
  import opened Caches

  class CacheSim {
    const size: nat
    const mix: nat -> nat           // the finaliser applied to a short key
    // short key, direct-mapped, verified
    const slots: array<nat>
    var hits: nat
    // short key, direct-mapped, unverified
    const ukeys: array<nat>
    const uslots: array<nat>
    var falseHits: nat
    // full hash, direct-mapped, verified
    const fslots: array<nat>
    var fhits: nat
    // full hash, 4-way LRU, most recent way first
    const ways: array<nat>
    var whits: nat
    var probes: nat
    ghost var history: seq<Probe>

    ghost function Arrays(): set<object> {
      {slots, ukeys, uslots, fslots, ways}
    }

    ghost predicate Sized() {
      && size >= WAYS && (exists k: nat :: size == Pow2(k))
      && slots.Length == ukeys.Length == uslots.Length == fslots.Length == ways.Length == size
      && slots != ukeys && slots != uslots && slots != fslots && slots != ways
      && ukeys != uslots && ukeys != fslots && ukeys != ways
      && uslots != fslots && uslots != ways && fslots != ways
    }

    ghost predicate Tables()
      requires Sized()
      reads this, Arrays()
    {
      && Direct(slots[..], history, ShortSlot(mix, size))
      && Unverified(ukeys[..], uslots[..], history, ShortSlot(mix, size))
      && Direct(fslots[..], history, FullSlot(size))
      && FourWay(ways[..], history, WaySet(size))
    }

    /** The tables agree with the probe history, and every counter with what it counts. */
    ghost predicate Valid()
      reads this, Arrays()
    {
      && Sized() && Tables()
      && hits == HitCount(history, ShortSlot(mix, size), 1)
      && falseHits == FalseCount(history, ShortSlot(mix, size))
      && fhits == HitCount(history, FullSlot(size), 1)
      && whits == HitCount(history, WaySet(size), WAYS)
      && probes == |history|
    }

    constructor (k: nat, mix: nat -> nat)
      requires k >= 2
      ensures Valid() && size == Pow2(k) && this.mix == mix && history == []
      ensures fresh(Arrays())
    {
      QuarterPower(k);
      this.size, this.mix := Pow2(k), mix;
      slots, ukeys, uslots := new nat[Pow2(k)](_ => EMPTY), new nat[Pow2(k)](_ => 0), new nat[Pow2(k)](_ => EMPTY);
      fslots, ways := new nat[Pow2(k)](_ => EMPTY), new nat[Pow2(k)](_ => EMPTY);
      hits, falseHits, fhits, whits, probes, history := 0, 0, 0, 0, 0, [];
      new;
      hide Pow2;
      BlankTables(slots[..], ShortSlot(mix, size));
      BlankTables(fslots[..], FullSlot(size));
      BlankTables(ways[..], WaySet(size));
      BlankUnverified(ukeys[..], uslots[..], ShortSlot(mix, size));
    }

    /** Look one key up in every table, count the hits and remember the key. */
    method Probe(shortKey: nat, fullHash: nat, id: nat)
      requires Valid() && id < EMPTY
      modifies this, Arrays()
      ensures Valid() && history == old(history) + [Lookup(shortKey, fullHash, id)]
      ensures var h, p := old(history), Lookup(shortKey, fullHash, id);
        && hits == old(hits) + (if ShortHit(h, mix, size, p) then 1 else 0)
        && falseHits == old(falseHits) + (if WrongAnswer(h, mix, size, p) then 1 else 0)
        && fhits == old(fhits) + (if FullHit(h, size, p) then 1 else 0)
        && whits == old(whits) + (if WayHit(h, size, p) then 1 else 0)
        && probes == old(probes) + 1
    {
      hide Pow2;
      hide Direct;
      hide Unverified;
      hide FourWay;
      hide HitCount;
      hide FalseCount;
      hide FalseHit;
      ghost var p, h := Lookup(shortKey, fullHash, id), history;
      ghost var short, full, ways4 := ShortSlot(mix, size), FullSlot(size), WaySet(size);
      var slot: nat, fslot: nat := mix(shortKey) % size, fullHash % size;
      var s := fullHash / SET_SHIFT % (size / WAYS);
      SetFits(fullHash / SET_SHIFT, size);
      CountNext(h, short, 1, p);
      CountNext(h, full, 1, p);
      CountNext(h, ways4, WAYS, p);
      FalseCountNext(h, short, p);
      ShortHitIff(h, mix, size, p);
      WrongAnswerIff(h, mix, size, p);
      FullHitIff(h, size, p);
      WayHitIff(h, size, p);
      hide ShortHit;
      hide WrongAnswer;
      hide FullHit;
      hide WayHit;
      hide Retained;

      var hit := ProbeDirect(slots, slot, id, h, short, p);
      var falseHit := ProbeUnverified(ukeys, uslots, slot, shortKey, id, h, short, p);
      var fhit := ProbeDirect(fslots, fslot, id, h, full, p);
      var whit := ProbeWays(ways, s, id, h, ways4, p);
      probes, history := probes + 1, history + [p];
      if hit { hits := hits + 1; }
      if falseHit { falseHits := falseHits + 1; }
      if fhit { fhits := fhits + 1; }
      if whit { whits := whits + 1; }
    }
  }

  lemma BlankTables(cells: seq<nat>, f: Probe -> nat)
    requires forall c :: 0 <= c < |cells| ==> cells[c] == EMPTY
    ensures Direct(cells, [], f) && FourWay(cells, [], f)
  {
  }

  lemma BlankUnverified(ukeys: seq<nat>, uslots: seq<nat>, f: Probe -> nat)
    requires |ukeys| == |uslots| && forall c :: 0 <= c < |uslots| ==> uslots[c] == EMPTY
    ensures Unverified(ukeys, uslots, [], f)
  {
  }

  /** The set a masked hash selects lies inside the table. */
  lemma SetFits(x: nat, size: nat)
    requires size >= WAYS
    ensures 4 * (x % (size / WAYS)) + 4 <= size
  {
  }

  lemma CountNext(h: seq<Probe>, f: Probe -> nat, w: nat, p: Probe)
    ensures HitCount(h + [p], f, w) == HitCount(h, f, w) + if Retained(h, f, w, p) then 1 else 0
  {
    assert (h + [p])[..|h|] == h;
  }

  lemma FalseCountNext(h: seq<Probe>, f: Probe -> nat, p: Probe)
    ensures FalseCount(h + [p], f) == FalseCount(h, f) + if FalseHit(h, f, p) then 1 else 0
  {
    assert (h + [p])[..|h|] == h;
  }

  /** A verified direct-mapped slot answers exactly when its last probe was of the same id. */
  method ProbeDirect(cells: array<nat>, slot: nat, id: nat, ghost h: seq<Probe>, ghost f: Probe -> nat, ghost p: Probe)
    returns (hit: bool)
    requires slot == f(p) < cells.Length && id == p.id != EMPTY && Direct(cells[..], h, f)
    modifies cells
    ensures Direct(cells[..], h + [p], f)
    ensures hit <==> Retained(h, f, 1, p)
  {
    hide Direct;
    hide Retained;
    DirectNext(cells[..], h, f, p);
    hit := cells[slot] == id;
    if hit {
      assert cells[..][slot := id] == cells[..];
    } else {
      cells[slot] := id;
      assert cells[..] == old(cells[..])[slot := id];
    }
  }

  /** The unverified table always keeps the newcomer; a short-key match on another id is counted. */
  method ProbeUnverified(ukeys: array<nat>, uslots: array<nat>, slot: nat, shortKey: nat, id: nat,
                         ghost h: seq<Probe>, ghost f: Probe -> nat, ghost p: Probe)
    returns (falseHit: bool)
    requires ukeys != uslots && ukeys.Length == uslots.Length
    requires slot == f(p) < uslots.Length && id == p.id != EMPTY && shortKey == p.shortKey
    requires Unverified(ukeys[..], uslots[..], h, f)
    modifies ukeys, uslots
    ensures Unverified(ukeys[..], uslots[..], h + [p], f)
    ensures falseHit <==> FalseHit(h, f, p)
  {
    hide Unverified;
    hide FalseHit;
    UnverifiedNext(ukeys[..], uslots[..], h, f, p);
    falseHit := uslots[slot] != EMPTY && ukeys[slot] == shortKey && uslots[slot] != id;
    ukeys[slot], uslots[slot] := shortKey, id;
    assert ukeys[..] == old(ukeys[..])[slot := shortKey];
    assert uslots[..] == old(uslots[..])[slot := id];
  }

  /** A 4-way set answers exactly when fewer than four other distinct ids of the set were probed
      since the id's last use; either way the id moves to the front. */
  method ProbeWays(ways: array<nat>, s: nat, id: nat, ghost h: seq<Probe>, ghost f: Probe -> nat, ghost p: Probe)
    returns (hit: bool)
    requires s == f(p) && 4 * s + 4 <= ways.Length && id == p.id != EMPTY && FourWay(ways[..], h, f)
    modifies ways
    ensures FourWay(ways[..], h + [p], f)
    ensures hit <==> Retained(h, f, WAYS, p)
  {
    hide FourWay;
    hide Retained;
    hide Promote;
    hit := PromoteWay(ways, s, id);
    assert forall c :: 0 <= c < ways.Length ==> ways[..][c] == ways[c] && old(ways[..])[c] == old(ways[c]);
    FourWayNext(old(ways[..]), ways[..], h, f, p);
  }

  /** Find the id among the four ways, shift the ways in front of it back by one, and put it first. */
  method PromoteWay(ways: array<nat>, s: nat, id: nat) returns (hit: bool)
    requires 4 * s + 4 <= ways.Length
    modifies ways
    ensures Block(ways[..], s) == Promote(old(Block(ways[..], s)), id)
    ensures hit <==> Position(old(Block(ways[..], s)), id) < 4
    ensures forall c :: 0 <= c < ways.Length && !(4 * s <= c < 4 * s + 4) ==> ways[c] == old(ways[c])
  {
    hide Promote;
    hide Block;
    hide Shifted;
    var base := s * WAYS;
    ghost var b := Block(ways[..], s);
    BlockCells(ways[..], s);
    var found, w: nat := WAYS, 0;
    while w < WAYS
      invariant 0 <= w <= WAYS && found == WAYS
      invariant forall j :: 0 <= j < w ==> b[j] != id
    {
      assert b[w] == ways[..][4 * s + w];
      if ways[base + w] == id {
        found := w;
        break;
      }
      w := w + 1;
    }
    hit := found < WAYS;
    var promoteFrom: nat := if hit then found else WAYS - 1;
    PromoteShifts(b, id, found);
    w := promoteFrom;
    while w >= 1
      invariant 0 <= w <= promoteFrom < 4
      invariant Block(ways[..], s) == Shifted(b, w, promoteFrom)
      invariant forall c :: 0 <= c < ways.Length && !(base <= c < base + 4) ==> ways[c] == old(ways[c])
    {
      BlockCells(ways[..], s);
      BlockUpdate(ways[..], s, w, ways[base + w - 1]);
      ShiftNext(b, w, promoteFrom);
      ghost var before := ways[..];
      ways[base + w] := ways[base + w - 1];
      assert ways[..] == before[4 * s + w := before[4 * s + w - 1]];
      w := w - 1;
    }
    BlockUpdate(ways[..], s, 0, id);
    ghost var before := ways[..];
    ways[base] := id;
    assert ways[..] == before[4 * s := id];
  }

  lemma BlockCells(cells: seq<nat>, s: nat)
    requires 4 * s + 4 <= |cells|
    ensures forall j :: 0 <= j < 4 ==> Block(cells, s)[j] == cells[4 * s + j]
  {
  }

  lemma BlockUpdate(cells: seq<nat>, s: nat, w: nat, x: nat)
    requires 4 * s + 4 <= |cells| && w < 4
    ensures Block(cells[4 * s + w := x], s) == Block(cells, s)[w := x]
  {
  }

  /** A set whose ways `w + 1` to `from` have been shifted back by one. */
  function Shifted(b: seq<nat>, w: nat, from: nat): (b': seq<nat>)
    requires |b| == 4
    ensures |b'| == 4
  {
    seq(4, j requires 0 <= j < 4 => if w < j <= from then b[j - 1] else b[j])
  }

  lemma ShiftNext(b: seq<nat>, w: nat, from: nat)
    requires |b| == 4 && 1 <= w <= from < 4
    ensures Shifted(b, w, from)[w := Shifted(b, w, from)[w - 1]] == Shifted(b, w - 1, from)
  {
  }

  /** Shifting from the found way, or from the last one, and writing the id in front is a promotion. */
  lemma PromoteShifts(b: seq<nat>, id: nat, found: nat)
    requires |b| == 4 && found <= 4
    requires (forall j :: 0 <= j < found ==> b[j] != id) && (found < 4 ==> b[found] == id)
    ensures found == Position(b, id)
    ensures var from := if found < 4 then found else 3;
      && Shifted(b, from, from) == b
      && Promote(b, id) == Shifted(b, 0, from)[0 := id]
  {
    var k := Position(b, id);
    assert k >= found;
  }

  // ----- what the report may rely on

  /** Two sizes fed the same consistent stream: the larger never has fewer hits, in any verified design. */
  lemma LargerSizesHitMore(small: CacheSim, large: CacheSim)
    requires small.Valid() && large.Valid() && small.size <= large.size && small.mix == large.mix
    requires small.history == large.history && Consistent(small.history)
    ensures small.hits <= large.hits && small.fhits <= large.fhits && small.whits <= large.whits
  {
    var j: nat :| small.size == Pow2(j);
    var k: nat :| large.size == Pow2(k);
    if k < j {
      Pow2Strict(k, j);
    }
    AtLeastFour(j);
    ShortSlotsNest(small.mix, j, k);
    FullSlotsNest(j, k);
    WaySetsNest(j, k);
    hide Pow2;
    var h := small.history;
    HitCountsNest(h, ShortSlot(small.mix, small.size), ShortSlot(small.mix, large.size), 1);
    HitCountsNest(h, FullSlot(small.size), FullSlot(large.size), 1);
    HitCountsNest(h, WaySet(small.size), WaySet(large.size), WAYS);
  }

  lemma Pow2Strict(k: nat, j: nat)
    requires k < j
    ensures Pow2(k) < Pow2(j)
  {
    Pow2Monotone(k, j - 1);
  }

  lemma AtLeastFour(j: nat)
    ensures Pow2(j) >= 4 <==> j >= 2
  {
    if j >= 2 {
      QuarterPower(j);
    } else {
      assert Pow2(0) == 1 && Pow2(1) == 2;
    }
  }

  /** No verified design beats the oracle that misses only on first sight; short-key answers,
      right or wrong, never exceed the probes. */
  lemma HitsBelowOracle(c: CacheSim)
    requires c.Valid()
    ensures c.hits + |ProbedIds(c.history)| <= c.probes
    ensures c.fhits + |ProbedIds(c.history)| <= c.probes
    ensures c.whits + |ProbedIds(c.history)| <= c.probes
    ensures Consistent(c.history) ==> c.hits + c.falseHits <= c.probes
  {
    var h := c.history;
    HitsAreRepeats(h, ShortSlot(c.mix, c.size), 1);
    HitsAreRepeats(h, FullSlot(c.size), 1);
    HitsAreRepeats(h, WaySet(c.size), WAYS);
    if Consistent(h) {
      AnswersAreProbes(h, ShortSlot(c.mix, c.size));
    }
  }

  lemma {:induction false} AnswersAreProbes(h: seq<Probe>, f: Probe -> nat)
    requires Consistent(h)
    ensures HitCount(h, f, 1) + FalseCount(h, f) <= |h|
    decreases |h|
  {
    if h != [] {
      var n := |h| - 1;
      AnswersAreProbes(h[..n], f);
      assert h[..n] + [h[n]] == h;
      UnverifiedAnswers(h[..n], f, h[n]);
    }
  }

  /** The probes main derives from a document: short key and hash of each key, with its id. */
  function ProbesOf(document: seq<Key>, ids: seq<nat>, short: Key -> nat, hash: Key -> nat): seq<Probe>
    requires |document| == |ids|
  {
    seq(|ids|, t requires 0 <= t < |ids| => Lookup(short(document[t]), hash(document[t]), ids[t]))
  }

  lemma ProbesOfNext(document: seq<Key>, ids: seq<nat>, short: Key -> nat, hash: Key -> nat, t: nat, id: nat)
    requires t < |document| && |ids| == t
    ensures |document[..t]| == |ids| && |document[..t + 1]| == |ids + [id]|
    ensures ProbesOf(document[..t + 1], ids + [id], short, hash) ==
              ProbesOf(document[..t], ids, short, hash) + [Lookup(short(document[t]), hash(document[t]), id)]
  {
  }

  /** Interned ids make the probe stream consistent. */
  lemma InternedIsConsistent(keys: seq<Key>, ids: seq<nat>, document: seq<Key>, short: Key -> nat, hash: Key -> nat)
    requires Replays(keys, ids, document)
    ensures Consistent(ProbesOf(document, ids, short, hash))
  {
  }

  /** The distinct ids probed are the ids handed out, one for each distinct key. */
  lemma ProbedIdsAreKeys(keys: seq<Key>, ids: seq<nat>, document: seq<Key>, short: Key -> nat, hash: Key -> nat)
    requires Replays(keys, ids, document) && NoDup(keys) && Elems(keys) == Elems(document)
    ensures |ProbedIds(ProbesOf(document, ids, short, hash))| == |keys|
  {
    var h := ProbesOf(document, ids, short, hash);
    forall id: nat | id < |keys| ensures id in ProbedIds(h) {
      assert keys[id] in Elems(document);
      var t :| 0 <= t < |document| && document[t] == keys[id];
      assert keys[ids[t]] == keys[id];
      assert h[t] in h && h[t].id == id;
    }
    forall id | id in ProbedIds(h) ensures id < |keys| {
      var p :| p in h && p.id == id;
      var t :| 0 <= t < |h| && h[t] == p;
    }
    assert ProbedIds(h) == Interning.Ids(|keys|);
  }

  /** The two simulators share no table. */
  ghost predicate Apart(a: CacheSim, b: CacheSim) {
    a != b && a.Arrays() !! b.Arrays()
  }

  /** Probe both simulators with one key. */
  method ProbeBoth(small: CacheSim, large: CacheSim, shortKey: nat, fullHash: nat, id: nat)
    requires small.Valid() && large.Valid() && Apart(small, large) && id < EMPTY
    modifies small, small.Arrays(), large, large.Arrays()
    ensures small.Valid() && small.history == old(small.history) + [Lookup(shortKey, fullHash, id)]
    ensures large.Valid() && large.history == old(large.history) + [Lookup(shortKey, fullHash, id)]
  {
    hide CacheSim.Valid;
    assert forall o :: o in large.Arrays() ==> o !in small.Arrays();
    small.Probe(shortKey, fullHash, id);
    large.Probe(shortKey, fullHash, id);
  }

  /** After the keys `done` of a document: they are interned, and both simulators have been probed
      with each of them in turn. */
  ghost predicate Ran(interner: Interner, small: CacheSim, large: CacheSim, done: seq<Key>, ids: seq<nat>,
                      short: Key -> nat)
    reads interner, small, small.Arrays(), large, large.Arrays()
  {
    && interner.Valid() && small.Valid() && large.Valid() && Apart(small, large)
    && interner.Keys() == FirstSeen([], done) && Replays(interner.Keys(), ids, done)
    && small.history == large.history == ProbesOf(done, ids, short, interner.hash)
  }

  /** Interning a key touches no cache. */
  method InternBeside(interner: Interner, small: CacheSim, large: CacheSim, document: seq<Key>, t: nat,
                      ghost ids: seq<nat>) returns (id: nat)
    requires interner.Valid() && small.Valid() && large.Valid() && t < |document|
    requires interner.Keys() == FirstSeen([], document[..t]) && Replays(interner.Keys(), ids, document[..t])
    requires |FirstSeen([], document)| <= EMPTY_SLOT && |document[t]| <= MAX_LEN
    modifies interner
    ensures interner.Valid() && small.Valid() && large.Valid() && id < EMPTY_SLOT
    ensures interner.Keys() == FirstSeen([], document[..t + 1])
    ensures Replays(interner.Keys(), ids + [id], document[..t + 1])
  {
    id := interner.InternNext([], document, t, ids);
  }

  /** Probing the caches touches no key. */
  method ProbeBeside(interner: Interner, small: CacheSim, large: CacheSim, shortKey: nat, fullHash: nat, id: nat)
    requires interner.Valid() && small.Valid() && large.Valid() && Apart(small, large) && id < EMPTY
    modifies small, small.Arrays(), large, large.Arrays()
    ensures interner.Valid() && interner.Keys() == old(interner.Keys())
    ensures small.Valid() && small.history == old(small.history) + [Lookup(shortKey, fullHash, id)]
    ensures large.Valid() && large.history == old(large.history) + [Lookup(shortKey, fullHash, id)]
  {
    hide Interner.Valid;
    hide Interner.Keys;
    hide CacheSim.Valid;
    hide Apart;
    ProbeBoth(small, large, shortKey, fullHash, id);
  }

  /** One round of main's loop: intern a key and probe both caches with it. */
  method RunKey(interner: Interner, small: CacheSim, large: CacheSim, document: seq<Key>, t: nat, ids: seq<nat>,
                short: Key -> nat)
    returns (id: nat)
    requires t < |document| && Ran(interner, small, large, document[..t], ids, short)
    requires |FirstSeen([], document)| <= EMPTY_SLOT && |document[t]| <= MAX_LEN
    modifies interner, small, small.Arrays(), large, large.Arrays()
    ensures Ran(interner, small, large, document[..t + 1], ids + [id], short)
  {
    hide FirstSeen;
    hide ProbesOf;
    hide Replays;
    ReplaysLength(interner.Keys(), ids, document[..t]);
    id := InternBeside(interner, small, large, document, t, ids);
    ProbesOfNext(document, ids, short, interner.hash, t, id);
    ProbeBeside(interner, small, large, short(document[t]), interner.hash(document[t]), id);
  }

  lemma ReplaysLength(keys: seq<Key>, ids: seq<nat>, document: seq<Key>)
    requires Replays(keys, ids, document)
    ensures |ids| == |document|
  {
  }

  /** Main's loop for two cache sizes.  The probe stream is a consistent one, the larger cache never
      answers less, and no verified design answers more than the repeats. */
  method RunCorpus(document: seq<Key>, short: Key -> nat, hash: Key -> nat, mix: nat -> nat, j: nat, k: nat)
    returns (interner: Interner, ids: seq<nat>, small: CacheSim, large: CacheSim)
    requires 2 <= j <= k
    requires |FirstSeen([], document)| <= EMPTY_SLOT && forall key :: key in document ==> |key| <= MAX_LEN
    ensures interner.Valid() && interner.Keys() == FirstSeen([], document) && Replays(interner.Keys(), ids, document)
    ensures small.Valid() && small.size == Pow2(j) && small.history == ProbesOf(document, ids, short, hash)
    ensures large.Valid() && large.size == Pow2(k) && large.history == ProbesOf(document, ids, short, hash)
    ensures small.hits <= large.hits && small.fhits <= large.fhits && small.whits <= large.whits
    ensures large.hits + |interner.Keys()| <= |document|
    ensures large.fhits + |interner.Keys()| <= |document|
    ensures large.whits + |interner.Keys()| <= |document|
    ensures forall t :: 0 <= t < |document| ==>
              large.history[t] == Lookup(shortKey := short(document[t]), fullHash := hash(document[t]), id := ids[t])
  {
    hide FirstSeen;
    hide Pow2;
    hide Ran;
    interner, small, large := NewRun(hash, mix, j, k, short, document);
    ids := [];
    for t := 0 to |document|
      invariant Ran(interner, small, large, document[..t], ids, short)
    {
      var id := RunKey(interner, small, large, document, t, ids, short);
      ids := ids + [id];
    }
    assert document[..|document|] == document;
    CorpusReport(interner, small, large, document, ids, short, j, k);
  }

  method NewRun(hash: Key -> nat, mix: nat -> nat, j: nat, k: nat, ghost short: Key -> nat, ghost document: seq<Key>)
    returns (interner: Interner, small: CacheSim, large: CacheSim)
    requires 2 <= j <= k
    ensures fresh(interner) && fresh(small) && fresh(small.Arrays()) && fresh(large) && fresh(large.Arrays())
    ensures interner.hash == hash && small.mix == large.mix == mix && small.size == Pow2(j) && large.size == Pow2(k)
    ensures Ran(interner, small, large, document[..0], [], short)
  {
    hide FirstSeen;
    hide Pow2;
    hide Holds;
    hide KeysOf;
    hide PowerOfTwo;
    hide Replays;
    hide ProbesOf;
    hide CacheSim.Valid;
    interner := new Interner(hash);
    small := new CacheSim(j, mix);
    large := new CacheSim(k, mix);
    StartCorpus(document, short, hash);
  }

  lemma StartCorpus(document: seq<Key>, short: Key -> nat, hash: Key -> nat)
    ensures FirstSeen([], document[..0]) == [] && Replays([], [], document[..0])
    ensures ProbesOf(document[..0], [], short, hash) == []
  {
  }

  lemma CorpusReport(interner: Interner, small: CacheSim, large: CacheSim, document: seq<Key>, ids: seq<nat>,
                     short: Key -> nat, j: nat, k: nat)
    requires 2 <= j <= k && small.size == Pow2(j) && large.size == Pow2(k) && small.mix == large.mix
    requires Ran(interner, small, large, document, ids, short)
    ensures interner.Valid() && interner.Keys() == FirstSeen([], document) && Replays(interner.Keys(), ids, document)
    ensures small.Valid() && small.history == ProbesOf(document, ids, short, interner.hash)
    ensures large.Valid() && large.history == ProbesOf(document, ids, short, interner.hash)
    ensures small.hits <= large.hits && small.fhits <= large.fhits && small.whits <= large.whits
    ensures large.hits + |interner.Keys()| <= |document| && large.fhits + |interner.Keys()| <= |document|
    ensures large.whits + |interner.Keys()| <= |document|
  {
    hide CacheSim.Tables;
    hide Holds;
    hide PowerOfTwo;
    hide KeysOf;
    var keys := interner.Keys();
    InternedIsConsistent(keys, ids, document, short, interner.hash);
    FirstSeenIsTheSet([], document);
    assert Elems<Key>([]) == {};
    ProbedIdsAreKeys(keys, ids, document, short, interner.hash);
    Pow2Monotone(j, k);
    LargerSizesHitMore(small, large);
    HitsBelowOracle(large);
  }
}
