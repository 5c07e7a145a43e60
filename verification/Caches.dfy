/** Repeat-cache simulators: direct-mapped and 4-way LRU tables driven by one probe stream. */
module Caches {
  import opened Wrappers
  import opened Relations
  import opened Powers

  const EMPTY: nat := 0xFFFF_FFFF
  const WAYS: nat := 4
  const SET_SHIFT: nat := 0x1_0000_0000     // the set index comes from the upper half of the hash

  datatype Probe = Lookup(shortKey: nat, fullHash: nat, id: nat)

  // ----- what a cache of `w` ways remembers

  /** The other ids probed in `p`'s set after time `t`. */
  ghost function Others(h: seq<Probe>, f: Probe -> nat, s: nat, x: nat, t: nat): set<nat> {
    set u | t < u < |h| && f(h[u]) == s && h[u].id != x :: h[u].id
  }

  predicate UsedAt(h: seq<Probe>, f: Probe -> nat, s: nat, x: nat, t: nat) {
    t < |h| && f(h[t]) == s && h[t].id == x
  }

  /** `p`'s id has been used in its set with fewer than `w` distinct other ids of the set since. */
  ghost predicate Retained(h: seq<Probe>, f: Probe -> nat, w: nat, p: Probe) {
    exists t: nat :: UsedAt(h, f, f(p), p.id, t) && |Others(h, f, f(p), p.id, t)| < w
  }

  /** How many probes of the stream a cache of `w` ways answers. */
  ghost function HitCount(h: seq<Probe>, f: Probe -> nat, w: nat): nat {
    if h == [] then 0
    else
      var n := |h| - 1;
      HitCount(h[..n], f, w) + if Retained(h[..n], f, w, h[n]) then 1 else 0
  }

  // ----- what a hit means in each design, on the probes alone

  /** The latest earlier probe whose short key mixes to the same low bits was of the same id. */
  ghost predicate ShortHit(h: seq<Probe>, mix: nat -> nat, size: nat, p: Probe)
    requires size > 0
  {
    exists t: nat :: t < |h| && mix(h[t].shortKey) % size == mix(p.shortKey) % size && h[t].id == p.id
      && forall u :: t < u < |h| ==> mix(h[u].shortKey) % size != mix(p.shortKey) % size
  }

  /** The latest earlier probe whose short key mixes to the same low bits had that very short key and
      was of another id. */
  ghost predicate WrongAnswer(h: seq<Probe>, mix: nat -> nat, size: nat, p: Probe)
    requires size > 0
  {
    exists t: nat :: t < |h| && mix(h[t].shortKey) % size == mix(p.shortKey) % size
      && h[t].shortKey == p.shortKey && h[t].id != p.id
      && forall u :: t < u < |h| ==> mix(h[u].shortKey) % size != mix(p.shortKey) % size
  }

  /** The latest earlier probe with the same low bits of the full hash was of the same id. */
  ghost predicate FullHit(h: seq<Probe>, size: nat, p: Probe)
    requires size > 0
  {
    exists t: nat :: t < |h| && h[t].fullHash % size == p.fullHash % size && h[t].id == p.id
      && forall u :: t < u < |h| ==> h[u].fullHash % size != p.fullHash % size
  }

  /** The other ids probed after `t` with the same low bits in the upper half of the full hash. */
  ghost function Rivals(h: seq<Probe>, size: nat, p: Probe, t: nat): set<nat>
    requires size >= 4
  {
    set u | t < u < |h| && h[u].id != p.id
            && h[u].fullHash / 0x1_0000_0000 % (size / 4) == p.fullHash / 0x1_0000_0000 % (size / 4) :: h[u].id
  }

  /** An earlier probe was of the same id, and fewer than four rivals have been probed since. */
  ghost predicate WayHit(h: seq<Probe>, size: nat, p: Probe)
    requires size >= 4
  {
    exists t: nat :: t < |h| && h[t].id == p.id
      && h[t].fullHash / 0x1_0000_0000 % (size / 4) == p.fullHash / 0x1_0000_0000 % (size / 4)
      && |Rivals(h, size, p, t)| < 4
  }

  /** One way remembers the latest probe of each cell. */
  lemma OneWayIsLatest(h: seq<Probe>, f: Probe -> nat, p: Probe)
    ensures Retained(h, f, 1, p) <==>
            exists t: nat :: t < |h| && f(h[t]) == f(p) && h[t].id == p.id
              && forall u :: t < u < |h| ==> f(h[u]) != f(p)
  {
    if Retained(h, f, 1, p) {
      var t: nat :| UsedAt(h, f, f(p), p.id, t) && |Others(h, f, f(p), p.id, t)| < 1;
      var last, u := t, t + 1;
      while u < |h|
        invariant t <= last < u <= |h| && f(h[last]) == f(p) && h[last].id == p.id
        invariant forall v :: last < v < u ==> f(h[v]) != f(p)
      {
        if f(h[u]) == f(p) {
          assert h[u].id != p.id ==> h[u].id in Others(h, f, f(p), p.id, t);
          last := u;
        }
        u := u + 1;
      }
    }
    if t: nat :| t < |h| && f(h[t]) == f(p) && h[t].id == p.id && forall u :: t < u < |h| ==> f(h[u]) != f(p) {
      assert UsedAt(h, f, f(p), p.id, t) && Others(h, f, f(p), p.id, t) == {};
    }
  }

  lemma ShortHitIff(h: seq<Probe>, mix: nat -> nat, size: nat, p: Probe)
    requires size > 0
    ensures Retained(h, ShortSlot(mix, size), 1, p) <==> ShortHit(h, mix, size, p)
  {
    OneWayIsLatest(h, ShortSlot(mix, size), p);
    hide Retained;
  }

  lemma FullHitIff(h: seq<Probe>, size: nat, p: Probe)
    requires size > 0
    ensures Retained(h, FullSlot(size), 1, p) <==> FullHit(h, size, p)
  {
    OneWayIsLatest(h, FullSlot(size), p);
    hide Retained;
  }

  lemma WayHitIff(h: seq<Probe>, size: nat, p: Probe)
    requires size >= 4
    ensures Retained(h, WaySet(size), 4, p) <==> WayHit(h, size, p)
  {
    var f := WaySet(size);
    forall t: nat ensures Others(h, f, f(p), p.id, t) == Rivals(h, size, p, t) {
    }
    if Retained(h, f, 4, p) {
      var t: nat :| UsedAt(h, f, f(p), p.id, t) && |Others(h, f, f(p), p.id, t)| < 4;
      assert |Rivals(h, size, p, t)| < 4;
    }
    if WayHit(h, size, p) {
      var t: nat :| t < |h| && h[t].id == p.id
                    && h[t].fullHash / 0x1_0000_0000 % (size / 4) == p.fullHash / 0x1_0000_0000 % (size / 4)
                    && |Rivals(h, size, p, t)| < 4;
      assert UsedAt(h, f, f(p), p.id, t);
    }
  }

  // ----- nesting

  /** Probes that share a cell of the fine index share one of the coarse index. */
  ghost predicate Nested(coarse: Probe -> nat, fine: Probe -> nat) {
    forall p, q :: fine(p) == fine(q) ==> coarse(p) == coarse(q)
  }

  /** Each id always comes with the same key. */
  ghost predicate Consistent(h: seq<Probe>) {
    forall t, u :: 0 <= t < |h| && 0 <= u < |h| && h[t].id == h[u].id ==> h[t] == h[u]
  }

  /** A probe answered through the coarse index is answered through the fine one. */
  lemma HitsNest(h: seq<Probe>, coarse: Probe -> nat, fine: Probe -> nat, w: nat, p: Probe)
    requires Nested(coarse, fine) && Consistent(h + [p]) && Retained(h, coarse, w, p)
    ensures Retained(h, fine, w, p)
  {
    var t: nat :| UsedAt(h, coarse, coarse(p), p.id, t) && |Others(h, coarse, coarse(p), p.id, t)| < w;
    assert (h + [p])[t] == h[t] && (h + [p])[|h|] == p;
    assert UsedAt(h, fine, fine(p), p.id, t);
    SubsetSize(Others(h, fine, fine(p), p.id, t), Others(h, coarse, coarse(p), p.id, t));
  }

  lemma {:induction false} HitCountsNest(h: seq<Probe>, coarse: Probe -> nat, fine: Probe -> nat, w: nat)
    requires Nested(coarse, fine) && Consistent(h)
    ensures HitCount(h, coarse, w) <= HitCount(h, fine, w)
    decreases |h|
  {
    if h != [] {
      var n := |h| - 1;
      HitCountsNest(h[..n], coarse, fine, w);
      assert h[..n] + [h[n]] == h;
      if Retained(h[..n], coarse, w, h[n]) {
        HitsNest(h[..n], coarse, fine, w, h[n]);
      }
    }
  }

  // ----- the index of each design

  function ShortSlot(mix: nat -> nat, size: nat): Probe -> nat
    requires size > 0
  {
    (p: Probe) => mix(p.shortKey) % size
  }

  function FullSlot(size: nat): Probe -> nat
    requires size > 0
  {
    (p: Probe) => p.fullHash % size
  }

  function WaySet(size: nat): Probe -> nat
    requires size >= WAYS
  {
    (p: Probe) => p.fullHash / SET_SHIFT % (size / WAYS)
  }

  /** The low bits kept by a small mask are among those kept by a larger one. */
  lemma {:induction false} MaskNested(j: nat, k: nat, x: nat, y: nat)
    requires j <= k && x % Pow2(k) == y % Pow2(k)
    ensures x % Pow2(j) == y % Pow2(j)
  {
    MaskTwice(j, k, x);
    MaskTwice(j, k, y);
  }

  lemma MaskTwice(j: nat, k: nat, x: nat)
    requires j <= k
    ensures x % Pow2(k) % Pow2(j) == x % Pow2(j)
  {
    Pow2Doubles(j, k - j);
    ModMod(x, Pow2(k - j), Pow2(j));
  }

  lemma ModMod(x: nat, c: nat, m: nat)
    requires c > 0 && m > 0
    ensures m * c > 0 && x % (m * c) % m == x % m
  {
    var q, r := x / (m * c), x % (m * c);
    assert x == (m * c) * q + r;
    assert (m * c) * q == (q * c) * m;
    ModPlusMultiple(r, q * c, m);
  }

  lemma ModPlusMultiple(r: nat, q: nat, m: nat)
    requires m > 0
    ensures (q * m + r) % m == r % m
  {
    var a := r / m;
    assert r == a * m + r % m;
    assert q * m + r == (q + a) * m + r % m;
    ModUnique(q + a, r % m, m);
  }

  lemma ModUnique(q: nat, r: nat, m: nat)
    requires r < m
    ensures (q * m + r) % m == r
  {
    var x := q * m + r;
    var q' := x / m;
    assert x == q' * m + x % m;
    assert (q - q') * m == q * m - q' * m;
    Multiples(q - q', m);
  }

  lemma Multiples(d: int, m: nat)
    ensures d >= 1 ==> d * m >= m
    ensures d <= -1 ==> d * m + m <= 0
    ensures d == 0 ==> d * m == 0
  {
  }

  lemma ShortSlotsNest(mix: nat -> nat, j: nat, k: nat)
    requires j <= k
    ensures Nested(ShortSlot(mix, Pow2(j)), ShortSlot(mix, Pow2(k)))
  {
    hide Pow2;
    forall p: Probe, q: Probe | mix(p.shortKey) % Pow2(k) == mix(q.shortKey) % Pow2(k)
      ensures mix(p.shortKey) % Pow2(j) == mix(q.shortKey) % Pow2(j)
    {
      MaskNested(j, k, mix(p.shortKey), mix(q.shortKey));
    }
  }

  lemma FullSlotsNest(j: nat, k: nat)
    requires j <= k
    ensures Nested(FullSlot(Pow2(j)), FullSlot(Pow2(k)))
  {
    hide Pow2;
    forall p: Probe, q: Probe | p.fullHash % Pow2(k) == q.fullHash % Pow2(k)
      ensures p.fullHash % Pow2(j) == q.fullHash % Pow2(j)
    {
      MaskNested(j, k, p.fullHash, q.fullHash);
    }
  }

  lemma WaySetsNest(j: nat, k: nat)
    requires 2 <= j <= k
    ensures Pow2(j) >= WAYS && Pow2(k) >= WAYS
    ensures Nested(WaySet(Pow2(j)), WaySet(Pow2(k)))
  {
    QuarterPower(j);
    QuarterPower(k);
    hide Pow2;
    forall p: Probe, q: Probe | WaySet(Pow2(k))(p) == WaySet(Pow2(k))(q)
      ensures WaySet(Pow2(j))(p) == WaySet(Pow2(j))(q)
    {
      MaskNested(j - 2, k - 2, p.fullHash / SET_SHIFT, q.fullHash / SET_SHIFT);
    }
  }

  lemma QuarterPower(k: nat)
    requires k >= 2
    ensures Pow2(k) >= WAYS && Pow2(k) / WAYS == Pow2(k - 2)
  {
    assert Pow2(k) == 2 * Pow2(k - 1) == 4 * Pow2(k - 2);
  }

  /** For one consistent stream, a probe answered at one power-of-two size is answered at every
      larger one, whichever the design. */
  lemma LargerSizesHit(h: seq<Probe>, mix: nat -> nat, j: nat, k: nat, p: Probe)
    requires 2 <= j <= k && Consistent(h + [p])
    ensures Pow2(j) >= WAYS && Pow2(k) >= WAYS
    ensures Retained(h, ShortSlot(mix, Pow2(j)), 1, p) ==> Retained(h, ShortSlot(mix, Pow2(k)), 1, p)
    ensures Retained(h, FullSlot(Pow2(j)), 1, p) ==> Retained(h, FullSlot(Pow2(k)), 1, p)
    ensures Retained(h, WaySet(Pow2(j)), WAYS, p) ==> Retained(h, WaySet(Pow2(k)), WAYS, p)
    ensures ShortHit(h, mix, Pow2(j), p) ==> ShortHit(h, mix, Pow2(k), p)
    ensures FullHit(h, Pow2(j), p) ==> FullHit(h, Pow2(k), p)
    ensures WayHit(h, Pow2(j), p) ==> WayHit(h, Pow2(k), p)
  {
    ShortHitIff(h, mix, Pow2(j), p);
    ShortHitIff(h, mix, Pow2(k), p);
    FullHitIff(h, Pow2(j), p);
    FullHitIff(h, Pow2(k), p);
    QuarterPower(j);
    QuarterPower(k);
    WayHitIff(h, Pow2(j), p);
    WayHitIff(h, Pow2(k), p);
    hide ShortHit;
    hide FullHit;
    hide WayHit;
    ShortSlotsNest(mix, j, k);
    FullSlotsNest(j, k);
    WaySetsNest(j, k);
    hide Pow2;
    hide Nested;
    hide Consistent;
    hide Retained;
    if Retained(h, ShortSlot(mix, Pow2(j)), 1, p) {
      HitsNest(h, ShortSlot(mix, Pow2(j)), ShortSlot(mix, Pow2(k)), 1, p);
    }
    if Retained(h, FullSlot(Pow2(j)), 1, p) {
      HitsNest(h, FullSlot(Pow2(j)), FullSlot(Pow2(k)), 1, p);
    }
    if Retained(h, WaySet(Pow2(j)), WAYS, p) {
      HitsNest(h, WaySet(Pow2(j)), WaySet(Pow2(k)), WAYS, p);
    }
  }

  // ----- hits and repeats

  function ProbedIds(h: seq<Probe>): set<nat> {
    set p | p in h :: p.id
  }

  /** No design can answer the first probe of an id, so hits never exceed the repeats. */
  lemma {:induction false} HitsAreRepeats(h: seq<Probe>, f: Probe -> nat, w: nat)
    ensures HitCount(h, f, w) + |ProbedIds(h)| <= |h|
    decreases |h|
  {
    if h == [] {
      assert ProbedIds(h) == {};
    } else {
      var n := |h| - 1;
      HitsAreRepeats(h[..n], f, w);
      assert h == h[..n] + [h[n]];
      assert ProbedIds(h) == ProbedIds(h[..n]) + {h[n].id};
      if Retained(h[..n], f, w, h[n]) {
        var t: nat :| UsedAt(h[..n], f, f(h[n]), h[n].id, t);
        assert h[..n][t] in h[..n];
        assert ProbedIds(h) == ProbedIds(h[..n]);
      }
    }
  }

  // ----- recency lists

  function Without(r: seq<nat>, x: nat): seq<nat> {
    if r == [] then [] else if r[0] == x then Without(r[1..], x) else [r[0]] + Without(r[1..], x)
  }

  function MoveToFront(r: seq<nat>, x: nat): seq<nat> {
    [x] + Without(r, x)
  }

  /** The distinct ids probed in set `s`, most recent first. */
  function Recency(h: seq<Probe>, f: Probe -> nat, s: nat): seq<nat>
    decreases |h|
  {
    if h == [] then []
    else
      var n := |h| - 1;
      var r := Recency(h[..n], f, s);
      if f(h[n]) == s then MoveToFront(r, h[n].id) else r
  }

  lemma RecencyNext(h: seq<Probe>, f: Probe -> nat, s: nat, p: Probe)
    ensures Recency(h + [p], f, s) == if f(p) == s then MoveToFront(Recency(h, f, s), p.id) else Recency(h, f, s)
  {
    assert (h + [p])[..|h|] == h;
  }

  lemma ConsNoDup(a: nat, r: seq<nat>)
    ensures NoDup([a] + r) <==> a !in r && NoDup(r)
  {
    var s := [a] + r;
    if NoDup(s) {
      assert forall i :: 0 <= i < |r| ==> r[i] == s[i + 1] && s[0] != s[i + 1];
    }
  }

  lemma {:induction false} WithoutMembers(r: seq<nat>, x: nat)
    ensures forall y :: y in Without(r, x) <==> y in r && y != x
    ensures NoDup(r) ==> NoDup(Without(r, x))
    ensures x !in r ==> Without(r, x) == r
    decreases |r|
  {
    if r != [] {
      WithoutMembers(r[1..], x);
      assert r == [r[0]] + r[1..];
      assert forall y :: y in r <==> y == r[0] || y in r[1..];
      ConsNoDup(r[0], r[1..]);
      ConsNoDup(r[0], Without(r[1..], x));
      if r[0] != x {
        assert forall y :: y in Without(r, x) <==> y == r[0] || y in Without(r[1..], x);
      }
    }
  }

  /** The ids in front of `x`. */
  function Before(r: seq<nat>, x: nat): set<nat> {
    if r == [] || r[0] == x then {} else {r[0]} + Before(r[1..], x)
  }

  lemma {:induction false} BeforeWithout(r: seq<nat>, x: nat, y: nat)
    requires x != y
    ensures Before(Without(r, y), x) == Before(r, x) - {y}
    decreases |r|
  {
    if r == [] {
    } else if r[0] == y {
      BeforeWithout(r[1..], x, y);
      assert Without(r, y) == Without(r[1..], y);
      assert Before(r, x) == {y} + Before(r[1..], x);
    } else {
      BeforeWithout(r[1..], x, y);
      BeforePushed(r[0], Without(r[1..], y), x);
      BeforePushed(r[0], r[1..], x);
      assert r == [r[0]] + r[1..];
    }
  }

  lemma BeforePushed(a: nat, r: seq<nat>, x: nat)
    ensures Before([a] + r, x) == if a == x then {} else {a} + Before(r, x)
  {
    assert ([a] + r)[1..] == r;
  }

  lemma BeforeMoved(r: seq<nat>, x: nat, y: nat)
    requires x != y
    ensures Before(MoveToFront(r, y), x) == Before(r, x) + {y}
  {
    BeforeWithout(r, x, y);
    assert MoveToFront(r, y)[1..] == Without(r, y);
  }

  /** `r` says who was used since `x`: it lists `x` exactly when `x` has been used, and in front of
      `x` stand exactly the other ids used after the last use of `x`. */
  ghost predicate Ranks(h: seq<Probe>, f: Probe -> nat, s: nat, x: nat, r: seq<nat>) {
    && NoDup(r)
    && (x in r <==> exists t: nat :: UsedAt(h, f, s, x, t))
    && (forall t: nat :: UsedAt(h, f, s, x, t) ==> Before(r, x) <= Others(h, f, s, x, t))
    && (x in r ==> exists t: nat :: UsedAt(h, f, s, x, t) && Before(r, x) == Others(h, f, s, x, t))
  }

  lemma {:induction false} RecencyMeans(h: seq<Probe>, f: Probe -> nat, s: nat, x: nat)
    ensures Ranks(h, f, s, x, Recency(h, f, s))
    decreases |h|
  {
    if h != [] {
      var n := |h| - 1;
      var g, p := h[..n], h[n];
      RecencyMeans(g, f, s, x);
      assert h == g + [p];
      RecencyNext(g, f, s, p);
      if f(p) != s {
        OtherSetRanks(g, f, s, x, Recency(g, f, s), p);
      } else if p.id == x {
        SameIdRanks(g, f, s, Recency(g, f, s), p);
      } else {
        OtherIdRanks(g, f, s, x, Recency(g, f, s), p);
      }
    }
  }

  lemma OtherSetRanks(g: seq<Probe>, f: Probe -> nat, s: nat, x: nat, r: seq<nat>, p: Probe)
    requires Ranks(g, f, s, x, r) && f(p) != s
    ensures Ranks(g + [p], f, s, x, r)
  {
    forall t: nat
      ensures UsedAt(g + [p], f, s, x, t) <==> UsedAt(g, f, s, x, t)
      ensures t < |g| ==> Others(g + [p], f, s, x, t) == Others(g, f, s, x, t)
    {
      OthersNext(g, f, s, x, p, t);
    }
    hide Others;
  }

  lemma SameIdRanks(g: seq<Probe>, f: Probe -> nat, s: nat, r: seq<nat>, p: Probe)
    requires Ranks(g, f, s, p.id, r) && f(p) == s
    ensures Ranks(g + [p], f, s, p.id, MoveToFront(r, p.id))
  {
    WithoutMembers(r, p.id);
    ConsNoDup(p.id, Without(r, p.id));
    assert Before(MoveToFront(r, p.id), p.id) == {};
    assert UsedAt(g + [p], f, s, p.id, |g|) && Others(g + [p], f, s, p.id, |g|) == {};
  }

  lemma OtherIdRanks(g: seq<Probe>, f: Probe -> nat, s: nat, x: nat, r: seq<nat>, p: Probe)
    requires Ranks(g, f, s, x, r) && f(p) == s && p.id != x
    ensures Ranks(g + [p], f, s, x, MoveToFront(r, p.id))
  {
    WithoutMembers(r, p.id);
    ConsNoDup(p.id, Without(r, p.id));
    BeforeMoved(r, x, p.id);
    forall t: nat
      ensures UsedAt(g + [p], f, s, x, t) <==> UsedAt(g, f, s, x, t)
      ensures t < |g| ==> Others(g + [p], f, s, x, t) == Others(g, f, s, x, t) + {p.id}
    {
      OthersNext(g, f, s, x, p, t);
    }
    hide Others;
    hide Before;
    var h, r' := g + [p], MoveToFront(r, p.id);
    assert x in r' <==> x in r;
    if x in r {
      var t: nat :| UsedAt(g, f, s, x, t) && Before(r, x) == Others(g, f, s, x, t);
      assert UsedAt(h, f, s, x, t) && Before(r', x) == Others(h, f, s, x, t);
    }
  }

  lemma OthersNext(g: seq<Probe>, f: Probe -> nat, s: nat, x: nat, p: Probe, t: nat)
    ensures UsedAt(g + [p], f, s, x, t) <==> UsedAt(g, f, s, x, t) || (t == |g| && f(p) == s && p.id == x)
    ensures t < |g| ==> Others(g + [p], f, s, x, t) ==
                          Others(g, f, s, x, t) + if f(p) == s && p.id != x then {p.id} else {}
  {
    var h := g + [p];
    if t < |g| && f(p) == s && p.id != x {
      assert h[|g|].id in Others(h, f, s, x, t);
    }
    forall u | t < u < |g| ensures h[u] == g[u] {
    }
  }

  // ----- the tables hold the front of each recency list

  /** The `k`-th most recent id, or EMPTY. */
  function Nth(r: seq<nat>, k: nat): nat {
    if k < |r| then r[k] else EMPTY
  }

  function Position(r: seq<nat>, x: nat): (k: nat)
    ensures k <= |r| && (k < |r| ==> r[k] == x) && forall j :: 0 <= j < k ==> r[j] != x
    ensures k < |r| <==> x in r
  {
    if r == [] || r[0] == x then 0 else 1 + Position(r[1..], x)
  }

  lemma {:induction false} BeforePosition(r: seq<nat>, x: nat)
    requires NoDup(r) && x in r
    ensures |Before(r, x)| == Position(r, x) && forall y :: y in Before(r, x) ==> y in r
    decreases |r|
  {
    if r[0] != x {
      assert r == [r[0]] + r[1..];
      ConsNoDup(r[0], r[1..]);
      BeforePosition(r[1..], x);
    }
  }

  /** A cache of `w` ways holds `p`'s id exactly when it stands among the first `w` of its set. */
  lemma RetainedIsNear(h: seq<Probe>, f: Probe -> nat, w: nat, p: Probe)
    ensures Retained(h, f, w, p) <==>
              p.id in Recency(h, f, f(p)) && Position(Recency(h, f, f(p)), p.id) < w
  {
    var r := Recency(h, f, f(p));
    RecencyMeans(h, f, f(p), p.id);
    if p.id in r {
      BeforePosition(r, p.id);
      if Retained(h, f, w, p) {
        var t: nat :| UsedAt(h, f, f(p), p.id, t) && |Others(h, f, f(p), p.id, t)| < w;
        SubsetSize(Before(r, p.id), Others(h, f, f(p), p.id, t));
      }
    }
  }

  lemma {:induction false} WithoutAt(r: seq<nat>, x: nat, j: nat)
    requires NoDup(r)
    ensures Nth(Without(r, x), j) == if j < Position(r, x) then Nth(r, j) else Nth(r, j + 1)
    decreases |r|
  {
    if r != [] {
      assert r == [r[0]] + r[1..];
      ConsNoDup(r[0], r[1..]);
      if r[0] == x {
        WithoutMembers(r[1..], x);
      } else if j > 0 {
        WithoutAt(r[1..], x, j - 1);
      }
    }
  }

  lemma MovedAt(r: seq<nat>, x: nat, j: nat)
    requires NoDup(r)
    ensures Nth(MoveToFront(r, x), j) ==
              if j == 0 then x else if j <= Position(r, x) then Nth(r, j - 1) else Nth(r, j)
  {
    if j > 0 {
      WithoutAt(r, x, j - 1);
    }
  }

  /** A direct-mapped table holds each slot's most recent id. */
  ghost predicate Direct(cells: seq<nat>, h: seq<Probe>, f: Probe -> nat) {
    forall s :: 0 <= s < |cells| ==> cells[s] == Nth(Recency(h, f, s), 0)
  }

  lemma DirectNext(cells: seq<nat>, h: seq<Probe>, f: Probe -> nat, p: Probe)
    requires Direct(cells, h, f) && f(p) < |cells| && p.id != EMPTY
    ensures Direct(cells[f(p) := p.id], h + [p], f)
    ensures cells[f(p)] == p.id <==> Retained(h, f, 1, p)
  {
    RetainedIsNear(h, f, 1, p);
    forall s | 0 <= s < |cells| ensures cells[f(p) := p.id][s] == Nth(Recency(h + [p], f, s), 0) {
      RecencyNext(h, f, s, p);
    }
  }

  function Block(cells: seq<nat>, s: nat): (b: seq<nat>)
    requires 4 * s + 4 <= |cells|
    ensures |b| == 4
  {
    cells[4 * s..4 * s + 4]
  }

  function FrontFour(r: seq<nat>): seq<nat> {
    [Nth(r, 0), Nth(r, 1), Nth(r, 2), Nth(r, 3)]
  }

  /** Each set holds its four most recent distinct ids, most recent first. */
  ghost predicate FourWay(cells: seq<nat>, h: seq<Probe>, f: Probe -> nat) {
    forall s: nat :: 4 * s + 4 <= |cells| ==> Block(cells, s) == FrontFour(Recency(h, f, s))
  }

  /** A set after `x` is probed: `x` in front, the ways it was behind shifted back by one. */
  function Promote(b: seq<nat>, x: nat): (b': seq<nat>)
    requires |b| == 4
    ensures |b'| == 4
  {
    var from := if Position(b, x) < 4 then Position(b, x) else 3;
    [x] + b[..from] + b[from + 1..]
  }

  lemma PromoteAt(b: seq<nat>, x: nat, j: nat)
    requires |b| == 4 && j < 4
    ensures Promote(b, x)[j] == if j == 0 then x else if j <= Position(b, x) then b[j - 1] else b[j]
  {
  }

  /** The front four show where an id stands, or that it stands further back. */
  lemma FrontPosition(r: seq<nat>, x: nat)
    requires x != EMPTY
    ensures Position(r, x) < 4 && x in r ==> Position(FrontFour(r), x) == Position(r, x)
    ensures !(Position(r, x) < 4 && x in r) ==> Position(FrontFour(r), x) == 4
  {
    var b, k := FrontFour(r), Position(r, x);
    assert forall j :: 0 <= j < 4 ==> b[j] == Nth(r, j);
    if k < 4 && x in r {
      assert b[k] == x;
    } else {
      assert forall j :: 0 <= j < 4 && j < k ==> b[j] != x;
    }
  }

  lemma PromoteIsMoveToFront(r: seq<nat>, x: nat)
    requires NoDup(r) && x != EMPTY
    ensures Promote(FrontFour(r), x) == FrontFour(MoveToFront(r, x))
    ensures Position(FrontFour(r), x) < 4 <==> x in r && Position(r, x) < 4
  {
    FrontPosition(r, x);
    forall j | 0 <= j < 4 ensures Promote(FrontFour(r), x)[j] == FrontFour(MoveToFront(r, x))[j] {
      PromotedCell(r, x, j);
    }
    hide Promote;
    hide FrontFour;
    FrontLength(r);
    FrontLength(MoveToFront(r, x));
    assert |Promote(FrontFour(r), x)| == |FrontFour(MoveToFront(r, x))|;
  }

  lemma FrontLength(r: seq<nat>)
    ensures |FrontFour(r)| == 4 && forall j: nat :: j < 4 ==> FrontFour(r)[j] == Nth(r, j)
  {
  }

  lemma PromotedCell(r: seq<nat>, x: nat, j: nat)
    requires NoDup(r) && x != EMPTY && j < 4
    ensures |FrontFour(r)| == 4 == |FrontFour(MoveToFront(r, x))|
    ensures Promote(FrontFour(r), x)[j] == FrontFour(MoveToFront(r, x))[j]
  {
    hide Promote;
    hide FrontFour;
    hide MoveToFront;
    hide NoDup;
    FrontLength(r);
    FrontLength(MoveToFront(r, x));
    FrontPosition(r, x);
    PromoteAt(FrontFour(r), x, j);
    MovedAt(r, x, j);
  }

  lemma FourWayNext(cells: seq<nat>, cells': seq<nat>, h: seq<Probe>, f: Probe -> nat, p: Probe)
    requires FourWay(cells, h, f) && 4 * f(p) + 4 <= |cells| == |cells'| && p.id != EMPTY
    requires Block(cells', f(p)) == Promote(Block(cells, f(p)), p.id)
    requires forall c :: 0 <= c < |cells| && !(4 * f(p) <= c < 4 * f(p) + 4) ==> cells'[c] == cells[c]
    ensures FourWay(cells', h + [p], f)
    ensures Position(Block(cells, f(p)), p.id) < 4 <==> Retained(h, f, WAYS, p)
  {
    RetainedIsNear(h, f, WAYS, p);
    RecencyMeans(h, f, f(p), p.id);
    PromoteIsMoveToFront(Recency(h, f, f(p)), p.id);
    forall s: nat | 4 * s + 4 <= |cells'| ensures Block(cells', s) == FrontFour(Recency(h + [p], f, s)) {
      RecencyNext(h, f, s, p);
      if s != f(p) {
        assert Block(cells', s) == Block(cells, s);
      }
    }
  }

  // ----- the unverified table

  /** The last probe of slot `s`. */
  function LastProbe(h: seq<Probe>, f: Probe -> nat, s: nat): Option<Probe>
    decreases |h|
  {
    if h == [] then None
    else if f(h[|h| - 1]) == s then Some(h[|h| - 1])
    else LastProbe(h[..|h| - 1], f, s)
  }

  lemma {:induction false} LastProbeIsLatest(h: seq<Probe>, f: Probe -> nat, s: nat) returns (t: nat)
    requires LastProbe(h, f, s).Some?
    ensures t < |h| && LastProbe(h, f, s) == Some(h[t]) && f(h[t]) == s
    ensures forall u :: t < u < |h| ==> f(h[u]) != s
    decreases |h|
  {
    var n := |h| - 1;
    if f(h[n]) == s {
      t := n;
    } else {
      t := LastProbeIsLatest(h[..n], f, s);
      hide LastProbe;
      forall u | t < u < |h| ensures f(h[u]) != s {
        assert u < n ==> h[..n][u] == h[u];
      }
    }
  }

  lemma {:induction false} LatestIsLastProbe(h: seq<Probe>, f: Probe -> nat, t: nat)
    requires t < |h| && forall u :: t < u < |h| ==> f(h[u]) != f(h[t])
    ensures LastProbe(h, f, f(h[t])) == Some(h[t])
    decreases |h|
  {
    var n := |h| - 1;
    if t < n {
      assert f(h[n]) != f(h[t]);
      assert h[..n][t] == h[t];
      LatestIsLastProbe(h[..n], f, t);
    }
  }

  lemma WrongAnswerIff(h: seq<Probe>, mix: nat -> nat, size: nat, p: Probe)
    requires size > 0
    ensures FalseHit(h, ShortSlot(mix, size), p) <==> WrongAnswer(h, mix, size, p)
  {
    var f := ShortSlot(mix, size);
    if FalseHit(h, f, p) {
      var t := LastProbeIsLatest(h, f, f(p));
      hide LastProbe;
      assert h[t] == LastProbe(h, f, f(p)).value;
    }
    if WrongAnswer(h, mix, size, p) {
      var t: nat :| t < |h| && mix(h[t].shortKey) % size == mix(p.shortKey) % size
        && h[t].shortKey == p.shortKey && h[t].id != p.id
        && forall u :: t < u < |h| ==> mix(h[u].shortKey) % size != mix(p.shortKey) % size;
      LatestIsLastProbe(h, f, t);
      hide LastProbe;
      assert f(h[t]) == f(p);
    }
  }

  ghost predicate Unverified(ukeys: seq<nat>, uslots: seq<nat>, h: seq<Probe>, f: Probe -> nat) {
    && |ukeys| == |uslots|
    && forall s :: 0 <= s < |uslots| ==>
         match LastProbe(h, f, s)
         case None => uslots[s] == EMPTY
         case Some(q) => uslots[s] == q.id && ukeys[s] == q.shortKey && q.id != EMPTY
  }

  /** The slot's last probe had the same short key but was another term. */
  predicate FalseHit(h: seq<Probe>, f: Probe -> nat, p: Probe) {
    var q := LastProbe(h, f, f(p));
    q.Some? && q.value.shortKey == p.shortKey && q.value.id != p.id
  }

  function FalseCount(h: seq<Probe>, f: Probe -> nat): nat {
    if h == [] then 0
    else
      var n := |h| - 1;
      FalseCount(h[..n], f) + if FalseHit(h[..n], f, h[n]) then 1 else 0
  }

  lemma UnverifiedNext(ukeys: seq<nat>, uslots: seq<nat>, h: seq<Probe>, f: Probe -> nat, p: Probe)
    requires Unverified(ukeys, uslots, h, f) && f(p) < |uslots| && p.id != EMPTY
    ensures Unverified(ukeys[f(p) := p.shortKey], uslots[f(p) := p.id], h + [p], f)
    ensures uslots[f(p)] != EMPTY && ukeys[f(p)] == p.shortKey && uslots[f(p)] != p.id <==> FalseHit(h, f, p)
  {
    forall s | 0 <= s < |uslots|
      ensures LastProbe(h + [p], f, s) == if f(p) == s then Some(p) else LastProbe(h, f, s)
    {
      assert (h + [p])[..|h|] == h;
    }
  }

  lemma {:induction false} LastIsFront(h: seq<Probe>, f: Probe -> nat, s: nat)
    ensures LastProbe(h, f, s) == None <==> Recency(h, f, s) == []
    ensures LastProbe(h, f, s).Some? ==> Recency(h, f, s)[0] == LastProbe(h, f, s).value.id
    ensures LastProbe(h, f, s).Some? ==> LastProbe(h, f, s).value in h
    decreases |h|
  {
    if h != [] {
      LastIsFront(h[..|h| - 1], f, s);
    }
  }

  /** An unverified cache would answer on the short key alone.  On a consistent stream its answers
      are the verified hits and the false hits, never both. */
  lemma UnverifiedAnswers(h: seq<Probe>, f: Probe -> nat, p: Probe)
    requires Consistent(h + [p])
    ensures var q := LastProbe(h, f, f(p));
      (q.Some? && q.value.shortKey == p.shortKey) <==> (Retained(h, f, 1, p) || FalseHit(h, f, p))
    ensures !(Retained(h, f, 1, p) && FalseHit(h, f, p))
  {
    LastIsFront(h, f, f(p));
    RetainedIsNear(h, f, 1, p);
    var q := LastProbe(h, f, f(p));
    if q.Some? {
      var t :| 0 <= t < |h| && h[t] == q.value;
      assert (h + [p])[t] == q.value && (h + [p])[|h|] == p;
    }
  }
}
