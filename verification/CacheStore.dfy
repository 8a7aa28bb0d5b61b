/**
 The node's key-value store with lazy expiry and a sweeper (cache/store.rs, cache/expiry.rs), and
 the proof that clients cannot tell it from a map whose entries vanish at their expiry instant.

 Each operation is one atomic step and reads the clock once; the reading is passed as `now`.
 */
module CacheStore {
  import opened Common

  datatype CacheEntry = CacheEntry(value: Bytes, expiresAt: Option<nat>)

  type Data = map<string, CacheEntry>

  predicate IsLive(e: CacheEntry, now: nat) {
    e.expiresAt.None? || e.expiresAt.value > now
  }

  function Live(data: Data, now: nat): Data {
    map k | k in data && IsLive(data[k], now) :: data[k]
  }

  /** Physically present although expired. */
  predicate Stale(data: Data, key: string, now: nat) {
    key in data && !IsLive(data[key], now)
  }

  /** An entry as a transfer streams it: the remaining time in whole milliseconds. */
  datatype Chunk = Chunk(key: string, value: Bytes, remainingMs: Option<nat>)

  function ChunkOf(key: string, e: CacheEntry, now: nat): Chunk
    requires IsLive(e, now)
  {
    Chunk(key, e.value, if e.expiresAt.None? then None else Some((e.expiresAt.value - now) / MILLISECOND))
  }

  function Snapshot(data: Data, now: nat): map<string, Chunk> {
    map k | k in Live(data, now) :: ChunkOf(k, data[k], now)
  }

  function Expiry(ttl: Option<nat>, now: nat): Option<nat> {
    if ttl.None? then None else Some(now + ttl.value)
  }

  /** The effect of `set_from_transfer`: a zero remaining time is skipped. */
  function StoreChunk(data: Data, c: Chunk, now: nat): Data {
    if c.remainingMs == Some(0) then data
    else
      var left := c.remainingMs;
      data[c.key := CacheEntry(c.value, if left.None? then None else Some(now + left.value * MILLISECOND))]
  }

  // ----- Operations and histories -------------------------------------------

  datatype Op =
    | Set(key: string, value: Bytes, ttl: Option<nat>)
    | Get(key: string)
    | Exists(key: string)
    | Len
    | TimeToLive(key: string)
    | Expire(key: string, after: nat)
    | Delete(key: string)
    | Transfer
    | Sweep

  datatype Answer =
    | Done
    | Value(v: Option<Bytes>)
    | Flag(b: bool)
    | Count(n: nat)
    | TimeLeft(t: Option<nat>)
    | Chunks(chunks: map<string, Chunk>)

  function ValueOf(data: Data, key: string): Option<Bytes> {
    if key in data then Some(data[key].value) else None
  }

  function TtlOf(data: Data, key: string, now: nat): Option<nat> {
    if key !in data || data[key].expiresAt.None? then None
    else if data[key].expiresAt.value > now then Some(data[key].expiresAt.value - now)
    else Some(0)
  }

  /** Reading a stale key removes it. */
  function Touched(data: Data, key: string, now: nat): Data {
    if Stale(data, key, now) then data - {key} else data
  }

  /** The store as implemented. */
  function Apply(data: Data, op: Op, now: nat): (Data, Answer) {
    match op
    case Set(key, value, ttl) => (data[key := CacheEntry(value, Expiry(ttl, now))], Done)
    case Get(key) => (Touched(data, key, now), Value(ValueOf(Touched(data, key, now), key)))
    case Exists(key) => (Touched(data, key, now), Flag(ValueOf(Touched(data, key, now), key).Some?))
    case Len => (data, Count(|Live(data, now)|))
    case TimeToLive(key) => (data, TimeLeft(TtlOf(data, key, now)))
    case Expire(key, after) =>
      if key in data then (data[key := data[key].(expiresAt := Some(now + after))], Flag(true)) else (data, Flag(false))
    case Delete(key) => (data - {key}, Flag(key in data))
    case Transfer => (data, Chunks(Snapshot(data, now)))
    case Sweep => (Live(data, now), Done)
  }

  /** The ideal map: an entry exists until its expiry instant and not a moment longer. */
  function Ideal(m: Data, op: Op, now: nat): (Data, Answer) {
    var v := Live(m, now);
    match op
    case Set(key, value, ttl) =>
      (v[key := CacheEntry(value, if ttl.None? then None else Some(now + ttl.value))], Done)
    case Get(key) => (v, Value(ValueOf(v, key)))
    case Exists(key) => (v, Flag(key in v))
    case Len => (v, Count(|v|))
    case TimeToLive(key) =>
      (v, TimeLeft(if key in v && v[key].expiresAt.Some? then Some(v[key].expiresAt.value - now) else None))
    case Expire(key, after) =>
      if key in v then (v[key := v[key].(expiresAt := Some(now + after))], Flag(true)) else (v, Flag(false))
    case Delete(key) => (v - {key}, Flag(key in v))
    case Transfer => (v, Chunks(Snapshot(v, now)))
    case Sweep => (v, Done)
  }

  /** `expire`, `ttl` and the boolean of `delete` look at physical presence, so a stale key shows through them. */
  predicate Covered(data: Data, op: Op, now: nat) {
    (op.Expire? || op.Delete? || op.TimeToLive?) ==> !Stale(data, op.key, now)
  }

  lemma LiveTwice(data: Data, t: nat, now: nat)
    requires t <= now
    ensures Live(Live(data, t), now) == Live(data, now)
  {}

  lemma LiveLater(d: Data, m: Data, t: nat, now: nat)
    requires t <= now && Live(d, t) == Live(m, t)
    ensures Live(d, now) == Live(m, now)
  {
    LiveTwice(d, t, now);
    LiveTwice(m, t, now);
  }

  /** `expire` on a stale key brings it back to life. */
  predicate Revives(data: Data, op: Op, now: nat) {
    op.Expire? && Stale(data, op.key, now)
  }

  /** One operation leaves the two indistinguishable from then on, unless it revives a stale key. */
  lemma StateAgrees(d: Data, m: Data, op: Op, now: nat)
    requires Live(d, now) == Live(m, now) && !Revives(d, op, now)
    ensures Live(Apply(d, op, now).0, now) == Live(Ideal(m, op, now).0, now)
  {
    var v := Live(m, now);
    LiveTwice(m, now, now);
    LiveTwice(d, now, now);
    match op
    case Set(key, value, ttl) => LiveUpdate(d, v, key, CacheEntry(value, Expiry(ttl, now)), now);
    case Expire(key, after) =>
      assert key in d <==> key in Live(d, now);
      if key in v {
        assert d[key] == v[key];
        LiveUpdate(d, v, key, v[key].(expiresAt := Some(now + after)), now);
      }
    case Delete(key) => LiveRemove(d, v, key, now);
    case Get(key) => LiveTouched(d, key, now);
    case Exists(key) => LiveTouched(d, key, now);
    case _ =>
  }

  /** One operation is answered like the ideal map if and only if it is covered. */
  lemma AnswerAgreesIff(d: Data, m: Data, op: Op, now: nat)
    requires Live(d, now) == Live(m, now)
    ensures Apply(d, op, now).1 == Ideal(m, op, now).1 <==> Covered(d, op, now)
  {
    if op.Expire? || op.Delete? || op.TimeToLive? {
      PhysicalAnswerAgreesIff(d, m, op, now);
    } else {
      LogicalAnswerAgrees(d, m, op, now);
    }
  }

  lemma PhysicalAnswerAgreesIff(d: Data, m: Data, op: Op, now: nat)
    requires Live(d, now) == Live(m, now) && (op.Expire? || op.Delete? || op.TimeToLive?)
    ensures Apply(d, op, now).1 == Ideal(m, op, now).1 <==> !Stale(d, op.key, now)
  {
    if op.TimeToLive? {
      TtlAgreesIff(d, m, op.key, now);
    } else {
      PresentIff(d, m, op.key, now);
    }
  }

  lemma LogicalAnswerAgrees(d: Data, m: Data, op: Op, now: nat)
    requires Live(d, now) == Live(m, now) && !op.Expire? && !op.Delete? && !op.TimeToLive?
    ensures Apply(d, op, now).1 == Ideal(m, op, now).1
  {
    if op.Get? || op.Exists? {
      LiveTouched(d, op.key, now);
    } else if op.Transfer? {
      SnapshotOfLive(d, m, now);
    }
  }

  lemma PresentIff(d: Data, m: Data, key: string, now: nat)
    requires Live(d, now) == Live(m, now)
    ensures (key in d <==> key in Live(m, now)) <==> !Stale(d, key, now)
  {
    assert key in Live(m, now) <==> key in Live(d, now);
  }

  lemma SnapshotOfLive(d: Data, m: Data, now: nat)
    requires Live(d, now) == Live(m, now)
    ensures Snapshot(d, now) == Snapshot(Live(m, now), now)
  {
    LiveTwice(m, now, now);
    assert forall k :: k in Live(d, now) ==> Live(d, now)[k] == d[k];
  }

  lemma TtlAgreesIff(d: Data, m: Data, key: string, now: nat)
    requires Live(d, now) == Live(m, now)
    ensures Apply(d, TimeToLive(key), now).1 == Ideal(m, TimeToLive(key), now).1 <==> !Stale(d, key, now)
  {
    var v := Live(m, now);
    assert key in v <==> key in Live(d, now);
    if key in v {
      assert d[key] == v[key];
    }
  }

  lemma LiveUpdate(d: Data, v: Data, key: string, e: CacheEntry, now: nat)
    requires Live(d, now) == Live(v, now)
    ensures Live(d[key := e], now) == Live(v[key := e], now)
  {
    LiveOfUpdate(d, key, e, now);
    LiveOfUpdate(v, key, e, now);
  }

  lemma LiveOfUpdate(d: Data, key: string, e: CacheEntry, now: nat)
    ensures Live(d[key := e], now) == if IsLive(e, now) then Live(d, now)[key := e] else Live(d, now) - {key}
  {}

  lemma LiveRemove(d: Data, v: Data, key: string, now: nat)
    requires Live(d, now) == Live(v, now)
    ensures Live(d - {key}, now) == Live(v - {key}, now)
  {
    assert Live(d - {key}, now) == Live(d, now) - {key};
    assert Live(v - {key}, now) == Live(v, now) - {key};
  }

  lemma LiveTouched(d: Data, key: string, now: nat)
    ensures Live(Touched(d, key, now), now) == Live(d, now)
    ensures ValueOf(Touched(d, key, now), key) == ValueOf(Live(d, now), key)
  {}

  datatype Timed = Timed(op: Op, at: nat)

  ghost predicate Ordered(h: seq<Timed>, t: nat) {
    h == [] || (t <= h[0].at && Ordered(h[1..], h[0].at))
  }

  ghost predicate AllCovered(d: Data, h: seq<Timed>)
    decreases |h|
  {
    h == [] || (Covered(d, h[0].op, h[0].at) && AllCovered(Apply(d, h[0].op, h[0].at).0, h[1..]))
  }

  /** What clients see: the answers to everything but sweeps. */
  function Seen(d: Data, h: seq<Timed>): seq<Answer>
    decreases |h|
  {
    if h == [] then []
    else
      var r := Apply(d, h[0].op, h[0].at);
      (if h[0].op.Sweep? then [] else [r.1]) + Seen(r.0, h[1..])
  }

  function IdealSeen(m: Data, h: seq<Timed>): seq<Answer>
    decreases |h|
  {
    if h == [] then []
    else [Ideal(m, h[0].op, h[0].at).1] + IdealSeen(Ideal(m, h[0].op, h[0].at).0, h[1..])
  }

  function NoSweeps(h: seq<Timed>): seq<Timed> {
    if h == [] then [] else (if h[0].op.Sweep? then [] else [h[0]]) + NoSweeps(h[1..])
  }

  /** No `expire` meets a stale key. */
  ghost predicate NoRevival(d: Data, h: seq<Timed>)
    decreases |h|
  {
    h == [] || (!Revives(d, h[0].op, h[0].at) && NoRevival(Apply(d, h[0].op, h[0].at).0, h[1..]))
  }

  /** For every answer in `Seen`, whether its operation looked at a stale key. */
  function StaleShows(d: Data, h: seq<Timed>): seq<bool>
    decreases |h|
  {
    if h == [] then []
    else
      (if h[0].op.Sweep? then [] else [!Covered(d, h[0].op, h[0].at)])
      + StaleShows(Apply(d, h[0].op, h[0].at).0, h[1..])
  }

  /** The two lists of answers differ exactly where `marks` says so. */
  ghost predicate DifferExactly(a: seq<Answer>, b: seq<Answer>, marks: seq<bool>) {
    && |a| == |b| == |marks|
    && forall i :: 0 <= i < |a| ==> (a[i] != b[i] <==> marks[i])
  }

  lemma DifferCons(x: Answer, y: Answer, mark: bool, a: seq<Answer>, b: seq<Answer>, marks: seq<bool>)
    requires DifferExactly(a, b, marks) && (x != y <==> mark)
    ensures DifferExactly([x] + a, [y] + b, [mark] + marks)
  {}

  /**
   Under a non-decreasing clock, with sweeps anywhere and as long as no `expire` meets a stale key,
   a store answers like the ideal map that never hears of the sweeps, except for exactly the
   answers of a `delete` or `ttl` that met a stale key. Everything after such an answer agrees again.
   */
  lemma {:induction false} ExpiryShowsOnlyAtStaleKeys(d: Data, m: Data, h: seq<Timed>, t: nat)
    requires Live(d, t) == Live(m, t) && Ordered(h, t) && NoRevival(d, h)
    ensures DifferExactly(Seen(d, h), IdealSeen(m, NoSweeps(h)), StaleShows(d, h))
    decreases |h|
  {
    if h == [] {
    } else {
      var op, now := h[0].op, h[0].at;
      LiveLater(d, m, t, now);
      if op.Sweep? {
        LiveTwice(d, now, now);
        ExpiryShowsOnlyAtStaleKeys(Live(d, now), m, h[1..], now);
        SweepFirst(d, m, h);
      } else {
        StateAgrees(d, m, op, now);
        AnswerAgreesIff(d, m, op, now);
        var d', m' := Apply(d, op, now).0, Ideal(m, op, now).0;
        ExpiryShowsOnlyAtStaleKeys(d', m', h[1..], now);
        assert NoSweeps(h)[1..] == NoSweeps(h[1..]);
        DifferCons(Apply(d, op, now).1, Ideal(m, op, now).1, !Covered(d, op, now),
                   Seen(d', h[1..]), IdealSeen(m', NoSweeps(h[1..])), StaleShows(d', h[1..]));
      }
    }
  }

  lemma SweepFirst(d: Data, m: Data, h: seq<Timed>)
    requires h != [] && h[0].op.Sweep?
    ensures Seen(d, h) == Seen(Live(d, h[0].at), h[1..])
    ensures StaleShows(d, h) == StaleShows(Live(d, h[0].at), h[1..])
    ensures NoSweeps(h) == NoSweeps(h[1..])
  {}

  /** All answers agree with the ideal map if and only if no `expire`, `delete` or `ttl` meets a stale key. */
  lemma {:induction false} ExpiryIsInvisibleIff(d: Data, m: Data, h: seq<Timed>, t: nat)
    requires Live(d, t) == Live(m, t) && Ordered(h, t)
    ensures Seen(d, h) == IdealSeen(m, NoSweeps(h)) <==> AllCovered(d, h)
    decreases |h|
  {
    if h == [] {
    } else {
      var op, now := h[0].op, h[0].at;
      LiveLater(d, m, t, now);
      if op.Sweep? {
        LiveTwice(d, now, now);
        ExpiryIsInvisibleIff(Live(d, now), m, h[1..], now);
        SweepFirst(d, m, h);
      } else {
        AnswerAgreesIff(d, m, op, now);
        var seen, ideal := Seen(d, h), IdealSeen(m, NoSweeps(h));
        assert NoSweeps(h)[1..] == NoSweeps(h[1..]);
        assert seen[0] == Apply(d, op, now).1 && ideal[0] == Ideal(m, op, now).1;
        if Covered(d, op, now) {
          StateAgrees(d, m, op, now);
          ExpiryIsInvisibleIff(Apply(d, op, now).0, Ideal(m, op, now).0, h[1..], now);
          assert seen[1..] == Seen(Apply(d, op, now).0, h[1..]);
          assert ideal[1..] == IdealSeen(Ideal(m, op, now).0, NoSweeps(h[1..]));
          assert seen == [seen[0]] + seen[1..] && ideal == [ideal[0]] + ideal[1..];
        }
      }
    }
  }

  /** `d'` is `d` with some stale entries already removed. */
  ghost predicate Swept(d: Data, d': Data, t: nat) {
    && (forall k :: k in d' ==> k in d && d'[k] == d[k])
    && Live(d, t) == Live(d', t)
  }

  lemma SweptStep(d: Data, d': Data, op: Op, now: nat)
    requires Swept(d, d', now) && Covered(d, op, now)
    ensures Covered(d', op, now)
    ensures Swept(Apply(d, op, now).0, Apply(d', op, now).0, now)
  {
    StateAgrees(d, d', op, now);
    StateAgrees(d', d', op, now);
    if op.Expire? {
      assert op.key in d ==> op.key in Live(d', now);
    }
  }

  lemma SweptMore(d: Data, d': Data, now: nat)
    requires Swept(d, d', now)
    ensures Swept(d, Live(d', now), now)
  {
    LiveTwice(d', now, now);
  }

  /** Sweeps only take stale entries away, so a history that is covered without them is covered with them. */
  lemma {:induction false} CoveredWithSweeps(d: Data, d': Data, h: seq<Timed>, h': seq<Timed>, t: nat)
    requires Swept(d, d', t) && Ordered(h, t) && Ordered(h', t)
    requires NoSweeps(h') == h && AllCovered(d, h)
    ensures AllCovered(d', h')
    decreases |h'|
  {
    if h' == [] {
    } else {
      var op, now := h'[0].op, h'[0].at;
      LiveLater(d, d', t, now);
      if op.Sweep? {
        SweptMore(d, d', now);
        assert NoSweeps(h') == NoSweeps(h'[1..]);
        LaterOrdered(h', now);
        CoveredWithSweeps(d, Live(d', now), h, h'[1..], now);
      } else {
        assert h[0] == h'[0] && h[1..] == NoSweeps(h'[1..]);
        SweptStep(d, d', op, now);
        CoveredWithSweeps(Apply(d, op, now).0, Apply(d', op, now).0, h[1..], h'[1..], now);
      }
    }
  }

  /** What remains of an ordered history without its sweeps is ordered from the time of its first event. */
  lemma {:induction false} LaterOrdered(h: seq<Timed>, now: nat)
    requires h != [] && Ordered(h[1..], now)
    ensures Ordered(NoSweeps(h[1..]), now)
    decreases |h|
  {
    var rest := h[1..];
    if rest == [] {
    } else {
      LaterOrdered(rest, rest[0].at);
      if rest[0].op.Sweep? {
        assert NoSweeps(rest) == NoSweeps(rest[1..]);
        OrderedEarlier(NoSweeps(rest[1..]), now, rest[0].at);
      } else {
        assert NoSweeps(rest)[1..] == NoSweeps(rest[1..]);
      }
    }
  }

  lemma OrderedEarlier(h: seq<Timed>, t: nat, now: nat)
    requires t <= now && Ordered(h, now)
    ensures Ordered(h, t)
  {}

  /** The most eager schedule: a sweep right before every operation. */
  function SweepEach(h: seq<Timed>): seq<Timed> {
    if h == [] then [] else [Timed(Sweep, h[0].at), h[0]] + SweepEach(h[1..])
  }

  lemma {:induction false} SweepEachIsCovered(d: Data, h: seq<Timed>, t: nat)
    requires NoSweeps(h) == h && Ordered(h, t)
    ensures Ordered(SweepEach(h), t) && NoSweeps(SweepEach(h)) == h && AllCovered(d, SweepEach(h))
    decreases |h|
  {
    if h == [] {
    } else {
      SweepFree(h);
      var each, tail := SweepEach(h), [h[0]] + SweepEach(h[1..]);
      var swept := Live(d, h[0].at);
      SweepEachIsCovered(Apply(swept, h[0].op, h[0].at).0, h[1..], h[0].at);
      assert each[1..] == tail && tail[1..] == SweepEach(h[1..]);
      assert Ordered(tail, h[0].at);
      assert NoSweeps(tail) == [h[0]] + NoSweeps(SweepEach(h[1..]));
      assert AllCovered(swept, tail);
    }
  }

  lemma SweepFree(h: seq<Timed>)
    requires NoSweeps(h) == h && h != []
    ensures !h[0].op.Sweep? && NoSweeps(h[1..]) == h[1..]
  {
    NoSweepsShrinks(h[1..]);
    if h[0].op.Sweep? {
    } else {
      assert NoSweeps(h)[1..] == NoSweeps(h[1..]);
    }
  }

  lemma {:induction false} NoSweepsShrinks(h: seq<Timed>)
    ensures |NoSweeps(h)| <= |h|
  {
    if h == [] {
    } else {
      NoSweepsShrinks(h[1..]);
    }
  }

  /**
   Sweeps cannot be noticed, wherever they are put between the operations of `h`, if and only if
   no `expire`, `delete` or `ttl` of `h` meets a stale key when there are no sweeps at all.
   */
  lemma SweepsAreInvisibleIff(d: Data, h: seq<Timed>, t: nat)
    requires NoSweeps(h) == h && Ordered(h, t)
    ensures (forall h' | Ordered(h', t) && NoSweeps(h') == h :: Seen(d, h') == Seen(d, h)) <==> AllCovered(d, h)
  {
    ExpiryIsInvisibleIff(d, d, h, t);
    if AllCovered(d, h) {
      forall h' | Ordered(h', t) && NoSweeps(h') == h ensures Seen(d, h') == Seen(d, h) {
        CoveredWithSweeps(d, d, h, h', t);
        ExpiryIsInvisibleIff(d, d, h', t);
      }
    }
    SweepEachIsCovered(d, h, t);
    ExpiryIsInvisibleIff(d, d, SweepEach(h), t);
  }

  /** Outside the covered histories a sweep does show: `expire` revives a stale key unless a sweep came first. */
  lemma SweepShowsThroughExpire(k: string, v: Bytes)
    ensures var tail := [Timed(Expire(k, 10), 5), Timed(Get(k), 6)];
            var d := map[k := CacheEntry(v, Some(1))];
            && Seen(d, tail) == [Flag(true), Value(Some(v))]
            && Seen(d, [Timed(Sweep, 4)] + tail) == [Flag(false), Value(None)]
  {
    var d: Data := map[k := CacheEntry(v, Some(1))];
    var get := [Timed(Get(k), 6)];
    var tail := [Timed(Expire(k, 10), 5)] + get;
    var revived: Data := map[k := CacheEntry(v, Some(15))];
    assert d[k := d[k].(expiresAt := Some(15))] == revived;
    assert get[1..] == [] && tail[1..] == get && ([Timed(Sweep, 4)] + tail)[1..] == tail;
    assert Seen(revived, get) == [Value(Some(v))];
    assert Seen(d, tail) == [Flag(true)] + Seen(revived, get);
    assert Live(d, 4) == map[];
    assert Seen(map[], get) == [Value(None)];
    assert Seen(map[], tail) == [Flag(false)] + Seen(map[], get);
    assert Seen(d, [Timed(Sweep, 4)] + tail) == [] + Seen(map[], tail);
  }

  // ----- The mutable store ---------------------------------------------------

  class Store {
    var data: Data

    constructor ()
      ensures data == map[]
    {
      data := map[];
    }

    method SetKey(key: string, value: Bytes, ttl: Option<nat>, now: nat)
      modifies this
      ensures data == Apply(old(data), Set(key, value, ttl), now).0
      ensures data == old(data)[key := CacheEntry(value, if ttl.None? then None else Some(now + ttl.value))]
    {
      data := data[key := CacheEntry(value, Expiry(ttl, now))];
    }

    method GetKey(key: string, now: nat) returns (v: Option<Bytes>)
      modifies this
      ensures (data, Value(v)) == Apply(old(data), Get(key), now)
      ensures v.Some? <==> key in old(data) && (old(data)[key].expiresAt.None? || old(data)[key].expiresAt.value > now)
      ensures v.Some? ==> v.value == old(data)[key].value
      ensures data == if v.Some? then old(data) else old(data) - {key}
    {
      if key !in data {
        return None;
      }
      var entry := data[key];
      if entry.expiresAt.Some? && entry.expiresAt.value <= now {
        data := data - {key};
        return None;
      }
      return Some(entry.value);
    }

    method ExistsKey(key: string, now: nat) returns (b: bool)
      modifies this
      ensures (data, Flag(b)) == Apply(old(data), Exists(key), now)
      ensures b <==> key in old(data) && (old(data)[key].expiresAt.None? || old(data)[key].expiresAt.value > now)
    {
      var v := GetKey(key, now);
      b := v.Some?;
    }

    method DeleteKey(key: string, now: nat) returns (b: bool)
      modifies this
      ensures (data, Flag(b)) == Apply(old(data), Delete(key), now)
      ensures data == old(data) - {key} && b == (key in old(data))
    {
      b := key in data;
      data := data - {key};
    }

    method ExpireKey(key: string, after: nat, now: nat) returns (b: bool)
      modifies this
      ensures (data, Flag(b)) == Apply(old(data), Expire(key, after), now)
      ensures b == (key in old(data))
      ensures data == if b then old(data)[key := CacheEntry(old(data)[key].value, Some(now + after))] else old(data)
    {
      if key in data {
        data := data[key := data[key].(expiresAt := Some(now + after))];
        return true;
      }
      return false;
    }

    method Ttl(key: string, now: nat) returns (t: Option<nat>)
      ensures (data, TimeLeft(t)) == Apply(data, TimeToLive(key), now)
      ensures t.None? <==> key !in data || data[key].expiresAt.None?
      ensures t.Some? ==> t.value == if data[key].expiresAt.value > now then data[key].expiresAt.value - now else 0
    {
      if key !in data || data[key].expiresAt.None? {
        return None;
      }
      var at := data[key].expiresAt.value;
      t := if at > now then Some(at - now) else Some(0);
    }

    /** Counts the entries that are not expired. */
    method Length(now: nat) returns (n: nat)
      ensures n == |Live(data, now)|
      ensures n == |set k | k in data && (data[k].expiresAt.None? || data[k].expiresAt.value > now)|
    {
      n := 0;
      var todo := data.Keys;
      ghost var counted: set<string> := {};
      while todo != {}
        invariant todo <= data.Keys && n == |counted|
        invariant counted == set k | k in data && k !in todo && IsLive(data[k], now)
      {
        var k :| k in todo;
        todo := todo - {k};
        if IsLive(data[k], now) {
          counted := counted + {k};
          n := n + 1;
        }
      }
      assert counted == Live(data, now).Keys;
      assert counted == set k | k in data && (data[k].expiresAt.None? || data[k].expiresAt.value > now);
    }

    /** Lists the snapshot: every live entry once, expired ones never. */
    method EntriesForTransfer(now: nat) returns (result: seq<Chunk>)
      ensures ListsSnapshot(result, data, now)
      ensures forall k :: Streamed(result, k) <==>
        k in data && (data[k].expiresAt.None? || data[k].expiresAt.value > now)
      ensures forall i :: 0 <= i < |result| ==>
        && result[i].key in data && result[i].value == data[result[i].key].value
        && (result[i].remainingMs.None? <==> data[result[i].key].expiresAt.None?)
        && (result[i].remainingMs.Some? ==>
              result[i].remainingMs.value == (data[result[i].key].expiresAt.value - now) / 1_000_000)
    {
      result := [];
      var todo := data.Keys;
      while todo != {}
        invariant todo <= data.Keys
        invariant forall i :: 0 <= i < |result| ==> result[i].key in data && result[i].key !in todo
                                                    && IsLive(data[result[i].key], now)
                                                    && result[i] == ChunkOf(result[i].key, data[result[i].key], now)
        invariant forall i, j :: 0 <= i < j < |result| ==> result[i].key != result[j].key
        invariant forall k :: k in Live(data, now) && k !in todo ==> Streamed(result, k)
      {
        var k :| k in todo;
        todo := todo - {k};
        var entry := data[k];
        if entry.expiresAt.Some? && entry.expiresAt.value <= now {
          continue;
        }
        ghost var before := result;
        result := result + [ChunkOf(k, entry, now)];
        assert result[|before|].key == k;
        forall x | Streamed(before, x) ensures Streamed(result, x) {
          var i :| 0 <= i < |before| && before[i].key == x;
          assert result[i].key == x;
        }
      }
    }

    method SetFromTransfer(c: Chunk, now: nat)
      modifies this
      ensures data == StoreChunk(old(data), c, now)
      ensures c.remainingMs == Some(0) ==> data == old(data)
      ensures c.remainingMs != Some(0) ==>
        data == old(data)[c.key := CacheEntry(c.value, if c.remainingMs.None? then None
                                                       else Some(now + c.remainingMs.value * 1_000_000))]
    {
      if c.remainingMs == Some(0) {
        return;
      }
      SetKey(c.key, c.value, if c.remainingMs.None? then None else Some(c.remainingMs.value * MILLISECOND), now);
    }

    /** One round of the background sweeper. */
    method SweepExpired(now: nat)
      modifies this
      ensures data == Apply(old(data), Sweep, now).0
      ensures forall k :: k in data <==>
        k in old(data) && (old(data)[k].expiresAt.None? || old(data)[k].expiresAt.value > now)
      ensures forall k :: k in data ==> data[k] == old(data)[k]
    {
      data := map k | k in data && IsLive(data[k], now) :: data[k];
    }
  }

  ghost predicate Streamed(chunks: seq<Chunk>, key: string) {
    exists i :: 0 <= i < |chunks| && chunks[i].key == key
  }

  /** `chunks` streams the live entries of `data` at `now`, each exactly once. */
  ghost predicate ListsSnapshot(chunks: seq<Chunk>, data: Data, now: nat) {
    && (forall i :: 0 <= i < |chunks| ==>
         chunks[i].key in Live(data, now) && chunks[i] == ChunkOf(chunks[i].key, data[chunks[i].key], now))
    && (forall i, j :: 0 <= i < j < |chunks| ==> chunks[i].key != chunks[j].key)
    && (forall k :: k in Live(data, now) ==> Streamed(chunks, k))
  }
}
