/**
 What the store answers, read off the history of operations alone: the value last set, unless it
 was deleted or its time ran out. Neither the stored entries nor lazy removal nor sweeps appear.
 */
module CacheHistory {
  import opened Common
  import opened CacheStore

  /** What the history says of a key: a value, and the instant from which it is gone. */
  datatype Said = Said(value: Bytes, deadline: Option<nat>)

  predicate Due(s: Said, now: nat) {
    s.deadline.Some? && s.deadline.value <= now
  }

  /** The last word on `k`: an `expire` counts only if the key is there and not yet due. */
  function LastSaid(h: seq<Timed>, k: string): Option<Said> {
    if h == [] then None
    else
      var before, at := LastSaid(h[..|h| - 1], k), h[|h| - 1].at;
      match h[|h| - 1].op
      case Set(key, v, ttl) =>
        if key == k then Some(Said(v, if ttl.None? then None else Some(at + ttl.value))) else before
      case Delete(key) => if key == k then None else before
      case Expire(key, after) =>
        if key == k && before.Some? && !Due(before.value, at) then Some(Said(before.value.value, Some(at + after)))
        else before
      case _ => before
  }

  function StillSaid(h: seq<Timed>, k: string, now: nat): Option<Said> {
    if LastSaid(h, k).Some? && !Due(LastSaid(h, k).value, now) then LastSaid(h, k) else None
  }

  /** The store after the history, started empty. */
  function StoreAfter(h: seq<Timed>): Data {
    if h == [] then map[] else Apply(StoreAfter(h[..|h| - 1]), h[|h| - 1].op, h[|h| - 1].at).0
  }

  /** Operations in clock order up to `now`, none of them an `expire` of a key that is expired but still present. */
  ghost predicate Plain(h: seq<Timed>, now: nat)
    decreases |h|
  {
    h == [] ||
    (var last := h[|h| - 1];
     && last.at <= now && Plain(h[..|h| - 1], last.at)
     && !Revives(StoreAfter(h[..|h| - 1]), last.op, last.at))
  }

  /** What a reader at `now` finds in the store. */
  function Found(d: Data, k: string, now: nat): Option<Said> {
    if k in d && (d[k].expiresAt.None? || d[k].expiresAt.value > now) then Some(Said(d[k].value, d[k].expiresAt))
    else None
  }

  lemma {:induction false} PlainLater(h: seq<Timed>, t: nat, now: nat)
    requires Plain(h, t) && t <= now
    ensures Plain(h, now)
  {}

  /** One operation changes what is found about a key as it changes what is said about it. */
  lemma FoundStep(d: Data, op: Op, at: nat, k: string, now: nat)
    requires at <= now && !Revives(d, op, at)
    ensures var d' := Apply(d, op, at).0;
            Found(d', k, now) ==
            match op
            case Set(key, v, ttl) =>
              if key != k then Found(d, k, now)
              else if ttl.None? then Some(Said(v, None))
              else if at + ttl.value > now then Some(Said(v, Some(at + ttl.value))) else None
            case Delete(key) => if key == k then None else Found(d, k, now)
            case Expire(key, after) =>
              if key != k || Found(d, k, at).None? then Found(d, k, now)
              else if at + after > now then Some(Said(Found(d, k, at).value.value, Some(at + after))) else None
            case _ => Found(d, k, now)
  {}

  /** The store holds what the history says. */
  lemma {:induction false} StoreHoldsWhatIsSaid(h: seq<Timed>, k: string, now: nat)
    requires Plain(h, now)
    ensures Found(StoreAfter(h), k, now) == StillSaid(h, k, now)
    decreases |h|
  {
    if h == [] {
    } else {
      var init, last := h[..|h| - 1], h[|h| - 1];
      StoreHoldsWhatIsSaid(init, k, last.at);
      PlainLater(init, last.at, now);
      StoreHoldsWhatIsSaid(init, k, now);
      FoundStep(StoreAfter(init), last.op, last.at, k, now);
    }
  }

  function MsLeft(s: Said, now: nat): Option<nat>
    requires !Due(s, now)
  {
    if s.deadline.None? then None else Some((s.deadline.value - now) / 1_000_000)
  }

  /**
   Reading at `now` after any plain history, sweeps and other operations anywhere in it: the value
   last set if it was not deleted since and its time has not run out.
   */
  lemma AnswersAreFunctionOfHistory(h: seq<Timed>, k: string, now: nat)
    requires Plain(h, now)
    ensures var d, said := StoreAfter(h), StillSaid(h, k, now);
            && Apply(d, Get(k), now).1 == Value(if said.None? then None else Some(said.value.value))
            && Apply(d, Exists(k), now).1 == Flag(said.Some?)
  {
    StoreHoldsWhatIsSaid(h, k, now);
  }

  /** A transfer carries exactly those keys, with those values and the whole milliseconds left. */
  lemma TransferIsFunctionOfHistory(h: seq<Timed>, k: string, now: nat)
    requires Plain(h, now)
    ensures var chunks, said := Snapshot(StoreAfter(h), now), StillSaid(h, k, now);
            && Apply(StoreAfter(h), Transfer, now).1 == Chunks(chunks)
            && (k in chunks <==> said.Some?)
            && (said.Some? ==> chunks[k] == Chunk(k, said.value.value, MsLeft(said.value, now)))
  {
    StoreHoldsWhatIsSaid(h, k, now);
    SnapshotOfFound(StoreAfter(h), k, now);
  }

  lemma SnapshotOfFound(d: Data, k: string, now: nat)
    ensures var found := Found(d, k, now);
            && (k in Snapshot(d, now) <==> found.Some?)
            && (found.Some? ==> Snapshot(d, now)[k] == Chunk(k, found.value.value, MsLeft(found.value, now)))
  {}

  /** So do the remaining time and the booleans of `expire` and `delete`, unless the key is expired but present. */
  lemma PhysicalAnswersOfHistory(h: seq<Timed>, k: string, after: nat, now: nat)
    requires Plain(h, now) && !Stale(StoreAfter(h), k, now)
    ensures var d, said := StoreAfter(h), StillSaid(h, k, now);
            && Apply(d, Delete(k), now).1 == Flag(said.Some?) == Apply(d, Expire(k, after), now).1
            && Apply(d, TimeToLive(k), now).1 ==
               TimeLeft(if said.None? || said.value.deadline.None? then None else Some(said.value.deadline.value - now))
  {
    StoreHoldsWhatIsSaid(h, k, now);
  }

  /** In particular: a key set at `t` is read until its time has run out, whatever was stored before. */
  lemma SetThenGet(d: Data, k: string, v: Bytes, ttl: Option<nat>, t: nat, now: nat)
    requires t <= now
    ensures Apply(Apply(d, Set(k, v, ttl), t).0, Get(k), now).1 ==
            Value(if ttl.None? || now < t + ttl.value then Some(v) else None)
  {}
}
