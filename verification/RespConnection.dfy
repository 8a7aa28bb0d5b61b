/**
 The buffer loop of a RESP connection (resp/server.rs): bytes arrive in arbitrary pieces, complete
 values are handled in order, and incomplete input waits for more.
 */
module RespConnection {
  import opened Common
  import opened Text
  import opened RespCodec

  /** What the loop does: hand a value to the command dispatcher, or answer a protocol error. */
  datatype Event = Handled(value: RespValue) | Rejected(problem: Problem)

  datatype Outcome = Outcome(events: seq<Event>, rest: Bytes)

  /** The inner loop: everything that can be done with the bytes at hand. */
  function Drain(buf: Bytes): Outcome
    decreases |buf|
  {
    match Parse(buf)
    case Incomplete => Outcome([], buf)
    case Failure(p) => Outcome([Rejected(p)], [])
    case Complete(v, c) =>
      FirstThen([Handled(v)], Drain(buf[c..]))
  }

  /** Some events, then what follows. */
  function FirstThen(events: seq<Event>, o: Outcome): Outcome {
    Outcome(events + o.events, o.rest)
  }

  lemma FirstThenAssoc(a: seq<Event>, b: seq<Event>, o: Outcome)
    ensures FirstThen(a, FirstThen(b, o)) == FirstThen(a + b, o)
  {
    assert a + (b + o.events) == a + b + o.events;
  }

  lemma FirstThenNothing(o: Outcome)
    ensures FirstThen([], o) == o
  {}

  /** The outer loop over successive reads, starting with `buf` left over. */
  function Feed(buf: Bytes, chunks: seq<Bytes>): Outcome
    decreases |chunks|
  {
    if chunks == [] then Outcome([], buf)
    else
      var now := Drain(buf + chunks[0]);
      FirstThen(now.events, Feed(now.rest, chunks[1..]))
  }

  function Concat(chunks: seq<Bytes>): Bytes {
    if chunks == [] then [] else chunks[0] + Concat(chunks[1..])
  }

  /** No protocol error occurred. */
  predicate Clean(o: Outcome) {
    forall i :: 0 <= i < |o.events| ==> o.events[i].Handled?
  }

  lemma CleanTail(buf: Bytes)
    requires Clean(Drain(buf)) && Parse(buf).Complete?
    ensures Clean(Drain(buf[Parse(buf).consumed..]))
  {
    var later := Drain(buf[Parse(buf).consumed..]);
    forall i | 0 <= i < |later.events| ensures later.events[i].Handled? {
      assert Drain(buf).events[i + 1] == later.events[i];
    }
  }

  /** Draining in two steps does what draining at once does, as long as the first step meets no error. */
  lemma {:induction false} DrainSplits(a: Bytes, b: Bytes)
    requires Clean(Drain(a))
    ensures Drain(a + b) == FirstThen(Drain(a).events, Drain(Drain(a).rest + b))
    decreases |a|
  {
    var p := Parse(a);
    if p.Incomplete? {
      FirstThenNothing(Drain(a + b));
    } else if p.Complete? {
      CompleteFirst(a, b);
      var rest := a[p.consumed..];
      CleanTail(a);
      DrainSplits(rest, b);
      FirstThenAssoc([Handled(p.value)], Drain(rest).events, Drain(Drain(rest).rest + b));
    } else {
      CleanHasNoFailure(a);
    }
  }

  /** An error is final: whatever follows in the same buffer is dropped with it. */
  lemma {:induction false} UncleanIsFinal(a: Bytes, b: Bytes)
    requires !Clean(Drain(a))
    ensures Drain(a + b) == Drain(a) && Drain(a).rest == []
    decreases |a|
  {
    var p := Parse(a);
    if p.Complete? {
      CompleteFirst(a, b);
      UncleanTail(a);
      UncleanIsFinal(a[p.consumed..], b);
    } else if p.Failure? {
      ParseIsStable(a, b);
    }
  }

  lemma UncleanTail(buf: Bytes)
    requires !Clean(Drain(buf)) && Parse(buf).Complete?
    ensures !Clean(Drain(buf[Parse(buf).consumed..]))
  {
    var later := Drain(buf[Parse(buf).consumed..]);
    var i :| 0 <= i < |Drain(buf).events| && !Drain(buf).events[i].Handled?;
    assert i > 0 && Drain(buf).events[i] == later.events[i - 1];
  }

  lemma CompleteFirst(a: Bytes, b: Bytes)
    requires Parse(a).Complete?
    ensures Parse(a + b) == Parse(a)
    ensures (a + b)[Parse(a).consumed..] == a[Parse(a).consumed..] + b
  {
    ParseIsStable(a, b);
  }

  lemma CleanHasNoFailure(a: Bytes)
    requires Clean(Drain(a))
    ensures !Parse(a).Failure?
  {
    if Parse(a).Failure? {
      assert !Drain(a).events[0].Handled?;
    }
  }

  /** The loop stops only when nothing more can be done with what is left. */
  lemma {:induction false} DrainIsIdle(buf: Bytes)
    ensures Drain(Drain(buf).rest) == Outcome([], Drain(buf).rest)
    decreases |buf|
  {
    if Parse(buf).Complete? {
      DrainIsIdle(buf[Parse(buf).consumed..]);
    } else if Parse(buf).Failure? {
      assert Parse([]) == Incomplete;
    }
  }

  /** Every strict prefix of `stream`, after the bytes `buf`, is free of protocol errors. */
  ghost predicate PrefixesAreClean(buf: Bytes, stream: Bytes) {
    forall n :: 0 <= n < |stream| ==> Clean(Drain(buf + stream[..n]))
  }

  lemma PrefixOfJoin(buf: Bytes, first: Bytes, more: Bytes, n: nat)
    requires n <= |more|
    ensures buf + (first + more)[..|first| + n] == buf + first + more[..n]
  {
    assert (first + more)[..|first| + n] == first + more[..n];
    assert buf + (first + more[..n]) == buf + first + more[..n];
  }

  lemma PrefixIsClean(buf: Bytes, first: Bytes, more: Bytes, n: nat)
    requires PrefixesAreClean(buf, first + more) && n < |more|
    ensures Clean(Drain(buf + first + more[..n]))
  {
    PrefixOfJoin(buf, first, more, n);
  }

  lemma PrefixesOfRest(buf: Bytes, first: Bytes, more: Bytes)
    requires PrefixesAreClean(buf, first + more) && more != []
    ensures Clean(Drain(buf + first)) && PrefixesAreClean(Drain(buf + first).rest, more)
  {
    var start := buf + first;
    PrefixIsClean(buf, first, more, 0);
    assert start + more[..0] == start;
    forall n | 0 <= n < |more| ensures Clean(Drain(Drain(start).rest + more[..n])) {
      PrefixIsClean(buf, first, more, n);
      CleanAfterFirst(start, more[..n]);
    }
  }

  lemma CleanAfterFirst(a: Bytes, b: Bytes)
    requires Clean(Drain(a)) && Clean(Drain(a + b))
    ensures Clean(Drain(Drain(a).rest + b))
  {
    DrainSplits(a, b);
    PartsAreClean(Drain(a).events, Drain(a).rest, Drain(Drain(a).rest + b));
  }

  lemma {:induction false} FeedNothing(buf: Bytes, chunks: seq<Bytes>)
    requires Drain(buf) == Outcome([], buf) && Concat(chunks) == []
    ensures Feed(buf, chunks) == Outcome([], buf)
    decreases |chunks|
  {
    if chunks == [] {
    } else {
      assert chunks[0] == [] && buf + chunks[0] == buf;
      FeedNothing(buf, chunks[1..]);
    }
  }

  /**
   If every strict prefix of the stream is free of errors, no cut of it shows, even if its last byte
   completes an error.
   */
  lemma {:induction false} CutIsInvisible(buf: Bytes, chunks: seq<Bytes>)
    requires Drain(buf) == Outcome([], buf) && PrefixesAreClean(buf, Concat(chunks))
    ensures Feed(buf, chunks) == Drain(buf + Concat(chunks))
    decreases |chunks|
  {
    if chunks == [] {
      assert buf + Concat(chunks) == buf;
    } else {
      var first, more := chunks[0], Concat(chunks[1..]);
      var start := buf + first;
      assert buf + (first + more) == start + more;
      DrainIsIdle(start);
      if more == [] {
        assert start + more == start;
        FeedNothing(Drain(start).rest, chunks[1..]);
        assert Drain(start).events + [] == Drain(start).events;
      } else {
        PrefixesOfRest(buf, first, more);
        CutIsInvisible(Drain(start).rest, chunks[1..]);
        DrainSplits(start, more);
      }
    }
  }

  /**
   Chunking independence: if the whole stream is free of protocol errors, then however it is cut
   into reads, the loop does the same things in the same order and is left with the same bytes.
   */
  lemma ChunkingIsInvisible(buf: Bytes, chunks: seq<Bytes>)
    requires Drain(buf) == Outcome([], buf)
    requires Clean(Drain(buf + Concat(chunks)))
    ensures Feed(buf, chunks) == Drain(buf + Concat(chunks))
  {
    var stream := Concat(chunks);
    forall n | 0 <= n < |stream| ensures Clean(Drain(buf + stream[..n])) {
      assert buf + stream == buf + stream[..n] + stream[n..];
      if !Clean(Drain(buf + stream[..n])) {
        UncleanIsFinal(buf + stream[..n], stream[n..]);
      }
    }
    CutIsInvisible(buf, chunks);
  }

  /** A way the stream can arrive: reads are never empty. */
  ghost predicate IsCut(chunks: seq<Bytes>, stream: Bytes) {
    Concat(chunks) == stream && forall i :: 0 <= i < |chunks| ==> chunks[i] != []
  }

  /**
   Exactly when the cut does not show: every way to cut the stream into reads is handled alike if
   and only if every strict prefix of the stream is free of protocol errors, that is, if an error
   can only be completed by the last byte.
   */
  lemma ChunkingIsInvisibleIff(stream: Bytes)
    ensures (forall chunks | IsCut(chunks, stream) :: Feed([], chunks) == Drain(stream)) <==>
      PrefixesAreClean([], stream)
  {
    assert [] + stream == stream;
    if PrefixesAreClean([], stream) {
      forall chunks | IsCut(chunks, stream) ensures Feed([], chunks) == Drain(stream) {
        CutIsInvisible([], chunks);
      }
    } else {
      SomeCutShows(stream);
    }
  }

  lemma SomeCutShows(stream: Bytes)
    requires !PrefixesAreClean([], stream)
    ensures exists chunks :: IsCut(chunks, stream) && Feed([], chunks) != Drain(stream)
  {
    var n :| 0 <= n < |stream| && !Clean(Drain([] + stream[..n]));
    var a, b := stream[..n], stream[n..];
    assert [] + a == a && a + b == stream;
    NothingIsClean();
    TwoIsCut(a, b);
    CutAfterErrorShows(a, b);
    assert IsCut([a, b], stream);
  }

  lemma NothingIsClean()
    ensures Clean(Drain([]))
  {}

  lemma TwoIsCut(a: Bytes, b: Bytes)
    requires a != [] && b != []
    ensures IsCut([a, b], a + b)
  {
    ConcatTwo(a, b);
  }

  lemma CutAfterErrorShows(a: Bytes, b: Bytes)
    requires !Clean(Drain(a)) && b != []
    ensures Feed([], [a, b]) != Drain(a + b)
  {
    UncleanIsFinal(a, b);
    FeedTwo(a, b);
    SomethingShows(b);
    assert |Feed([], [a, b]).events| == |Drain(a).events| + |Drain(b).events|;
  }

  lemma SomethingShows(b: Bytes)
    requires b != []
    ensures Drain(b).events != [] || Drain(b).rest != []
  {}

  lemma PartsAreClean(events: seq<Event>, rest: Bytes, later: Outcome)
    requires Clean(FirstThen(events, later))
    ensures Clean(Outcome(events, rest)) && Clean(later)
  {
    var all := FirstThen(events, later).events;
    assert forall i :: 0 <= i < |events| ==> all[i] == events[i];
    assert forall i :: 0 <= i < |later.events| ==> all[|events| + i] == later.events[i];
  }

  function AllHandled(vs: seq<RespValue>): seq<Event> {
    if vs == [] then [] else [Handled(vs[0])] + AllHandled(vs[1..])
  }

  lemma {:induction false} DrainEncoded(vs: seq<RespValue>, tail: Bytes)
    requires forall i :: 0 <= i < |vs| ==> WellFormed(vs[i])
    ensures Drain(EncodeAll(vs) + tail) == FirstThen(AllHandled(vs), Drain(tail))
    decreases |vs|
  {
    if vs == [] {
      assert EncodeAll(vs) + tail == tail;
      FirstThenNothing(Drain(tail));
    } else {
      var first, rest := Encode(vs[0]), EncodeAll(vs[1..]);
      assert EncodeAll(vs) + tail == first + (rest + tail);
      DrainOne(vs[0], rest + tail);
      DrainEncoded(vs[1..], tail);
      FirstThenAssoc([Handled(vs[0])], AllHandled(vs[1..]), Drain(tail));
    }
  }

  lemma DrainOne(v: RespValue, tail: Bytes)
    requires WellFormed(v)
    ensures Drain(Encode(v) + tail) == FirstThen([Handled(v)], Drain(tail))
  {
    RoundTrip(v, tail);
    assert (Encode(v) + tail)[|Encode(v)|..] == tail;
  }

  lemma {:induction false} AllHandledIsHandled(vs: seq<RespValue>)
    ensures |AllHandled(vs)| == |vs| && forall i :: 0 <= i < |vs| ==> AllHandled(vs)[i] == Handled(vs[i])
  {
    if vs == [] {
    } else {
      AllHandledIsHandled(vs[1..]);
    }
  }

  /**
   Any cut of the encodings of any well-formed values is handled as exactly those values, and nothing
   is left over.
   */
  lemma EncodedStreamIsHandled(vs: seq<RespValue>, chunks: seq<Bytes>)
    requires forall i :: 0 <= i < |vs| ==> WellFormed(vs[i])
    requires Concat(chunks) == EncodeAll(vs)
    ensures Feed([], chunks) == Outcome(AllHandled(vs), [])
  {
    DrainEncoded(vs, []);
    assert EncodeAll(vs) + [] == EncodeAll(vs);
    AllHandledIsHandled(vs);
    assert AllHandled(vs) + [] == AllHandled(vs);
    assert [] + Concat(chunks) == EncodeAll(vs);
    ChunkingIsInvisible([], chunks);
  }

  /** A stream that stops inside a value handles every value before it and keeps the unfinished bytes. */
  lemma TruncatedStreamIsHandled(vs: seq<RespValue>, v: RespValue, n: nat, chunks: seq<Bytes>)
    requires (forall i :: 0 <= i < |vs| ==> WellFormed(vs[i])) && WellFormed(v) && n < |Encode(v)|
    requires Concat(chunks) == EncodeAll(vs) + Encode(v)[..n]
    ensures Feed([], chunks) == Outcome(AllHandled(vs), Encode(v)[..n])
  {
    var tail := Encode(v)[..n];
    PrefixIsIncomplete(v, n);
    DrainEncoded(vs, tail);
    AllHandledIsHandled(vs);
    assert AllHandled(vs) + [] == AllHandled(vs);
    assert [] + Concat(chunks) == EncodeAll(vs) + tail;
    ChunkingIsInvisible([], chunks);
  }

  lemma RejectedAtOnce(rest: Bytes)
    ensures Drain([33] + rest) == Outcome([Rejected(UnexpectedByte(33))], [])
  {
    assert ([33] + rest)[0] == 33;
  }

  /** After a protocol error the buffer is dropped, so there the cut does show. */
  lemma ChunkingShowsAfterError()
    ensures var stream: Bytes := [33, PLUS, CR, LF];
            && Concat([stream]) == stream && Concat([stream[..1], stream[1..]]) == stream
            && Feed([], [stream]) == Outcome([Rejected(UnexpectedByte(33))], [])
            && Feed([], [stream[..1], stream[1..]]) ==
                 Outcome([Rejected(UnexpectedByte(33)), Handled(SimpleString([]))], [])
  {
    var a: Bytes, b: Bytes := [33], [PLUS, CR, LF];
    var stream: Bytes := [33, PLUS, CR, LF];
    assert stream[..1] == a && stream[1..] == b;
    assert a + b == stream && a + [] == a;
    CutInTwo(a, b);
    ConcatTwo(stream, []);
    RejectedAtOnce(b);
    FeedOne(stream);
    RejectedAtOnce([]);
    EmptySimpleString();
  }

  lemma CutInTwo(a: Bytes, b: Bytes)
    ensures Concat([a, b]) == a + b
    ensures Drain(a).rest == [] ==> Feed([], [a, b]) == FirstThen(Drain(a).events, Drain(b))
  {
    ConcatTwo(a, b);
    if Drain(a).rest == [] {
      FeedTwo(a, b);
    }
  }

  lemma ConcatTwo(a: Bytes, b: Bytes)
    ensures Concat([a, b]) == a + b && Concat([a]) == a
  {
    assert [a, b][1..] == [b] && [b][1..] == [] && [a][1..] == [];
    assert Concat([b]) == b + [] == b;
    assert Concat([a]) == a + [] == a;
  }

  lemma EmptySimpleString()
    ensures Drain([PLUS, CR, LF]) == Outcome([Handled(SimpleString([]))], [])
  {
    assert Encode(SimpleString([])) + [] == [PLUS, CR, LF];
    DrainOne(SimpleString([]), []);
  }

  lemma FeedStep(buf: Bytes, chunks: seq<Bytes>, i: nat)
    requires i < |chunks|
    ensures Feed(buf, chunks[i..]) ==
      FirstThen(Drain(buf + chunks[i]).events, Feed(Drain(buf + chunks[i]).rest, chunks[i + 1..]))
  {
    assert chunks[i..][1..] == chunks[i + 1..];
  }

  /** After `i` reads the loop has done `done` and holds `buf`. */
  ghost predicate Fed(start: Bytes, chunks: seq<Bytes>, done: seq<Event>, buf: Bytes, i: nat) {
    i <= |chunks| && Feed(start, chunks) == FirstThen(done, Feed(buf, chunks[i..]))
  }

  lemma NothingFed(start: Bytes, chunks: seq<Bytes>)
    ensures Fed(start, chunks, [], start, 0)
  {
    assert chunks[0..] == chunks;
    FirstThenNothing(Feed(start, chunks));
  }

  lemma FedMore(start: Bytes, chunks: seq<Bytes>, done: seq<Event>, buf: Bytes, i: nat)
    requires Fed(start, chunks, done, buf, i) && i < |chunks|
    ensures var step := Drain(buf + chunks[i]);
            Fed(start, chunks, done + step.events, step.rest, i + 1)
  {
    var step := Drain(buf + chunks[i]);
    FeedStep(buf, chunks, i);
    FirstThenAssoc(done, step.events, Feed(step.rest, chunks[i + 1..]));
  }

  lemma AllFed(start: Bytes, chunks: seq<Bytes>, done: seq<Event>, buf: Bytes)
    requires Fed(start, chunks, done, buf, |chunks|)
    ensures Feed(start, chunks) == Outcome(done, buf)
  {
    assert chunks[|chunks|..] == [] && done + [] == done;
  }

  lemma FeedOne(c: Bytes)
    ensures Feed([], [c]) == Drain(c)
  {
    assert [c][1..] == [] && [] + c == c;
    assert Feed(Drain(c).rest, []) == Outcome([], Drain(c).rest);
  }

  lemma FeedTwo(a: Bytes, b: Bytes)
    requires Drain(a).rest == []
    ensures Feed([], [a, b]) == FirstThen(Drain(a).events, Drain(b))
  {
    assert [a, b][1..] == [b] && [] + a == a;
    FeedOne(b);
  }

  /** One open connection. */
  class Connection {
    var buf: Bytes
    var events: seq<Event>

    constructor ()
      ensures buf == [] && events == []
    {
      buf := [];
      events := [];
    }

    /** One successful, non-empty read and the processing that follows it. */
    method OnRead(chunk: Bytes)
      requires chunk != []
      modifies this
      ensures events == old(events) + Drain(old(buf) + chunk).events
      ensures buf == Drain(old(buf) + chunk).rest
    {
      buf := buf + chunk;
      ghost var start, before := buf, events;
      ghost var done: seq<Event> := [];
      FirstThenNothing(Drain(buf));
      while true
        invariant events == before + done
        invariant Drain(start) == FirstThen(done, Drain(buf))
        decreases |buf|
      {
        if buf == [] {
          break;
        }
        var r := ParseResp(buf);
        match r {
          case Complete(value, consumed) =>
            FirstThenAssoc(done, [Handled(value)], Drain(buf[consumed..]));
            events := events + [Handled(value)];
            done := done + [Handled(value)];
            buf := buf[consumed..];
          case Incomplete =>
            break;
          case Failure(p) =>
            events := events + [Rejected(p)];
            buf := [];
            break;
        }
      }
    }

    /** A whole connection: every read in turn, until the client closes. */
    method Serve(chunks: seq<Bytes>)
      requires forall i :: 0 <= i < |chunks| ==> chunks[i] != []
      modifies this
      ensures events == old(events) + Feed(old(buf), chunks).events
      ensures buf == Feed(old(buf), chunks).rest
    {
      ghost var done: seq<Event> := [];
      var i := 0;
      NothingFed(buf, chunks);
      while i < |chunks|
        invariant i <= |chunks| && events == old(events) + done
        invariant Fed(old(buf), chunks, done, buf, i)
      {
        ghost var step := Drain(buf + chunks[i]);
        FedMore(old(buf), chunks, done, buf, i);
        OnRead(chunks[i]);
        done := done + step.events;
        i := i + 1;
      }
      AllFed(old(buf), chunks, done, buf);
    }
  }
}
