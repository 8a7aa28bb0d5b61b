/**
 Which accepted bytes are what the encoder writes. The parser also accepts a plus sign, leading
 zeros, any negative bulk length and the null array; apart from those it accepts encodings only.
 */
module RespCanonical {
  import opened Common
  import opened Text
  import opened RespCodec
  import opened RespConnection

  /** The first line after the type byte is a number as the encoder prints it. */
  predicate PrintedHeader(buf: Bytes)
    requires buf != []
  {
    match ReadLine(buf)
    case None => false
    case Some((line, _)) =>
      match ParseI64(line)
      case None => false
      case Some(n) => line == Print(n)
  }

  /** Every number is printed the encoder's way, a negative bulk length is -1 and no array count is negative. */
  predicate Canonical(buf: Bytes)
    decreases |buf|, 1
  {
    buf != [] &&
    if buf[0] == COLON then PrintedHeader(buf)
    else if buf[0] == DOLLAR then
      PrintedHeader(buf) && ParseHeader(buf, InvalidBulkLength).Header? && ParseHeader(buf, InvalidBulkLength).n >= -1
    else if buf[0] == STAR then
      var h := ParseHeader(buf, InvalidArrayCount);
      PrintedHeader(buf) && h.Header? && h.n >= 0 && CanonicalItems(buf[h.next..], h.n)
    else true
  }

  predicate CanonicalItems(buf: Bytes, count: nat)
    decreases |buf|, 2
  {
    count == 0 ||
    (Parse(buf).Complete? && Canonical(buf) && CanonicalItems(buf[Parse(buf).consumed..], count - 1))
  }

  lemma LineBytes(buf: Bytes)
    requires buf != [] && ReadLine(buf).Some?
    ensures buf[..ReadLine(buf).value.1] == Line(buf[0], ReadLine(buf).value.0)
  {
    FindCrlfFindsFirst(buf, 1);
  }

  /** `buf` starts with `a` and goes on with `b`. */
  lemma StartsWithBoth(buf: Bytes, a: Bytes, b: Bytes)
    requires |a| + |b| <= |buf|
    ensures buf[..|a| + |b|] == a + b <==> buf[..|a|] == a && buf[|a|..][..|b|] == b
    ensures buf[..|a|] == a ==> buf == a + buf[|a|..]
  {
    var both := buf[..|a| + |b|];
    assert both[..|a|] == buf[..|a|] && both[|a|..] == buf[|a|..][..|b|];
    assert both == both[..|a|] + both[|a|..];
    assert (a + b)[..|a|] == a && (a + b)[|a|..] == b;
    assert buf == buf[..|a|] + buf[|a|..];
  }

  lemma StartsWith(buf: Bytes, c: nat, a: Bytes, b: Bytes)
    requires c <= |buf| && buf[..c] == a + b
    ensures c == |a| + |b| && buf[..|a|] == a && buf[|a|..][..|b|] == b && buf == a + buf[|a|..]
  {
    assert |buf[..c]| == c;
    StartsWithBoth(buf, a, b);
  }

  /** A header is printed the encoder's way iff its bytes are the encoder's line. */
  lemma HeaderIsPrintedIff(buf: Bytes, invalid: Problem)
    requires buf != [] && ParseHeader(buf, invalid).Header?
    ensures var h := ParseHeader(buf, invalid);
            PrintedHeader(buf) <==> buf[..h.next] == Line(buf[0], Print(h.n))
  {
    var h := ParseHeader(buf, invalid);
    LineBytes(buf);
    if buf[..h.next] == Line(buf[0], Print(h.n)) {
      LineContent(buf[0], ReadLine(buf).value.0, Print(h.n));
    }
  }

  lemma LineContent(tag: Byte, a: Bytes, b: Bytes)
    requires Line(tag, a) == Line(tag, b)
    ensures a == b
  {
    assert Line(tag, a)[1..|a| + 1] == a && Line(tag, b)[1..|b| + 1] == b;
    assert |Line(tag, a)| == |a| + 3 && |Line(tag, b)| == |b| + 3;
  }

  /** Bytes that start with the encoder's line for `n` have the header `n`, printed the encoder's way. */
  lemma PrintedLine(buf: Bytes, n: int, invalid: Problem)
    requires I64_MIN <= n <= I64_MAX && buf != []
    requires var line := Line(buf[0], Print(n));
             |line| <= |buf| && buf[..|line|] == line
    ensures PrintedHeader(buf) && ParseHeader(buf, invalid) == Header(n, |Line(buf[0], Print(n))|)
  {
    var line := Line(buf[0], Print(n));
    assert buf == line + buf[|line|..];
    HeaderWritten(buf[0], n, buf[|line|..], invalid);
    HeaderIsPrintedIff(buf, invalid);
  }

  /** A header and `k` more bytes are the encoder's line and `body` iff each part is. */
  lemma HeaderAndBody(buf: Bytes, invalid: Problem, k: nat, body: Bytes)
    requires buf != [] && ParseHeader(buf, invalid).Header? && ParseHeader(buf, invalid).next + k <= |buf|
    ensures var h := ParseHeader(buf, invalid);
            buf[..h.next + k] == Line(buf[0], Print(h.n)) + body
            <==> PrintedHeader(buf) && buf[h.next..][..k] == body
  {
    var h := ParseHeader(buf, invalid);
    var line := Line(buf[0], Print(h.n));
    if buf[..h.next + k] == line + body {
      StartsWith(buf, h.next + k, line, body);
      PrintedLine(buf, h.n, invalid);
    }
    if PrintedHeader(buf) && buf[h.next..][..k] == body {
      HeaderIsPrintedIff(buf, invalid);
      assert |line| == h.next && |body| == k;
      StartsWithBoth(buf, line, body);
    }
  }

  lemma NullIsCanonicalIff(buf: Bytes)
    requires buf != [] && buf[0] == DOLLAR
    requires ParseHeader(buf, InvalidBulkLength).Header? && ParseHeader(buf, InvalidBulkLength).n < 0
    ensures Canonical(buf) <==> buf[..ParseHeader(buf, InvalidBulkLength).next] == Encode(Null)
  {
    var h := ParseHeader(buf, InvalidBulkLength);
    HeaderIsPrintedIff(buf, InvalidBulkLength);
    if buf[..h.next] == Encode(Null) {
      assert |Line(DOLLAR, Print(-1))| == h.next;
      PrintedLine(buf, -1, InvalidBulkLength);
    }
  }

  lemma BulkIsCanonicalIff(buf: Bytes)
    requires buf != [] && buf[0] == DOLLAR && ParseBulk(buf).Complete? && ParseBulk(buf).value.BulkString?
    ensures Canonical(buf) <==> buf[..ParseBulk(buf).consumed] == Encode(ParseBulk(buf).value)
  {
    var h := ParseHeader(buf, InvalidBulkLength);
    var data := ParseBulk(buf).value.data;
    Assoc(Line(DOLLAR, Print(h.n)), data, CRLF);
    assert buf[h.next..][..h.n + 2] == data + CRLF;
    HeaderAndBody(buf, InvalidBulkLength, h.n + 2, data + CRLF);
  }

  /** The accepted bytes are the encoding of the value they stand for if and only if they are canonical. */
  lemma {:induction false} CanonicalIff(buf: Bytes)
    requires Parse(buf).Complete?
    ensures Canonical(buf) <==> buf[..Parse(buf).consumed] == Encode(Parse(buf).value)
    decreases |buf|, 1
  {
    if buf[0] == PLUS || buf[0] == MINUS {
      LineBytes(buf);
    } else if buf[0] == COLON {
      HeaderIsPrintedIff(buf, InvalidInteger);
    } else if buf[0] == DOLLAR {
      if ParseHeader(buf, InvalidBulkLength).n < 0 {
        NullIsCanonicalIff(buf);
      } else {
        BulkIsCanonicalIff(buf);
      }
    } else {
      var h := ParseHeader(buf, InvalidArrayCount);
      if h.n < 0 {
        assert Encode(Null)[0] == DOLLAR;
      } else {
        var body := ParseItems(buf[h.next..], h.n);
        ItemsAreCanonicalIff(buf[h.next..], h.n);
        ArrayIsCanonicalIff(buf, h.next, body.items, body.consumed);
      }
    }
  }

  lemma ArrayIsCanonicalIff(buf: Bytes, next: nat, items: seq<RespValue>, consumed: nat)
    requires buf != [] && buf[0] == STAR && ParseHeader(buf, InvalidArrayCount) == Header(|items|, next)
    requires next + consumed <= |buf|
    requires CanonicalItems(buf[next..], |items|) <==> buf[next..][..consumed] == EncodeAll(items)
    ensures Canonical(buf) <==> buf[..next + consumed] == Encode(Array(items))
  {
    HeaderAndBody(buf, InvalidArrayCount, consumed, EncodeAll(items));
    ArrayIsCanonical(buf, next, |items|);
  }

  lemma ArrayIsCanonical(buf: Bytes, next: nat, n: nat)
    requires buf != [] && buf[0] == STAR && ParseHeader(buf, InvalidArrayCount) == Header(n, next)
    ensures Canonical(buf) <==> PrintedHeader(buf) && CanonicalItems(buf[next..], n)
  {}

  lemma {:induction false} ItemsAreCanonicalIff(buf: Bytes, count: nat)
    requires ParseItems(buf, count).Items?
    ensures CanonicalItems(buf, count) <==>
      buf[..ParseItems(buf, count).consumed] == EncodeAll(ParseItems(buf, count).items)
    decreases |buf|, 2
  {
    if count == 0 {
      assert buf[..0] == [];
    } else {
      ItemsStep(buf, count);
      var first := Parse(buf);
      var more := ParseItems(buf[first.consumed..], count - 1);
      CanonicalIff(buf);
      ItemsAreCanonicalIff(buf[first.consumed..], count - 1);
      ParsedIsWellFormed(buf);
      assert ([first.value] + more.items)[1..] == more.items;
      FirstItem(buf, first.value, first.consumed, more.consumed, EncodeAll(more.items));
    }
  }

  lemma FirstItem(buf: Bytes, v: RespValue, c: nat, k: nat, rest: Bytes)
    requires WellFormed(v) && Parse(buf) == Complete(v, c) && c + k <= |buf|
    ensures buf[..c + k] == Encode(v) + rest <==> buf[..c] == Encode(v) && buf[c..][..k] == rest
  {
    var e := Encode(v);
    if buf[..c + k] == e + rest {
      StartsWith(buf, c + k, e, rest);
      RoundTrip(v, buf[|e|..]);
    }
    if buf[..c] == e && buf[c..][..k] == rest {
      assert |e| == c && |rest| == k;
      StartsWithBoth(buf, e, rest);
    }
  }

  // ----- Whole streams -------------------------------------------------------

  /** Every value that the connection handles is written canonically. */
  predicate CanonicalStream(buf: Bytes)
    decreases |buf|
  {
    Parse(buf).Complete? ==> Canonical(buf) && CanonicalStream(buf[Parse(buf).consumed..])
  }

  function Values(events: seq<Event>): seq<RespValue>
    requires forall i :: 0 <= i < |events| ==> events[i].Handled?
  {
    if events == [] then [] else [events[0].value] + Values(events[1..])
  }

  /**
   A stream without errors can be rebuilt from the values handled and the bytes left over if and
   only if everything in it is canonical: exactly then the connection loses no byte of it.
   */
  lemma {:induction false} StreamIsRebuiltIff(buf: Bytes)
    requires Clean(Drain(buf))
    ensures CanonicalStream(buf) <==> buf == EncodeAll(Values(Drain(buf).events)) + Drain(buf).rest
    decreases |buf|
  {
    CleanHasNoFailure(buf);
    if Parse(buf).Incomplete? {
      assert EncodeAll([]) + buf == buf;
    } else {
      var first := Parse(buf);
      var more := Drain(buf[first.consumed..]);
      CleanTail(buf);
      StreamIsRebuiltIff(buf[first.consumed..]);
      CanonicalIff(buf);
      ParsedIsWellFormed(buf);
      FirstIsSplitOff(buf, first.value, first.consumed, EncodeAll(Values(more.events)) + more.rest);
      ValuesCons(first.value, more.events);
      Assoc(Encode(first.value), EncodeAll(Values(more.events)), more.rest);
    }
  }

  lemma FirstIsSplitOff(buf: Bytes, v: RespValue, c: nat, rest: Bytes)
    requires WellFormed(v) && Parse(buf) == Complete(v, c)
    ensures buf == Encode(v) + rest <==> buf[..c] == Encode(v) && buf[c..] == rest
  {
    FirstItem(buf, v, c, |buf| - c, rest);
    assert buf[..c + (|buf| - c)] == buf && buf[c..][..|buf| - c] == buf[c..];
  }

  lemma ValuesCons(v: RespValue, events: seq<Event>)
    requires forall i :: 0 <= i < |events| ==> events[i].Handled?
    ensures var all := [Handled(v)] + events;
            && (forall i :: 0 <= i < |all| ==> all[i].Handled?)
            && EncodeAll(Values(all)) == Encode(v) + EncodeAll(Values(events))
  {
    var all := [Handled(v)] + events;
    assert all[1..] == events;
    assert ([v] + Values(events))[1..] == Values(events);
  }
}
