/**
 The RESP2 codec of the node (resp/parser.rs, resp/encoder.rs), after "Simple strings", "Errors",
 "Integers", "Bulk strings", "Arrays" and their null forms in the Redis serialization protocol
 specification. Text is kept as its UTF-8 bytes.
 */
module RespCodec {
  import opened Common
  import opened Text

  const CR: Byte := 13
  const LF: Byte := 10
  const DOLLAR: Byte := 36
  const STAR: Byte := 42
  const COLON: Byte := 58

  const CRLF: Bytes := [CR, LF]

  datatype RespValue =
    | SimpleString(text: Bytes)
    | Error(text: Bytes)
    | Integer(n: int)
    | BulkString(data: Bytes)
    | Null
    | Array(items: seq<RespValue>)

  datatype Problem =
    | UnexpectedByte(b: Byte)
    | InvalidUtf8
    | InvalidInteger
    | InvalidBulkLength
    | InvalidArrayCount
    | UnterminatedBulk

  datatype ParseResult = Complete(value: RespValue, consumed: nat) | Incomplete | Failure(problem: Problem)

  // ----- Lines ---------------------------------------------------------------

  predicate CrlfAt(buf: Bytes, i: nat) {
    i + 1 < |buf| && buf[i] == CR && buf[i + 1] == LF
  }

  function FindCrlf(buf: Bytes, offset: nat): (r: Option<nat>)
    ensures r.Some? ==> offset <= r.value && r.value + 1 < |buf|
    decreases |buf| - offset
  {
    if |buf| < offset + 2 then None
    else if buf[offset] == CR && buf[offset + 1] == LF then Some(offset)
    else FindCrlf(buf, offset + 1)
  }

  /** `r` is the first CRLF at or after `offset`, or None if there is none. */
  ghost predicate IsFirstCrlf(buf: Bytes, offset: nat, r: Option<nat>) {
    match r
    case Some(cr) => offset <= cr && CrlfAt(buf, cr) && forall j :: offset <= j < cr ==> !CrlfAt(buf, j)
    case None => forall j :: offset <= j < |buf| ==> !CrlfAt(buf, j)
  }

  lemma {:induction false} FindCrlfFindsFirst(buf: Bytes, offset: nat)
    ensures IsFirstCrlf(buf, offset, FindCrlf(buf, offset))
    decreases |buf| - offset
  {
    if |buf| >= offset + 2 && !CrlfAt(buf, offset) {
      FindCrlfFindsFirst(buf, offset + 1);
    }
  }

  lemma FirstCrlfUnique(buf: Bytes, offset: nat, r: Option<nat>)
    requires IsFirstCrlf(buf, offset, r)
    ensures FindCrlf(buf, offset) == r
  {
    FindCrlfFindsFirst(buf, offset);
  }

  method FindCrlfLoop(buf: Bytes, offset: nat) returns (r: Option<nat>)
    ensures IsFirstCrlf(buf, offset, r) && r == FindCrlf(buf, offset)
  {
    FindCrlfFindsFirst(buf, offset);
    if |buf| < offset + 2 {
      return None;
    }
    for i := offset to |buf| - 1
      invariant FindCrlf(buf, offset) == FindCrlf(buf, i)
    {
      if buf[i] == CR && buf[i + 1] == LF {
        return Some(i);
      }
    }
    return None;
  }

  /** The line starting right after the type byte, and where the next one starts. */
  function ReadLine(buf: Bytes): (r: Option<(Bytes, nat)>)
    requires buf != []
    ensures r.Some? ==> 3 <= r.value.1 <= |buf|
  {
    match FindCrlf(buf, 1)
    case Some(cr) => Some((buf[1..cr], cr + 2))
    case None => None
  }

  ghost predicate NoCrlf(s: Bytes) {
    forall i :: 0 <= i < |s| ==> !CrlfAt(s, i)
  }

  lemma ReadLineAppend(buf: Bytes, more: Bytes)
    requires buf != [] && ReadLine(buf).Some?
    ensures ReadLine(buf + more) == ReadLine(buf)
  {
    FindCrlfFindsFirst(buf, 1);
    var cr := FindCrlf(buf, 1).value;
    assert forall j :: 1 <= j <= cr ==> CrlfAt(buf + more, j) == CrlfAt(buf, j);
    FirstCrlfUnique(buf + more, 1, Some(cr));
    assert (buf + more)[1..cr] == buf[1..cr];
  }

  lemma ReadLineWritten(tag: Byte, line: Bytes, tail: Bytes)
    requires NoCrlf(line)
    ensures ReadLine([tag] + line + CRLF + tail) == Some((line, |line| + 3))
  {
    var buf := [tag] + line + CRLF + tail;
    var cr := |line| + 1;
    forall j | 1 <= j < cr ensures !CrlfAt(buf, j) {
      assert buf[j] == line[j - 1];
      if j + 1 < cr {
        assert buf[j + 1] == line[j];
        assert !CrlfAt(line, j - 1);
      }
    }
    FirstCrlfUnique(buf, 1, Some(cr));
    assert buf[1..cr] == line;
  }

  lemma ReadLineHasNoCrlf(buf: Bytes)
    requires buf != [] && ReadLine(buf).Some?
    ensures NoCrlf(ReadLine(buf).value.0)
  {
    FindCrlfFindsFirst(buf, 1);
    var line := ReadLine(buf).value.0;
    forall i | 0 <= i < |line| ensures !CrlfAt(line, i) {
      assert line[i] == buf[i + 1];
      assert !CrlfAt(buf, i + 1);
    }
  }

  // ----- The parser ----------------------------------------------------------

  datatype ItemsResult = Items(items: seq<RespValue>, consumed: nat) | ItemsIncomplete | ItemsFailure(problem: Problem)

  function ParseText(buf: Bytes, error: bool): (r: ParseResult)
    requires buf != []
    ensures r.Complete? ==> 3 <= r.consumed <= |buf|
  {
    match ReadLine(buf)
    case None => Incomplete
    case Some((line, next)) =>
      if !Utf8(line) then Failure(InvalidUtf8)
      else Complete(if error then Error(line) else SimpleString(line), next)
  }

  /** The integer on the first line, or why there is none. */
  datatype Header = Header(n: int, next: nat) | HeaderIncomplete | HeaderFailure(problem: Problem)

  function ParseHeader(buf: Bytes, invalid: Problem): (r: Header)
    requires buf != []
    ensures r.Header? ==> 3 <= r.next <= |buf| && I64_MIN <= r.n <= I64_MAX
  {
    match ReadLine(buf)
    case None => HeaderIncomplete
    case Some((line, next)) =>
      if !Utf8(line) then HeaderFailure(InvalidUtf8)
      else
        match ParseI64(line)
        case None => HeaderFailure(invalid)
        case Some(n) => Header(n, next)
  }

  function ParseInteger(buf: Bytes): (r: ParseResult)
    requires buf != []
    ensures r.Complete? ==> 3 <= r.consumed <= |buf|
  {
    match ParseHeader(buf, InvalidInteger)
    case HeaderIncomplete => Incomplete
    case HeaderFailure(p) => Failure(p)
    case Header(n, next) => Complete(Integer(n), next)
  }

  function ParseBulk(buf: Bytes): (r: ParseResult)
    requires buf != []
    ensures r.Complete? ==> 3 <= r.consumed <= |buf|
  {
    match ParseHeader(buf, InvalidBulkLength)
    case HeaderIncomplete => Incomplete
    case HeaderFailure(p) => Failure(p)
    case Header(n, next) =>
      if n < 0 then Complete(Null, next)
      else if |buf| < next + n + 2 then Incomplete
      else if buf[next + n] != CR || buf[next + n + 1] != LF then Failure(UnterminatedBulk)
      else Complete(BulkString(buf[next..next + n]), next + n + 2)
  }

  function Parse(buf: Bytes): (r: ParseResult)
    ensures r.Complete? ==> 3 <= r.consumed <= |buf|
    decreases |buf|, 1
  {
    if buf == [] then Incomplete
    else if buf[0] == PLUS then ParseText(buf, false)
    else if buf[0] == MINUS then ParseText(buf, true)
    else if buf[0] == COLON then ParseInteger(buf)
    else if buf[0] == DOLLAR then ParseBulk(buf)
    else if buf[0] == STAR then ParseArray(buf)
    else Failure(UnexpectedByte(buf[0]))
  }

  function ParseArray(buf: Bytes): (r: ParseResult)
    requires buf != []
    ensures r.Complete? ==> 3 <= r.consumed <= |buf|
    decreases |buf|, 0
  {
    match ParseHeader(buf, InvalidArrayCount)
    case HeaderIncomplete => Incomplete
    case HeaderFailure(p) => Failure(p)
    case Header(n, next) =>
      if n < 0 then Complete(Null, next)
      else
        match ParseItems(buf[next..], n)
        case ItemsIncomplete => Incomplete
        case ItemsFailure(p) => Failure(p)
        case Items(items, consumed) => Complete(Array(items), next + consumed)
  }

  function ParseItems(buf: Bytes, count: nat): (r: ItemsResult)
    ensures r.Items? ==> r.consumed <= |buf| && |r.items| == count
    decreases |buf|, 2
  {
    if count == 0 then Items([], 0)
    else
      match Parse(buf)
      case Incomplete => ItemsIncomplete
      case Failure(p) => ItemsFailure(p)
      case Complete(v, c) =>
        match ParseItems(buf[c..], count - 1)
        case ItemsIncomplete => ItemsIncomplete
        case ItemsFailure(p) => ItemsFailure(p)
        case Items(rest, c') => Items([v] + rest, c + c')
  }

  /** `parse_resp` and `parse_array`, with the loop that accumulates the items. */
  method ParseResp(buf: Bytes) returns (r: ParseResult)
    ensures r == Parse(buf)
    decreases |buf|, 1
  {
    if buf == [] {
      return Incomplete;
    }
    if buf[0] == STAR {
      r := ParseArrayLoop(buf);
    } else if buf[0] == PLUS {
      r := ParseText(buf, false);
    } else if buf[0] == MINUS {
      r := ParseText(buf, true);
    } else if buf[0] == COLON {
      r := ParseInteger(buf);
    } else if buf[0] == DOLLAR {
      r := ParseBulk(buf);
    } else {
      r := Failure(UnexpectedByte(buf[0]));
    }
  }

  method ParseArrayLoop(buf: Bytes) returns (r: ParseResult)
    requires buf != []
    ensures r == ParseArray(buf)
    decreases |buf|, 0
  {
    var header := ParseHeader(buf, InvalidArrayCount);
    if header.HeaderIncomplete? {
      return Incomplete;
    }
    if header.HeaderFailure? {
      return Failure(header.problem);
    }
    if header.n < 0 {
      return Complete(Null, header.next);
    }
    var items := ParseItemsLoop(buf[header.next..], header.n);
    r := match items
      case ItemsIncomplete => Incomplete
      case ItemsFailure(p) => Failure(p)
      case Items(vs, consumed) => Complete(Array(vs), header.next + consumed);
  }

  /** The loop of `parse_array`, over the bytes after the count line. */
  method ParseItemsLoop(buf: Bytes, count: nat) returns (r: ItemsResult)
    ensures r == ParseItems(buf, count)
    decreases |buf|, 3
  {
    var items: seq<RespValue> := [];
    var offset := 0;
    NothingScanned(buf, count);
    for i := 0 to count
      invariant Scanned(buf, count, items, offset, i)
    {
      var item := ScanNext(buf, count, items, offset, i);
      match item {
        case Complete(v, consumed) =>
          items, offset := items + [v], offset + consumed;
        case Incomplete =>
          return ItemsIncomplete;
        case Failure(p) =>
          return ItemsFailure(p);
      }
    }
    AllScanned(buf, count, items, offset);
    r := Items(items, offset);
  }

  /** After `i` items the list parses to those items followed by what the rest parses to. */
  ghost predicate Scanned(buf: Bytes, count: nat, items: seq<RespValue>, offset: nat, i: nat) {
    && i <= count && offset <= |buf|
    && ParseItems(buf, count) == Prepend(items, offset, ParseItems(buf[offset..], count - i))
  }

  /** The next item, and what it means for the whole list. */
  method ScanNext(buf: Bytes, ghost count: nat, ghost items: seq<RespValue>, offset: nat, ghost i: nat)
    returns (item: ParseResult)
    requires Scanned(buf, count, items, offset, i) && i < count
    ensures item.Incomplete? ==> ParseItems(buf, count) == ItemsIncomplete
    ensures item.Failure? ==> ParseItems(buf, count) == ItemsFailure(item.problem)
    ensures item.Complete? ==> Scanned(buf, count, items + [item.value], offset + item.consumed, i + 1)
    decreases |buf|, 2
  {
    item := ParseResp(buf[offset..]);
    ScanStep(buf, count, items, offset, i, item);
  }

  lemma NothingScanned(buf: Bytes, count: nat)
    ensures Scanned(buf, count, [], 0, 0)
  {
    assert buf[0..] == buf;
    PrependNothing(ParseItems(buf, count));
  }

  lemma AllScanned(buf: Bytes, count: nat, items: seq<RespValue>, offset: nat)
    requires Scanned(buf, count, items, offset, count)
    ensures ParseItems(buf, count) == Items(items, offset)
  {}

  lemma ScanStep(buf: Bytes, count: nat, items: seq<RespValue>, offset: nat, i: nat, item: ParseResult)
    requires Scanned(buf, count, items, offset, i) && i < count && item == Parse(buf[offset..])
    ensures item.Incomplete? ==> ParseItems(buf, count) == ItemsIncomplete
    ensures item.Failure? ==> ParseItems(buf, count) == ItemsFailure(item.problem)
    ensures item.Complete? ==> Scanned(buf, count, items + [item.value], offset + item.consumed, i + 1)
  {
    if item.Complete? {
      ScanAdvances(buf, count, items, offset, i, item.value, item.consumed);
    } else {
      ItemsStep(buf[offset..], count - i);
    }
  }

  lemma ScanAdvances(buf: Bytes, count: nat, items: seq<RespValue>, offset: nat, i: nat, v: RespValue, c: nat)
    requires Scanned(buf, count, items, offset, i) && i < count && Parse(buf[offset..]) == Complete(v, c)
    ensures Scanned(buf, count, items + [v], offset + c, i + 1)
  {
    ItemsStep(buf[offset..], count - i);
    DropDrop(buf, offset, c);
    PrependOne(items, offset, v, c, ParseItems(buf[offset + c..], count - i - 1));
  }

  lemma DropDrop(buf: Bytes, a: nat, b: nat)
    requires a + b <= |buf|
    ensures buf[a..][b..] == buf[a + b..]
  {}

  lemma ItemsStep(rest: Bytes, k: nat)
    requires k > 0
    ensures ParseItems(rest, k) ==
            match Parse(rest)
            case Incomplete => ItemsIncomplete
            case Failure(p) => ItemsFailure(p)
            case Complete(v, c) => Prepend([v], c, ParseItems(rest[c..], k - 1))
  {}

  /** Items already read, put in front of what the rest of the buffer yields. */
  ghost function Prepend(items: seq<RespValue>, consumed: nat, rest: ItemsResult): ItemsResult {
    match rest
    case Items(more, c) => Items(items + more, consumed + c)
    case _ => rest
  }

  lemma PrependNothing(rest: ItemsResult)
    ensures Prepend([], 0, rest) == rest
  {}

  lemma PrependOne(items: seq<RespValue>, consumed: nat, v: RespValue, c: nat, rest: ItemsResult)
    ensures Prepend(items, consumed, Prepend([v], c, rest)) == Prepend(items + [v], consumed + c, rest)
  {
    if rest.Items? {
      assert items + ([v] + rest.items) == items + [v] + rest.items;
    }
  }

  // ----- Stability -----------------------------------------------------------

  lemma HeaderAppend(buf: Bytes, more: Bytes, invalid: Problem)
    requires buf != [] && !ParseHeader(buf, invalid).HeaderIncomplete?
    ensures ParseHeader(buf + more, invalid) == ParseHeader(buf, invalid)
  {
    ReadLineAppend(buf, more);
  }

  lemma BulkAppend(buf: Bytes, more: Bytes)
    requires buf != [] && !ParseBulk(buf).Incomplete?
    ensures ParseBulk(buf + more) == ParseBulk(buf)
  {
    HeaderAppend(buf, more, InvalidBulkLength);
    var h := ParseHeader(buf, InvalidBulkLength);
    if h.Header? && h.n >= 0 {
      assert (buf + more)[h.next..h.next + h.n] == buf[h.next..h.next + h.n];
    }
  }

  /** A verdict is final: appending bytes never changes a Complete or Failure result. */
  lemma {:induction false} ParseIsStable(buf: Bytes, more: Bytes)
    requires !Parse(buf).Incomplete?
    ensures Parse(buf + more) == Parse(buf)
    decreases |buf|, 1
  {
    assert (buf + more)[0] == buf[0];
    if buf[0] == PLUS || buf[0] == MINUS {
      ReadLineAppend(buf, more);
    } else if buf[0] == COLON {
      HeaderAppend(buf, more, InvalidInteger);
    } else if buf[0] == DOLLAR {
      BulkAppend(buf, more);
    } else if buf[0] == STAR {
      ArrayIsStable(buf, more);
    }
  }

  lemma {:induction false} ArrayIsStable(buf: Bytes, more: Bytes)
    requires buf != [] && !ParseArray(buf).Incomplete?
    ensures ParseArray(buf + more) == ParseArray(buf)
    decreases |buf|, 0
  {
    HeaderAppend(buf, more, InvalidArrayCount);
    var h := ParseHeader(buf, InvalidArrayCount);
    if h.Header? && h.n >= 0 {
      assert (buf + more)[h.next..] == buf[h.next..] + more;
      ItemsAreStable(buf[h.next..], more, h.n);
    }
  }

  lemma {:induction false} ItemsAreStable(buf: Bytes, more: Bytes, count: nat)
    requires !ParseItems(buf, count).ItemsIncomplete?
    ensures ParseItems(buf + more, count) == ParseItems(buf, count)
    decreases |buf|, 2
  {
    if count == 0 {
    } else {
      ParseIsStable(buf, more);
      if Parse(buf).Complete? {
        var c := Parse(buf).consumed;
        assert (buf + more)[c..] == buf[c..] + more;
        ItemsAreStable(buf[c..], more, count - 1);
      }
    }
  }

  // ----- The encoder ---------------------------------------------------------

  function Line(tag: Byte, content: Bytes): Bytes { [tag] + content + CRLF }

  function Encode(v: RespValue): Bytes
    decreases v, 1
  {
    match v
    case SimpleString(s) => Line(PLUS, s)
    case Error(s) => Line(MINUS, s)
    case Integer(n) => Line(COLON, Print(n))
    case BulkString(data) => Line(DOLLAR, Print(|data|)) + data + CRLF
    case Null => Line(DOLLAR, Print(-1))
    case Array(items) => Line(STAR, Print(|items|)) + EncodeAll(items)
  }

  function EncodeAll(items: seq<RespValue>): Bytes
    decreases items, 0
  {
    if items == [] then [] else Encode(items[0]) + EncodeAll(items[1..])
  }

  lemma {:induction false} EncodeAllConcat(a: seq<RespValue>, b: seq<RespValue>)
    ensures EncodeAll(a + b) == EncodeAll(a) + EncodeAll(b)
  {
    if a == [] {
      assert a + b == b;
    } else {
      assert (a + b)[1..] == a[1..] + b;
      EncodeAllConcat(a[1..], b);
    }
  }

  lemma EncodeOneMore(header: Bytes, items: seq<RespValue>, i: nat)
    requires i < |items|
    ensures header + EncodeAll(items[..i + 1]) == header + EncodeAll(items[..i]) + Encode(items[i])
  {
    assert items[..i + 1] == items[..i] + [items[i]];
    EncodeAllConcat(items[..i], [items[i]]);
    assert EncodeAll([items[i]]) == Encode(items[i]) by { assert [items[i]][1..] == []; }
  }

  /** `encode_array`: the loop appends each item's encoding to one buffer. */
  method EncodeArray(items: seq<RespValue>) returns (out: Bytes)
    ensures out == Encode(Array(items))
    decreases items
  {
    out := [STAR];
    out := out + Print(|items|);
    out := out + CRLF;
    ghost var header := out;
    for i := 0 to |items|
      invariant out == header + EncodeAll(items[..i])
    {
      EncodeOneMore(header, items, i);
      match items[i] {
        case Array(inner) =>
          var e := EncodeArray(inner);
          out := out + e;
        case _ =>
          out := out + Encode(items[i]);
      }
    }
    assert items[..|items|] == items;
  }

  /** What RESP2 can carry: text lines without CRLF, 64-bit integers, lengths that fit one. */
  ghost predicate WellFormed(v: RespValue)
    decreases v
  {
    match v
    case SimpleString(s) => Utf8(s) && NoCrlf(s)
    case Error(s) => Utf8(s) && NoCrlf(s)
    case Integer(n) => I64_MIN <= n <= I64_MAX
    case BulkString(data) => |data| <= I64_MAX
    case Null => true
    case Array(items) => |items| <= I64_MAX && forall i :: 0 <= i < |items| ==> WellFormed(items[i])
  }

  lemma HeaderWritten(tag: Byte, n: int, tail: Bytes, invalid: Problem)
    requires I64_MIN <= n <= I64_MAX
    ensures ParseHeader(Line(tag, Print(n)) + tail, invalid) == Header(n, |Line(tag, Print(n))|)
  {
    PrintRoundTrip(n);
    PrintedIsUtf8(n);
    ReadLineWritten(tag, Print(n), tail);
  }

  lemma Middle(a: Bytes, b: Bytes, c: Bytes)
    ensures (a + b + c)[|a|..|a| + |b|] == b
    ensures forall i :: 0 <= i < |c| ==> (a + b + c)[|a| + |b| + i] == c[i]
  {}

  lemma BulkWritten(data: Bytes, tail: Bytes)
    requires |data| <= I64_MAX
    ensures Parse(Encode(BulkString(data)) + tail) == Complete(BulkString(data), |Encode(BulkString(data))|)
  {
    var head := Line(DOLLAR, Print(|data|));
    var close := CRLF + tail;
    HeaderWritten(DOLLAR, |data|, data + close, InvalidBulkLength);
    Assoc(head, data, close);
    BulkBody(head, data, close);
    DollarMeansBulk(head + data + close);
    Assoc(head + data, CRLF, tail);
  }

  lemma BulkBody(head: Bytes, data: Bytes, close: Bytes)
    requires head != [] && CrlfAt(close, 0)
    requires ParseHeader(head + data + close, InvalidBulkLength) == Header(|data|, |head|)
    ensures ParseBulk(head + data + close) == Complete(BulkString(data), |head| + |data| + 2)
  {
    Middle(head, data, close);
    var buf := head + data + close;
    assert buf[|head| + |data| + 0] == CR && buf[|head| + |data| + 1] == LF;
  }

  /** Parsing an encoding followed by anything yields the value and the encoding's length. */
  lemma {:induction false} RoundTrip(v: RespValue, tail: Bytes)
    requires WellFormed(v)
    ensures Parse(Encode(v) + tail) == Complete(v, |Encode(v)|)
    decreases v, 1
  {
    match v
    case SimpleString(s) => ReadLineWritten(PLUS, s, tail);
    case Error(s) => ReadLineWritten(MINUS, s, tail);
    case Integer(n) => HeaderWritten(COLON, n, tail, InvalidInteger);
    case BulkString(data) => BulkWritten(data, tail);
    case Null => HeaderWritten(DOLLAR, -1, tail, InvalidBulkLength);
    case Array(items) =>
      ItemsRoundTrip(items, tail);
      ArrayWritten(items, tail);
  }

  lemma ArrayWritten(items: seq<RespValue>, tail: Bytes)
    requires |items| <= I64_MAX
    requires ParseItems(EncodeAll(items) + tail, |items|) == Items(items, |EncodeAll(items)|)
    ensures Parse(Encode(Array(items)) + tail) == Complete(Array(items), |Encode(Array(items))|)
  {
    var head, body := Line(STAR, Print(|items|)), EncodeAll(items) + tail;
    HeaderWritten(STAR, |items|, body, InvalidArrayCount);
    ArrayParsed(head, body, items, |EncodeAll(items)|);
    Assoc(head, EncodeAll(items), tail);
  }

  lemma Assoc(a: Bytes, b: Bytes, c: Bytes)
    ensures a + b + c == a + (b + c)
  {}

  lemma ArrayParsed(head: Bytes, body: Bytes, items: seq<RespValue>, consumed: nat)
    requires head != [] && head[0] == STAR
    requires ParseHeader(head + body, InvalidArrayCount) == Header(|items|, |head|)
    requires ParseItems(body, |items|) == Items(items, consumed)
    ensures Parse(head + body) == Complete(Array(items), |head| + consumed)
  {
    assert (head + body)[|head|..] == body;
    StarMeansArray(head + body);
  }

  lemma StarMeansArray(buf: Bytes)
    requires buf != [] && buf[0] == STAR
    ensures Parse(buf) == ParseArray(buf)
  {}

  lemma DollarMeansBulk(buf: Bytes)
    requires buf != [] && buf[0] == DOLLAR
    ensures Parse(buf) == ParseBulk(buf)
  {}

  lemma {:induction false} ItemsRoundTrip(items: seq<RespValue>, tail: Bytes)
    requires forall i :: 0 <= i < |items| ==> WellFormed(items[i])
    ensures ParseItems(EncodeAll(items) + tail, |items|) == Items(items, |EncodeAll(items)|)
    decreases items, 0
  {
    if items == [] {
    } else {
      var first, rest := Encode(items[0]), EncodeAll(items[1..]);
      RoundTrip(items[0], rest + tail);
      ItemsRoundTrip(items[1..], tail);
      ItemsParsed(first, rest + tail, items[0], items[1..], |rest|);
      Assoc(first, rest, tail);
      assert [items[0]] + items[1..] == items;
    }
  }

  lemma ItemsParsed(first: Bytes, rest: Bytes, v: RespValue, vs: seq<RespValue>, consumed: nat)
    requires Parse(first + rest) == Complete(v, |first|)
    requires ParseItems(rest, |vs|) == Items(vs, consumed)
    ensures ParseItems(first + rest, |vs| + 1) == Items([v] + vs, |first| + consumed)
  {
    assert (first + rest)[|first|..] == rest;
    ItemsStep(first + rest, |vs| + 1);
  }

  /** Every strict prefix of an encoding is Incomplete, never an error. */
  lemma PrefixIsIncomplete(v: RespValue, n: nat)
    requires WellFormed(v) && n < |Encode(v)|
    ensures Parse(Encode(v)[..n]) == Incomplete
  {
    var e := Encode(v);
    RoundTrip(v, []);
    assert e + [] == e;
    assert e[..n] + e[n..] == e;
    if !Parse(e[..n]).Incomplete? {
      ParseIsStable(e[..n], e[n..]);
    }
  }

  // ----- Normalisation -------------------------------------------------------

  /** Whatever the parser accepts is well formed. */
  lemma {:induction false} ParsedIsWellFormed(buf: Bytes)
    requires Parse(buf).Complete?
    ensures WellFormed(Parse(buf).value)
    decreases |buf|, 1
  {
    if buf[0] == PLUS || buf[0] == MINUS {
      ReadLineHasNoCrlf(buf);
    } else if buf[0] == STAR {
      var h := ParseHeader(buf, InvalidArrayCount);
      if h.n >= 0 {
        ItemsAreWellFormed(buf[h.next..], h.n);
      }
    }
  }

  lemma {:induction false} ItemsAreWellFormed(buf: Bytes, count: nat)
    requires ParseItems(buf, count).Items?
    ensures forall i :: 0 <= i < count ==> WellFormed(ParseItems(buf, count).items[i])
    decreases |buf|, 2
  {
    if count == 0 {
    } else {
      ParsedIsWellFormed(buf);
      var c := Parse(buf).consumed;
      ItemsAreWellFormed(buf[c..], count - 1);
      var rest := ParseItems(buf[c..], count - 1).items;
      assert forall i :: 0 < i < count ==> ParseItems(buf, count).items[i] == rest[i - 1];
    }
  }

  /** The round trip holds for exactly the well-formed values. */
  lemma RoundTripIff(v: RespValue, tail: Bytes)
    ensures Parse(Encode(v) + tail) == Complete(v, |Encode(v)|) <==> WellFormed(v)
  {
    if WellFormed(v) {
      RoundTrip(v, tail);
    }
    if Parse(Encode(v) + tail) == Complete(v, |Encode(v)|) {
      ParsedIsWellFormed(Encode(v) + tail);
    }
  }

  /** Accepted bytes need not be canonical, but re-encoding the value parses to the same value. */
  lemma ParseNormalises(buf: Bytes, tail: Bytes)
    requires Parse(buf).Complete?
    ensures var v := Parse(buf).value;
            Parse(Encode(v) + tail) == Complete(v, |Encode(v)|)
  {
    ParsedIsWellFormed(buf);
    RoundTrip(Parse(buf).value, tail);
  }

  /** The encoding is prefix free: no value's encoding is a proper prefix of another's. */
  lemma EncodingIsPrefixFree(v: RespValue, w: RespValue, tail: Bytes)
    requires WellFormed(v) && WellFormed(w) && Encode(v) + tail == Encode(w)
    ensures v == w && tail == []
  {
    RoundTrip(v, tail);
    RoundTrip(w, []);
    assert Encode(w) + [] == Encode(w);
  }

  /** A plus sign, leading zeros and the null array are accepted although the encoder never writes them. */
  lemma NonCanonicalIsAccepted()
    ensures Parse([COLON, PLUS, 48, 49, CR, LF]) == Complete(Integer(1), 6)
    ensures Encode(Integer(1)) == [COLON, 49, CR, LF]
    ensures Parse([STAR, MINUS, 49, CR, LF]) == Complete(Null, 5)
    ensures Encode(Null) == [DOLLAR, MINUS, 49, CR, LF]
  {
    ReadLineWritten(COLON, [PLUS, 48, 49], []);
    assert [COLON] + [PLUS, 48, 49] + CRLF + [] == [COLON, PLUS, 48, 49, CR, LF];
    AsciiIsUtf8([PLUS, 48, 49]);
    assert Value([PLUS, 48, 49], 1, 1) == 0 && Value([PLUS, 48, 49], 1, 2) == 0 && Value([PLUS, 48, 49], 1, 3) == 1;
    HeaderWritten(STAR, -1, [], InvalidArrayCount);
    assert Line(STAR, Print(-1)) + [] == [STAR, MINUS, 49, CR, LF];
  }
}
