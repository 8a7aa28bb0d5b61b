/**
 The wire format in bytes. Every statement here spells out the bytes of the Redis serialization
 protocol: 43 '+', 45 '-', 58 ':', 36 '$', 42 '*', 13 10 for the line end, 48 to 57 for the digits. Together the
 lemmas say what the parser answers on every input and what the encoder writes for every value.
 */
module RespWire {
  import opened Common
  import opened Text
  import opened RespCodec

  // ----- Numbers -------------------------------------------------------------

  /** The number that a string of decimal digits stands for. */
  ghost function Decimal(d: Bytes): int {
    if d == [] then 0 else Decimal(d[..|d| - 1]) * 10 + d[|d| - 1] - 48
  }

  ghost predicate DigitString(d: Bytes) {
    d != [] && forall i :: 0 <= i < |d| ==> 48 <= d[i] <= 57
  }

  /** `s` writes the 64-bit integer `n`: an optional sign and at least one digit. */
  ghost predicate Writes(s: Bytes, n: int) {
    && -9_223_372_036_854_775_808 <= n <= 9_223_372_036_854_775_807
    && (|| (DigitString(s) && n == Decimal(s))
        || (s != [] && s[0] == 43 && DigitString(s[1..]) && n == Decimal(s[1..]))
        || (s != [] && s[0] == 45 && DigitString(s[1..]) && n == -Decimal(s[1..])))
  }

  lemma {:induction false} ValueIsDecimal(s: Bytes, from: nat, end: nat)
    requires from <= end <= |s| && AllDigits(s, from)
    ensures Value(s, from, end) == Decimal(s[from..end])
    decreases end
  {
    if from == end {
      assert s[from..end] == [];
    } else {
      ValueIsDecimal(s, from, end - 1);
      assert s[from..end][..end - from - 1] == s[from..end - 1];
    }
  }

  lemma DigitsFrom(s: Bytes, from: nat)
    requires from <= |s|
    ensures from < |s| && AllDigits(s, from) <==> DigitString(s[from..])
  {
    if DigitString(s[from..]) {
      forall i | from <= i < |s| ensures IsDigit(s[i]) {
        assert s[i] == s[from..][i - from];
      }
    }
  }

  /** The number parser accepts exactly these strings, with exactly this meaning. */
  lemma ParsesIff(s: Bytes, n: int)
    ensures ParseI64(s) == Some(n) <==> Writes(s, n)
  {
    var from := if s != [] && (s[0] == 43 || s[0] == 45) then 1 else 0;
    DigitsFrom(s, from);
    DigitsFrom(s, 0);
    assert s[0..] == s;
    if from < |s| && AllDigits(s, from) {
      ValueIsDecimal(s, from, |s|);
      assert s[from..|s|] == s[from..];
    }
  }

  /** What is printed: the shortest such string, with a minus sign only. */
  lemma {:induction false} PrintsDecimal(n: nat)
    ensures DigitString(Print(n)) && Decimal(Print(n)) == n
    ensures if n < 10 then |Print(n)| == 1 else Print(n)[0] != 48
    ensures Print(-(n as int) - 1) == [45] + Print(n + 1)
  {
    DigitsRoundTrip(n);
    ValueIsDecimal(Print(n), 0, |Print(n)|);
    assert Print(n)[0..|Print(n)|] == Print(n);
    assert Print(n)[0..] == Print(n);
    DigitsFrom(Print(n), 0);
    if n >= 10 {
      LeadingDigit(n);
    }
  }

  lemma {:induction false} LeadingDigit(n: nat)
    requires n >= 1
    ensures Print(n) != [] && Print(n)[0] != 48
  {
    if n < 10 {
    } else {
      LeadingDigit(n / 10);
      assert Print(n)[0] == Print(n / 10)[0];
    }
  }

  // ----- What the parser answers ---------------------------------------------

  /** No line end inside. */
  ghost predicate OneLine(s: Bytes) {
    forall i :: 0 <= i < |s| - 1 ==> !(s[i] == 13 && s[i + 1] == 10)
  }

  function Framed(tag: Byte, line: Bytes, rest: Bytes): Bytes {
    [tag] + line + [13, 10] + rest
  }

  lemma FramedLine(tag: Byte, line: Bytes, rest: Bytes)
    requires OneLine(line)
    ensures ReadLine(Framed(tag, line, rest)) == Some((line, |line| + 3))
    ensures Framed(tag, line, rest)[0] == tag
  {
    ReadLineWritten(tag, line, rest);
  }

  /** `+` and `-`: a line of text. */
  lemma TextLines(line: Bytes, rest: Bytes)
    requires OneLine(line)
    ensures Parse(Framed(43, line, rest)) ==
            if Utf8(line) then Complete(SimpleString(line), |line| + 3) else Failure(InvalidUtf8)
    ensures Parse(Framed(45, line, rest)) ==
            if Utf8(line) then Complete(Error(line), |line| + 3) else Failure(InvalidUtf8)
  {
    FramedLine(43, line, rest);
    FramedLine(45, line, rest);
  }

  /** The number on a line, or what is wrong with it. */
  ghost predicate NumberLine(line: Bytes, invalid: Problem, r: ParseResult) {
    if !Utf8(line) then r == Failure(InvalidUtf8)
    else (forall n :: !Writes(line, n)) ==> r == Failure(invalid)
  }

  lemma HeaderOf(tag: Byte, line: Bytes, rest: Bytes, invalid: Problem)
    requires OneLine(line)
    ensures !Utf8(line) ==> ParseHeader(Framed(tag, line, rest), invalid) == HeaderFailure(InvalidUtf8)
    ensures Utf8(line) && (forall n :: !Writes(line, n)) ==>
              ParseHeader(Framed(tag, line, rest), invalid) == HeaderFailure(invalid)
    ensures forall n :: Utf8(line) && Writes(line, n) ==>
              ParseHeader(Framed(tag, line, rest), invalid) == Header(n, |line| + 3)
  {
    FramedLine(tag, line, rest);
    forall n ensures ParseI64(line) == Some(n) <==> Writes(line, n) {
      ParsesIff(line, n);
    }
  }

  /** `:`: a number. */
  lemma IntegerLines(line: Bytes, rest: Bytes)
    requires OneLine(line)
    ensures NumberLine(line, InvalidInteger, Parse(Framed(58, line, rest)))
    ensures forall n :: Utf8(line) && Writes(line, n) ==>
              Parse(Framed(58, line, rest)) == Complete(Integer(n), |line| + 3)
  {
    HeaderOf(58, line, rest, InvalidInteger);
    FramedLine(58, line, rest);
  }

  /** `$`: a length, that many bytes, and a line end; any negative length is the null. */
  lemma BulkStrings(line: Bytes, rest: Bytes)
    requires OneLine(line)
    ensures NumberLine(line, InvalidBulkLength, Parse(Framed(36, line, rest)))
    ensures forall n :: Utf8(line) && Writes(line, n) ==>
              Parse(Framed(36, line, rest)) == BulkAnswer(n, |line| + 3, rest)
  {
    HeaderOf(36, line, rest, InvalidBulkLength);
    FramedLine(36, line, rest);
    forall n | Utf8(line) && Writes(line, n)
      ensures Parse(Framed(36, line, rest)) == BulkAnswer(n, |line| + 3, rest)
    {
      BulkOf(line, rest, n);
    }
  }

  /** The answer once the length `n` is known, `start` bytes into the buffer. */
  ghost function BulkAnswer(n: int, start: nat, rest: Bytes): ParseResult {
    if n < 0 then Complete(Null, start)
    else if |rest| < n + 2 then Incomplete
    else if rest[n] == 13 && rest[n + 1] == 10 then Complete(BulkString(rest[..n]), start + n + 2)
    else Failure(UnterminatedBulk)
  }

  lemma BulkOf(line: Bytes, rest: Bytes, n: int)
    requires ParseHeader(Framed(36, line, rest), InvalidBulkLength) == Header(n, |line| + 3)
    ensures Parse(Framed(36, line, rest)) == BulkAnswer(n, |line| + 3, rest)
  {
    var buf, start := Framed(36, line, rest), |line| + 3;
    DollarMeansBulk(buf);
    RestOf(36, line, rest);
    if 0 <= n <= |rest| - 2 {
      assert buf[start + n] == buf[start..][n] && buf[start + n + 1] == buf[start..][n + 1];
      assert buf[start..start + n] == buf[start..][..n];
    }
  }

  lemma RestOf(tag: Byte, line: Bytes, rest: Bytes)
    ensures Framed(tag, line, rest)[|line| + 3..] == rest
    ensures |Framed(tag, line, rest)| == |line| + 3 + |rest|
  {}

  /** `*`: a count, and that many values one after the other; any negative count is the null. */
  lemma Arrays(line: Bytes, rest: Bytes)
    requires OneLine(line)
    ensures NumberLine(line, InvalidArrayCount, Parse(Framed(42, line, rest)))
    ensures forall n :: Utf8(line) && Writes(line, n) ==>
              Parse(Framed(42, line, rest)) ==
              if n < 0 then Complete(Null, |line| + 3)
              else match ParseItems(rest, n)
                   case Items(items, c) => Complete(Array(items), |line| + 3 + c)
                   case ItemsIncomplete => Incomplete
                   case ItemsFailure(p) => Failure(p)
  {
    HeaderOf(42, line, rest, InvalidArrayCount);
    FramedLine(42, line, rest);
    RestOf(42, line, rest);
  }

  /** The values of an array are read in order: the first answer that is not a value decides. */
  ghost predicate ReadInOrder(buf: Bytes, items: seq<RespValue>, c: nat)
    decreases |items|
  {
    if items == [] then c == 0
    else
      && Parse(buf).Complete? && Parse(buf).value == items[0] && Parse(buf).consumed <= c
      && ReadInOrder(buf[Parse(buf).consumed..], items[1..], c - Parse(buf).consumed)
  }

  lemma {:induction false} ItemsInOrder(buf: Bytes, count: nat)
    ensures forall items, c :: ParseItems(buf, count) == Items(items, c) <==>
      |items| == count && ReadInOrder(buf, items, c)
    decreases count
  {
    if count == 0 {
      forall items, c ensures ParseItems(buf, 0) == Items(items, c) <==> |items| == 0 && ReadInOrder(buf, items, c) {}
    } else {
      ItemsStep(buf, count);
      if Parse(buf).Complete? {
        var rest := buf[Parse(buf).consumed..];
        ItemsInOrder(rest, count - 1);
        forall items, c ensures ParseItems(buf, count) == Items(items, c) <==>
          |items| == count && ReadInOrder(buf, items, c) {
          OneItemMore(buf, count, items, c);
        }
      }
    }
  }

  lemma OneItemMore(buf: Bytes, count: nat, items: seq<RespValue>, c: nat)
    requires count > 0 && Parse(buf).Complete?
    requires forall its, k :: ParseItems(buf[Parse(buf).consumed..], count - 1) == Items(its, k) <==>
               |its| == count - 1 && ReadInOrder(buf[Parse(buf).consumed..], its, k)
    ensures ParseItems(buf, count) == Items(items, c) <==> |items| == count && ReadInOrder(buf, items, c)
  {
    var first := Parse(buf);
    var more := ParseItems(buf[first.consumed..], count - 1);
    ItemsStep(buf, count);
    if ParseItems(buf, count) == Items(items, c) {
      assert items == [first.value] + more.items && items[1..] == more.items;
    }
    if |items| == count && ReadInOrder(buf, items, c) {
      assert more == Items(items[1..], c - first.consumed);
      assert [first.value] + items[1..] == items;
    }
  }

  /** After fewer than `count` values comes the answer `r`, which is not a value. */
  ghost predicate Stops(buf: Bytes, count: nat, r: ParseResult) {
    !r.Complete? && exists items, c :: StopsAfter(buf, count, r, items, c)
  }

  ghost predicate StopsAfter(buf: Bytes, count: nat, r: ParseResult, items: seq<RespValue>, c: nat) {
    |items| < count && ReadInOrder(buf, items, c) && c <= |buf| && Parse(buf[c..]) == r
  }

  lemma StopsNow(buf: Bytes, count: nat, r: ParseResult)
    requires count > 0 && Parse(buf) == r && !r.Complete?
    ensures Stops(buf, count, r)
  {
    assert buf[0..] == buf;
    assert StopsAfter(buf, count, r, [], 0);
  }

  lemma StopsLater(buf: Bytes, count: nat, r: ParseResult)
    requires count > 0 && Parse(buf).Complete? && Stops(buf[Parse(buf).consumed..], count - 1, r)
    ensures Stops(buf, count, r)
  {
    var v, k := Parse(buf).value, Parse(buf).consumed;
    var items, c :| StopsAfter(buf[k..], count - 1, r, items, c);
    assert ([v] + items)[1..] == items;
    DropDrop(buf, k, c);
    assert StopsAfter(buf, count, r, [v] + items, k + c);
  }

  lemma StopsEarlier(buf: Bytes, count: nat, r: ParseResult)
    requires Stops(buf, count, r)
    ensures count > 0
    ensures if Parse(buf).Complete? then Stops(buf[Parse(buf).consumed..], count - 1, r) else Parse(buf) == r
  {
    var items, c :| StopsAfter(buf, count, r, items, c);
    if items == [] {
      assert buf[0..] == buf;
    } else {
      OneStopEarlier(buf, count, r, items, c);
    }
  }

  lemma OneStopEarlier(buf: Bytes, count: nat, r: ParseResult, items: seq<RespValue>, c: nat)
    requires !r.Complete? && items != [] && StopsAfter(buf, count, r, items, c)
    ensures Parse(buf).Complete? && Stops(buf[Parse(buf).consumed..], count - 1, r)
  {
    var k := Parse(buf).consumed;
    DropDrop(buf, k, c - k);
    assert StopsAfter(buf[k..], count - 1, r, items[1..], c - k);
  }

  /** An array is unfinished or wrong exactly when one of its values is, all before it being fine. */
  lemma {:induction false} ItemsStop(buf: Bytes, count: nat, p: Problem)
    ensures ParseItems(buf, count) == ItemsIncomplete <==> Stops(buf, count, Incomplete)
    ensures ParseItems(buf, count) == ItemsFailure(p) <==> Stops(buf, count, Failure(p))
    decreases count
  {
    forall r | Stops(buf, count, r) ensures count > 0 {
      StopsEarlier(buf, count, r);
    }
    if count > 0 {
      ItemsStep(buf, count);
      if Parse(buf).Complete? {
        var k := Parse(buf).consumed;
        ItemsStop(buf[k..], count - 1, p);
        StopsBoth(buf, count, Incomplete);
        StopsBoth(buf, count, Failure(p));
      } else {
        StopsNow(buf, count, Parse(buf));
        forall r | Stops(buf, count, r) ensures r == Parse(buf) {
          StopsEarlier(buf, count, r);
        }
      }
    }
  }

  lemma StopsBoth(buf: Bytes, count: nat, r: ParseResult)
    requires count > 0 && Parse(buf).Complete?
    ensures Stops(buf, count, r) <==> Stops(buf[Parse(buf).consumed..], count - 1, r)
  {
    if Stops(buf, count, r) {
      StopsEarlier(buf, count, r);
    }
    if Stops(buf[Parse(buf).consumed..], count - 1, r) {
      StopsLater(buf, count, r);
    }
  }

  /** Without a line end the parser waits; an unknown first byte is an error. */
  lemma OtherInput(buf: Bytes)
    ensures buf == [] ==> Parse(buf) == Incomplete
    ensures buf != [] && buf[0] in {36, 42, 43, 45, 58} && OneLine(buf[1..]) ==> Parse(buf) == Incomplete
    ensures buf != [] && buf[0] !in {36, 42, 43, 45, 58} ==> Parse(buf) == Failure(UnexpectedByte(buf[0]))
  {
    if buf != [] && OneLine(buf[1..]) {
      forall j | 1 <= j < |buf| ensures !CrlfAt(buf, j) {
        if j + 1 < |buf| {
          assert buf[1..][j - 1] == buf[j] && buf[1..][j] == buf[j + 1];
        }
      }
      FirstCrlfUnique(buf, 1, None);
    }
  }

  /** Hence the lemmas above cover every input: it has no line end, or it is framed by its first one. */
  lemma EveryInput(buf: Bytes)
    requires buf != []
    ensures OneLine(buf[1..]) || exists line, rest :: OneLine(line) && buf == Framed(buf[0], line, rest)
  {
    FindCrlfFindsFirst(buf, 1);
    match FindCrlf(buf, 1)
    case None =>
      forall i | 0 <= i < |buf[1..]| - 1 ensures !(buf[1..][i] == 13 && buf[1..][i + 1] == 10) {
        assert !CrlfAt(buf, i + 1);
      }
    case Some(cr) =>
      var line, rest := buf[1..cr], buf[cr + 2..];
      forall i | 0 <= i < |line| - 1 ensures !(line[i] == 13 && line[i + 1] == 10) {
        assert !CrlfAt(buf, i + 1);
      }
      assert buf == Framed(buf[0], line, rest);
  }

  // ----- What the encoder writes ---------------------------------------------

  lemma EncodedBytes(s: Bytes, n: int, data: Bytes, items: seq<RespValue>)
    ensures Encode(SimpleString(s)) == [43] + s + [13, 10]
    ensures Encode(Error(s)) == [45] + s + [13, 10]
    ensures Encode(Integer(n)) == [58] + Print(n) + [13, 10]
    ensures Encode(BulkString(data)) == [36] + Print(|data|) + [13, 10] + data + [13, 10]
    ensures Encode(Null) == [36, 45, 49, 13, 10]
    ensures Encode(Array(items)) == [42] + Print(|items|) + [13, 10] + EncodeAll(items)
    ensures EncodeAll([]) == []
    ensures items != [] ==> EncodeAll(items) == Encode(items[0]) + EncodeAll(items[1..])
  {
    assert Print(-1) == [45, 49];
  }

  /** For instance: a bulk string of three bytes. */
  lemma ThreeBytes(d: Bytes, tail: Bytes)
    requires |d| == 3
    ensures Parse([36, 51, 13, 10] + d + [13, 10] + tail) == Complete(BulkString(d), 9)
    ensures Encode(BulkString(d)) == [36, 51, 13, 10] + d + [13, 10]
  {
    EncodedBytes([], 0, d, []);
    assert Print(3) == [51];
    assert [36] + [51] + [13, 10] == [36, 51, 13, 10];
    RoundTrip(BulkString(d), tail);
  }
}
