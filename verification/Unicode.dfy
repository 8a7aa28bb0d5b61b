/**
 The UTF-8 check of module Text against the definition of the encoding (section 3 of RFC 3629): the
 accepted byte strings are exactly the encodings of sequences of Unicode scalar values.
 */
module Unicode {
  import opened Common
  import opened Text

  predicate Scalar(c: int) { 0 <= c < 0xD800 || 0xE000 <= c < 0x11_0000 }

  function EncodeScalar(c: int): Bytes
    requires Scalar(c)
  {
    if c < 0x80 then [c]
    else if c < 0x800 then [0xC0 + c / 64, 0x80 + c % 64]
    else if c < 0x1_0000 then [0xE0 + c / 4096, 0x80 + c / 64 % 64, 0x80 + c % 64]
    else [0xF0 + c / 262144, 0x80 + c / 4096 % 64, 0x80 + c / 64 % 64, 0x80 + c % 64]
  }

  ghost predicate AllScalars(cs: seq<int>) {
    forall i :: 0 <= i < |cs| ==> Scalar(cs[i])
  }

  function EncodeText(cs: seq<int>): Bytes
    requires AllScalars(cs)
  {
    if cs == [] then [] else EncodeScalar(cs[0]) + EncodeText(cs[1..])
  }

  /** `e` stands in `s` at index `i`. */
  predicate Stands(s: Bytes, i: nat, e: Bytes) {
    i + |e| <= |s| && forall j :: 0 <= j < |e| ==> s[i + j] == e[j]
  }

  /** Where a scalar value is encoded, the check sees a sequence of that length. */
  lemma EncodedHasWidth(s: Bytes, i: nat, c: int)
    requires Scalar(c) && Stands(s, i, EncodeScalar(c))
    ensures i < |s| && Utf8Width(s, i) == |EncodeScalar(c)|
  {
    var e := EncodeScalar(c);
    assert s[i + 0] == e[0];
    if |e| >= 2 {
      assert s[i + 1] == e[1];
    }
    if |e| >= 3 {
      assert s[i + 2] == e[2];
    }
    if |e| == 3 {
      ThreeBytes(c);
    }
    if |e| == 4 {
      assert s[i + 3] == e[3];
      FourBytes(c);
    }
  }

  lemma ThreeBytes(c: int)
    requires 0x800 <= c < 0x1_0000 && Scalar(c)
    ensures var lead, second := c / 4096, c / 64 % 64;
            lead <= 15 && (lead == 0 ==> second >= 0x20) && (lead == 13 ==> second <= 0x1F)
  {
    assert c / 64 == 64 * (c / 4096) + c / 64 % 64;
  }

  lemma FourBytes(c: int)
    requires 0x1_0000 <= c < 0x11_0000
    ensures var lead, second := c / 262144, c / 4096 % 64;
            lead <= 4 && (lead == 0 ==> second >= 0x10) && (lead == 4 ==> second <= 0x0F)
  {
    assert c / 4096 == 64 * (c / 262144) + c / 4096 % 64;
  }

  /** Where the check sees a sequence, a scalar value is encoded. */
  lemma WidthIsEncoded(s: Bytes, i: nat) returns (c: int)
    requires i < |s| && Utf8Width(s, i) > 0
    ensures Scalar(c) && |EncodeScalar(c)| == Utf8Width(s, i) && Stands(s, i, EncodeScalar(c))
  {
    var n := Utf8Width(s, i);
    if n == 1 {
      c := s[i];
    } else if n == 2 {
      c := FromTwo(s[i], s[i + 1]);
    } else if n == 3 {
      c := FromThree(s[i], s[i + 1], s[i + 2]);
    } else {
      c := FromFour(s[i], s[i + 1], s[i + 2], s[i + 3]);
    }
  }

  lemma FromTwo(a: Byte, b: Byte) returns (c: int)
    requires 0xC2 <= a <= 0xDF && Continues(b)
    ensures Scalar(c) && EncodeScalar(c) == [a, b]
  {
    var lead: int, second: int := a - 0xC0, b - 0x80;
    c := lead * 64 + second;
    assert c / 64 == lead;
  }

  lemma FromThree(a: Byte, b: Byte, d: Byte) returns (c: int)
    requires Continues(d) && Continues(b) && 0xE0 <= a <= 0xEF && (a == 0xE0 ==> b >= 0xA0) && (a == 0xED ==> b <= 0x9F)
    ensures Scalar(c) && EncodeScalar(c) == [a, b, d]
  {
    var lead: int, second: int, third: int := a - 0xE0, b - 0x80, d - 0x80;
    c := lead * 4096 + second * 64 + third;
    assert c / 64 == lead * 64 + second;
    assert c / 4096 == lead;
  }

  lemma FromFour(a: Byte, b: Byte, d: Byte, e: Byte) returns (c: int)
    requires Continues(b) && Continues(d) && Continues(e) && 0xF0 <= a <= 0xF4
    requires (a == 0xF0 ==> b >= 0x90) && (a == 0xF4 ==> b <= 0x8F)
    ensures Scalar(c) && EncodeScalar(c) == [a, b, d, e]
  {
    var lead: int, second: int, third: int, fourth: int := a - 0xF0, b - 0x80, d - 0x80, e - 0x80;
    c := lead * 262144 + second * 4096 + third * 64 + fourth;
    assert c / 64 == lead * 4096 + second * 64 + third;
    assert c / 4096 == lead * 64 + second;
    assert c / 262144 == lead;
  }

  /** The bytes from index `i` on are the encoding of `cs`. */
  ghost predicate Reads(s: Bytes, i: nat, cs: seq<int>) {
    i <= |s| && AllScalars(cs) && s[i..] == EncodeText(cs)
  }

  lemma ReadsFirst(s: Bytes, i: nat, cs: seq<int>)
    requires i <= |s| && AllScalars(cs) && cs != []
    ensures var e := EncodeScalar(cs[0]);
            Reads(s, i, cs) <==> Stands(s, i, e) && Reads(s, i + |e|, cs[1..])
  {
    SplitAt(s, i, EncodeScalar(cs[0]), EncodeText(cs[1..]));
  }

  lemma SplitAt(s: Bytes, i: nat, e: Bytes, rest: Bytes)
    requires i <= |s|
    ensures s[i..] == e + rest <==> Stands(s, i, e) && s[i + |e|..] == rest
  {
    if s[i..] == e + rest {
      assert |s[i..]| == |e| + |rest|;
      assert forall j :: 0 <= j < |e| ==> s[i..][j] == (e + rest)[j];
      assert s[i + |e|..] == s[i..][|e|..] == (e + rest)[|e|..];
    }
    if Stands(s, i, e) && s[i + |e|..] == rest {
      assert s[i..] == s[i..i + |e|] + s[i + |e|..];
      assert s[i..i + |e|] == e;
    }
  }

  lemma {:induction false} AcceptedReads(s: Bytes, i: nat) returns (cs: seq<int>)
    requires i <= |s| && Utf8From(s, i)
    ensures Reads(s, i, cs)
    decreases |s| - i
  {
    if i == |s| {
      cs := [];
    } else {
      var c := WidthIsEncoded(s, i);
      var rest := AcceptedReads(s, i + Utf8Width(s, i));
      cs := [c] + rest;
      assert cs[1..] == rest;
      ReadsFirst(s, i, cs);
    }
  }

  lemma {:induction false} ReadsIsAccepted(s: Bytes, i: nat, cs: seq<int>)
    requires Reads(s, i, cs)
    ensures Utf8From(s, i)
    decreases |cs|
  {
    if cs == [] {
    } else {
      ReadsFirst(s, i, cs);
      EncodedHasWidth(s, i, cs[0]);
      ReadsIsAccepted(s, i + |EncodeScalar(cs[0])|, cs[1..]);
    }
  }

  /** A byte string is accepted iff it encodes some sequence of Unicode scalar values. */
  lemma Utf8Iff(s: Bytes)
    ensures Utf8(s) <==> exists cs :: AllScalars(cs) && EncodeText(cs) == s
  {
    assert s[0..] == s;
    if Utf8(s) {
      var cs := AcceptedReads(s, 0);
      assert AllScalars(cs) && EncodeText(cs) == s;
    }
    if cs :| AllScalars(cs) && EncodeText(cs) == s {
      ReadsIsAccepted(s, 0, cs);
    }
  }
}
