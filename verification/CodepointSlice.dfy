/** Slicing UTF-16 text by code points (`codepointSlice`), after section 2.2 of RFC 2781; unpaired surrogates count as code points of their own. */
module CodepointSlice {

  import opened Utf16

  predicate IsHigh(u: Unit) {
    0xD800 <= u < 0xDC00
  }

  predicate IsLow(u: Unit) {
    0xDC00 <= u < 0xE000
  }

  /** How many units the first code point takes. */
  function FirstLength(s: seq<Unit>): (n: nat)
    requires s != []
    ensures 1 <= n <= 2 && n <= |s|
  {
    if 2 <= |s| && IsHigh(s[0]) && IsLow(s[1]) then 2 else 1
  }

  /** The code points, each as the units it is written with. */
  function Decode(s: seq<Unit>): seq<seq<Unit>> {
    if s == [] then [] else [s[..FirstLength(s)]] + Decode(s[FirstLength(s)..])
  }

  /** Where the `k`-th code point starts. */
  function Offset(s: seq<Unit>, k: nat): (p: nat)
    requires k <= |Decode(s)|
    ensures p <= |s|
  {
    if k == 0 then 0 else FirstLength(s) + Offset(s[FirstLength(s)..], k - 1)
  }

  /** The walk of the source over the text; an empty slice is returned when it runs off the end. */
  method Slice(s: seq<Unit>, begin: int, end: int) returns (r: seq<Unit>)
    ensures if 0 <= begin < end <= |Decode(s)| then Offset(s, begin) <= Offset(s, end) && r == s[Offset(s, begin)..Offset(s, end)]
            else r == []
  {
    if end <= begin || begin < 0 {
      return [];
    }
    var n, pos, sliceBegin := 0, 0, 0;
    while n < end
      invariant 0 <= n <= end && n <= |Decode(s)| && pos == Offset(s, n)
      invariant |Decode(s)| == n + |Decode(s[pos..])|
      invariant begin < n ==> sliceBegin == Offset(s, begin)
    {
      if pos >= |s| {
        return [];
      }
      if n == begin {
        sliceBegin := pos;
      }
      OffsetNext(s, n);
      var cur := s[pos];
      pos := pos + 1;
      if IsHigh(cur) && pos < |s| && IsLow(s[pos]) {
        pos := pos + 1;
      }
      n := n + 1;
    }
    OffsetMonotone(s, begin, end);
    return s[sliceBegin..pos];
  }

  lemma OffsetZero(s: seq<Unit>)
    ensures Offset(s, 0) == 0 && s[0..] == s
  {
  }

  lemma OffsetStep(s: seq<Unit>, k: nat)
    requires 0 < k <= |Decode(s)|
    ensures s != []
    ensures var n := FirstLength(s);
            && k - 1 <= |Decode(s[n..])| == |Decode(s)| - 1
            && Offset(s, k) == n + Offset(s[n..], k - 1)
            && s[n..][Offset(s[n..], k - 1)..] == s[Offset(s, k)..]
  {
  }

  lemma DecodeStep(s: seq<Unit>)
    requires s != []
    ensures Decode(s) == [s[..FirstLength(s)]] + Decode(s[FirstLength(s)..])
  {
  }

  lemma {:induction false} OffsetNext(s: seq<Unit>, k: nat)
    requires k <= |Decode(s)| && Offset(s, k) < |s|
    ensures k < |Decode(s)|
    ensures var rest := s[Offset(s, k)..];
            && Offset(s, k + 1) == Offset(s, k) + FirstLength(rest)
            && |Decode(rest)| == 1 + |Decode(s[Offset(s, k + 1)..])|
  {
    hide Decode, Offset, FirstLength;
    OffsetZero(s);
    if k == 0 {
      DecodeStep(s);
      OffsetStep(s, 1);
      OffsetZero(s[FirstLength(s)..]);
    } else {
      OffsetStep(s, k);
      OffsetNext(s[FirstLength(s)..], k - 1);
      OffsetStep(s, k + 1);
    }
  }

  lemma {:induction false} OffsetMonotone(s: seq<Unit>, a: nat, b: nat)
    requires a <= b <= |Decode(s)|
    ensures Offset(s, a) <= Offset(s, b)
  {
    if a != 0 {
      OffsetMonotone(s[FirstLength(s)..], a - 1, b - 1);
    }
  }

  // ----- slicing and decoding commute

  lemma {:induction false} DecodeDrop(s: seq<Unit>, k: nat)
    requires k <= |Decode(s)|
    ensures Decode(s[Offset(s, k)..]) == Decode(s)[k..]
  {
    hide Decode, Offset, FirstLength;
    OffsetZero(s);
    if k != 0 {
      OffsetStep(s, k);
      DecodeStep(s);
      DecodeDrop(s[FirstLength(s)..], k - 1);
    }
  }

  lemma {:induction false} DecodeTake(s: seq<Unit>, k: nat)
    requires k <= |Decode(s)|
    ensures Decode(s[..Offset(s, k)]) == Decode(s)[..k]
  {
    hide Decode, Offset;
    OffsetZero(s);
    if k == 0 {
      DecodeNothing();
    } else {
      OffsetStep(s, k);
      DecodeStep(s);
      var n := FirstLength(s);
      DecodeTake(s[n..], k - 1);
      TakeFirst(s, n + Offset(s[n..], k - 1));
      DecodeStep(s[..Offset(s, k)]);
      assert Decode(s)[..k] == [s[..n]] + Decode(s[n..])[..k - 1];
    }
  }

  lemma DecodeNothing()
    ensures Decode([]) == []
  {
  }

  lemma TakeFirst(s: seq<Unit>, p: nat)
    requires s != [] && FirstLength(s) <= p <= |s|
    ensures var n := FirstLength(s);
            FirstLength(s[..p]) == n && s[..p][..n] == s[..n] && s[..p][n..] == s[n..][..p - n]
  {
  }

  /** Where code point `b` starts, counted from where `a` starts. */
  lemma {:induction false} OffsetDrop(s: seq<Unit>, a: nat, b: nat)
    requires a <= b <= |Decode(s)|
    ensures |Decode(s[Offset(s, a)..])| == |Decode(s)| - a
    ensures Offset(s, a) + Offset(s[Offset(s, a)..], b - a) == Offset(s, b)
  {
    hide Decode, Offset, FirstLength;
    OffsetZero(s);
    DecodeDrop(s, a);
    if a != 0 {
      OffsetStep(s, a);
      OffsetStep(s, b);
      OffsetDrop(s[FirstLength(s)..], a - 1, b - 1);
    }
  }

  /** The code points of a slice are the slice of the code points. */
  lemma DecodeSlice(s: seq<Unit>, begin: nat, end: nat)
    requires begin <= end <= |Decode(s)|
    ensures Offset(s, begin) <= Offset(s, end)
    ensures Decode(s[Offset(s, begin)..Offset(s, end)]) == Decode(s)[begin..end]
  {
    var rest := s[Offset(s, begin)..];
    DecodeDrop(s, begin);
    OffsetDrop(s, begin, end);
    DecodeTake(rest, end - begin);
    assert rest[..Offset(rest, end - begin)] == s[Offset(s, begin)..Offset(s, end)];
    assert Decode(s)[begin..][..end - begin] == Decode(s)[begin..end];
  }

  // ----- code points and the units they are written with

  type CodePoint = c: int | 0 <= c < 0x11_0000

  /** Section 2.1 of RFC 2781; a surrogate stands for itself. */
  function Encode(c: CodePoint): (s: seq<Unit>)
    ensures 1 <= |s| <= 2
  {
    if c < 0x1_0000 then [c] else [0xD800 + (c - 0x1_0000) / 0x400, 0xDC00 + (c - 0x1_0000) % 0x400]
  }

  /** The code point that a text begins with. */
  function FirstPoint(s: seq<Unit>): (c: CodePoint)
    requires s != []
  {
    var first: int := s[0];
    if FirstLength(s) == 1 then first
    else
      var second: int := s[1];
      0x1_0000 + (first - 0xD800) * 0x400 + (second - 0xDC00)
  }

  function EncodeAll(text: seq<CodePoint>): seq<Unit> {
    if text == [] then [] else Encode(text[0]) + EncodeAll(text[1..])
  }

  /** No two surrogates in a row that would read as one pair. */
  ghost predicate NoFalsePair(text: seq<CodePoint>) {
    forall i :: 0 < i < |text| ==> !(0xD800 <= text[i - 1] < 0xDC00 && 0xDC00 <= text[i] < 0xE000)
  }

  lemma FirstOfEncoded(c: CodePoint, rest: seq<CodePoint>)
    requires NoFalsePair([c] + rest)
    ensures NoFalsePair(rest)
    ensures FirstLength(Encode(c) + EncodeAll(rest)) == |Encode(c)|
  {
    assert rest != [] ==> ([c] + rest)[1] == rest[0] && ([c] + rest)[0] == c;
    assert forall i :: 0 <= i < |rest| ==> rest[i] == ([c] + rest)[i + 1];
    if rest != [] {
      assert EncodeAll(rest)[0] == Encode(rest[0])[0];
      LowOnlyItself(rest[0]);
    }
    PairIsPair(c);
  }

  lemma LowOnlyItself(c: CodePoint)
    ensures IsLow(Encode(c)[0]) <==> 0xDC00 <= c < 0xE000
  {
  }

  lemma PairIsPair(c: CodePoint)
    ensures if c < 0x1_0000 then |Encode(c)| == 1 && (IsHigh(Encode(c)[0]) <==> 0xD800 <= c < 0xDC00)
            else |Encode(c)| == 2 && IsHigh(Encode(c)[0]) && IsLow(Encode(c)[1])
  {
  }

  /** Decoding finds exactly the code points that were written. */
  lemma {:induction false} DecodeEncoded(text: seq<CodePoint>)
    requires NoFalsePair(text)
    ensures Decode(EncodeAll(text)) == seq(|text|, i requires 0 <= i < |text| => Encode(text[i]))
  {
    if text != [] {
      hide Encode, FirstLength;
      assert text == [text[0]] + text[1..];
      FirstOfEncoded(text[0], text[1..]);
      DecodeEncoded(text[1..]);
      DecodeStep(EncodeAll(text));
      var s := EncodeAll(text);
      assert s == Encode(text[0]) + EncodeAll(text[1..]);
      assert s[..|Encode(text[0])|] == Encode(text[0]) && s[|Encode(text[0])|..] == EncodeAll(text[1..]);
    }
  }

  /** Any text is made of such code points, as many as it decodes to. */
  lemma {:induction false} EveryTextIsEncoded(s: seq<Unit>) returns (text: seq<CodePoint>)
    ensures NoFalsePair(text) && EncodeAll(text) == s && |text| == |Decode(s)|
  {
    hide Encode, FirstLength, FirstPoint, NoFalsePair;
    text := [];
    if s == [] {
      NothingEncoded();
    } else {
      var n := FirstLength(s);
      var rest := EveryTextIsEncoded(s[n..]);
      var c := FirstPoint(s);
      EncodedFirst(s);
      text := [c] + rest;
      EncodeCons(c, rest);
      assert s == s[..n] + s[n..];
      PairJoins(s, c, rest);
    }
  }

  lemma NothingEncoded()
    ensures NoFalsePair([]) && EncodeAll([]) == [] && Decode([]) == []
  {
  }

  lemma EncodedFirst(s: seq<Unit>)
    requires s != []
    ensures Encode(FirstPoint(s)) == s[..FirstLength(s)]
    ensures FirstLength(s) == 1 ==> FirstPoint(s) == s[0]
  {
  }

  lemma EncodeCons(c: CodePoint, rest: seq<CodePoint>)
    ensures EncodeAll([c] + rest) == Encode(c) + EncodeAll(rest)
  {
    assert ([c] + rest)[1..] == rest;
  }

  lemma PairJoins(s: seq<Unit>, c: CodePoint, rest: seq<CodePoint>)
    requires s != [] && Encode(c) == s[..FirstLength(s)] && EncodeAll(rest) == s[FirstLength(s)..] && NoFalsePair(rest)
    requires FirstLength(s) == 1 ==> c == s[0]
    ensures NoFalsePair([c] + rest)
  {
    var text := [c] + rest;
    assert forall i :: 0 < i < |text| ==> text[i] == rest[i - 1];
    if rest != [] && 0xDC00 <= rest[0] < 0xE000 {
      assert Encode(rest[0]) == [rest[0]];
      assert s[FirstLength(s)..][0] == rest[0];
    }
  }
}
