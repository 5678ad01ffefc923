/** Unescaping the value of an IRC message tag (`parseTagString`), after "Escaping values" of the IRCv3 Message Tags specification. */
module TagString {
  import opened Utf16

  /** What a backslash in front of `c` stands for. Only the low byte of the unit `c` is looked at. */
  function Unescaped(c: Unit): Unit {
    var cell := c % 256;
    if cell == Ascii('n') then Ascii('\n')
    else if cell == Ascii('r') then Ascii('\r')
    else if cell == Ascii('s') then Ascii(' ')
    else if cell == Ascii('\\') then Ascii('\\')
    else if cell == Ascii(':') then Ascii(';')
    else c
  }

  /** One pass from left to right. A lone backslash at the end stays. */
  function Unescape(s: seq<Unit>): seq<Unit> {
    if |s| <= 1 then s
    else if s[0] == Ascii('\\') then [Unescaped(s[1])] + Unescape(s[2..])
    else [s[0]] + Unescape(s[1..])
  }

  /** One round of the loop at position `i`: what was read is final, the rest is still to be read. */
  lemma RoundAt(before: seq<Unit>, i: nat)
    requires i + 1 < |before|
    ensures var after := if before[i] == Ascii('\\') then before[..i] + [Unescaped(before[i + 1])] + before[i + 2..] else before;
            before[..i] + Unescape(before[i..]) == after[..i + 1] + Unescape(after[i + 1..])
  {
    var rest := before[i..];
    if before[i] == Ascii('\\') {
      var after := before[..i] + [Unescaped(before[i + 1])] + before[i + 2..];
      assert Unescape(rest) == [Unescaped(rest[1])] + Unescape(rest[2..]);
      assert after[i + 1..] == before[i + 2..] == rest[2..];
      assert after[..i + 1] == before[..i] + [Unescaped(before[i + 1])];
    } else {
      assert Unescape(rest) == [rest[0]] + Unescape(rest[1..]);
      assert before[..i + 1] == before[..i] + [before[i]];
    }
  }

  lemma AtMostOneLeft(s: seq<Unit>, i: nat)
    requires i <= |s| <= i + 1
    ensures s[..i] + Unescape(s[i..]) == s
  {
  }

  /** The loop of the source, which shortens the text it walks over. */
  method ParseTagString(input: seq<Unit>) returns (output: seq<Unit>)
    ensures output == Unescape(input)
  {
    hide Unescape, Unescaped;
    output := input;
    var length := |output|;
    var i := 0;
    assert input[..0] + Unescape(input[0..]) == Unescape(input) by { assert input[0..] == input; }
    while i < length - 1
      invariant 0 <= i <= length == |output|
      invariant Unescape(input) == output[..i] + Unescape(output[i..])
    {
      RoundAt(output, i);
      if output[i] == Ascii('\\') {
        var c := output[i + 1];
        output := output[..i] + [Unescaped(c)] + output[i + 2..];
        length := length - 1;
      }
      i := i + 1;
    }
    AtMostOneLeft(output, i);
  }

  // ----- the escape of the specification

  function EscapeChar(c: Unit): seq<Unit> {
    if c == Ascii(';') then [Ascii('\\'), Ascii(':')]
    else if c == Ascii(' ') then [Ascii('\\'), Ascii('s')]
    else if c == Ascii('\\') then [Ascii('\\'), Ascii('\\')]
    else if c == Ascii('\r') then [Ascii('\\'), Ascii('r')]
    else if c == Ascii('\n') then [Ascii('\\'), Ascii('n')]
    else [c]
  }

  function Escape(s: seq<Unit>): seq<Unit> {
    if s == [] then [] else EscapeChar(s[0]) + Escape(s[1..])
  }

  /** Unescaping takes the escape of one character off the front. */
  lemma UnescapeOne(c: Unit, rest: seq<Unit>)
    ensures Unescape(EscapeChar(c) + rest) == [c] + Unescape(rest)
  {
  }

  /**
    The five escapes by number, each recognised by its low byte: `:` gives a semicolon, `s` a
    space, a backslash itself, `r` and `n` the line ends. Of any other pair only the backslash goes.
   */
  lemma EscapeTable(c: Unit, rest: seq<Unit>)
    ensures var low := c % 0x100;
            var out := if low == 0x3A then 0x3B else if low == 0x73 then 0x20 else if low == 0x5C then 0x5C
                       else if low == 0x72 then 0x0D else if low == 0x6E then 0x0A else c;
            Unescape([0x5C, c] + rest) == [out] + Unescape(rest)
    ensures c != 0x5C ==> Unescape([c] + rest) == [c] + Unescape(rest)
    ensures Unescape([c]) == [c]
  {
    var s := [0x5C, c] + rest;
    assert s[0] == Ascii('\\') && s[1] == c && s[2..] == rest;
    assert ([c] + rest)[1..] == rest;
    if rest == [] {
      assert [c] + rest == [c];
    }
  }

  /** The escapes that the specification prescribes, by number. */
  lemma EscapeNumbers(c: Unit)
    ensures Escape([c]) == if c == 0x3B then [0x5C, 0x3A] else if c == 0x20 then [0x5C, 0x73] else if c == 0x5C then [0x5C, 0x5C]
                           else if c == 0x0D then [0x5C, 0x72] else if c == 0x0A then [0x5C, 0x6E] else [c]
  {
    assert Escape([c]) == EscapeChar(c) + [];
  }

  /** Any text survives being escaped and unescaped, including text that looks like an escape. */
  lemma {:induction false} UnescapeEscape(s: seq<Unit>)
    ensures Unescape(Escape(s)) == s
  {
    if s != [] {
      UnescapeEscape(s[1..]);
      UnescapeOne(s[0], Escape(s[1..]));
    }
  }

  // ----- the values that are escapes

  /** No character that the specification forbids, and no backslash but in front of one of its five letters. */
  predicate IsValue(e: seq<Unit>) {
    e == [] ||
    if e[0] == Ascii('\\')
    then |e| >= 2 && (e[1] == Ascii(':') || e[1] == Ascii('s') || e[1] == Ascii('\\') || e[1] == Ascii('r') || e[1] == Ascii('n'))
         && IsValue(e[2..])
    else e[0] != Ascii(';') && e[0] != Ascii(' ') && e[0] != Ascii('\r') && e[0] != Ascii('\n') && IsValue(e[1..])
  }

  lemma ValueOne(c: Unit, rest: seq<Unit>)
    requires IsValue(rest)
    ensures IsValue(EscapeChar(c) + rest)
  {
    assert EscapeChar(c) == [c] ==> (EscapeChar(c) + rest)[1..] == rest;
    assert EscapeChar(c) != [c] ==> (EscapeChar(c) + rest)[2..] == rest;
  }

  lemma {:induction false} EscapeIsValue(s: seq<Unit>)
    ensures IsValue(Escape(s))
  {
    if s != [] {
      EscapeIsValue(s[1..]);
      ValueOne(s[0], Escape(s[1..]));
    }
  }

  /** A value begins with the escape of one character. */
  lemma ValueHead(e: seq<Unit>) returns (c: Unit, rest: seq<Unit>)
    requires IsValue(e) && e != []
    ensures e == EscapeChar(c) + rest && |rest| < |e| && IsValue(rest)
  {
    if e[0] == Ascii('\\') {
      c, rest := Unescaped(e[1]), e[2..];
      assert e == [e[0], e[1]] + rest;
    } else {
      c, rest := e[0], e[1..];
      assert e == [c] + rest;
    }
  }

  lemma EscapeCons(c: Unit, s: seq<Unit>)
    ensures Escape([c] + s) == EscapeChar(c) + Escape(s)
  {
    assert ([c] + s)[1..] == s;
  }

  /** Escaping what was read gives the text back just when that is a value of the specification. */
  lemma {:induction false} EscapeUnescape(e: seq<Unit>)
    ensures Escape(Unescape(e)) == e <==> IsValue(e)
    decreases |e|
  {
    hide Escape, Unescape, EscapeChar;
    EscapeIsValue(Unescape(e));
    if IsValue(e) {
      if e == [] {
        NothingEscaped();
      } else {
        var c, rest := ValueHead(e);
        EscapeUnescape(rest);
        UnescapeOne(c, rest);
        EscapeCons(c, Unescape(rest));
      }
    }
  }

  lemma NothingEscaped()
    ensures Escape(Unescape([])) == []
  {
  }
}
