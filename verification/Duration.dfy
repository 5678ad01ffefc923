/**
  Printing a duration (`formatTime`) and reading one (`parseDurationToSeconds`). Inputs are
  ASCII text; arithmetic is that of `uint32_t`, `uint64_t` and `int64_t`.
 */
module Duration {
  import opened Wrappers
  import opened Numerals

  const TWO_32 := 0x1_0000_0000
  const TWO_63 := 0x8000_0000_0000_0000
  const TWO_64 := 0x1_0000_0000_0000_0000

  predicate IsSpace(c: char) {
    c == ' ' || '\t' <= c <= '\r'
  }

  // ----- numerals

  /** `QString::toUInt`: no digits, or a value that does not fit, read as 0. */
  function ToUInt(s: string): (n: nat)
    requires AllDigits(s)
    ensures n < TWO_32
  {
    if DigitValue(s) < TWO_32 then DigitValue(s) else 0
  }

  // ----- units

  /** `matchesIgnorePlural`. */
  predicate MatchesIgnorePlural(word: string, expected: string) {
    word == expected || word == expected + "s"
  }

  function Multiplier(unit: string): (m: Option<nat>)
    ensures m.Some? ==> unit != [] && 0 < m.value <= 60 * 60 * 24 * 30
  {
    if unit == "s" || MatchesIgnorePlural(unit, "second") then Some(1)
    else if unit == "m" || MatchesIgnorePlural(unit, "minute") then Some(60)
    else if unit == "mo" || MatchesIgnorePlural(unit, "month") then Some(60 * 60 * 24 * 30)
    else if unit == "h" || MatchesIgnorePlural(unit, "hour") then Some(60 * 60)
    else if unit == "d" || MatchesIgnorePlural(unit, "day") then Some(60 * 60 * 24)
    else if unit == "w" || MatchesIgnorePlural(unit, "week") then Some(60 * 60 * 24 * 7)
    else None
  }

  // ----- what a duration means

  /** The first position from `i` on that is no space. */
  function SkipSpaces(s: string, i: nat): (j: nat)
    requires i <= |s|
    ensures i <= j <= |s| && (forall k :: i <= k < j ==> IsSpace(s[k])) && (j < |s| ==> !IsSpace(s[j]))
    decreases |s| - i
  {
    if i < |s| && IsSpace(s[i]) then SkipSpaces(s, i + 1) else i
  }

  function DigitEnd(s: string, i: nat): (j: nat)
    requires i <= |s|
    ensures i <= j <= |s| && AllDigits(s[i..j]) && (j < |s| ==> !IsDigit(s[j]))
    decreases |s| - i
  {
    if i < |s| && IsDigit(s[i]) then DigitEnd(s, i + 1) else i
  }

  /** A unit ends at the next space or digit. */
  function UnitEnd(s: string, i: nat): (j: nat)
    requires i <= |s|
    ensures i <= j <= |s|
    ensures forall k :: i <= k < j ==> !IsSpace(s[k]) && !IsDigit(s[k])
    ensures j < |s| ==> IsSpace(s[j]) || IsDigit(s[j])
    decreases |s| - i
  {
    if i < |s| && !IsSpace(s[i]) && !IsDigit(s[i]) then UnitEnd(s, i + 1) else i
  }

  datatype Term = Term(count: nat, multiplier: nat)

  /** The terms from position `i` on, where a number starts. */
  function TermsFrom(s: string, i: nat): Option<seq<Term>>
    requires i <= |s|
    decreases |s| - i, 0
  {
    var d := DigitEnd(s, i);
    var k := SkipSpaces(s, d);
    var e := UnitEnd(s, k);
    match Multiplier(s[k..e])
    case None => None
    case Some(m) =>
      match MoreFrom(s, e)
      case None => None
      case Some(rest) => Some([Term(ToUInt(s[i..d]), m)] + rest)
  }

  /** What follows a term: nothing but spaces, or another number. */
  function MoreFrom(s: string, i: nat): Option<seq<Term>>
    requires i <= |s|
    decreases |s| - i, 1
  {
    var j := SkipSpaces(s, i);
    if j == |s| then Some([]) else if IsDigit(s[j]) then TermsFrom(s, j) else None
  }

  function Sum(terms: seq<Term>): nat {
    if terms == [] then 0 else Sum(terms[..|terms| - 1]) + terms[|terms| - 1].count * terms[|terms| - 1].multiplier
  }

  /** The conversion from `uint64_t` to `int64_t`. */
  function ToInt64(n: nat): int
    requires n < TWO_64
  {
    if n < TWO_63 then n else n - TWO_64
  }

  function Trim(s: string): string
    decreases |s|
  {
    if s == [] then []
    else if IsSpace(s[0]) then Trim(s[1..])
    else if IsSpace(s[|s| - 1]) then Trim(s[..|s| - 1])
    else s
  }

  function ParseDuration(input: string, noUnitMultiplier: nat): int {
    var t := Trim(input);
    if input == [] then -1
    else if AllDigits(t) then ToInt64(ToUInt(t) * noUnitMultiplier % TWO_64)
    else
      match TermsFrom(t, 0)
      case None => -1
      case Some(terms) => ToInt64(Sum(terms) % TWO_64)
  }

  // ----- the source's loops

  /** Returns the position before the first non-space. */
  method SkipSpace(view: string, startPos: nat) returns (pos: int)
    requires startPos <= |view|
    ensures pos == SkipSpaces(view, startPos) - 1
  {
    pos := startPos;
    while pos < |view| && IsSpace(view[pos])
      invariant startPos <= pos <= |view| && SkipSpaces(view, pos) == SkipSpaces(view, startPos)
    {
      pos := pos + 1;
    }
    pos := pos - 1;
  }

  /** Reads a unit at `startIdx` and leaves the position on its last character. */
  method FindUnitMultiplierToSec(view: string, startIdx: nat) returns (result: Option<nat>, pos: int)
    requires startIdx <= |view|
    ensures pos == UnitEnd(view, startIdx) - 1
    ensures result == Multiplier(view[startIdx..UnitEnd(view, startIdx)])
  {
    pos := startIdx;
    var endIdx := |view|;
    while pos < |view|
      invariant startIdx <= pos <= |view| && UnitEnd(view, pos) == UnitEnd(view, startIdx) && endIdx == |view|
    {
      if IsSpace(view[pos]) || IsDigit(view[pos]) {
        endIdx := pos;
        break;
      }
      pos := pos + 1;
    }
    pos := pos - 1;
    result := Multiplier(view[startIdx..endIdx]);
  }

  /** Terms already read, in front of what is still to come. */
  function Onto(done: seq<Term>, rest: Option<seq<Term>>): Option<seq<Term>> {
    if rest.None? then None else Some(done + rest.value)
  }

  lemma OntoNothing(rest: Option<seq<Term>>)
    ensures Onto([], rest) == rest
  {
    assert rest.Some? ==> [] + rest.value == rest.value;
  }

  lemma SumOneMore(done: seq<Term>, term: Term)
    ensures Sum(done + [term]) == Sum(done) + term.count * term.multiplier
  {
  }

  lemma OntoNext(done: seq<Term>, s: string, i: nat)
    requires i <= |s|
    ensures var d := DigitEnd(s, i);
            var k := SkipSpaces(s, d);
            var e := UnitEnd(s, k);
            match Multiplier(s[k..e])
            case None => Onto(done, TermsFrom(s, i)) == None
            case Some(m) => Onto(done, TermsFrom(s, i)) == Onto(done + [Term(ToUInt(s[i..d]), m)], MoreFrom(s, e))
  {
    var d := DigitEnd(s, i);
    var k := SkipSpaces(s, d);
    var e := UnitEnd(s, k);
    if Multiplier(s[k..e]).Some? && MoreFrom(s, e).Some? {
      var t := Term(ToUInt(s[i..d]), Multiplier(s[k..e]).value);
      assert done + ([t] + MoreFrom(s, e).value) == done + [t] + MoreFrom(s, e).value;
    }
  }

  /** Spaces between terms may be passed one by one. */
  lemma MoreAfterSpace(s: string, i: nat)
    requires i < |s| && IsSpace(s[i])
    ensures MoreFrom(s, i) == MoreFrom(s, i + 1)
  {
  }

  lemma MoreAtDigit(s: string, i: nat)
    requires i < |s| && !IsSpace(s[i])
    ensures MoreFrom(s, i) == if IsDigit(s[i]) then TermsFrom(s, i) else None
  {
  }

  lemma DigitsContinue(s: string, from: nat, pos: nat)
    requires from <= pos <= |s| && AllDigits(s[from..pos])
    ensures DigitEnd(s, from) == DigitEnd(s, pos)
    decreases pos - from
  {
    if from < pos {
      assert s[from..pos][0] == s[from];
      assert s[from + 1..pos] == s[from..pos][1..];
      DigitsContinue(s, from + 1, pos);
    }
  }

  /** A term is added to a sum that wraps at 64 bits. */
  lemma AddWrapped(sum: nat, current: nat, x: nat)
    requires current == sum % TWO_64
    ensures (current + x) % TWO_64 == (sum + x) % TWO_64
  {
  }

  lemma DigitsSnoc(s: string, from: nat, pos: nat)
    requires from <= pos < |s| && AllDigits(s[from..pos])
    ensures IsDigit(s[pos]) ==> AllDigits(s[from..pos + 1])
    ensures !IsDigit(s[pos]) ==> !AllDigits(s) && DigitEnd(s, from) == pos
    ensures AllDigits(s[pos..pos])
  {
    assert s[from..pos + 1] == s[from..pos] + [s[pos]];
    DigitsContinue(s, from, pos);
  }

  lemma NothingMore(s: string, done: seq<Term>)
    ensures Onto(done, MoreFrom(s, |s|)) == Some(done)
    ensures Multiplier([]) == None
  {
    assert done + [] == done;
  }

  lemma NoUnitAtEnd(s: string, i: nat, done: seq<Term>)
    requires i <= |s| && AllDigits(s[i..])
    ensures Onto(done, TermsFrom(s, i)) == None
  {
  }

  /** Skips the spaces behind a number and reads the unit; running out of input is a rejection. */
  method UnitAfterNumber(input: string, pos: nat) returns (result: Option<nat>, last: int)
    requires pos < |input|
    ensures var k := SkipSpaces(input, pos);
            var e := UnitEnd(input, k);
            && result == Multiplier(input[k..e]) && last == e - 1
            && (result.Some? ==> 0 <= last)
  {
    var unitPos: int := pos;
    SkipFromNonSpace(input, pos);
    if IsSpace(input[pos]) {
      unitPos := SkipSpace(input, pos);
      unitPos := unitPos + 1;
    }
    if unitPos >= |input| {
      UnitAtEnd(input);
      return None, |input| - 1;
    }
    result, last := FindUnitMultiplierToSec(input, unitPos);
  }

  method ParseDurationToSeconds(inputString: string, noUnitMultiplier: nat) returns (r: int)
    requires noUnitMultiplier < TWO_64
    ensures r == ParseDuration(inputString, noUnitMultiplier)
  {
    hide AllDigits, TermsFrom, MoreFrom, Onto, Sum, SkipSpaces, UnitEnd, DigitEnd, Multiplier, ToUInt, IsSpace, Trim;
    if |inputString| == 0 {
      return -1;
    }
    var input := Trim(inputString);
    var currentValue := 0;
    var visitingNumber, numberStartIdx := true, 0;
    ghost var done: seq<Term> := [];
    ghost var goal := TermsFrom(input, 0);
    StartOfInput(input);
    var pos := 0;
    while pos < |input|
      invariant 0 <= pos <= |input| && 0 <= numberStartIdx <= pos
      invariant currentValue == Sum(done) % TWO_64
      invariant visitingNumber ==> AllDigits(input[numberStartIdx..pos]) && goal == Onto(done, TermsFrom(input, numberStartIdx))
      invariant visitingNumber ==> if numberStartIdx == 0 then done == [] else !AllDigits(input)
      invariant !visitingNumber ==> 0 < pos && !AllDigits(input) && goal == Onto(done, MoreFrom(input, pos))
    {
      var c := input[pos];
      if visitingNumber {
        DigitsSnoc(input, numberStartIdx, pos);
      }
      if visitingNumber && !IsDigit(c) {
        var parsed := ToUInt(input[numberStartIdx..pos]);
        OntoNext(done, input, numberStartIdx);
        var result, last := UnitAfterNumber(input, pos);
        if result.None? {
          return -1;
        }
        AddWrapped(Sum(done), currentValue, parsed * result.value);
        SumOneMore(done, Term(parsed, result.value));
        currentValue := (currentValue + parsed * result.value) % TWO_64;
        done := done + [Term(parsed, result.value)];
        visitingNumber := false;
        pos := last;
      } else if !visitingNumber && !IsSpace(c) {
        MoreAtDigit(input, pos);
        if !IsDigit(c) {
          OntoNone(done);
          return -1;
        }
        visitingNumber := true;
        numberStartIdx := pos;
        EmptyDigits(input, pos);
        DigitsSnoc(input, pos, pos);
      } else if !visitingNumber {
        MoreAfterSpace(input, pos);
      }
      pos := pos + 1;
    }
    if visitingNumber {
      assert input[numberStartIdx..|input|] == input[numberStartIdx..];
      if numberStartIdx != 0 {
        NoUnitAtEnd(input, numberStartIdx, done);
        return -1;
      }
      assert input[0..] == input && done == done + [];
      currentValue := (currentValue + ToUInt(input) * noUnitMultiplier) % TWO_64;
    } else {
      NothingMore(input, done);
    }
    return ToInt64(currentValue);
  }

  lemma StartOfInput(s: string)
    ensures AllDigits(s[0..0]) && Onto([], TermsFrom(s, 0)) == TermsFrom(s, 0) && Sum([]) == 0
  {
    OntoNothing(TermsFrom(s, 0));
  }

  lemma EmptyDigits(s: string, i: nat)
    requires i <= |s|
    ensures AllDigits(s[i..i])
  {
  }

  lemma SkipFromNonSpace(s: string, i: nat)
    requires i < |s|
    ensures !IsSpace(s[i]) ==> SkipSpaces(s, i) == i
  {
  }

  lemma UnitAtEnd(s: string)
    ensures UnitEnd(s, |s|) == |s| && Multiplier(s[|s|..|s|]) == None
  {
  }

  lemma OntoNone(done: seq<Term>)
    ensures Onto(done, None) == None
  {
  }
}
