/** Reading is exact up to 828 terms, and reads back whatever `formatTime` prints. */
module DurationLaws {
  import opened Wrappers
  import opened Numerals
  import opened Duration
  import opened FormatTime

  // ----- exactness

  const MAX_COUNT := TWO_32 - 1
  const MONTH := 60 * 60 * 24 * 30

  predicate Small(t: Term) {
    t.count <= MAX_COUNT && t.multiplier <= MONTH
  }

  lemma {:induction false} TermsAreSmall(s: string, i: nat)
    requires i <= |s| && TermsFrom(s, i).Some?
    ensures forall t :: t in TermsFrom(s, i).value ==> Small(t)
    decreases |s| - i
  {
    hide Multiplier;
    var e := UnitEnd(s, SkipSpaces(s, DigitEnd(s, i)));
    var j := SkipSpaces(s, e);
    if j < |s| && IsDigit(s[j]) {
      TermsAreSmall(s, j);
    }
  }

  lemma {:induction false} SumBound(terms: seq<Term>)
    requires forall t :: t in terms ==> Small(t)
    ensures Sum(terms) <= |terms| * (MAX_COUNT * MONTH)
  {
    if terms != [] {
      var n := |terms| - 1;
      assert terms[n] in terms;
      SumBound(terms[..n]);
      ProductBound(terms[n].count, terms[n].multiplier);
    }
  }

  lemma ProductBound(x: nat, y: nat)
    requires x <= MAX_COUNT && y <= MONTH
    ensures x * y <= MAX_COUNT * MONTH
  {
    assert x * y <= MAX_COUNT * y;
    assert MAX_COUNT * y <= MAX_COUNT * MONTH;
  }

  /** The result is the exact value just when that value fits into 63 bits. */
  lemma ExactWhenItFits(input: string, noUnitMultiplier: nat)
    requires input != []
    ensures var t := Trim(input);
            var r := ParseDuration(input, noUnitMultiplier);
            if AllDigits(t) then r == ToUInt(t) * noUnitMultiplier <==> ToUInt(t) * noUnitMultiplier < TWO_63
            else TermsFrom(t, 0).Some? ==> (r == Sum(TermsFrom(t, 0).value) <==> Sum(TermsFrom(t, 0).value) < TWO_63)
  {
    hide TermsFrom, Trim, Sum, AllDigits, ToUInt;
    var t := Trim(input);
    if AllDigits(t) {
      FitsOrWraps(ToUInt(t) * noUnitMultiplier);
    } else if TermsFrom(t, 0).Some? {
      FitsOrWraps(Sum(TermsFrom(t, 0).value));
    }
  }

  /** In any case an accepted duration is read modulo 2^64, as a signed number. */
  lemma ReadsModulo(input: string, noUnitMultiplier: nat)
    requires input != []
    ensures var t := Trim(input);
            var r := ParseDuration(input, noUnitMultiplier);
            && (AllDigits(t) ==> IsWrapped(r, ToUInt(t) * noUnitMultiplier))
            && (!AllDigits(t) && TermsFrom(t, 0).Some? ==> IsWrapped(r, Sum(TermsFrom(t, 0).value)))
            && (!AllDigits(t) && TermsFrom(t, 0).None? ==> r == -1)
            && ParseDuration("", noUnitMultiplier) == -1
  {
    hide TermsFrom, Trim, Sum, AllDigits, ToUInt, ToInt64, IsWrapped;
    var t := Trim(input);
    if AllDigits(t) {
      Wrapped(ToUInt(t) * noUnitMultiplier);
    } else if TermsFrom(t, 0).Some? {
      Wrapped(Sum(TermsFrom(t, 0).value));
    }
  }

  predicate IsWrapped(r: int, exact: int) {
    -0x8000_0000_0000_0000 <= r < 0x8000_0000_0000_0000 && (exact - r) % 0x1_0000_0000_0000_0000 == 0
  }

  lemma Wrapped(n: nat)
    ensures IsWrapped(ToInt64(n % TWO_64), n)
  {
  }

  lemma FitsOrWraps(n: nat)
    ensures ToInt64(n % TWO_64) == n <==> n < TWO_63
  {
  }

  /** With units and at most 828 terms the result is the exact sum, so -1 always means rejection. */
  lemma ExactUpTo828(input: string, noUnitMultiplier: nat)
    requires input != [] && !AllDigits(Trim(input))
    ensures var terms := TermsFrom(Trim(input), 0);
            && (terms.Some? && |terms.value| <= 828 ==> ParseDuration(input, noUnitMultiplier) == Sum(terms.value))
            && (terms.None? ==> ParseDuration(input, noUnitMultiplier) == -1)
  {
    hide TermsFrom, Trim, Sum, AllDigits, ToUInt;
    var t := Trim(input);
    if TermsFrom(t, 0).Some? && |TermsFrom(t, 0).value| <= 828 {
      TermsAreSmall(t, 0);
      SumBound(TermsFrom(t, 0).value);
    }
  }

  // ----- the text that is read

  /** The text without the spaces around it. */
  lemma {:induction false} TrimMeans(s: string) returns (before: string, after: string)
    ensures s == before + Trim(s) + after && AllSpaces(before) && AllSpaces(after)
    ensures Trim(s) != [] ==> !IsSpace(Trim(s)[0]) && !IsSpace(Trim(s)[|Trim(s)| - 1])
    decreases |s|
  {
    hide IsSpace, AllSpaces;
    before, after := [], [];
    NoSpaces();
    if s != [] {
      if IsSpace(s[0]) {
        before, after := TrimMeans(s[1..]);
        SpaceAround(before, s[0]);
        assert s == [s[0]] + s[1..];
        before := [s[0]] + before;
      } else if IsSpace(s[|s| - 1]) {
        before, after := TrimMeans(s[..|s| - 1]);
        SpaceAround(after, s[|s| - 1]);
        assert s == s[..|s| - 1] + [s[|s| - 1]];
        after := after + [s[|s| - 1]];
      }
    }
  }

  lemma NoSpaces()
    ensures AllSpaces("")
  {
  }

  lemma SpaceAround(s: string, c: char)
    requires AllSpaces(s) && IsSpace(c)
    ensures AllSpaces([c] + s) && AllSpaces(s + [c])
  {
  }

  // ----- the grammar of durations

  /** A number, its unit, and the spaces behind each of them. */
  datatype Piece = Piece(digits: string, gap: string, unit: string, after: string)

  predicate AllSpaces(s: string) {
    forall i :: 0 <= i < |s| ==> IsSpace(s[i])
  }

  /** Short name, long name, and seconds. */
  const UNITS: seq<(string, string, nat)> := [
    ("s", "second", 1), ("m", "minute", 60), ("h", "hour", 3600),
    ("d", "day", 86400), ("w", "week", 604800), ("mo", "month", 2592000)]

  predicate IsNamed(row: (string, string, nat), unit: string) {
    unit == row.0 || unit == row.1 || unit == row.1 + "s"
  }

  ghost predicate IsUnit(unit: string, seconds: nat) {
    exists i :: 0 <= i < |UNITS| && IsNamed(UNITS[i], unit) && seconds == UNITS[i].2
  }

  /** The names of a unit begin with its short name's first letter, and months differ from minutes in the second. */
  lemma NamesDiffer(unit: string, i: nat)
    requires i < |UNITS| && IsNamed(UNITS[i], unit)
    ensures unit != []
    ensures i == 0 ==> unit[0] == 's'
    ensures i == 1 ==> unit[0] == 'm' && (1 < |unit| ==> unit[1] == 'i')
    ensures i == 2 ==> unit[0] == 'h'
    ensures i == 3 ==> unit[0] == 'd'
    ensures i == 4 ==> unit[0] == 'w'
    ensures i == 5 ==> unit[0] == 'm' && 1 < |unit| && unit[1] == 'o'
  {
  }

  lemma MultiplierIs(unit: string, i: nat)
    requires i < |UNITS| && IsNamed(UNITS[i], unit)
    ensures Multiplier(unit) == Some(UNITS[i].2)
  {
    NamesDiffer(unit, i);
  }

  lemma HasName(unit: string)
    requires Multiplier(unit).Some?
    ensures IsUnit(unit, Multiplier(unit).value)
  {
    var i := if unit == "s" || MatchesIgnorePlural(unit, "second") then 0
             else if unit == "m" || MatchesIgnorePlural(unit, "minute") then 1
             else if unit == "mo" || MatchesIgnorePlural(unit, "month") then 5
             else if unit == "h" || MatchesIgnorePlural(unit, "hour") then 2
             else if unit == "d" || MatchesIgnorePlural(unit, "day") then 3
             else 4;
    assert IsNamed(UNITS[i], unit) && Multiplier(unit).value == UNITS[i].2;
  }

  /** A unit is its short name, its long name, or the plural of that, and nothing else. */
  lemma UnitTable(unit: string, seconds: nat)
    ensures Multiplier(unit) == Some(seconds) <==> IsUnit(unit, seconds)
  {
    hide Multiplier, IsNamed;
    if Multiplier(unit).Some? {
      HasName(unit);
    }
    if i :| 0 <= i < |UNITS| && IsNamed(UNITS[i], unit) && seconds == UNITS[i].2 {
      MultiplierIs(unit, i);
    }
  }

  predicate GoodPiece(p: Piece) {
    AllDigits(p.digits) && AllSpaces(p.gap) && AllSpaces(p.after) && Multiplier(p.unit).Some?
  }

  /** Only the first number of a duration may be missing. */
  ghost predicate GoodPieces(pieces: seq<Piece>, first: bool) {
    && pieces != []
    && (forall i :: 0 <= i < |pieces| ==> GoodPiece(pieces[i]) && (pieces[i].digits != [] || (i == 0 && first)))
  }

  function PieceText(p: Piece): string {
    p.digits + p.gap + p.unit + p.after
  }

  function Render(pieces: seq<Piece>): string {
    if pieces == [] then [] else PieceText(pieces[0]) + Render(pieces[1..])
  }

  /** What a piece counts for. */
  ghost predicate IsTerm(term: Term, piece: Piece) {
    AllDigits(piece.digits) && term.count == ToUInt(piece.digits) && IsUnit(piece.unit, term.multiplier)
  }

  /** Numbers above 2^32 - 1 read as 0. */
  lemma ReadsNumber(n: nat)
    ensures ToUInt(Number(n)) == if n <= 0xFFFF_FFFF then n else 0
  {
  }

  function PieceTerm(p: Piece): Term
    requires GoodPiece(p)
  {
    Term(ToUInt(p.digits), Multiplier(p.unit).value)
  }

  function PieceTerms(pieces: seq<Piece>): (terms: seq<Term>)
    requires forall i :: 0 <= i < |pieces| ==> GoodPiece(pieces[i])
    ensures |terms| == |pieces|
    ensures forall i :: 0 <= i < |pieces| ==> terms[i] == PieceTerm(pieces[i])
  {
    if pieces == [] then [] else [PieceTerm(pieces[0])] + PieceTerms(pieces[1..])
  }

  lemma GoodCons(p: Piece, rest: seq<Piece>, first: bool)
    requires GoodPiece(p) && (p.digits != [] || first) && (rest == [] || GoodPieces(rest, false))
    ensures GoodPieces([p] + rest, first)
    ensures forall i :: 0 <= i < |rest| ==> GoodPiece(rest[i])
    ensures forall i :: 0 <= i < |[p] + rest| ==> GoodPiece(([p] + rest)[i])
    ensures Render([p] + rest) == PieceText(p) + Render(rest)
    ensures PieceTerms([p] + rest) == [PieceTerm(p)] + PieceTerms(rest)
  {
    hide GoodPiece, PieceText, PieceTerm;
    assert ([p] + rest)[1..] == rest;
  }

  lemma GoodSplit(pieces: seq<Piece>, first: bool)
    requires GoodPieces(pieces, first)
    ensures pieces != [] && GoodPiece(pieces[0]) && (pieces[0].digits != [] || first)
    ensures pieces[1..] == [] || GoodPieces(pieces[1..], false)
    ensures pieces == [pieces[0]] + pieces[1..]
  {
    hide GoodPiece;
  }

  /** Units hold no spaces and no digits. */
  lemma UnitLetters(unit: string)
    requires Multiplier(unit).Some?
    ensures unit != [] && forall i :: 0 <= i < |unit| ==> !IsSpace(unit[i]) && !IsDigit(unit[i])
  {
  }

  lemma DigitIsNoSpace(c: char)
    ensures IsDigit(c) ==> !IsSpace(c)
  {
  }

  /** The four parts of a piece in front of `tail`. */
  lemma Pieces(s: string, i: nat, p: Piece, tail: string)
    requires i <= |s| && s[i..] == PieceText(p) + tail
    ensures var d := i + |p.digits|;
            var k := d + |p.gap|;
            var e := k + |p.unit|;
            var j := e + |p.after|;
            && j <= |s| && s[i..d] == p.digits && s[d..k] == p.gap && s[k..e] == p.unit && s[e..j] == p.after && s[j..] == tail
  {
    FiveParts(p.digits, p.gap, p.unit, p.after, tail);
    Slices(s, i, p.digits, p.gap + (p.unit + (p.after + tail)));
    Slices(s, i + |p.digits|, p.gap, p.unit + (p.after + tail));
    Slices(s, i + |p.digits| + |p.gap|, p.unit, p.after + tail);
    Slices(s, i + |p.digits| + |p.gap| + |p.unit|, p.after, tail);
  }

  lemma Slices(s: string, i: nat, a: string, rest: string)
    requires i <= |s| && s[i..] == a + rest
    ensures i + |a| <= |s| && s[i..i + |a|] == a && s[i + |a|..] == rest
  {
  }

  lemma FiveParts(a: string, b: string, c: string, d: string, e: string)
    ensures a + b + c + d + e == a + (b + (c + (d + e)))
  {
  }

  lemma DigitEndIs(s: string, i: nat, d: nat)
    requires i <= d <= |s| && AllDigits(s[i..d]) && (d < |s| ==> !IsDigit(s[d]))
    ensures DigitEnd(s, i) == d
  {
    DigitsContinue(s, i, d);
  }

  lemma {:induction false} SkipSpacesIs(s: string, i: nat, j: nat)
    requires i <= j <= |s| && AllSpaces(s[i..j]) && (j < |s| ==> !IsSpace(s[j]))
    ensures SkipSpaces(s, i) == j
    decreases j - i
  {
    if i < j {
      assert s[i] == s[i..j][0];
      assert s[i + 1..j] == s[i..j][1..];
      SkipSpacesIs(s, i + 1, j);
    }
  }

  lemma {:induction false} UnitEndIs(s: string, i: nat, e: nat)
    requires i <= e <= |s| && (forall k :: i <= k < e ==> !IsSpace(s[k]) && !IsDigit(s[k]))
    requires e < |s| ==> IsSpace(s[e]) || IsDigit(s[e])
    ensures UnitEnd(s, i) == e
    decreases e - i
  {
  }

  lemma MoreIs(s: string, e: nat, j: nat)
    requires e <= |s| && SkipSpaces(s, e) == j && (j < |s| ==> IsDigit(s[j]))
    ensures MoreFrom(s, e) == if j == |s| then Some([]) else TermsFrom(s, j)
  {
  }

  /** A piece is read back as one term, if a number or nothing comes behind it. */
  lemma OnePiece(s: string, i: nat, p: Piece, tail: string)
    requires i <= |s| && GoodPiece(p) && s[i..] == PieceText(p) + tail && (tail != [] ==> IsDigit(tail[0]))
    ensures var j := i + |PieceText(p)|;
            && j <= |s| && s[j..] == tail && (j == |s| <==> tail == [])
            && TermsFrom(s, i) == Onto([PieceTerm(p)], if tail == [] then Some([]) else TermsFrom(s, j))
  {
    hide DigitEnd, UnitEnd, SkipSpaces, Multiplier, TermsFrom, AllDigits, AllSpaces, IsSpace, IsDigit, PieceTerm, Onto;
    var d := i + |p.digits|;
    var k := d + |p.gap|;
    var e := k + |p.unit|;
    var j := e + |p.after|;
    Pieces(s, i, p, tail);
    UnitLetters(p.unit);
    Borders(s, d, k, e, j, p, tail);
    DigitEndIs(s, i, d);
    SkipSpacesIs(s, d, k);
    UnitEndIs(s, k, e);
    SkipSpacesIs(s, e, j);
    TermAt(s, i, d, k, e, j, p);
  }

  /** A term is read where its parts have been found. */
  lemma TermAt(s: string, i: nat, d: nat, k: nat, e: nat, j: nat, p: Piece)
    requires GoodPiece(p) && i <= d <= k <= e <= j <= |s| && s[i..d] == p.digits && s[k..e] == p.unit
    requires DigitEnd(s, i) == d && SkipSpaces(s, d) == k && UnitEnd(s, k) == e && SkipSpaces(s, e) == j
    requires j < |s| ==> IsDigit(s[j])
    ensures TermsFrom(s, i) == Onto([PieceTerm(p)], if j == |s| then Some([]) else TermsFrom(s, j))
  {
    hide DigitEnd, UnitEnd, SkipSpaces, Multiplier, ToUInt, TermsFrom, MoreFrom;
    MoreIs(s, e, j);
    OntoNext([], s, i);
    OntoNothing(TermsFrom(s, i));
    assert [] + [PieceTerm(p)] == [PieceTerm(p)];
  }

  /** What stands at the borders of the parts ends each of them. */
  lemma Borders(s: string, d: nat, k: nat, e: nat, j: nat, p: Piece, tail: string)
    requires d <= k <= e <= j <= |s| && s[d..k] == p.gap && s[k..e] == p.unit && s[e..j] == p.after && s[j..] == tail
    requires p.unit != [] && (forall i :: 0 <= i < |p.unit| ==> !IsSpace(p.unit[i]) && !IsDigit(p.unit[i]))
    requires AllSpaces(p.gap) && AllSpaces(p.after) && (tail != [] ==> IsDigit(tail[0]))
    ensures d < |s| && !IsDigit(s[d]) && !IsSpace(s[k])
    ensures forall i :: k <= i < e ==> !IsSpace(s[i]) && !IsDigit(s[i])
    ensures e < |s| ==> IsSpace(s[e]) || IsDigit(s[e])
    ensures j < |s| ==> IsDigit(s[j]) && !IsSpace(s[j])
  {
    assert d < k ==> s[d] == p.gap[0];
    assert forall i :: k <= i < e ==> s[i] == p.unit[i - k];
    assert e < j ==> s[e] == p.after[0];
    assert j < |s| ==> s[j] == tail[0];
  }

  lemma {:induction false} ReadsPieces(s: string, i: nat, pieces: seq<Piece>, first: bool)
    requires i <= |s| && GoodPieces(pieces, first) && s[i..] == Render(pieces)
    ensures forall i :: 0 <= i < |pieces| ==> GoodPiece(pieces[i])
    ensures TermsFrom(s, i) == Some(PieceTerms(pieces))
    decreases |pieces|
  {
    hide TermsFrom, GoodPiece, GoodPieces, PieceText, PieceTerm, Render, PieceTerms;
    GoodSplit(pieces, first);
    var p, rest := pieces[0], pieces[1..];
    GoodCons(p, rest, first);
    if rest == [] {
      NothingRendered();
      OnePiece(s, i, p, Render(rest));
    } else {
      StartsWithNumber(rest);
      OnePiece(s, i, p, Render(rest));
      ReadsPieces(s, i + |PieceText(p)|, rest, false);
    }
  }

  lemma NothingRendered()
    ensures Render([]) == [] && PieceTerms([]) == []
  {
  }

  lemma StartsWithNumber(pieces: seq<Piece>)
    requires GoodPieces(pieces, false)
    ensures Render(pieces) != [] && IsDigit(Render(pieces)[0])
  {
    hide Multiplier;
    assert Render(pieces)[0] == pieces[0].digits[0];
  }

  /** The first piece of an accepted text. */
  lemma FirstPiece(s: string, i: nat) returns (p: Piece, j: nat)
    requires i <= |s| && TermsFrom(s, i).Some?
    ensures i < j <= |s| && GoodPiece(p) && s[i..] == PieceText(p) + s[j..]
    ensures i < |s| && IsDigit(s[i]) ==> p.digits != []
    ensures j < |s| ==> IsDigit(s[j]) && TermsFrom(s, j).Some?
    ensures TermsFrom(s, i).value == [PieceTerm(p)] + if j == |s| then [] else TermsFrom(s, j).value
  {
    hide Multiplier, DigitEnd, UnitEnd, SkipSpaces, ToUInt, IsDigit, IsSpace;
    var d := DigitEnd(s, i);
    var k := SkipSpaces(s, d);
    var e := UnitEnd(s, k);
    j := SkipSpaces(s, e);
    p := Piece(s[i..d], s[d..k], s[k..e], s[e..j]);
    UnitLetters(s[k..e]);
    FourParts(s, i, d, k, e, j);
    DigitsNonempty(s, i);
  }

  /** Whatever is accepted is made of such pieces. */
  lemma {:induction false} PiecesOf(s: string, i: nat) returns (pieces: seq<Piece>)
    requires i <= |s| && TermsFrom(s, i).Some?
    ensures GoodPieces(pieces, i == |s| || !IsDigit(s[i])) && s[i..] == Render(pieces)
    ensures forall i :: 0 <= i < |pieces| ==> GoodPiece(pieces[i])
    ensures TermsFrom(s, i).value == PieceTerms(pieces)
    decreases |s| - i
  {
    hide TermsFrom, GoodPiece, GoodPieces, PieceText, PieceTerm, Render, PieceTerms, IsDigit;
    var p, j := FirstPiece(s, i);
    var rest: seq<Piece> := [];
    if j < |s| {
      rest := PiecesOf(s, j);
    }
    NothingRendered();
    GoodCons(p, rest, i == |s| || !IsDigit(s[i]));
    pieces := [p] + rest;
  }

  lemma FourParts(s: string, i: nat, d: nat, k: nat, e: nat, j: nat)
    requires i <= d <= k <= e <= j <= |s|
    ensures s[i..] == s[i..d] + s[d..k] + s[k..e] + s[e..j] + s[j..]
  {
  }

  lemma DigitsNonempty(s: string, i: nat)
    requires i <= |s|
    ensures i < |s| && IsDigit(s[i]) ==> s[i..DigitEnd(s, i)] != []
  {
  }

  /** A text is accepted with these terms just when it is made of pieces that stand for them. */
  lemma Grammar(s: string, terms: seq<Term>)
    ensures TermsFrom(s, 0) == Some(terms) <==>
            exists pieces :: GoodPieces(pieces, true) && Render(pieces) == s && |terms| == |pieces|
                             && forall i :: 0 <= i < |pieces| ==> IsTerm(terms[i], pieces[i])
  {
    hide TermsFrom, Render, GoodPieces, IsTerm, PieceTerms, GoodPiece;
    assert s[0..] == s;
    if TermsFrom(s, 0) == Some(terms) {
      var pieces := PiecesOf(s, 0);
      PiecesAnywhere(pieces, |s| == 0 || !IsDigit(s[0]));
      TermsMean(pieces, terms);
    }
    if pieces :| GoodPieces(pieces, true) && Render(pieces) == s && |terms| == |pieces|
                 && forall i :: 0 <= i < |pieces| ==> IsTerm(terms[i], pieces[i]) {
      ReadsPieces(s, 0, pieces, true);
      TermsMean(pieces, terms);
    }
  }

  lemma PiecesAnywhere(pieces: seq<Piece>, first: bool)
    requires GoodPieces(pieces, first)
    ensures GoodPieces(pieces, true)
  {
  }

  lemma TermsMean(pieces: seq<Piece>, terms: seq<Term>)
    requires forall i :: 0 <= i < |pieces| ==> GoodPiece(pieces[i])
    ensures terms == PieceTerms(pieces) <==>
            |terms| == |pieces| && forall i :: 0 <= i < |pieces| ==> IsTerm(terms[i], pieces[i])
  {
    hide PieceTerm, IsTerm, GoodPiece;
    forall i | 0 <= i < |pieces| && i < |terms| ensures terms[i] == PieceTerm(pieces[i]) <==> IsTerm(terms[i], pieces[i]) {
      TermMeans(pieces[i], terms[i]);
    }
  }

  lemma TermMeans(p: Piece, term: Term)
    requires GoodPiece(p)
    ensures term == PieceTerm(p) <==> IsTerm(term, p)
  {
    hide Multiplier, ToUInt, IsUnit;
    UnitTable(p.unit, term.multiplier);
  }

  // ----- reading printed parts

  predicate GoodPart(p: Part) {
    p.count <= MAX_COUNT && Multiplier(p.unit).Some?
  }

  function TermOf(p: Part): Term
    requires GoodPart(p)
  {
    Term(p.count, Multiplier(p.unit).value)
  }

  function TermsOf(parts: seq<Part>): seq<Term>
    requires forall p :: p in parts ==> GoodPart(p)
  {
    if parts == [] then [] else [TermOf(parts[0])] + TermsOf(parts[1..])
  }

  /** Printed parts as pieces, with one space between them. */
  function PiecesFor(parts: seq<Part>): (pieces: seq<Piece>)
    ensures |pieces| == |parts|
  {
    if parts == [] then []
    else [Piece(Number(parts[0].count), "", parts[0].unit, if |parts| == 1 then "" else " ")] + PiecesFor(parts[1..])
  }

  lemma {:induction false} PrintIsRender(parts: seq<Part>)
    requires parts != [] && forall p :: p in parts ==> GoodPart(p)
    ensures Render(PiecesFor(parts)) == Print(parts)
    ensures GoodPieces(PiecesFor(parts), false)
    ensures forall i :: 0 <= i < |parts| ==> GoodPiece(PiecesFor(parts)[i])
    ensures PieceTerms(PiecesFor(parts)) == TermsOf(parts)
  {
    hide GoodPiece, GoodPieces, Render, PieceTerms, GoodPart, PieceText, PieceTerm, TermOf, PartText;
    assert parts[0] in parts;
    var p := Piece(Number(parts[0].count), "", parts[0].unit, if |parts| == 1 then "" else " ");
    PartIsPiece(parts[0], p);
    NothingRendered();
    if |parts| != 1 {
      PrintIsRender(parts[1..]);
    } else {
      assert PiecesFor(parts[1..]) == [];
    }
    GoodCons(p, PiecesFor(parts[1..]), false);
  }

  lemma PartIsPiece(part: Part, p: Piece)
    requires GoodPart(part) && p.digits == Number(part.count) && p.gap == "" && p.unit == part.unit && (p.after == "" || p.after == " ")
    ensures GoodPiece(p) && p.digits != [] && PieceTerm(p) == TermOf(part) && PieceText(p) == PartText(part) + p.after
    ensures PartText(part) + "" == PartText(part)
  {
    hide Multiplier;
    NumberReads(part.count);
    SpaceIsSpace();
  }

  lemma NumberReads(n: nat)
    requires n <= MAX_COUNT
    ensures AllDigits(Number(n)) && Number(n) != [] && ToUInt(Number(n)) == n
  {
  }

  lemma SpaceIsSpace()
    ensures AllSpaces("") && AllSpaces(" ")
  {
  }

  lemma PrintEndsWithUnit(parts: seq<Part>)
    requires parts != [] && forall p :: p in parts ==> GoodPart(p)
    ensures Print(parts) != [] && !IsSpace(Print(parts)[|Print(parts)| - 1]) && !IsDigit(Print(parts)[|Print(parts)| - 1])
  {
    hide Multiplier;
    var n := |parts| - 1;
    assert parts[n] in parts && parts == parts[..n] + [parts[n]];
    PrintSnoc(parts[..n], parts[n]);
    UnitLetters(parts[n].unit);
    var text := PartText(parts[n]);
    assert text[|text| - 1] == parts[n].unit[|parts[n].unit| - 1];
  }

  /** Any printed list of parts parses to the sum of its terms, modulo 64 bits. */
  lemma ParsePrinted(parts: seq<Part>, noUnitMultiplier: nat)
    requires parts != [] && forall p :: p in parts ==> GoodPart(p)
    ensures ParseDuration(Print(parts), noUnitMultiplier) == ToInt64(Sum(TermsOf(parts)) % TWO_64)
  {
    hide Print, GoodPart, TermsFrom, Render, GoodPieces, GoodPiece, PieceTerms, PiecesFor, TermsOf;
    var s := Print(parts);
    PrintIsRender(parts);
    StartsWithNumber(PiecesFor(parts));
    PrintEndsWithUnit(parts);
    DigitIsNoSpace(s[0]);
    assert Trim(s) == s;
    assert s[0..] == s;
    ReadsPieces(s, 0, PiecesFor(parts), false);
  }

  // ----- the bound of 828 is tight

  function Months(n: nat): seq<Part> {
    if n == 0 then [] else [Part(MAX_COUNT, "mo")] + Months(n - 1)
  }

  lemma {:induction false} SumConcat(a: seq<Term>, b: seq<Term>)
    ensures Sum(a + b) == Sum(a) + Sum(b)
  {
    if b == [] {
      assert a + b == a;
    } else {
      var n := |b| - 1;
      assert (a + b)[..|a + b| - 1] == a + b[..n];
      SumConcat(a, b[..n]);
    }
  }

  lemma {:induction false} SumOfMonths(n: nat)
    ensures |Months(n)| == n
    ensures forall p :: p in Months(n) ==> GoodPart(p)
    ensures Sum(TermsOf(Months(n))) == n * (MAX_COUNT * MONTH)
  {
    hide GoodPart, Multiplier, Sum;
    SumOneMore([], Term(MAX_COUNT, MONTH));
    EmptySum();
    if n != 0 {
      SumOfMonths(n - 1);
      MonthIsGood();
      var t := Term(MAX_COUNT, MONTH);
      assert TermsOf(Months(n)) == [t] + TermsOf(Months(n - 1));
      SumConcat([t], TermsOf(Months(n - 1)));
      assert [] + [t] == [t];
    }
  }

  lemma EmptySum()
    ensures Sum([]) == 0
  {
  }

  lemma MonthIsGood()
    ensures var p := Part(MAX_COUNT, "mo"); GoodPart(p) && TermOf(p) == Term(MAX_COUNT, MONTH)
  {
  }

  /** From 829 terms on the sum can wrap around to a negative result, though every term is accepted. */
  lemma TooManyTerms(n: nat, noUnitMultiplier: nat)
    requires 828 < n <= 1657
    ensures ParseDuration(Print(Months(n)), noUnitMultiplier) < -1
  {
    hide Months, Print, TermsOf, GoodPart, Sum, ParseDuration;
    SumOfMonths(n);
    ParsePrinted(Months(n), noUnitMultiplier);
  }

  // ----- round trip

  lemma DivideSum(q: nat, r: nat, k: nat)
    requires r < k
    ensures TruncDiv(q * k + r, k) == q && TruncMod(q * k + r, k) == r
  {
    QuotientIs(q * k + r, q, r, k);
  }

  lemma QuotientIs(n: nat, q: nat, r: nat, k: nat)
    requires r < k && n == q * k + r
    ensures n / k == q
  {
    var p := n / k;
    assert p * k <= n < p * k + k;
    MultiplesInOrder(p + 1, q, k);
    MultiplesInOrder(q + 1, p, k);
  }

  lemma MultiplesInOrder(a: nat, b: nat, k: nat)
    ensures a <= b ==> a * k <= b * k
  {
  }

  /** Hours below 24, minutes and seconds below 60, in this order, and none of them when it is 0. */
  lemma ComponentsAre(d: nat, h: nat, m: nat, s: nat)
    requires h < 24 && m < 60 && s < 60
    ensures Components(86400 * d + 3600 * h + 60 * m + s) ==
            (if d == 0 then [] else [Part(d, "d")]) + (if h == 0 then [] else [Part(h, "h")])
            + (if m == 0 then [] else [Part(m, "m")]) + (if s == 0 then [] else [Part(s, "s")])
  {
    hide TruncDiv, TruncMod;
    DivideSum(1440 * d + 60 * h + m, s, 60);
    DivideSum(24 * d + h, m, 60);
    DivideSum(d, h, 24);
    assert 86400 * d + 3600 * h + 60 * m + s == (1440 * d + 60 * h + m) * 60 + s;
    assert 1440 * d + 60 * h + m == (24 * d + h) * 60 + m;
    assert 24 * d + h == d * 24 + h;
  }

  /** Every number of seconds is made of such components. */
  lemma SplitSeconds(n: nat) returns (d: nat, h: nat, m: nat, s: nat)
    ensures n == 86400 * d + 3600 * h + 60 * m + s && h < 24 && m < 60 && s < 60
  {
    var minutes := n / 60;
    var hours := minutes / 60;
    d, h, m, s := hours / 24, hours % 24, minutes % 60, n % 60;
  }

  lemma ComponentsSum(n: nat)
    requires n <= MAX_COUNT
    ensures forall p :: p in Components(n) ==> GoodPart(p)
    ensures Sum(TermsOf(Components(n))) == n
    ensures Components(n) == [] <==> n == 0
  {
    hide Components, GoodPart, TermsOf, Sum, Multiplier, Nonzero;
    var days, hours, minutes, seconds := SplitSeconds(n);
    ComponentsAre(days, hours, minutes, seconds);
    UnitsAreGood();
    var d, h, m, s := Nonzero(days, "d"), Nonzero(hours, "h"), Nonzero(minutes, "m"), Nonzero(seconds, "s");
    OneComponent(days, "d", 86400);
    OneComponent(hours, "h", 3600);
    OneComponent(minutes, "m", 60);
    OneComponent(seconds, "s", 1);
    SumOfTwo(d, h);
    SumOfTwo(d + h, m);
    SumOfTwo(d + h + m, s);
  }

  lemma SumOfTwo(a: seq<Part>, b: seq<Part>)
    requires (forall p :: p in a ==> GoodPart(p)) && (forall p :: p in b ==> GoodPart(p))
    ensures forall p :: p in a + b ==> GoodPart(p)
    ensures Sum(TermsOf(a + b)) == Sum(TermsOf(a)) + Sum(TermsOf(b))
  {
    hide GoodPart, TermsOf, Sum;
    TermsConcat(a, b);
    SumConcat(TermsOf(a), TermsOf(b));
  }

  lemma UnitsAreGood()
    ensures forall c: nat | c <= MAX_COUNT :: GoodPart(Part(c, "d")) && GoodPart(Part(c, "h")) && GoodPart(Part(c, "m")) && GoodPart(Part(c, "s"))
    ensures Multiplier("d") == Some(86400) && Multiplier("h") == Some(3600) && Multiplier("m") == Some(60) && Multiplier("s") == Some(1)
  {
  }

  lemma OneComponent(c: nat, unit: string, m: nat)
    requires GoodPart(Part(c, unit)) && Multiplier(unit) == Some(m)
    ensures Nonzero(c, unit) == if c == 0 then [] else [Part(c, unit)]
    ensures forall p :: p in Nonzero(c, unit) ==> GoodPart(p)
    ensures Sum(TermsOf(Nonzero(c, unit))) == c * m
  {
  }

  lemma {:induction false} TermsConcat(a: seq<Part>, b: seq<Part>)
    requires (forall p :: p in a ==> GoodPart(p)) && (forall p :: p in b ==> GoodPart(p))
    ensures TermsOf(a + b) == TermsOf(a) + TermsOf(b)
  {
    if a == [] {
      assert a + b == b;
    } else {
      TermsConcat(a[1..], b);
      assert (a + b)[1..] == a[1..] + b;
    }
  }

  /** Reading the printed form of a positive number of seconds gives it back; nothing is printed for others. */
  lemma RoundTrip(n: int, noUnitMultiplier: nat)
    requires -0x8000_0000 <= n <= 0x7FFF_FFFF
    ensures 0 < n ==> ParseDuration(Print(Components(n)), noUnitMultiplier) == n
    ensures n <= 0 ==> Print(Components(n)) == []
  {
    hide Components, Print, GoodPart, TermsOf, Sum, ParseDuration;
    NothingPrinted();
    if 0 < n {
      ComponentsSum(n);
      ParsePrinted(Components(n), noUnitMultiplier);
    } else {
      NegativeComponents(n);
    }
  }

  /** The printed text when no component is 0; one that is 0 is left out with its space. */
  lemma PrintedText(d: nat, h: nat, m: nat, s: nat)
    requires 0 < d && 0 < h < 24 && 0 < m < 60 && 0 < s < 60
    ensures Print(Components(86400 * d + 3600 * h + 60 * m + s)) ==
            Number(d) + "d" + (" " + (Number(h) + "h" + (" " + (Number(m) + "m" + (" " + (Number(s) + "s"))))))
  {
    hide Components, Number, Print, PartText;
    ComponentsAre(d, h, m, s);
    var a, b, c, e := Part(d, "d"), Part(h, "h"), Part(m, "m"), Part(s, "s");
    assert [a] + [b] + [c] + [e] == [a] + ([b] + ([c] + [e]));
    PrintCons(a, [b] + ([c] + [e]));
    PrintCons(b, [c] + [e]);
    PrintCons(c, [e]);
    PrintCons(e, []);
    assert [e] + [] == [e];
  }

  lemma PrintCons(p: Part, rest: seq<Part>)
    ensures Print([p] + rest) == Number(p.count) + p.unit + if rest == [] then "" else " " + Print(rest)
    ensures Number(p.count) + p.unit + "" == Number(p.count) + p.unit
  {
    assert ([p] + rest)[1..] == rest;
    assert Number(p.count) + p.unit + (" " + Print(rest)) == Number(p.count) + p.unit + " " + Print(rest);
  }

  lemma NegativeComponents(n: int)
    requires n <= 0
    ensures Components(n) == []
  {
  }
}
