/** `formatTime`: days, hours, minutes and seconds, leaving out what is zero. */
module FormatTime {
  import opened Numerals
  import opened Duration

  /** Division of C++ `int`s rounds toward zero. */
  function TruncDiv(x: int, d: int): int
    requires 0 < d
  {
    if 0 <= x then x / d else -((-x) / d)
  }

  function TruncMod(x: int, d: int): int
    requires 0 < d
  {
    x - TruncDiv(x, d) * d
  }

  datatype Part = Part(count: nat, unit: string)

  function PartText(p: Part): string {
    Number(p.count) + p.unit
  }

  /** The parts one after another, separated by spaces. */
  function Print(parts: seq<Part>): string {
    if parts == [] then []
    else if |parts| == 1 then PartText(parts[0])
    else PartText(parts[0]) + " " + Print(parts[1..])
  }

  function Nonzero(count: int, unit: string): seq<Part> {
    if 0 < count then [Part(count, unit)] else []
  }

  function Components(totalSeconds: int): seq<Part> {
    var minutes := TruncDiv(totalSeconds, 60);
    var hours := TruncDiv(minutes, 60);
    Nonzero(TruncDiv(hours, 24), "d") + Nonzero(TruncMod(hours, 24), "h")
    + Nonzero(TruncMod(minutes, 60), "m") + Nonzero(TruncMod(totalSeconds, 60), "s")
  }

  lemma {:induction false} PrintSnoc(parts: seq<Part>, p: Part)
    ensures Print(parts + [p]) == if parts == [] then PartText(p) else Print(parts) + " " + PartText(p)
  {
    if parts == [] {
      assert parts + [p] == [p];
    } else {
      PrintSnoc(parts[1..], p);
      assert (parts + [p])[1..] == parts[1..] + [p];
      if |parts| > 1 {
        Regroup(PartText(parts[0]) + " ", Print(parts[1..]), " ", PartText(p));
      }
    }
  }

  lemma Regroup(a: string, b: string, c: string, d: string)
    ensures a + (b + c + d) == a + b + c + d
    ensures a + c + (b + d) == a + c + b + d
  {
  }

  lemma {:induction false} PrintNonempty(parts: seq<Part>)
    ensures Print(parts) == [] <==> parts == []
  {
  }

  /** Appends one part to the text so far. */
  method AppendDuration(count: nat, suffix: char, out: string, ghost parts: seq<Part>) returns (r: string)
    requires out == Print(parts)
    ensures r == Print(parts + [Part(count, [suffix])])
  {
    r := out;
    PrintNonempty(parts);
    PrintSnoc(parts, Part(count, [suffix]));
    Regroup(r, Number(count), " ", [suffix]);
    if r != [] {
      r := r + " ";
    }
    r := r + Number(count);
    r := r + [suffix];
  }

  method Format(totalSeconds: int) returns (res: string)
    ensures res == Print(Components(totalSeconds))
  {
    hide Print, TruncDiv, TruncMod, Nonzero;
    res := [];
    ghost var parts: seq<Part> := [];
    NothingPrinted();
    var seconds := TruncMod(totalSeconds, 60);
    var timeoutMinutes := TruncDiv(totalSeconds, 60);
    var minutes := TruncMod(timeoutMinutes, 60);
    var timeoutHours := TruncDiv(timeoutMinutes, 60);
    var hours := TruncMod(timeoutHours, 24);
    var days := TruncDiv(timeoutHours, 24);
    NonzeroLast(parts, days, "d");
    if days > 0 {
      res := AppendDuration(days, 'd', res, parts);
    }
    assert parts + Nonzero(days, "d") == Nonzero(days, "d");
    parts := Nonzero(days, "d");
    NonzeroLast(parts, hours, "h");
    if hours > 0 {
      res := AppendDuration(hours, 'h', res, parts);
    }
    parts := parts + Nonzero(hours, "h");
    NonzeroLast(parts, minutes, "m");
    if minutes > 0 {
      res := AppendDuration(minutes, 'm', res, parts);
    }
    parts := parts + Nonzero(minutes, "m");
    NonzeroLast(parts, seconds, "s");
    if seconds > 0 {
      res := AppendDuration(seconds, 's', res, parts);
    }
    parts := parts + Nonzero(seconds, "s");
    assert parts == Components(totalSeconds);
  }

  lemma NonzeroLast(parts: seq<Part>, count: int, unit: string)
    ensures parts + Nonzero(count, unit) == if 0 < count then parts + [Part(count, unit)] else parts
  {
  }

  lemma NothingPrinted()
    ensures Print([]) == []
  {
  }
}
