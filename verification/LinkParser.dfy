/**
  Recognising a link in a word of chat. The rules follow section 6.9 of GitHub Flavored
  Markdown, "Autolinks (extension)", except that `_` is not stripped from the end and that
  every non-ASCII character may be part of a host.
 */
module LinkParser {
  import opened Wrappers
  import opened Numerals

  /** A part of the source, from one position up to another. */
  datatype View = View(from: nat, to: nat)

  datatype Parsed = Parsed(protocol: View, host: View, rest: View, link: View)

  predicate In(s: string, v: View) {
    v.from <= v.to <= |s|
  }

  function Text(s: string, v: View): string
    requires In(s, v)
  {
    s[v.from..v.to]
  }

  predicate PrefixChar(c: char) {
    c == '<' || c == '*' || c == '_' || c == '~' || c == '('
  }

  predicate SuffixChar(c: char) {
    c == '>' || c == '?' || c == '!' || c == '.' || c == ',' || c == ':' || c == '*' || c == '~' || c == ')'
  }

  predicate DomainChar(c: char) {
    || c as int >= 0x80 || '0' <= c <= '9' || 'A' <= c <= 'Z' || 'a' <= c <= 'z'
    || c == '_' || c == '-' || c == '.'
  }

  predicate PathChar(c: char) {
    c == '/' || c == '?' || c == '#'
  }

  // ----- stripping

  function FrontLength(s: string): (lo: nat)
    ensures lo <= |s| && forall i :: 0 <= i < lo ==> PrefixChar(s[i])
    ensures lo < |s| ==> !PrefixChar(s[lo])
  {
    if s == [] || !PrefixChar(s[0]) then 0 else 1 + FrontLength(s[1..])
  }

  function BackEnd(s: string, lo: nat): (hi: nat)
    requires lo <= |s|
    ensures lo <= hi <= |s| && forall i :: hi <= i < |s| ==> SuffixChar(s[i])
    ensures lo < hi ==> !SuffixChar(s[hi - 1])
  {
    if lo < |s| && SuffixChar(s[|s| - 1]) then BackEnd(s[..|s| - 1], lo) else |s|
  }

  method Strip(s: string) returns (lo: nat, hi: nat)
    ensures lo == FrontLength(s) && hi == BackEnd(s, lo)
  {
    lo, hi := 0, |s|;
    while lo < hi
      invariant lo <= |s| && forall i :: 0 <= i < lo ==> PrefixChar(s[i])
    {
      if !PrefixChar(s[lo]) {
        break;
      }
      lo := lo + 1;
    }
    while lo < hi
      invariant lo <= hi <= |s| && forall i :: hi <= i < |s| ==> SuffixChar(s[i])
    {
      if !SuffixChar(s[hi - 1]) {
        break;
      }
      hi := hi - 1;
    }
  }

  // ----- IPv4 addresses

  predicate Octet(s: string) {
    1 <= |s| <= 3 && AllDigits(s) && DigitValue(s) < 256
  }

  /** The text is `n` octets separated by single dots. */
  predicate DottedOctets(s: string, n: nat)
    decreases n
  {
    if n == 0 then false
    else if n == 1 then Octet(s)
    else exists k :: 0 <= k < |s| && s[k] == '.' && Octet(s[..k]) && DottedOctets(s[k + 1..], n - 1)
  }

  /** The octet in front of the first dot. */
  lemma FirstDot(s: string, k: nat, n: nat)
    requires k < |s| && s[k] == '.' && AllDigits(s[..k]) && 1 <= n
    ensures DottedOctets(s, n) <==> 2 <= n && Octet(s[..k]) && DottedOctets(s[k + 1..], n - 1)
  {
    if n == 1 {
      assert !IsDigit(s[k]);
    } else {
      assert forall j :: 0 <= j < k ==> s[j] == s[..k][j] && s[j] != '.';
      assert forall j :: k < j < |s| ==> s[..j][k] == s[k] && !Octet(s[..j]);
    }
  }

  lemma ForeignCharacter(s: string, k: nat, n: nat)
    requires k < |s| && s[k] != '.' && !IsDigit(s[k]) && AllDigits(s[..k])
    ensures !DottedOctets(s, n)
  {
  }

  lemma {:induction false} ValueGrows(s: string, d: nat)
    requires AllDigits(s) && d <= |s|
    ensures AllDigits(s[..d]) && DigitValue(s[..d]) <= DigitValue(s)
  {
    if d == |s| {
      assert s[..d] == s;
    } else {
      ValueGrows(s[..|s| - 1], d);
      assert s[..|s| - 1][..d] == s[..d];
    }
  }

  lemma HeadTooLarge(s: string, d: nat, n: nat)
    requires d <= |s| && AllDigits(s[..d]) && (3 < d || 256 <= DigitValue(s[..d]))
    ensures !DottedOctets(s, n)
  {
    if n == 1 && Octet(s) {
      ValueGrows(s, d);
    } else if n >= 2 {
      assert forall j :: 0 <= j < d ==> s[j] == s[..d][j] && s[j] != '.';
      forall j | d <= j < |s| && s[j] == '.' ensures !Octet(s[..j]) {
        if AllDigits(s[..j]) {
          ValueGrows(s[..j], d);
          assert s[..j][..d] == s[..d];
        }
      }
    }
  }

  lemma NoDot(s: string, n: nat)
    requires AllDigits(s)
    ensures DottedOctets(s, n) <==> n == 1 && Octet(s)
  {
  }

  lemma DigitAppended(section: string, c: char)
    requires AllDigits(section) && IsDigit(c)
    ensures AllDigits(section + [c])
    ensures DigitValue(section + [c]) == DigitValue(section) * 10 + (c as int - '0' as int)
  {
  }

  /** The current section continues the host at `from`. */
  lemma SectionSlices(host: string, from: nat, i: nat)
    requires from <= i < |host|
    ensures host[from..i + 1] == host[from..i] + [host[i]]
    ensures host[from..][i - from] == host[i]
    ensures host[from..][..i - from] == host[from..i] && host[from..][..i - from + 1] == host[from..i + 1]
    ensures host[from..][i - from + 1..] == host[i + 1..]
  {
  }

  /** One pass with counters. */
  method IsValidIpv4(host: string) returns (valid: bool)
    ensures valid == DottedOctets(host, 4)
  {
    hide DottedOctets, DigitValue, AllDigits;
    var sectionValue, octetNumber, sectionDigits := 0, 0, 0;
    var lastWasDot := true;
    ghost var section, rest := "", host;
    EmptySection();
    assert host[0..] == host;
    for i := 0 to |host|
      invariant 0 <= octetNumber <= 3 && 0 <= sectionDigits <= 3 && sectionDigits <= i
      invariant lastWasDot == (sectionDigits == 0)
      invariant section == host[i - sectionDigits..i] && rest == host[i - sectionDigits..]
      invariant AllDigits(section) && sectionValue == DigitValue(section) < 256
      invariant DottedOctets(host, 4) <==> DottedOctets(rest, 4 - octetNumber)
    {
      var current := host[i];
      SectionSlices(host, i - sectionDigits, i);
      if current == '.' {
        FirstDot(rest, sectionDigits, 4 - octetNumber);
        if lastWasDot || octetNumber == 3 {
          return false;
        }
        section, rest := "", host[i + 1..];
        lastWasDot := true;
        octetNumber, sectionValue, sectionDigits := octetNumber + 1, 0, 0;
        continue;
      }
      lastWasDot := false;
      if '9' < current || current < '0' {
        ForeignCharacter(rest, sectionDigits, 4 - octetNumber);
        return false;
      }
      DigitAppended(section, current);
      section := section + [current];
      sectionValue := sectionValue * 10 + (current as int - '0' as int);
      sectionDigits := sectionDigits + 1;
      if 256 <= sectionValue || 3 < sectionDigits {
        HeadTooLarge(rest, sectionDigits, 4 - octetNumber);
        return false;
      }
    }
    assert section == rest;
    NoDot(rest, 4 - octetNumber);
    return octetNumber == 3 && !lastWasDot;
  }

  lemma EmptySection()
    ensures AllDigits("") && DigitValue("") == 0
  {
  }

  // ----- protocol, host and port

  /** What the link parser asks of its surroundings: the known top level domains, and which characters are digits. */
  datatype Rules = Rules(validTld: string -> bool, isDigit: char -> bool)

  predicate StartsWithHttp(t: string) {
    && 4 <= |t|
    && (t[0] == 'h' || t[0] == 'H') && (t[1] == 't' || t[1] == 'T')
    && (t[2] == 't' || t[2] == 'T') && (t[3] == 'p' || t[3] == 'P')
  }

  predicate ColonSlashSlash(t: string, i: nat) {
    i + 3 <= |t| && t[i] == ':' && t[i + 1] == '/' && t[i + 2] == '/'
  }

  function ProtocolLength(t: string): (n: nat)
    ensures n <= |t|
  {
    if StartsWithHttp(t) && 8 <= |t| then
      var q := if t[4] == 's' || t[4] == 'S' then 5 else 4;
      if ColonSlashSlash(t, q) then q + 3 else 0
    else 0
  }

  function HostLength(u: string): (n: nat)
    ensures n <= |u| && forall i :: 0 <= i < n ==> DomainChar(u[i])
    ensures n < |u| ==> !DomainChar(u[n])
  {
    if u == [] || !DomainChar(u[0]) then 0 else 1 + HostLength(u[1..])
  }

  /** No dot comes first or directly after another. */
  predicate GoodDots(h: string) {
    forall i :: 0 <= i < |h| && h[i] == '.' ==> 0 < i && h[i - 1] != '.'
  }

  function LastDot(h: string): (p: int)
    ensures -1 <= p < |h|
    ensures 0 <= p ==> h[p] == '.'
    ensures forall i :: p < i < |h| ==> h[i] != '.'
  {
    if h == [] then -1 else if h[|h| - 1] == '.' then |h| - 1 else LastDot(h[..|h| - 1])
  }

  function DotCount(h: string): nat {
    if h == [] then 0 else DotCount(h[..|h| - 1]) + if h[|h| - 1] == '.' then 1 else 0
  }

  /** Up to five digits, ended early only by the start of a path, a query or an anchor. */
  predicate PortOk(u: string, rules: Rules) {
    || (forall i :: 0 <= i < |u| && i < 5 ==> rules.isDigit(u[i]))
    || (exists k :: 1 <= k < |u| && k < 5 && PathChar(u[k]) && forall i :: 0 <= i < k ==> rules.isDigit(u[i]))
  }

  method StartsWithPort(u: string, rules: Rules) returns (ok: bool)
    ensures ok == PortOk(u, rules)
  {
    var i := 0;
    while i < |u| && i < 5
      invariant i <= |u| && forall k :: 0 <= k < i ==> rules.isDigit(u[k])
      invariant forall k :: 1 <= k < i ==> !PathChar(u[k])
    {
      if 1 <= i && PathChar(u[i]) {
        return true;
      }
      if !rules.isDigit(u[i]) {
        return false;
      }
      i := i + 1;
    }
    return true;
  }

  /** The host ends at the end of the link, before a port, or before a path. */
  predicate HostEndsWell(u: string, n: nat, rules: Rules)
    requires n <= |u|
  {
    n < |u| ==> PathChar(u[n]) || (u[n] == ':' && PortOk(u[n + 1..], rules))
  }

  predicate KnownHost(h: string, rules: Rules) {
    && 0 <= LastDot(h)
    && ((DotCount(h) == 3 && DottedOctets(h, 4)) || rules.validTld(h[LastDot(h) + 1..]))
  }

  /** Where the host lies in a stripped link. */
  datatype Core = Core(hostFrom: nat, hostTo: nat)

  function ParseCore(t: string, rules: Rules): (core: Option<Core>)
    ensures core.Some? ==> core.value.hostFrom < core.value.hostTo <= |t|
  {
    var p := ProtocolLength(t);
    var u := t[p..];
    var n := HostLength(u);
    if GoodDots(u[..n]) && HostEndsWell(u, n, rules) && (n == |u| && 0 < n ==> u[n - 1] != '.') && KnownHost(u[..n], rules)
    then Some(Core(p, p + n)) else None
  }

  lemma OneMoreCharacter(u: string, n: nat)
    requires n < |u|
    ensures LastDot(u[..n + 1]) == if u[n] == '.' then n else LastDot(u[..n])
    ensures DotCount(u[..n + 1]) == DotCount(u[..n]) + if u[n] == '.' then 1 else 0
    ensures GoodDots(u[..n + 1]) <==> GoodDots(u[..n]) && (u[n] == '.' ==> 0 < n && u[n - 1] != '.')
    ensures forall m :: n < m <= |u| && GoodDots(u[..m]) ==> GoodDots(u[..n + 1])
  {
    assert u[..n + 1][..n] == u[..n];
    forall m | n < m <= |u| && GoodDots(u[..m]) ensures GoodDots(u[..n + 1]) {
      assert forall i :: 0 <= i <= n ==> u[..n + 1][i] == u[..m][i];
    }
  }

  lemma NoCharacters()
    ensures LastDot("") == -1 && DotCount("") == 0 && GoodDots("")
  {
  }

  /** The host loop of the source, with the facts about dots that it keeps. */
  method ScanHost(u: string, rules: Rules) returns (ok: bool, n: nat, lastWasDot: bool, lastDotPos: int, nDots: nat)
    ensures ok <==> GoodDots(u[..HostLength(u)]) && HostEndsWell(u, HostLength(u), rules)
    ensures ok ==> n == HostLength(u) && lastDotPos == LastDot(u[..n]) && nDots == DotCount(u[..n])
    ensures ok ==> lastWasDot == (n == |u| && (n == 0 || u[n - 1] == '.'))
  {
    hide GoodDots, LastDot, DotCount, PortOk, HostLength;
    ok, n, lastWasDot, lastDotPos, nDots := false, 0, true, -1, 0;
    NoCharacters();
    while n < |u|
      invariant n <= HostLength(u) && GoodDots(u[..n])
      invariant lastWasDot == (n == 0 || u[n - 1] == '.')
      invariant lastDotPos == LastDot(u[..n]) && nDots == DotCount(u[..n])
    {
      var c := u[n];
      OneMoreCharacter(u, n);
      if c == '.' {
        if lastWasDot {
          return;
        }
        lastDotPos, lastWasDot, nDots := n, true, nDots + 1;
      } else {
        lastWasDot := false;
      }
      if c == ':' {
        ok := StartsWithPort(u[n + 1..], rules);
        return;
      }
      if PathChar(c) {
        ok := true;
        return;
      }
      if !DomainChar(c) {
        return;
      }
      n := n + 1;
    }
    ok := true;
  }

  // ----- parentheses

  /** How deep the parentheses are nested behind `s[from..k]`; a `)` that closes nothing is ignored. */
  function Depth(s: string, from: nat, k: nat): nat
    requires k <= |s|
  {
    if k <= from then 0
    else
      var d := Depth(s, from, k - 1);
      if s[k - 1] == '(' then d + 1
      else if s[k - 1] == ')' && d != 0 then d - 1
      else d
  }

  /** The character before `k` closes the outermost parenthesis. */
  predicate ClosesAt(s: string, from: nat, k: nat) {
    from < k <= |s| && s[k - 1] == ')' && Depth(s, from, k - 1) == 1
  }

  /** The last such position up to `k`, if there is one. */
  function LastClose(s: string, from: nat, k: nat, default: nat): (p: nat)
    requires k <= |s|
    ensures (p == default && forall j: nat :: j <= k ==> !ClosesAt(s, from, j))
            || (p <= k && ClosesAt(s, from, p) && forall j: nat :: p < j <= k ==> !ClosesAt(s, from, j))
  {
    if k <= from then default
    else if ClosesAt(s, from, k) then k
    else LastClose(s, from, k - 1, default)
  }

  /** The link is extended over stripped characters up to the last closing parenthesis of its rest. */
  function LinkEnd(s: string, restFrom: nat, hi: nat): (end: nat)
    requires restFrom <= hi <= |s|
    ensures hi <= end <= |s|
  {
    if restFrom == hi || hi == |s| then hi
    else
      var p := LastClose(s, restFrom, |s|, hi);
      if hi < p then p else hi
  }

  /** What `parse` returns. An absent protocol or rest is an empty view at its border. */
  function Parse(s: string, rules: Rules): (r: Option<Parsed>)
    ensures r.Some? ==> In(s, r.value.protocol) && In(s, r.value.host) && In(s, r.value.rest) && In(s, r.value.link)
  {
    var lo := FrontLength(s);
    var hi := BackEnd(s, lo);
    match ParseCore(s[lo..hi], rules)
    case None => None
    case Some(core) =>
      var hostFrom, hostTo := lo + core.hostFrom, lo + core.hostTo;
      var end := LinkEnd(s, hostTo, hi);
      Some(Parsed(View(lo, hostFrom), View(hostFrom, hostTo), View(hostTo, end), View(lo, end)))
  }

  lemma FirstDotIsLate(h: string)
    requires GoodDots(h)
    ensures LastDot(h) != 0
  {
  }

  /** The first part of `parse`: protocol and host of the stripped link. */
  method FindHost(link: string, rules: Rules) returns (core: Option<Core>)
    ensures core == ParseCore(link, rules)
  {
    hide GoodDots, LastDot, DotCount, DottedOctets, PortOk, HostLength, ProtocolLength, PathChar;
    var protocolLength := ProtocolLength(link);
    var remaining := link[protocolLength..];
    var ok, n, lastWasDot, lastDotPos, nDots := ScanHost(remaining, rules);
    if !ok {
      return None;
    }
    var host := remaining[..n];
    FirstDotIsLate(host);
    if lastWasDot || lastDotPos <= 0 {
      return None;
    }
    var known := false;
    if nDots == 3 {
      known := IsValidIpv4(host);
    }
    if !known && !rules.validTld(host[lastDotPos + 1..]) {
      return None;
    }
    return Some(Core(protocolLength, protocolLength + n));
  }

  method ParseLink(s: string, rules: Rules) returns (r: Option<Parsed>)
    ensures r == Parse(s, rules)
  {
    hide ParseCore, FrontLength, BackEnd, LastClose;
    var lo, hi := Strip(s);
    var core := FindHost(s[lo..hi], rules);
    if core.None? {
      return None;
    }
    var hostFrom, hostTo := lo + core.value.hostFrom, lo + core.value.hostTo;
    var end := hi;
    if hi != |s| && hostTo != hi {
      var lastClose := ScanParentheses(s, hostTo, hi);
      end := if hi < lastClose then lastClose else hi;
    }
    return Some(Parsed(View(lo, hostFrom), View(hostFrom, hostTo), View(hostTo, end), View(lo, end)));
  }

  method ScanParentheses(s: string, from: nat, hi: nat) returns (lastClose: nat)
    requires from <= |s|
    ensures lastClose == LastClose(s, from, |s|, hi)
  {
    var nestingLevel := 0;
    lastClose := hi;
    for it := from to |s|
      invariant nestingLevel == Depth(s, from, it) && lastClose == LastClose(s, from, it, hi)
    {
      if s[it] == '(' {
        nestingLevel := nestingLevel + 1;
        continue;
      }
      if nestingLevel != 0 && s[it] == ')' {
        nestingLevel := nestingLevel - 1;
        if nestingLevel == 0 {
          lastClose := it + 1;
        }
      }
    }
  }
}
