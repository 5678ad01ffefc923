/** What a parsed link is: the grammar it follows, how it lies in its source, and that parsing it again changes nothing. */
module LinkLaws {
  import opened Wrappers
  import opened Numerals
  import opened LinkParser

  /** ASCII letters in lower case. */
  function Lower(s: string): (r: string)
    ensures |r| == |s|
  {
    seq(|s|, i requires 0 <= i < |s| => if 'A' <= s[i] <= 'Z' then (s[i] as int + 32) as char else s[i])
  }

  /** Nothing, `http://` or `https://`, in any case. */
  predicate IsProtocol(p: string) {
    p == "" || Lower(p) == "http://" || Lower(p) == "https://"
  }

  /** A dotted name whose last part is a known top level domain, or an IPv4 address. */
  ghost predicate IsHost(h: string, rules: Rules) {
    && (forall i :: 0 <= i < |h| ==> DomainChar(h[i]))
    && (h != [] ==> h[0] != '.')
    && (forall i :: 0 < i < |h| ==> h[i] != '.' || h[i - 1] != '.')
    && exists k :: 0 <= k < |h| && LastDotAt(h, k) && (DottedOctets(h, 4) || rules.validTld(h[k + 1..]))
  }

  /** A dot at `k`, and none behind it. */
  predicate LastDotAt(h: string, k: nat) {
    k < |h| && h[k] == '.' && '.' !in h[k + 1..]
  }

  /** Five digits, or fewer if nothing follows or a path, a query or an anchor does; a bare colon may end the link. */
  ghost predicate IsPort(u: string, rules: Rules) {
    exists n :: 0 <= n <= |u| && PortDigits(u, n, rules)
                && (n == 5 || n == |u| || (1 <= n && (u[n] == '/' || u[n] == '?' || u[n] == '#')))
  }

  predicate PortDigits(u: string, n: nat, rules: Rules)
    requires n <= |u|
  {
    n <= 5 && forall i :: 0 <= i < n ==> rules.isDigit(u[i])
  }

  /** Nothing, or a port, a path, a query or an anchor and whatever follows. */
  ghost predicate IsRest(r: string, rules: Rules) {
    r == [] || r[0] == '/' || r[0] == '?' || r[0] == '#' || (r[0] == ':' && IsPort(r[1..], rules))
  }

  ghost predicate IsLink(t: string, p: string, h: string, r: string, rules: Rules) {
    && t == p + h + r && IsProtocol(p) && IsHost(h, rules) && IsRest(r, rules)
    && (r == [] ==> h[|h| - 1] != '.')
  }

  // ----- the parser's own tests mean the same

  lemma ProtocolMeans(p: string)
    ensures IsProtocol(p) <==>
            p == [] || (StartsWithHttp(p) && ((|p| == 7 && ColonSlashSlash(p, 4)) ||
                                              (|p| == 8 && (p[4] == 's' || p[4] == 'S') && ColonSlashSlash(p, 5))))
  {
    var l := Lower(p);
    assert l == "http://" <==> |p| == 7 && l[0] == 'h' && l[1] == 't' && l[2] == 't' && l[3] == 'p' && l[4] == ':' && l[5] == '/' && l[6] == '/';
    assert l == "https://" <==> |p| == 8 && l[0] == 'h' && l[1] == 't' && l[2] == 't' && l[3] == 'p' && l[4] == 's' && l[5] == ':' && l[6] == '/' && l[7] == '/';
  }

  lemma {:induction false} DotCountConcat(a: string, b: string)
    ensures DotCount(a + b) == DotCount(a) + DotCount(b)
  {
    if b == [] {
      assert a + b == a;
    } else {
      DotCountConcat(a, b[..|b| - 1]);
      assert (a + b)[..|a + b| - 1] == a + b[..|b| - 1];
    }
  }

  lemma {:induction false} NoDots(s: string)
    requires forall i :: 0 <= i < |s| ==> s[i] != '.'
    ensures DotCount(s) == 0
  {
    if s != [] {
      NoDots(s[..|s| - 1]);
    }
  }

  lemma OneDot()
    ensures DotCount(".") == 1
  {
    assert "."[..0] == "";
  }

  lemma OctetHasNoDots(s: string)
    requires Octet(s)
    ensures DotCount(s) == 0
  {
    NoDots(s);
  }

  lemma DotsAround(s: string, k: nat)
    requires k < |s| && s[k] == '.'
    ensures DotCount(s) == DotCount(s[..k]) + 1 + DotCount(s[k + 1..])
  {
    hide DotCount;
    OneDot();
    DotCountConcat(s[..k], ".");
    DotCountConcat(s[..k] + ".", s[k + 1..]);
    assert s == s[..k] + "." + s[k + 1..];
  }

  lemma FirstOctet(s: string, n: nat) returns (k: nat)
    requires DottedOctets(s, n) && n != 1
    ensures 2 <= n && k < |s| && s[k] == '.' && Octet(s[..k]) && DottedOctets(s[k + 1..], n - 1)
    ensures s == s[..k] + "." + s[k + 1..]
  {
    hide Octet;
    k :| 0 <= k < |s| && s[k] == '.' && Octet(s[..k]) && DottedOctets(s[k + 1..], n - 1);
  }

  lemma OneOctet(s: string)
    ensures DottedOctets(s, 1) <==> Octet(s)
  {
  }

  lemma {:induction false} OctetDots(s: string, n: nat)
    requires DottedOctets(s, n)
    ensures 1 <= n && DotCount(s) == n - 1
    decreases n
  {
    hide Octet, DotCount, DottedOctets;
    if n == 1 {
      OneOctet(s);
      OctetHasNoDots(s);
    } else {
      var k := FirstOctet(s, n);
      OctetHasNoDots(s[..k]);
      OctetDots(s[k + 1..], n - 1);
      DotsAround(s, k);
    }
  }

  lemma LastDotIs(h: string, k: nat)
    ensures LastDotAt(h, k) <==> LastDot(h) == k
  {
    if LastDotAt(h, k) {
      assert forall i :: k < i < |h| ==> h[i] == h[k + 1..][i - k - 1];
    }
  }

  lemma KnownMeans(h: string, rules: Rules)
    ensures KnownHost(h, rules) <==> exists k :: 0 <= k < |h| && LastDotAt(h, k) && (DottedOctets(h, 4) || rules.validTld(h[k + 1..]))
  {
    hide DottedOctets, DotCount, LastDot, LastDotAt;
    if DottedOctets(h, 4) {
      OctetDots(h, 4);
    }
    if KnownHost(h, rules) {
      LastDotIs(h, LastDot(h));
    } else if k :| 0 <= k < |h| && LastDotAt(h, k) && (DottedOctets(h, 4) || rules.validTld(h[k + 1..])) {
      LastDotIs(h, k);
      assert false;
    }
  }

  lemma HostMeans(h: string, rules: Rules)
    ensures IsHost(h, rules) <==> (forall i :: 0 <= i < |h| ==> DomainChar(h[i])) && GoodDots(h) && KnownHost(h, rules)
  {
    hide DomainChar, KnownHost, DottedOctets, LastDotAt;
    KnownMeans(h, rules);
  }

  lemma PortMeans(u: string, rules: Rules)
    ensures IsPort(u, rules) <==> PortOk(u, rules)
  {
    if PortOk(u, rules) {
      var n := if forall i :: 0 <= i < |u| && i < 5 ==> rules.isDigit(u[i]) then (if |u| < 5 then |u| else 5)
               else var k :| 1 <= k < |u| && k < 5 && PathChar(u[k]) && forall i :: 0 <= i < k ==> rules.isDigit(u[i]); k;
      assert PortDigits(u, n, rules);
    }
  }

  lemma RestMeans(r: string, rules: Rules)
    ensures IsRest(r, rules) <==> r == [] || PathChar(r[0]) || (r[0] == ':' && PortOk(r[1..], rules))
  {
    hide PortOk, IsPort;
    if r != [] {
      PortMeans(r[1..], rules);
    }
  }

  // ----- the grammar is exactly what the parser accepts

  lemma HostLengthIs(u: string, h: string, r: string)
    requires u == h + r && (forall i :: 0 <= i < |h| ==> DomainChar(h[i])) && (r != [] ==> !DomainChar(r[0]))
    ensures HostLength(u) == |h|
  {
    var n := HostLength(u);
    assert forall i :: 0 <= i < |h| ==> u[i] == h[i];
    assert r != [] ==> u[|h|] == r[0];
  }

  lemma ProtocolShape(t: string)
    ensures IsProtocol(t[..ProtocolLength(t)])
  {
    hide IsProtocol;
    ProtocolMeans(t[..ProtocolLength(t)]);
  }

  lemma HostShape(u: string, rules: Rules)
    requires GoodDots(u[..HostLength(u)]) && KnownHost(u[..HostLength(u)], rules)
    ensures IsHost(u[..HostLength(u)], rules)
  {
    hide GoodDots, KnownHost, DomainChar, IsHost;
    HostMeans(u[..HostLength(u)], rules);
  }

  lemma RestShape(u: string, n: nat, rules: Rules)
    requires n <= |u| && HostEndsWell(u, n, rules)
    ensures IsRest(u[n..], rules)
  {
    hide PortOk, IsRest;
    RestMeans(u[n..], rules);
  }

  lemma Assemble(t: string, a: nat, n: nat, rules: Rules)
    requires a + n <= |t| && 0 < n
    requires IsProtocol(t[..a]) && IsHost(t[a..][..n], rules) && IsRest(t[a..][n..], rules)
    requires n == |t| - a ==> t[a..][n - 1] != '.'
    ensures IsLink(t, t[..a], t[a..a + n], t[a + n..], rules)
  {
    hide IsProtocol, IsHost, IsRest;
    CutTwice(t, a, n);
  }

  lemma Accepted(t: string, rules: Rules)
    requires ParseCore(t, rules).Some?
    ensures var c := ParseCore(t, rules).value;
            IsLink(t, t[..c.hostFrom], t[c.hostFrom..c.hostTo], t[c.hostTo..], rules)
  {
    hide HostEndsWell, IsRest, GoodDots, KnownHost, IsProtocol, IsHost, IsLink, ProtocolLength, HostLength, DomainChar;
    var p := ProtocolLength(t);
    var n := HostLength(t[p..]);
    ProtocolShape(t);
    HostShape(t[p..], rules);
    RestShape(t[p..], n, rules);
    Assemble(t, p, n, rules);
  }

  lemma CutTwice(t: string, a: nat, n: nat)
    requires a + n <= |t|
    ensures t[a..][..n] == t[a..a + n] && t[a..][n..] == t[a + n..]
    ensures t == t[..a] + t[a..a + n] + t[a + n..]
  {
  }

  lemma IsolateHost(t: string, p: string, h: string, r: string, rules: Rules)
    requires IsLink(t, p, h, r, rules)
    ensures h != [] && (forall i :: |p| <= i < |p| + |h| ==> DomainChar(t[i]))
    ensures 0 <= LastDot(h) < |h| && t[|p| + LastDot(h)] == '.'
    ensures t[..|p|] == p && t[|p|..] == h + r && HostLength(h + r) == |h|
    ensures (h + r)[..|h|] == h && (h + r)[|h|..] == r
  {
    hide PortOk, GoodDots, DottedOctets, HostLength, IsHost, IsRest, IsProtocol;
    HostMeans(h, rules);
    RestMeans(r, rules);
    MiddleOf(p, h, r);
    HostLengthIs(h + r, h, r);
  }

  lemma MiddleOf(p: string, h: string, r: string)
    ensures forall i :: |p| <= i < |p| + |h| ==> (p + h + r)[i] == h[i - |p|]
    ensures (p + h + r)[..|p|] == p && (p + h + r)[|p|..] == h + r
    ensures (h + r)[..|h|] == h && (h + r)[|h|..] == r
  {
  }

  /** With a protocol in front the parser sees that protocol; and a host never looks like the beginning of one. */
  lemma ProtocolIs(t: string, p: string, h: string, r: string, rules: Rules)
    requires IsLink(t, p, h, r, rules)
    ensures ProtocolLength(t) == |p|
  {
    hide PortOk, GoodDots, DottedOctets, DotCount, IsHost, IsRest, IsProtocol;
    HostMeans(h, rules);
    ProtocolMeans(p);
    MiddleOf(p, h, r);
  }

  lemma Found(t: string, p: string, h: string, r: string, rules: Rules)
    requires IsLink(t, p, h, r, rules)
    ensures ParseCore(t, rules) == Some(Core(|p|, |p| + |h|)) && |p| + |h| <= |t|
    ensures p == t[..|p|] && h == t[|p|..|p| + |h|] && r == t[|p| + |h|..]
  {
    hide PortOk, GoodDots, KnownHost, IsProtocol, ProtocolLength, DomainChar, HostLength, PathChar, IsHost, IsRest;
    HostMeans(h, rules);
    RestMeans(r, rules);
    ProtocolIs(t, p, h, r, rules);
    IsolateHost(t, p, h, r, rules);
    assert h == t[|p|..|p| + |h|] && r == t[|p| + |h|..];
    assert r != [] ==> (h + r)[|h|] == r[0] && (h + r)[|h| + 1..] == r[1..];
  }

  /** The parser accepts a stripped text just when it is a link, and the parts are the only ones possible. */
  lemma Grammar(t: string, p: string, h: string, r: string, rules: Rules)
    ensures IsLink(t, p, h, r, rules) <==>
            ParseCore(t, rules) == Some(Core(|p|, |p| + |h|)) && |p| + |h| <= |t| &&
            p == t[..|p|] && h == t[|p|..|p| + |h|] && r == t[|p| + |h|..]
  {
    hide IsLink, ParseCore;
    if IsLink(t, p, h, r, rules) {
      Found(t, p, h, r, rules);
    } else if ParseCore(t, rules) == Some(Core(|p|, |p| + |h|)) && |p| + |h| <= |t| {
      Accepted(t, rules);
    }
  }

  // ----- hosts and addresses on their own

  /** A host alone is accepted just when it is an address or ends in a known top level domain. */
  lemma HostAlone(h: string, k: nat, rules: Rules)
    requires (forall i :: 0 <= i < |h| ==> DomainChar(h[i])) && h != [] && h[0] != '.' && h[|h| - 1] != '.'
    requires forall i :: 0 < i < |h| ==> h[i] != '.' || h[i - 1] != '.'
    requires k < |h| && LastDotAt(h, k)
    ensures ParseCore(h, rules) == Some(Core(0, |h|)) <==> DottedOctets(h, 4) || rules.validTld(h[k + 1..])
  {
    hide ParseCore, DottedOctets, DomainChar, LastDotAt, LastDot, IsHost;
    Grammar(h, "", h, "", rules);
    HostWhere(h, k, rules);
    Whole(h);
  }

  lemma Whole(h: string)
    ensures "" + h + "" == h && h[..0] == "" && h[0..|h|] == h && h[|h|..] == ""
  {
  }

  lemma HostWhere(h: string, k: nat, rules: Rules)
    requires (forall i :: 0 <= i < |h| ==> DomainChar(h[i])) && h != [] && h[0] != '.'
    requires forall i :: 0 < i < |h| ==> h[i] != '.' || h[i - 1] != '.'
    requires k < |h| && LastDotAt(h, k)
    ensures IsHost(h, rules) <==> DottedOctets(h, 4) || rules.validTld(h[k + 1..])
  {
    hide DottedOctets, DomainChar, LastDotAt, LastDot;
    LastDotIs(h, k);
    forall i: nat ensures LastDotAt(h, i) <==> LastDot(h) == i {
      LastDotIs(h, i);
    }
  }

  /** Digits and dots, with digits at both ends and between any two dots. */
  ghost predicate DigitsAndDots(s: string) {
    && s != [] && s[0] != '.' && s[|s| - 1] != '.'
    && (forall i :: 0 <= i < |s| ==> IsDigit(s[i]) || s[i] == '.')
    && (forall i :: 0 < i < |s| ==> s[i] != '.' || s[i - 1] != '.')
  }

  lemma DigitsInFront(a: string, b: string)
    requires a != [] && AllDigits(a) && DigitsAndDots(b)
    ensures DigitsAndDots(a + "." + b)
  {
    var s := a + "." + b;
    assert forall i :: 0 <= i < |a| ==> s[i] == a[i];
    assert s[|a|] == '.';
    assert forall i :: |a| < i < |s| ==> s[i] == b[i - |a| - 1];
  }

  lemma {:induction false} OctetCharacters(s: string, n: nat)
    requires DottedOctets(s, n)
    ensures DigitsAndDots(s)
    decreases n
  {
    hide DottedOctets;
    if n == 1 {
      OneOctet(s);
    } else {
      hide DigitsAndDots;
      var k := FirstOctet(s, n);
      OctetCharacters(s[k + 1..], n - 1);
      DigitsInFront(s[..k], s[k + 1..]);
    }
  }

  /** Every IPv4 address is a link, whatever the top level domains are. */
  lemma AddressAccepted(t: string, rules: Rules)
    requires DottedOctets(t, 4)
    ensures ParseCore(t, rules) == Some(Core(0, |t|))
  {
    hide ParseCore, DottedOctets, DotCount, LastDot, LastDotAt;
    OctetCharacters(t, 4);
    OctetDots(t, 4);
    assert 0 <= LastDot(t) by {
      if LastDot(t) < 0 {
        NoDots(t);
      }
    }
    LastDotIs(t, LastDot(t));
    HostAlone(t, LastDot(t), rules);
  }

  /** One to three digits, leading zeros allowed, that stand for less than 256. */
  lemma OctetMeans(s: string)
    ensures Octet(s) <==>
            && 1 <= |s| <= 3 && (forall i :: 0 <= i < |s| ==> '0' <= s[i] <= '9')
            && (|s| == 3 ==> (s[0] as int - 48) * 100 + (s[1] as int - 48) * 10 + (s[2] as int - 48) < 256)
  {
    if 1 <= |s| <= 3 && AllDigits(s) {
      ThreeDigits(s);
    }
  }

  lemma ThreeDigits(s: string)
    requires 1 <= |s| <= 3 && AllDigits(s)
    ensures |s| < 3 ==> DigitValue(s) < 100
    ensures |s| == 3 ==> DigitValue(s) == (s[0] as int - 48) * 100 + (s[1] as int - 48) * 10 + (s[2] as int - 48)
  {
    assert DigitValue("") == 0;
    assert s[..1] == [s[0]] && DigitValue(s[..1]) == s[0] as int - 48 by { assert s[..1][..0] == ""; }
    if 2 <= |s| {
      assert s[..2][..1] == s[..1];
      assert DigitValue(s[..2]) == DigitValue(s[..1]) * 10 + (s[1] as int - 48);
    }
    assert s[..|s|] == s;
    if |s| == 3 {
      assert s[..3][..2] == s[..2];
    }
  }

  function Address(a: nat, b: nat, c: nat, d: nat): string {
    Number(a) + "." + (Number(b) + "." + (Number(c) + "." + Number(d)))
  }

  lemma {:induction false} NumberLength(n: nat, digits: nat, bound: nat)
    requires (digits == 1 && bound == 10) || (digits == 2 && bound == 100) || (digits == 3 && bound == 1000)
    requires n < bound
    ensures |Number(n)| <= digits
  {
    if 10 <= n {
      NumberLength(n / 10, digits - 1, bound / 10);
    }
  }

  lemma NumberOctet(n: nat)
    ensures Octet(Number(n)) <==> n < 256
  {
    hide Number;
    if n < 256 {
      NumberLength(n, 3, 1000);
    }
  }

  lemma OctetInFront(a: nat, rest: string, n: nat)
    requires 2 <= n
    ensures DottedOctets(Number(a) + "." + rest, n) <==> a < 256 && DottedOctets(rest, n - 1)
  {
    hide DottedOctets, Octet;
    var s := Number(a) + "." + rest;
    var k := |Number(a)|;
    assert s[..k] == Number(a) && s[k] == '.' && s[k + 1..] == rest;
    FirstDot(s, k, n);
    NumberOctet(a);
  }

  /** Four printed numbers are an address just when each is less than 256. */
  lemma AddressIff(a: nat, b: nat, c: nat, d: nat)
    ensures DottedOctets(Address(a, b, c, d), 4) <==> a < 256 && b < 256 && c < 256 && d < 256
  {
    hide DottedOctets, Octet, Number;
    OctetInFront(a, Number(b) + "." + (Number(c) + "." + Number(d)), 4);
    OctetInFront(b, Number(c) + "." + Number(d), 3);
    OctetInFront(c, Number(d), 2);
    NoDot(Number(d), 1);
    NumberOctet(d);
  }

  /** The characters the rules speak of. */
  lemma Characters(c: char)
    ensures PrefixChar(c) <==> c in "<*_~("
    ensures SuffixChar(c) <==> c in ">?!.,:*~)"
    ensures PathChar(c) <==> c in "/?#"
    ensures DomainChar(c) <==>
            c as int >= 0x80 || c in "0123456789" || c in "ABCDEFGHIJKLMNOPQRSTUVWXYZ" || c in "abcdefghijklmnopqrstuvwxyz" || c in "_-."
  {
  }

  // ----- how the link lies in its source

  lemma ThreeParts(s: string, a: nat, b: nat, c: nat, d: nat)
    requires a <= b <= c <= d <= |s|
    ensures s[a..d] == s[a..b] + s[b..c] + s[c..d]
    ensures s == s[..a] + s[a..d] + s[d..]
  {
    assert s[a..c] == s[a..b] + s[b..c] && s[a..d] == s[a..c] + s[c..d];
    assert s[..d] == s[..a] + s[a..d] && s == s[..d] + s[d..];
  }

  lemma SliceOfSlice(s: string, lo: nat, hi: nat, a: nat, b: nat)
    requires lo <= hi <= |s| && a <= b <= hi - lo
    ensures s[lo..hi][a..b] == s[lo + a..lo + b]
  {
    forall i | 0 <= i < b - a ensures s[lo..hi][a..b][i] == s[lo + a..lo + b][i] {
      assert s[lo..hi][a..b][i] == s[lo..hi][a + i];
    }
  }

  lemma OnlyStripped(s: string, end: nat)
    requires BackEnd(s, FrontLength(s)) <= end <= |s|
    ensures forall c :: c in s[..FrontLength(s)] ==> PrefixChar(c)
    ensures forall c :: c in s[end..] ==> SuffixChar(c)
  {
  }

  /** The borders of the parts: the protocol starts at `lo`, the host at `a`, the rest at `b`; `hi` is the stripped end. */
  lemma Located(s: string, rules: Rules) returns (lo: nat, a: nat, b: nat, hi: nat, end: nat)
    requires Parse(s, rules).Some?
    ensures lo == FrontLength(s) && lo <= a < b <= hi <= end <= |s| && hi == BackEnd(s, lo) && end == LinkEnd(s, b, hi)
    ensures ParseCore(s[lo..hi], rules) == Some(Core(a - lo, b - lo))
    ensures Parse(s, rules) == Some(Parsed(View(lo, a), View(a, b), View(b, end), View(lo, end)))
  {
    hide ParseCore, FrontLength, BackEnd, LinkEnd;
    lo := FrontLength(s);
    hi := BackEnd(s, lo);
    var core := ParseCore(s[lo..hi], rules).value;
    a, b := lo + core.hostFrom, lo + core.hostTo;
    end := LinkEnd(s, b, hi);
  }

  /** Prefix, link and suffix make up the source, protocol, host and rest the link, and only strippable characters are left out. */
  lemma Tiles(s: string, rules: Rules)
    requires Parse(s, rules).Some?
    ensures var r := Parse(s, rules).value;
            && s == s[..r.link.from] + Text(s, r.link) + s[r.link.to..]
            && Text(s, r.link) == Text(s, r.protocol) + Text(s, r.host) + Text(s, r.rest)
            && (forall c :: c in s[..r.link.from] ==> PrefixChar(c))
            && (forall c :: c in s[r.link.to..] ==> SuffixChar(c))
  {
    hide Parse, FrontLength, BackEnd, LinkEnd, PrefixChar, SuffixChar;
    var lo, a, b, hi, end := Located(s, rules);
    OnlyStripped(s, end);
    ThreeParts(s, lo, a, b, end);
  }

  /** Behind an opening parenthesis only. */
  lemma {:induction false} DepthOpens(s: string, from: nat, k: nat) returns (i: nat)
    requires k <= |s| && 0 < Depth(s, from, k)
    ensures from <= i < k && s[i] == '('
  {
    if s[k - 1] == '(' {
      i := k - 1;
    } else {
      i := DepthOpens(s, from, k - 1);
    }
  }

  /** A port that holds an opening parenthesis somewhere behind it does not care what follows. */
  lemma PortExtended(u: string, n: nat, i: nat, rules: Rules)
    requires i < n <= |u| && u[i] == '(' && !rules.isDigit('(') && PortOk(u[..n], rules)
    ensures PortOk(u, rules)
  {
    if k :| 1 <= k < n && k < 5 && PathChar(u[..n][k]) && forall i :: 0 <= i < k ==> rules.isDigit(u[..n][i]) {
      assert PathChar(u[k]) && forall i :: 0 <= i < k ==> rules.isDigit(u[i]) by {
        assert forall i :: 0 <= i <= k ==> u[..n][i] == u[i];
      }
    } else {
      assert forall i :: 0 <= i < n && i < 5 ==> rules.isDigit(u[..n][i]) && u[..n][i] == u[i];
    }
  }

  lemma RestExtended(s: string, from: nat, hi: nat, rules: Rules)
    requires from <= hi <= |s| && (forall i :: hi <= i < |s| ==> SuffixChar(s[i]))
    requires !rules.isDigit('(') && IsRest(s[from..hi], rules)
    ensures IsRest(s[from..LinkEnd(s, from, hi)], rules)
  {
    hide LinkEnd, PortOk, Depth, IsRest;
    RestMeans(s[from..hi], rules);
    RestMeans(s[from..LinkEnd(s, from, hi)], rules);
    var end := LinkEnd(s, from, hi);
    EndLaw(s, from, hi);
    if hi < end && !PathChar(s[from]) {
      ClosesMeans(s, from, end);
      var i := DepthOpens(s, from, end - 1);
      var u := s[from + 1..end];
      assert s[from..hi][1..] == u[..hi - from - 1] && s[from..end][1..] == u;
      assert u[i - from - 1] == s[i];
      PortExtended(u, hi - from - 1, i - from - 1, rules);
    }
  }

  /** The text of a link is a link of the grammar again, also when it reaches over stripped characters. */
  lemma Parts(s: string, rules: Rules)
    requires Parse(s, rules).Some? && !rules.isDigit('(')
    ensures var r := Parse(s, rules).value;
            IsLink(Text(s, r.link), Text(s, r.protocol), Text(s, r.host), Text(s, r.rest), rules)
  {
    hide Parse, ParseCore, IsHost, IsProtocol, LinkEnd, FrontLength, BackEnd, IsRest, SuffixChar, PrefixChar;
    var lo, a, b, hi, end := Located(s, rules);
    AcceptedAt(s, lo, a, b, hi, rules);
    RestExtended(s, b, hi, rules);
    NoRestNoExtension(s, b, hi);
    ThreeParts(s, lo, a, b, end);
  }

  /** Where the parts of the stripped link lie in the source. */
  lemma AcceptedAt(s: string, lo: nat, a: nat, b: nat, hi: nat, rules: Rules)
    requires lo <= a < b <= hi <= |s| && ParseCore(s[lo..hi], rules) == Some(Core(a - lo, b - lo))
    ensures IsProtocol(s[lo..a]) && IsHost(s[a..b], rules) && IsRest(s[b..hi], rules)
    ensures b == hi ==> s[b - 1] != '.'
  {
    hide ParseCore, IsHost, IsProtocol, IsRest;
    Accepted(s[lo..hi], rules);
    SliceOfSlice(s, lo, hi, 0, a - lo);
    SliceOfSlice(s, lo, hi, a - lo, b - lo);
    SliceOfSlice(s, lo, hi, b - lo, hi - lo);
  }

  lemma NoRestNoExtension(s: string, from: nat, hi: nat)
    requires from <= hi <= |s|
    ensures from == hi ==> LinkEnd(s, from, hi) == hi
  {
  }

  /** How many more parentheses open than close in `s[j..k]`. */
  function Net(s: string, j: nat, k: nat): int
    requires k <= |s|
  {
    if k <= j then 0 else Net(s, j, k - 1) + (if s[k - 1] == '(' then 1 else if s[k - 1] == ')' then -1 else 0)
  }

  /** The depth is the largest surplus of any part that ends at `k`. */
  lemma {:induction false} DepthIsSurplus(s: string, from: nat, k: nat) returns (j: nat)
    requires from <= k <= |s|
    ensures from <= j <= k && Net(s, j, k) == Depth(s, from, k)
    ensures forall i: nat :: from <= i <= k ==> Net(s, i, k) <= Depth(s, from, k)
  {
    if from == k {
      j := k;
    } else {
      j := DepthIsSurplus(s, from, k - 1);
      if s[k - 1] == ')' && Depth(s, from, k - 1) == 0 {
        j := k;
      }
    }
  }

  /** A parenthesis closes in front of `k` where one, and only one, is open. */
  ghost predicate ClosesOutermost(s: string, from: nat, k: nat) {
    && from < k <= |s| && s[k - 1] == ')'
    && OneOpen(s, from, k - 1)
  }

  ghost predicate OneOpen(s: string, from: nat, k: nat)
    requires k <= |s|
  {
    && (exists j: nat :: from <= j <= k && Net(s, j, k) == 1)
    && (forall j: nat :: from <= j <= k ==> Net(s, j, k) <= 1)
  }

  lemma ClosesMeans(s: string, from: nat, k: nat)
    ensures ClosesAt(s, from, k) <==> ClosesOutermost(s, from, k)
  {
    hide Net, Depth;
    if from < k <= |s| {
      var j := DepthIsSurplus(s, from, k - 1);
    }
  }

  /** `end` is the last position behind `hi` where a parenthesis of the rest closes to depth zero, if there is one, and else `hi`. */
  ghost predicate EndsRight(s: string, from: nat, hi: nat, end: nat) {
    && hi <= end
    && (hi < end ==> ClosesOutermost(s, from, end))
    && (from < hi ==> forall k: nat :: end < k <= |s| ==> !ClosesOutermost(s, from, k))
    && (from == hi ==> end == hi)
  }

  lemma EndLaw(s: string, from: nat, hi: nat)
    requires from <= hi <= |s|
    ensures EndsRight(s, from, hi, LinkEnd(s, from, hi))
  {
    hide ClosesAt, ClosesOutermost;
    forall k: nat ensures ClosesAt(s, from, k) <==> ClosesOutermost(s, from, k) {
      ClosesMeans(s, from, k);
    }
  }

  /** A link with a rest reaches over stripped characters exactly up to its last closing parenthesis. */
  lemma Extension(s: string, rules: Rules)
    requires Parse(s, rules).Some?
    ensures var r := Parse(s, rules).value; EndsRight(s, r.rest.from, BackEnd(s, FrontLength(s)), r.link.to)
  {
    hide Parse, FrontLength, BackEnd, LinkEnd, EndsRight;
    var lo, a, b, hi, end := Located(s, rules);
    EndLaw(s, b, hi);
  }

  // ----- parsing the link again

  /** Nesting depends only on what has been read. */
  lemma {:induction false} DepthOfPart(s: string, lo: nat, end: nat, from: nat, k: nat)
    requires lo <= from && from <= end && end <= |s| && lo <= k <= end
    ensures Depth(s[lo..end], from - lo, k - lo) == Depth(s, from, k)
  {
    if from < k {
      DepthOfPart(s, lo, end, from, k - 1);
    }
  }

  lemma ClosesInPart(s: string, lo: nat, end: nat, from: nat, k: nat)
    requires lo <= from <= end <= |s| && from < k <= end
    ensures ClosesAt(s[lo..end], from - lo, k - lo) <==> ClosesAt(s, from, k)
  {
    DepthOfPart(s, lo, end, from, k - 1);
  }

  function Shift(v: View, d: nat): View
    requires d <= v.from && d <= v.to
  {
    View(v.from - d, v.to - d)
  }

  lemma ParseAgain(s: string, rules: Rules)
    requires Parse(s, rules).Some?
    ensures var r := Parse(s, rules).value;
            var lo := r.link.from;
            && lo <= r.protocol.from <= r.protocol.to && lo <= r.host.from <= r.host.to && lo <= r.rest.from <= r.rest.to
            && Parse(Text(s, r.link), rules)
               == Some(Parsed(Shift(r.protocol, lo), Shift(r.host, lo), Shift(r.rest, lo), Shift(r.link, lo)))
  {
    hide ParseCore, LinkEnd, FrontLength, BackEnd;
    var lo := FrontLength(s);
    var hi := BackEnd(s, lo);
    var core := ParseCore(s[lo..hi], rules).value;
    var end := LinkEnd(s, lo + core.hostTo, hi);
    StripAgain(s, lo, hi, end);
    SliceOfSlice(s, lo, end, 0, hi - lo);
    EndAgain(s, lo, lo + core.hostTo, hi);
  }

  lemma StripAgain(s: string, lo: nat, hi: nat, end: nat)
    requires lo == FrontLength(s) && hi == BackEnd(s, lo) && lo < hi <= end <= |s|
    ensures FrontLength(s[lo..end]) == 0 && BackEnd(s[lo..end], 0) == hi - lo
  {
    hide FrontLength, BackEnd, PrefixChar, SuffixChar;
    FrontAgain(s, lo, end);
    BackAgain(s, lo, hi, end);
  }

  lemma FrontAgain(s: string, lo: nat, end: nat)
    requires lo == FrontLength(s) && lo < end <= |s|
    ensures FrontLength(s[lo..end]) == 0
  {
  }

  lemma BackAgain(s: string, lo: nat, hi: nat, end: nat)
    requires lo < hi <= end <= |s| && !SuffixChar(s[hi - 1]) && forall i :: hi <= i < |s| ==> SuffixChar(s[i])
    ensures BackEnd(s[lo..end], 0) == hi - lo
  {
  }

  lemma TextOfPart(s: string, link: View, v: View)
    requires In(s, link) && link.from <= v.from <= v.to <= link.to
    ensures Text(Text(s, link), Shift(v, link.from)) == Text(s, v)
  {
    SliceOfSlice(s, link.from, link.to, v.from - link.from, v.to - link.from);
  }

  /** The text of a link parses to the same protocol, host and rest, with nothing around them. */
  lemma Reparse(s: string, rules: Rules)
    requires Parse(s, rules).Some?
    ensures var r := Parse(s, rules).value;
            var text := Text(s, r.link);
            var again := Parse(text, rules);
            && again.Some?
            && again.value.link == View(0, |text|)
            && Text(text, again.value.protocol) == Text(s, r.protocol)
            && Text(text, again.value.host) == Text(s, r.host)
            && Text(text, again.value.rest) == Text(s, r.rest)
  {
    hide Text, ParseCore, LinkEnd, FrontLength, BackEnd;
    var r := Parse(s, rules).value;
    ParseAgain(s, rules);
    TextSize(s, r.link);
    TextOfPart(s, r.link, r.protocol);
    TextOfPart(s, r.link, r.host);
    TextOfPart(s, r.link, r.rest);
  }

  lemma TextSize(s: string, v: View)
    requires In(s, v)
    ensures |Text(s, v)| == v.to - v.from
  {
  }

  lemma EndAgain(s: string, lo: nat, from: nat, hi: nat)
    requires lo <= from <= hi <= |s|
    ensures var end := LinkEnd(s, from, hi);
            LinkEnd(s[lo..end], from - lo, hi - lo) == end - lo
  {
    hide ClosesAt;
    var end := LinkEnd(s, from, hi);
    var text := s[lo..end];
    if hi < end {
      ClosesInPart(s, lo, end, from, end);
      assert ClosesAt(text, from - lo, |text|);
    }
  }
}
