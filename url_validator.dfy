/** A deterministic checker for the language of UrlGrammar, the model of
    `isValidUrl` (main.cpp:75-82), proved to accept exactly that language.
    No backtracking is needed: a host and a port contain neither `/` nor `?`,
    so the tail starts at the first of them, and a port holds no colon but its
    first character, so the port starts at the last colon. */
module UrlValidator {
  import opened Text
  import opened UrlGrammar

  /** How many characters the scheme takes at the start of `s`, or 0 when
      `s` does not start with one. */
  function SchemeLength(s: string): (n: nat)
    ensures n <= |s|
    ensures n != 0 ==> IsScheme(s[..n])
  {
    if 8 <= |s| && Lower(s[..8]) == "https://" then 8
    else if 7 <= |s| && (Lower(s[..7]) == "http://" || Lower(s[..7]) == "ftps://") then 7
    else if 6 <= |s| && Lower(s[..6]) == "ftp://" then 6
    else 0
  }

  /** The domain alternative: a label ending at the first dot, then either
      the final label or another domain. */
  predicate DomainExec(t: string)
    decreases |t|
  {
    var d := IndexOfAny(t, {'.'}, 0);
    d < |t| && IsLabel(t[..d]) && (IsTopLabel(t[d + 1..]) || DomainExec(t[d + 1..]))
  }

  /** Four digit groups separated by the first three dots. */
  predicate IPv4Exec(t: string) {
    var i := IndexOfAny(t, {'.'}, 0);
    var j := if i < |t| then IndexOfAny(t, {'.'}, i + 1) else |t|;
    var k := if j < |t| then IndexOfAny(t, {'.'}, j + 1) else |t|;
    k < |t| && IsIPv4At(t, i, j, k)
  }

  /** `[A-F0-9]*:[A-F0-9:]+`: hex digits and colons, with a colon before the last character. */
  predicate IPv6CoreExec(t: string) {
    AllHexOrColon(t) && IndexOfAny(t, {':'}, 0) < |t| - 1
  }

  /** A core with an optional `[` before it and an optional `]` after it. */
  predicate IPv6Exec(t: string) {
    var a := if |t| > 0 && t[0] == '[' then 1 else 0;
    var b := if |t| > a && t[|t| - 1] == ']' then |t| - 1 else |t|;
    IPv6CoreExec(t[a..b])
  }

  predicate HostExec(t: string) {
    DomainExec(t) || IsLocalhost(t) || IPv4Exec(t) || IPv6Exec(t)
  }

  /** A host, optionally followed by a port that starts at the last colon. */
  predicate HostPortExec(t: string) {
    || HostExec(t)
    || (var c := LastIndexOf(t, ':'); 0 <= c && IsPort(t[c..]) && HostExec(t[..c]))
  }

  /** The validator: scheme, then host and port up to the first `/` or `?`,
      then the tail. */
  predicate IsValidUrl(s: string) {
    var n := SchemeLength(s);
    n > 0 &&
    var k := IndexOfAny(s, {'/', '?'}, n);
    IsTail(s[k..]) && HostPortExec(s[n..k])
  }

  /** A host followed by an optional port in the grammar's sense. */
  ghost predicate IsHostPort(t: string) {
    exists j | 0 <= j <= |t| :: IsHost(t[..j]) && IsPort(t[j..])
  }

  // ---------------------------------------------------------------------
  // The scheme

  lemma LowerPrefix(s: string, a: int, b: int)
    requires 0 <= a <= b <= |s|
    ensures Lower(s[..b])[..a] == Lower(s[..a])
  {
    assert s[..b][..a] == s[..a];
    LowerSlice(s[..b], 0, a);
  }

  /** A scheme at the start of `s` is the one SchemeLength finds. */
  lemma SchemeLengthExact(s: string, i: int)
    requires 0 <= i <= |s| && IsScheme(s[..i])
    ensures SchemeLength(s) == i
  {
    if i == 7 && 8 <= |s| {
      LowerPrefix(s, 7, 8);
      assert Lower(s[..8])[4] == Lower(s[..7])[4];
    } else if i == 6 {
      if 8 <= |s| {
        LowerPrefix(s, 6, 8);
        assert Lower(s[..8])[0] == Lower(s[..6])[0];
      }
      if 7 <= |s| {
        LowerPrefix(s, 6, 7);
        assert Lower(s[..7])[3] == Lower(s[..6])[3];
      }
    }
  }

  // ---------------------------------------------------------------------
  // Domains

  lemma {:induction false} DomainExecSound(t: string)
    requires DomainExec(t)
    ensures IsDomain(t)
    decreases |t|
  {
    var d := IndexOfAny(t, {'.'}, 0);
    DomainExecUnfold(t, d);
    if !IsTopLabel(t[d + 1..]) {
      DomainExecSound(t[d + 1..]);
    }
    DomainIntro(t, d);
  }

  /** DomainExec with the first dot named. */
  lemma DomainExecUnfold(t: string, d: int)
    requires d == IndexOfAny(t, {'.'}, 0)
    ensures DomainExec(t) == (d < |t| && IsLabel(t[..d]) && (IsTopLabel(t[d + 1..]) || DomainExec(t[d + 1..])))
  {
  }

  /** The dot that ends a leading label is the first dot. */
  lemma FirstDot(t: string, d: int)
    requires 0 <= d < |t| && t[d] == '.' && IsLabel(t[..d])
    ensures IndexOfAny(t, {'.'}, 0) == d
  {
    LabelBeforeDot(t, d);
    IndexOfAnyAt(t, {'.'}, 0, d);
  }

  lemma {:induction false} DomainExecComplete(t: string)
    requires IsDomain(t)
    ensures DomainExec(t)
    decreases |t|
  {
    var d := DomainUncons(t);
    FirstDot(t, d);
    if !IsTopLabel(t[d + 1..]) {
      DomainExecComplete(t[d + 1..]);
    }
    DomainExecStep(t, d);
  }

  lemma DomainExecStep(t: string, d: int)
    requires 0 <= d < |t| && IndexOfAny(t, {'.'}, 0) == d && IsLabel(t[..d])
    requires IsTopLabel(t[d + 1..]) || DomainExec(t[d + 1..])
    ensures DomainExec(t)
  {
  }

  lemma DomainExecCorrect(t: string)
    ensures DomainExec(t) <==> IsDomain(t)
  {
    if DomainExec(t) { DomainExecSound(t); }
    if IsDomain(t) { DomainExecComplete(t); }
  }

  // ---------------------------------------------------------------------
  // IPv4-shaped addresses

  lemma GroupBeforeDot(t: string, a: nat, i: int)
    requires a <= i < |t| && IsDigitGroup(t, a, i) && t[i] == '.'
    ensures IndexOfAny(t, {'.'}, a) == i
  {
    IndexOfAnyAt(t, {'.'}, a, i);
  }

  lemma IPv4ExecComplete(t: string, i: int, j: int, k: int)
    requires IsIPv4At(t, i, j, k)
    ensures IPv4Exec(t)
  {
    GroupBeforeDot(t, 0, i);
    GroupBeforeDot(t, i + 1, j);
    GroupBeforeDot(t, j + 1, k);
    IPv4ExecStep(t, i, j, k);
  }

  lemma IPv4ExecStep(t: string, i: int, j: int, k: int)
    requires IsIPv4At(t, i, j, k)
    requires IndexOfAny(t, {'.'}, 0) == i && IndexOfAny(t, {'.'}, i + 1) == j
    requires IndexOfAny(t, {'.'}, j + 1) == k
    ensures IPv4Exec(t)
  {
  }

  lemma IPv4ExecCorrect(t: string)
    ensures IPv4Exec(t) <==> IsIPv4(t)
  {
    if IsIPv4(t) {
      var i, j, k := IPv4Witness(t);
      IPv4ExecComplete(t, i, j, k);
    }
  }

  // ---------------------------------------------------------------------
  // IPv6-shaped tokens

  lemma IPv6CoreExecCorrect(t: string)
    ensures IPv6CoreExec(t) <==> IsIPv6Core(t)
  {
    if IPv6CoreExec(t) {
      var i := IndexOfAny(t, {':'}, 0);
      forall m | 0 <= m < i ensures IsHexDigit(t[..i][m]) {
        assert t[..i][m] == t[m];
        assert IsHexOrColon(t[m]) && t[m] != ':';
      }
      var u := t[i + 1..];
      forall m | 0 <= m < |u| ensures IsHexOrColon(u[m]) {
        assert u[m] == t[i + 1 + m];
      }
      assert t[i] == ':' && AllHex(t[..i]) && AllHexOrColon(t[i + 1..]);
    }
    if IsIPv6Core(t) {
      var i := IPv6CoreWitness(t);
      forall m | 0 <= m < |t| ensures IsHexOrColon(t[m]) {
        if m < i {
          assert t[m] == t[..i][m];
        } else if m > i {
          assert t[m] == t[i + 1..][m - i - 1];
        }
      }
      assert IndexOfAny(t, {':'}, 0) <= i;
    }
  }

  lemma CoreHasNoBracket(t: string)
    requires IPv6CoreExec(t)
    ensures |t| >= 2 && t[0] != '[' && t[|t| - 1] != ']'
  {
    assert IsHexOrColon(t[0]) && IsHexOrColon(t[|t| - 1]);
  }

  /** Every bracket variant of the grammar is found by IPv6Exec. */
  lemma IPv6ExecComplete(t: string)
    requires IsIPv6(t)
    ensures IPv6Exec(t)
  {
    var a := if |t| > 0 && t[0] == '[' then 1 else 0;
    var b := if |t| > a && t[|t| - 1] == ']' then |t| - 1 else |t|;
    if IsIPv6Core(t) {
      IPv6CoreExecCorrect(t);
      CoreHasNoBracket(t);
      assert t[a..b] == t;
    } else if |t| >= 1 && t[0] == '[' && IsIPv6Core(t[1..]) {
      IPv6CoreExecCorrect(t[1..]);
      CoreHasNoBracket(t[1..]);
      assert t[|t| - 1] == t[1..][|t| - 2];
      assert t[a..b] == t[1..];
    } else if |t| >= 1 && t[|t| - 1] == ']' && IsIPv6Core(t[..|t| - 1]) {
      IPv6CoreExecCorrect(t[..|t| - 1]);
      CoreHasNoBracket(t[..|t| - 1]);
      assert t[0] == t[..|t| - 1][0];
      assert t[a..b] == t[..|t| - 1];
    } else {
      assert t[a..b] == t[1..|t| - 1];
      IPv6CoreExecCorrect(t[a..b]);
    }
  }

  lemma IPv6ExecCorrect(t: string)
    ensures IPv6Exec(t) <==> IsIPv6(t)
  {
    if IsIPv6(t) {
      IPv6ExecComplete(t);
    }
    if IPv6Exec(t) {
      var a := if |t| > 0 && t[0] == '[' then 1 else 0;
      var b := if |t| > a && t[|t| - 1] == ']' then |t| - 1 else |t|;
      IPv6CoreExecCorrect(t[a..b]);
      if a == 0 && b == |t| {
        assert t[a..b] == t;
      } else if a == 1 && b == |t| {
        assert t[a..b] == t[1..];
      } else if a == 0 {
        assert t[a..b] == t[..|t| - 1];
      } else {
        assert t[a..b] == t[1..|t| - 1];
      }
    }
  }

  // ---------------------------------------------------------------------
  // Hosts and ports

  lemma HostExecCorrect(t: string)
    ensures HostExec(t) <==> IsHost(t)
  {
    DomainExecCorrect(t);
    IPv4ExecCorrect(t);
    IPv6ExecCorrect(t);
  }

  lemma HostPortIntro(t: string, j: int)
    requires 0 <= j <= |t| && IsHost(t[..j]) && IsPort(t[j..])
    ensures IsHostPort(t)
  {
  }

  lemma HostPortWitness(t: string) returns (j: nat)
    requires IsHostPort(t)
    ensures j <= |t| && IsHost(t[..j]) && IsPort(t[j..])
  {
    j :| 0 <= j <= |t| && IsHost(t[..j]) && IsPort(t[j..]);
  }

  lemma HostPortExecSound(t: string)
    requires HostPortExec(t)
    ensures IsHostPort(t)
  {
    if HostExec(t) {
      HostExecCorrect(t);
      assert t[..|t|] == t;
      HostPortIntro(t, |t|);
    } else {
      var c := LastIndexOf(t, ':');
      HostExecCorrect(t[..c]);
      HostPortIntro(t, c);
    }
  }

  /** A port holds no colon but its first character. */
  lemma PortAtLastColon(t: string, j: int)
    requires 0 <= j < |t| && IsPort(t[j..])
    ensures LastIndexOf(t, ':') == j
  {
    PortDigits(t[j..]);
    forall m | j < m < |t| ensures t[m] != ':' {
      assert t[m] == t[j..][m - j];
    }
    LastIndexOfAt(t, ':', j);
  }

  lemma PortDigits(p: string)
    requires IsPort(p)
    ensures forall m | 1 <= m < |p| :: IsDigit(p[m])
  {
    forall m | 1 <= m < |p| ensures IsDigit(p[m]) {
      assert p[m] == p[1..][m - 1];
    }
  }

  lemma HostPortExecComplete(t: string)
    requires IsHostPort(t)
    ensures HostPortExec(t)
  {
    var j := HostPortWitness(t);
    if j == |t| {
      assert t[..j] == t;
      HostExecCorrect(t);
    } else {
      PortAtLastColon(t, j);
      HostExecCorrect(t[..j]);
    }
  }

  lemma HostPortExecCorrect(t: string)
    ensures HostPortExec(t) <==> IsHostPort(t)
  {
    if HostPortExec(t) { HostPortExecSound(t); }
    if IsHostPort(t) { HostPortExecComplete(t); }
  }

  // ---------------------------------------------------------------------
  // The whole URL

  lemma PortAlphabet(t: string)
    requires IsPort(t)
    ensures AllHostChars(t)
  {
    PortDigits(t);
  }

  lemma IsValidUrlSound(s: string)
    requires IsValidUrl(s)
    ensures InUrlLanguage(s)
  {
    var n := SchemeLength(s);
    IsValidUrlSoundAt(s, n, IndexOfAny(s, {'/', '?'}, n));
  }

  lemma IsValidUrlSoundAt(s: string, n: nat, k: nat)
    requires 0 < n <= k <= |s| && IsScheme(s[..n])
    requires IsTail(s[k..]) && HostPortExec(s[n..k])
    ensures InUrlLanguage(s)
  {
    var j := HostPortSplit(s, n, k);
    UrlSplitIntro(s, n, j, k);
  }

  /** Where the host of `s[n..k]` ends, counted in `s`. */
  lemma HostPortSplit(s: string, n: nat, k: nat) returns (j: nat)
    requires n <= k <= |s| && HostPortExec(s[n..k])
    ensures n <= j <= k && IsHost(s[n..j]) && IsPort(s[j..k])
  {
    var hp := s[n..k];
    if HostExec(hp) {
      HostExecCorrect(hp);
      j := k;
    } else {
      var c := LastIndexOf(hp, ':');
      j := n + c;
      SliceSplit(s, n, j, k);
      HostTransfer(hp[..c], s[n..j]);
      HostExecCorrect(s[n..j]);
    }
  }

  lemma HostTransfer(x: string, y: string)
    requires x == y && HostExec(x)
    ensures HostExec(y)
  {
  }

  lemma SliceSplit(s: string, i: int, j: int, k: int)
    requires 0 <= i <= j <= k <= |s|
    ensures s[i..k][..j - i] == s[i..j] && s[i..k][j - i..] == s[j..k]
  {
  }

  lemma UrlSplitIntro(s: string, i: int, j: int, k: int)
    requires IsUrlSplit(s, i, j, k)
    ensures InUrlLanguage(s)
  {
  }

  lemma UrlSplitWitness(s: string) returns (i: nat, j: nat, k: nat)
    requires InUrlLanguage(s)
    ensures IsUrlSplit(s, i, j, k)
  {
    i, j, k :| IsUrlSplit(s, i, j, k);
  }

  lemma IsValidUrlComplete(s: string)
    requires InUrlLanguage(s)
    ensures IsValidUrl(s)
  {
    var i, j, k := UrlSplitWitness(s);
    IsValidUrlCompleteAt(s, i, j, k);
  }

  /** Host and port contain neither `/` nor `?`, so the tail starts at the
      first of them after the scheme. */
  lemma TailStart(s: string, i: nat, k: nat)
    requires i <= k <= |s| && AllHostChars(s[i..k])
    requires k < |s| ==> s[k] in {'/', '?'}
    ensures IndexOfAny(s, {'/', '?'}, i) == k
  {
    forall m | i <= m < k ensures s[m] !in {'/', '?'} {
      assert s[m] == s[i..k][m - i];
    }
    IndexOfAnyAt(s, {'/', '?'}, i, k);
  }

  lemma HostPortOfSplit(s: string, i: nat, j: nat, k: nat)
    requires i <= j <= k <= |s| && IsHost(s[i..j]) && IsPort(s[j..k])
    ensures IsHostPort(s[i..k]) && AllHostChars(s[i..k])
  {
    HostAlphabet(s[i..j]);
    PortAlphabet(s[j..k]);
    HostCharsJoin(s, i, j, k);
    HostPortJoin(s[i..k], s[i..j], s[j..k]);
  }

  lemma HostPortJoin(t: string, host: string, port: string)
    requires t == host + port && IsHost(host) && IsPort(port)
    ensures IsHostPort(t)
  {
    assert t[..|host|] == host && t[|host|..] == port;
  }

  lemma HostCharsJoin(s: string, i: nat, j: nat, k: nat)
    requires i <= j <= k <= |s| && AllHostChars(s[i..j]) && AllHostChars(s[j..k])
    ensures AllHostChars(s[i..k]) && s[i..k] == s[i..j] + s[j..k]
  {
    HostCharsConcat(s[i..j], s[j..k]);
    assert s[i..k] == s[i..j] + s[j..k];
  }

  lemma IsValidUrlCompleteAt(s: string, i: nat, j: nat, k: nat)
    requires IsUrlSplit(s, i, j, k)
    ensures IsValidUrl(s)
  {
    SchemeLengthExact(s, i);
    HostPortOfSplit(s, i, j, k);
    TailStart(s, i, k);
    HostPortExecCorrect(s[i..k]);
  }

  /** The checker decides the language of the expression: it accepts a
      string exactly when `regex_match` against main.cpp:76-80 would. */
  lemma IsValidUrlCorrect(s: string)
    ensures IsValidUrl(s) <==> InUrlLanguage(s)
  {
    if IsValidUrl(s) { IsValidUrlSound(s); }
    if InUrlLanguage(s) { IsValidUrlComplete(s); }
  }
}
