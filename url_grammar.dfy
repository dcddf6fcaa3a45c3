/** The language that the regular expression of `isValidUrl` (main.cpp:76-80)
    denotes, written as predicates over strings. `regex_match` must consume the
    whole input and the expression is compiled with `icase`, so a string is a
    valid URL exactly when it splits into a scheme, a host, an optional port
    and a path/query tail, each matched without regard to ASCII letter case.
    Predicates that split a string existentially are ghost: they say what is
    in the language, and UrlValidator decides it. */
module UrlGrammar {
  import opened Text

  /** `(?:http|ftp)s?://` */
  predicate IsScheme(t: string) {
    var l := Lower(t);
    l == "http://" || l == "https://" || l == "ftp://" || l == "ftps://"
  }

  /** `[A-Z0-9-]` */
  predicate IsLabelChar(c: char) { IsAlnum(c) || c == '-' }

  predicate AllLabelChars(t: string) { forall m | 0 <= m < |t| :: IsLabelChar(t[m]) }

  /** `[A-Z0-9](?:[A-Z0-9-]{0,61}[A-Z0-9])?`: 1 to 63 letters, digits or
      hyphens, beginning and ending with a letter or digit. */
  predicate IsLabel(t: string) {
    1 <= |t| <= 63 && IsAlnum(t[0]) && IsAlnum(t[|t| - 1]) && AllLabelChars(t)
  }

  /** `t` without one trailing dot, if it has one: the `\.?` of a final label. */
  function WithoutFinalDot(t: string): string {
    if |t| > 0 && t[|t| - 1] == '.' then t[..|t| - 1] else t
  }

  /** `[A-Z]{2,6}\.?` */
  predicate IsAlphaTop(t: string) {
    var core := WithoutFinalDot(t);
    2 <= |core| <= 6 && AllLetters(core)
  }

  /** `[A-Z0-9-]{2,}\.?` */
  predicate IsRunTop(t: string) {
    var core := WithoutFinalDot(t);
    2 <= |core| && AllLabelChars(core)
  }

  /** `(?:[A-Z]{2,6}\.?|[A-Z0-9-]{2,}\.?)` */
  predicate IsTopLabel(t: string) { IsAlphaTop(t) || IsRunTop(t) }

  /** `(?:LABEL\.)+TOP`, the domain alternative: a label and its dot,
      followed by either the final label or, recursively, the rest of a domain. */
  ghost predicate IsDomain(t: string)
    decreases |t|
  {
    exists d | 0 <= d < |t| ::
      t[d] == '.' && IsLabel(t[..d]) && (IsTopLabel(t[d + 1..]) || IsDomain(t[d + 1..]))
  }

  /** `localhost` */
  predicate IsLocalhost(t: string) { Lower(t) == "localhost" }

  /** `\d{1,3}` as `t[a..b]`. */
  predicate IsDigitGroup(t: string, a: int, b: int)
    requires 0 <= a <= b <= |t|
  {
    1 <= b - a <= 3 && forall m | a <= m < b :: IsDigit(t[m])
  }

  /** `\d{1,3}\.\d{1,3}\.\d{1,3}\.\d{1,3}` with its dots at `i`, `j` and `k`. */
  predicate IsIPv4At(t: string, i: int, j: int, k: int) {
    && 0 <= i < j < k < |t|
    && t[i] == '.' && t[j] == '.' && t[k] == '.'
    && IsDigitGroup(t, 0, i) && IsDigitGroup(t, i + 1, j)
    && IsDigitGroup(t, j + 1, k) && IsDigitGroup(t, k + 1, |t|)
  }

  /** Four dot-separated groups of one to three digits: no range check on the groups. */
  ghost predicate IsIPv4(t: string) {
    exists i, j, k :: IsIPv4At(t, i, j, k)
  }

  predicate AllHex(t: string) { forall m | 0 <= m < |t| :: IsHexDigit(t[m]) }

  /** `[A-F0-9:]` */
  predicate IsHexOrColon(c: char) { IsHexDigit(c) || c == ':' }

  predicate AllHexOrColon(t: string) { forall m | 0 <= m < |t| :: IsHexOrColon(t[m]) }

  /** `[A-F0-9]*:[A-F0-9:]+` */
  ghost predicate IsIPv6Core(t: string) {
    exists i | 0 <= i < |t| - 1 :: t[i] == ':' && AllHex(t[..i]) && AllHexOrColon(t[i + 1..])
  }

  /** `\[?[A-F0-9]*:[A-F0-9:]+\]?`: each bracket is optional on its own. */
  ghost predicate IsIPv6(t: string) {
    || IsIPv6Core(t)
    || (|t| >= 1 && t[0] == '[' && IsIPv6Core(t[1..]))
    || (|t| >= 1 && t[|t| - 1] == ']' && IsIPv6Core(t[..|t| - 1]))
    || (|t| >= 2 && t[0] == '[' && t[|t| - 1] == ']' && IsIPv6Core(t[1..|t| - 1]))
  }

  /** The host group of main.cpp:78-79. */
  ghost predicate IsHost(t: string) {
    IsDomain(t) || IsLocalhost(t) || IsIPv4(t) || IsIPv6(t)
  }

  /** `(?::\d+)?` */
  predicate IsPort(t: string) {
    t == [] || (|t| >= 2 && t[0] == ':' && AllDigits(t[1..]))
  }

  /** `(?:/?|[/?]\S+)` */
  predicate IsTail(t: string) {
    t == [] || t == "/" || (|t| >= 2 && (t[0] == '/' || t[0] == '?') && NoSpace(t[1..]))
  }

  /** `s` is scheme `s[..i]`, host `s[i..j]`, port `s[j..k]` and tail `s[k..]`. */
  ghost predicate IsUrlSplit(s: string, i: int, j: int, k: int) {
    && 0 <= i <= j <= k <= |s|
    && IsScheme(s[..i]) && IsHost(s[i..j]) && IsPort(s[j..k]) && IsTail(s[k..])
  }

  /** Whole-string membership in the language of the expression. */
  ghost predicate InUrlLanguage(s: string) {
    exists i, j, k :: IsUrlSplit(s, i, j, k)
  }

  /** The characters a host can contain. */
  predicate IsHostChar(c: char) {
    IsAlnum(c) || c == '-' || c == '.' || c == ':' || c == '[' || c == ']'
  }

  predicate AllHostChars(t: string) { forall m | 0 <= m < |t| :: IsHostChar(t[m]) }

  /** The `[A-Z]{2,6}\.?` alternative adds nothing: its strings are all
      matched by `[A-Z0-9-]{2,}\.?`, so a final label is any run of two or
      more letters, digits or hyphens. */
  lemma AlphaTopIsRunTop(t: string)
    requires IsAlphaTop(t)
    ensures IsRunTop(t)
  {
    var core := WithoutFinalDot(t);
    forall m | 0 <= m < |core| ensures IsLabelChar(core[m]) {
      assert IsLetter(core[m]);
    }
  }

  lemma TopLabelIsRunTop(t: string)
    ensures IsTopLabel(t) <==> IsRunTop(t)
  {
    if IsAlphaTop(t) {
      AlphaTopIsRunTop(t);
    }
  }

  lemma HostCharsConcat(x: string, y: string)
    requires AllHostChars(x) && AllHostChars(y)
    ensures AllHostChars(x + y)
  {
    forall m | 0 <= m < |x + y| ensures IsHostChar((x + y)[m]) {
      if m >= |x| {
        assert (x + y)[m] == y[m - |x|];
      }
    }
  }

  lemma LabelCharsAreHostChars(t: string)
    requires AllLabelChars(t)
    ensures AllHostChars(t)
  {
    forall m | 0 <= m < |t| ensures IsHostChar(t[m]) {
      assert IsLabelChar(t[m]);
    }
  }

  lemma TopLabelAlphabet(top: string)
    requires IsTopLabel(top)
    ensures AllHostChars(top)
  {
    TopLabelIsRunTop(top);
    var core := WithoutFinalDot(top);
    LabelCharsAreHostChars(core);
    if core != top {
      assert top == core + ".";
      assert AllHostChars(".");
      HostCharsConcat(core, ".");
    }
  }

  lemma LocalhostAlphabet(t: string)
    requires IsLocalhost(t)
    ensures AllHostChars(t)
  {
    forall m | 0 <= m < |t| ensures IsHostChar(t[m]) {
      assert Lower(t)[m] == LowerChar(t[m]);
      LowerCharClasses(t[m]);
      assert IsLetter(Lower(t)[m]);
    }
  }

  /** A string whose parts before and after position `p` are host
      characters, as is the character at `p`, consists of host characters. */
  lemma HostCharsAround(u: string, p: int)
    requires 0 <= p < |u|
    requires AllHostChars(u[..p]) && IsHostChar(u[p]) && AllHostChars(u[p + 1..])
    ensures AllHostChars(u)
  {
    forall m | 0 <= m < |u| ensures IsHostChar(u[m]) {
      if m < p {
        assert u[m] == u[..p][m];
      } else if m > p {
        assert u[m] == u[p + 1..][m - p - 1];
      }
    }
  }

  lemma IPv4Witness(t: string) returns (i: int, j: int, k: int)
    requires IsIPv4(t)
    ensures IsIPv4At(t, i, j, k)
  {
    i, j, k :| IsIPv4At(t, i, j, k);
  }

  lemma IPv4Intro(t: string, i: int, j: int, k: int)
    requires IsIPv4At(t, i, j, k)
    ensures IsIPv4(t)
  {
  }

  lemma IPv4Alphabet(t: string)
    requires IsIPv4(t)
    ensures AllHostChars(t)
  {
    var i, j, k := IPv4Witness(t);
    IPv4AtAlphabet(t, i, j, k);
  }

  lemma IPv4AtAlphabet(t: string, i: int, j: int, k: int)
    requires IsIPv4At(t, i, j, k)
    ensures AllHostChars(t)
  {
    forall m | 0 <= m < |t| ensures IsHostChar(t[m]) {
    }
  }

  /** Every character of a host is a letter, digit, `-`, `.`, `:`, `[` or
      `]`; in particular a host holds no `/`, `?` or whitespace. */
  lemma HostAlphabet(t: string)
    requires IsHost(t)
    ensures AllHostChars(t)
  {
    if IsDomain(t) {
      DomainAlphabet(t);
    } else if IsLocalhost(t) {
      LocalhostAlphabet(t);
    } else if IsIPv4(t) {
      IPv4Alphabet(t);
    } else {
      IPv6Alphabet(t);
    }
  }

  lemma IPv6CoreWitness(t: string) returns (i: int)
    requires IsIPv6Core(t)
    ensures 0 <= i < |t| - 1 && t[i] == ':' && AllHex(t[..i]) && AllHexOrColon(t[i + 1..])
  {
    i :| 0 <= i < |t| - 1 && t[i] == ':' && AllHex(t[..i]) && AllHexOrColon(t[i + 1..]);
  }

  lemma IPv6CoreIntro(t: string, i: int)
    requires 0 <= i < |t| - 1 && t[i] == ':' && AllHex(t[..i]) && AllHexOrColon(t[i + 1..])
    ensures IsIPv6Core(t)
  {
  }

  lemma IPv6CoreAlphabet(t: string)
    requires IsIPv6Core(t)
    ensures AllHexOrColon(t)
  {
    var i := IPv6CoreWitness(t);
    forall m | 0 <= m < |t| ensures IsHexOrColon(t[m]) {
      if m < i {
        assert t[m] == t[..i][m];
      } else if m > i {
        assert t[m] == t[i + 1..][m - i - 1];
      }
    }
  }

  /** The characters of `t[a..b]` are hex digits or colons and the others are brackets. */
  lemma BracketedAlphabet(t: string, a: int, b: int)
    requires 0 <= a <= b <= |t|
    requires AllHexOrColon(t[a..b])
    requires forall m | 0 <= m < a :: t[m] == '['
    requires forall m | b <= m < |t| :: t[m] == ']'
    ensures AllHostChars(t)
  {
    forall m | 0 <= m < |t| ensures IsHostChar(t[m]) {
      if a <= m < b {
        assert t[m] == t[a..b][m - a];
        assert IsHexOrColon(t[a..b][m - a]);
      }
    }
  }

  lemma BracketedCoreAlphabet(t: string, a: int, b: int)
    requires 0 <= a <= b <= |t| && IsIPv6Core(t[a..b])
    requires forall m | 0 <= m < a :: t[m] == '['
    requires forall m | b <= m < |t| :: t[m] == ']'
    ensures AllHostChars(t)
  {
    IPv6CoreAlphabet(t[a..b]);
    BracketedAlphabet(t, a, b);
  }

  lemma IPv6Alphabet(t: string)
    requires IsIPv6(t)
    ensures AllHostChars(t)
  {
    if IsIPv6Core(t) {
      assert t[0..|t|] == t;
      BracketedCoreAlphabet(t, 0, |t|);
    } else if |t| >= 1 && t[0] == '[' && IsIPv6Core(t[1..]) {
      assert t[1..|t|] == t[1..];
      BracketedCoreAlphabet(t, 1, |t|);
    } else if |t| >= 1 && t[|t| - 1] == ']' && IsIPv6Core(t[..|t| - 1]) {
      assert t[0..|t| - 1] == t[..|t| - 1];
      BracketedCoreAlphabet(t, 0, |t| - 1);
    } else {
      BracketedCoreAlphabet(t, 1, |t| - 1);
    }
  }

  // ---------------------------------------------------------------------
  // Domains one label at a time

  lemma DomainIntro(u: string, d: int)
    requires 0 <= d < |u| && u[d] == '.' && IsLabel(u[..d])
    requires IsTopLabel(u[d + 1..]) || IsDomain(u[d + 1..])
    ensures IsDomain(u)
  {
  }

  /** A domain starts with a label that ends at its first dot, followed by
      either a final label or another domain. */
  lemma DomainUncons(u: string) returns (d: nat)
    requires IsDomain(u)
    ensures d < |u| && u[d] == '.' && IsLabel(u[..d])
    ensures forall m | 0 <= m < d :: u[m] != '.'
    ensures IsTopLabel(u[d + 1..]) || IsDomain(u[d + 1..])
  {
    d :| 0 <= d < |u| && u[d] == '.' && IsLabel(u[..d]) && (IsTopLabel(u[d + 1..]) || IsDomain(u[d + 1..]));
    LabelBeforeDot(u, d);
  }

  /** A label holds no dot. */
  lemma LabelBeforeDot(u: string, d: int)
    requires 0 <= d <= |u| && IsLabel(u[..d])
    ensures forall m | 0 <= m < d :: u[m] != '.'
  {
    forall m | 0 <= m < d ensures u[m] != '.' {
      assert u[m] == u[..d][m];
      assert IsLabelChar(u[..d][m]);
    }
  }

  /** Every character of a domain is a host character. */
  lemma {:induction false} DomainAlphabet(t: string)
    requires IsDomain(t)
    ensures AllHostChars(t)
    decreases |t|
  {
    var d := DomainUncons(t);
    LabelCharsAreHostChars(t[..d]);
    if IsTopLabel(t[d + 1..]) {
      TopLabelAlphabet(t[d + 1..]);
    } else {
      DomainAlphabet(t[d + 1..]);
    }
    HostCharsAround(t, d);
  }
}
