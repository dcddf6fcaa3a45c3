/** What `isValidUrl` (main.cpp:75-82) promises about the strings it accepts,
    and the verdicts it gives on particular strings. */
module UrlProperties {
  import opened Text
  import opened UrlGrammar
  import opened UrlValidator
  import opened UrlCase

  /** `l` starts with one of the four schemes, written in lower case. */
  predicate StartsWithScheme(l: string) {
    || (|l| >= 7 && l[..7] == "http://")
    || (|l| >= 8 && l[..8] == "https://")
    || (|l| >= 6 && l[..6] == "ftp://")
    || (|l| >= 7 && l[..7] == "ftps://")
  }

  /** Every accepted string starts with `http://`, `https://`, `ftp://` or
      `ftps://` in any mix of letter case. */
  lemma ValidUrlHasScheme(s: string)
    requires IsValidUrl(s)
    ensures StartsWithScheme(Lower(s))
  {
    var n := SchemeLength(s);
    LowerTake(s, n);
  }

  /** Without a scheme in front, a string is rejected; in particular the empty
      string is. */
  lemma SchemeRequired(s: string)
    ensures !StartsWithScheme(Lower(s)) ==> !IsValidUrl(s)
    ensures !IsValidUrl("")
  {
    if IsValidUrl(s) {
      ValidUrlHasScheme(s);
    }
  }

  lemma SchemeNoSpace(t: string)
    requires IsScheme(t)
    ensures NoSpace(t)
  {
    assert NoSpace(Lower(t));
    LowerStringClasses(t);
  }

  lemma HostCharsNoSpace(t: string)
    requires AllHostChars(t)
    ensures NoSpace(t)
  {
    forall m | 0 <= m < |t| ensures !IsSpace(t[m]) {
      assert IsHostChar(t[m]);
    }
  }

  lemma TailNoSpace(t: string)
    requires IsTail(t)
    ensures NoSpace(t)
  {
    forall m | 0 <= m < |t| ensures !IsSpace(t[m]) {
      if m > 0 {
        assert t[m] == t[1..][m - 1];
      }
    }
  }

  lemma NoSpaceJoin(s: string, i: int, j: int, k: int)
    requires 0 <= i <= j <= k <= |s|
    requires NoSpace(s[..i]) && NoSpace(s[i..j]) && NoSpace(s[j..k]) && NoSpace(s[k..])
    ensures NoSpace(s)
  {
    forall m | 0 <= m < |s| ensures !IsSpace(s[m]) {
      if m < i {
        assert s[m] == s[..i][m];
      } else if m < j {
        assert s[m] == s[i..j][m - i];
      } else if m < k {
        assert s[m] == s[j..k][m - j];
      } else {
        assert s[m] == s[k..][m - k];
      }
    }
  }

  /** `\S+` and the host alphabet leave no room for whitespace: a string with
      a space, tab, line break, vertical tab, form feed or carriage return
      anywhere in it is rejected. */
  lemma ValidUrlHasNoSpace(s: string)
    requires IsValidUrl(s)
    ensures NoSpace(s)
  {
    IsValidUrlCorrect(s);
    var i, j, k := UrlSplitWitness(s);
    SchemeNoSpace(s[..i]);
    HostAlphabet(s[i..j]);
    HostCharsNoSpace(s[i..j]);
    PortAlphabet(s[j..k]);
    HostCharsNoSpace(s[j..k]);
    TailNoSpace(s[k..]);
    NoSpaceJoin(s, i, j, k);
  }

  lemma WhitespaceRejected(s: string, m: int)
    requires 0 <= m < |s| && IsSpace(s[m])
    ensures !IsValidUrl(s)
  {
    if IsValidUrl(s) {
      ValidUrlHasNoSpace(s);
    }
  }

  // ---------------------------------------------------------------------
  // Verdicts on particular strings

  lemma ConcatSlices(s: string, a: string, b: string, c: string, d: string, i: int, j: int, k: int)
    requires s == a + b + c + d && i == |a| && j == i + |b| && k == j + |c|
    ensures 0 <= i <= j <= k <= |s|
    ensures s[..i] == a && s[i..j] == b && s[j..k] == c && s[k..] == d
  {
  }

  lemma GrammarOfParts(s: string, scheme: string, host: string, port: string, tail: string)
    requires s == scheme + host + port + tail
    requires IsScheme(scheme) && IsHost(host) && IsPort(port) && IsTail(tail)
    ensures InUrlLanguage(s)
  {
    var i, j, k := |scheme|, |scheme| + |host|, |scheme| + |host| + |port|;
    ConcatSlices(s, scheme, host, port, tail, i, j, k);
    UrlSplitIntro(s, i, j, k);
  }

  /** A scheme, a host, a port and a tail, one after the other, are a valid URL. */
  lemma UrlOfParts(scheme: string, host: string, port: string, tail: string)
    requires IsScheme(scheme) && IsHost(host) && IsPort(port) && IsTail(tail)
    ensures IsValidUrl(scheme + host + port + tail)
  {
    var s := scheme + host + port + tail;
    GrammarOfParts(s, scheme, host, port, tail);
    IsValidUrlCorrect(s);
  }

  lemma Schemes()
    ensures IsScheme("http://") && IsScheme("https://") && IsScheme("ftp://")
  {
  }

  lemma Tails()
    ensures IsTail("") && IsTail("/") && IsTail("/video?id=1")
  {
  }

  lemma Ports()
    ensures IsPort("") && IsPort(":21")
  {
  }

  /** A label, a dot and a final label make a domain host. */
  lemma DomainOfLabels(first: string, top: string)
    requires IsLabel(first) && IsTopLabel(top)
    ensures IsHost(first + "." + top)
  {
    var h := first + "." + top;
    assert h[..|first|] == first && h[|first| + 1..] == top;
    DomainIntro(h, |first|);
  }

  lemma Labels()
    ensures IsLabel("example") && IsTopLabel("com")
    ensures IsLabel("EXAMPLE") && IsTopLabel("COM")
    ensures IsTopLabel("123")
  {
  }

  lemma VideoLinkParts()
    ensures "example" + "." + "com" == "example.com"
    ensures "https://" + "example.com" + "" + "/video?id=1" == "https://example.com/video?id=1"
  {
  }

  lemma AcceptsVideoLink()
    ensures IsValidUrl("https://example.com/video?id=1")
  {
    Schemes();
    Ports();
    Tails();
    Labels();
    DomainOfLabels("example", "com");
    VideoLinkParts();
    UrlOfParts("https://", "example.com", "", "/video?id=1");
  }

  lemma UpperCaseConcat()
    ensures "EXAMPLE" + "." + "COM" == "EXAMPLE.COM"
    ensures "HTTPS://" + "EXAMPLE.COM" + "" + "/video?id=1" == "HTTPS://EXAMPLE.COM/video?id=1"
  {
  }

  lemma UpperCaseScheme()
    ensures IsScheme("HTTPS://")
  {
    assert Lower("HTTPS://") == "https://";
  }

  /** Letter case does not matter, in the scheme or in the host. */
  lemma AcceptsUpperCase()
    ensures IsValidUrl("HTTPS://EXAMPLE.COM/video?id=1")
  {
    Ports();
    Tails();
    UpperCaseScheme();
    Labels();
    DomainOfLabels("EXAMPLE", "COM");
    UpperCaseConcat();
    UrlOfParts("HTTPS://", "EXAMPLE.COM", "", "/video?id=1");
  }

  lemma LocalhostConcat()
    ensures "ftp://" + "localhost" + ":21" + "/" == "ftp://localhost:21/"
  {
  }

  lemma LocalhostParts()
    ensures IsHost("localhost")
  {
    assert IsLocalhost("localhost");
  }

  lemma AcceptsLocalhostWithPort()
    ensures IsValidUrl("ftp://localhost:21/")
  {
    Schemes();
    Ports();
    Tails();
    LocalhostParts();
    LocalhostConcat();
    UrlOfParts("ftp://", "localhost", ":21", "/");
  }

  lemma OutOfRangeConcat()
    ensures "http://" + "999.999.999.999" + "" + "" == "http://999.999.999.999"
  {
  }

  lemma OutOfRangeParts()
    ensures IsHost("999.999.999.999")
  {
    IPv4Intro("999.999.999.999", 3, 7, 11);
  }

  /** The four groups of an IPv4-shaped host are not range-checked. */
  lemma AcceptsOutOfRangeIPv4()
    ensures IsValidUrl("http://999.999.999.999")
  {
    Schemes();
    Ports();
    Tails();
    OutOfRangeParts();
    OutOfRangeConcat();
    UrlOfParts("http://", "999.999.999.999", "", "");
  }

  lemma NumericFinalLabelConcat()
    ensures "example" + "." + "123" == "example.123"
    ensures "http://" + "example.123" + "" + "" == "http://example.123"
  {
  }

  /** The final label of a domain may be made of digits and hyphens. */
  lemma AcceptsNumericFinalLabel()
    ensures IsValidUrl("http://example.123")
  {
    Schemes();
    Ports();
    Tails();
    Labels();
    DomainOfLabels("example", "123");
    NumericFinalLabelConcat();
    UrlOfParts("http://", "example.123", "", "");
  }

  lemma LoopbackCore()
    ensures IsIPv6Core("::1")
  {
    var c := "::1";
    assert c[..0] == [] && c[1..] == ":1";
    IPv6CoreIntro(c, 0);
  }

  lemma UnbalancedBracketConcat()
    ensures "http://" + "[::1" + "" + "" == "http://[::1"
    ensures "http://" + "::1]" + "" + "" == "http://::1]"
  {
  }

  lemma UnbalancedBracketParts()
    ensures IsHost("[::1") && IsHost("::1]")
  {
    LoopbackCore();
    assert "[::1"[1..] == "::1";
    assert "::1]"[..3] == "::1";
  }

  /** Each bracket around an IPv6-shaped host is optional on its own. */
  lemma AcceptsUnbalancedBrackets()
    ensures IsValidUrl("http://[::1")
    ensures IsValidUrl("http://::1]")
  {
    Schemes();
    Ports();
    Tails();
    UnbalancedBracketParts();
    UnbalancedBracketConcat();
    UrlOfParts("http://", "[::1", "", "");
    UrlOfParts("http://", "::1]", "", "");
  }

  /** A string that does not start with `h` or `f` has no scheme in front. */
  lemma NotSchemeStart(l: string)
    requires |l| > 0 && l[0] != 'h' && l[0] != 'f'
    ensures !StartsWithScheme(l)
  {
    if |l| >= 6 {
      assert l[..6][0] == l[0];
    }
  }

  lemma RejectsPlainText()
    ensures !IsValidUrl("not a url")
  {
    var s := "not a url";
    SchemeRequired(s);
    NotSchemeStart(Lower(s));
  }

  lemma RejectsInnerSpace()
    ensures !IsValidUrl("https://example.com/my video")
  {
    var s := "https://example.com/my video";
    WhitespaceRejected(s, 22);
  }
}
