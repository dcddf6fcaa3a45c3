/** `std::regex::icase` (main.cpp:80): the validator gives the same answer for
    a string and for its ASCII lower-case form, so two strings that differ
    only in the case of their letters are both valid or both invalid. Each
    piece of the checker is shown blind to case on its own. */
module UrlCase {
  import opened Text
  import opened UrlGrammar
  import opened UrlValidator

  /** Folding never produces or removes a character that is not a letter. */
  lemma LowerNonLetter(c: char, x: char)
    requires !IsLetter(x)
    ensures (LowerChar(c) == x) == (c == x)
  {
  }

  lemma LowerTake(s: string, k: int)
    requires 0 <= k <= |s|
    ensures Lower(s)[..k] == Lower(s[..k])
  {
    LowerSlice(s, 0, k);
    assert s[0..k] == s[..k];
    assert Lower(s)[0..k] == Lower(s)[..k];
  }

  lemma LowerDrop(s: string, k: int)
    requires 0 <= k <= |s|
    ensures Lower(s)[k..] == Lower(s[k..])
  {
    LowerSlice(s, k, |s|);
    assert s[k..|s|] == s[k..];
    assert Lower(s)[k..|s|] == Lower(s)[k..];
  }

  lemma LabelCharsLower(t: string)
    ensures AllLabelChars(Lower(t)) == AllLabelChars(t)
  {
    forall m | 0 <= m < |t| ensures IsLabelChar(Lower(t)[m]) == IsLabelChar(t[m]) {
      LowerCharClasses(t[m]);
      LowerNonLetter(t[m], '-');
    }
  }

  lemma LabelLower(t: string)
    ensures IsLabel(Lower(t)) == IsLabel(t)
  {
    if |t| > 0 {
      LowerCharClasses(t[0]);
      LowerCharClasses(t[|t| - 1]);
    }
    LabelCharsLower(t);
  }

  lemma WithoutFinalDotLower(t: string)
    ensures WithoutFinalDot(Lower(t)) == Lower(WithoutFinalDot(t))
  {
    if |t| > 0 {
      LowerNonLetter(t[|t| - 1], '.');
      LowerTake(t, |t| - 1);
    }
  }

  lemma TopLabelLower(t: string)
    ensures IsTopLabel(Lower(t)) == IsTopLabel(t)
  {
    WithoutFinalDotLower(t);
    var core := WithoutFinalDot(t);
    LabelCharsLower(core);
    LowerStringClasses(core);
  }

  /** Folding keeps the first dot where it is, and the label before it and
      the rest after it fold on their own. */
  lemma {:induction false} DomainExecLower(t: string)
    ensures DomainExec(Lower(t)) == DomainExec(t)
    decreases |t|
  {
    var d := IndexOfAny(t, {'.'}, 0);
    IndexOfAnyLower(t, {'.'}, 0);
    DomainExecUnfold(t, d);
    DomainExecUnfold(Lower(t), d);
    if d < |t| {
      LowerTake(t, d);
      LowerDrop(t, d + 1);
      LabelLower(t[..d]);
      TopLabelLower(t[d + 1..]);
      DomainExecLower(t[d + 1..]);
    }
  }

  lemma LocalhostLower(t: string)
    ensures IsLocalhost(Lower(t)) == IsLocalhost(t)
  {
    LowerIdempotent(t);
  }

  lemma IPv4AtLower(t: string, i: int, j: int, k: int)
    requires 0 <= i < j < k < |t|
    ensures IsIPv4At(Lower(t), i, j, k) == IsIPv4At(t, i, j, k)
  {
    forall m | 0 <= m < |t| ensures IsDigit(Lower(t)[m]) == IsDigit(t[m]) {
      LowerCharClasses(t[m]);
    }
    LowerNonLetter(t[i], '.');
    LowerNonLetter(t[j], '.');
    LowerNonLetter(t[k], '.');
  }

  /** Shown on the grammar, where the dots are named, and carried over to
      the checker. */
  lemma IPv4ExecLower(t: string)
    ensures IPv4Exec(Lower(t)) == IPv4Exec(t)
  {
    IPv4ExecCorrect(t);
    IPv4ExecCorrect(Lower(t));
    if IsIPv4(t) {
      var i, j, k := IPv4Witness(t);
      IPv4AtLower(t, i, j, k);
      IPv4Intro(Lower(t), i, j, k);
    }
    if IsIPv4(Lower(t)) {
      var i, j, k := IPv4Witness(Lower(t));
      IPv4AtLower(t, i, j, k);
      IPv4Intro(t, i, j, k);
    }
  }

  lemma HexOrColonLower(t: string)
    ensures AllHexOrColon(Lower(t)) == AllHexOrColon(t)
  {
    forall m | 0 <= m < |t| ensures IsHexOrColon(Lower(t)[m]) == IsHexOrColon(t[m]) {
      LowerCharClasses(t[m]);
      LowerNonLetter(t[m], ':');
    }
  }

  lemma IPv6CoreExecLower(t: string)
    ensures IPv6CoreExec(Lower(t)) == IPv6CoreExec(t)
  {
    HexOrColonLower(t);
    IndexOfAnyLower(t, {':'}, 0);
  }

  lemma IPv6ExecLower(t: string)
    ensures IPv6Exec(Lower(t)) == IPv6Exec(t)
  {
    if |t| > 0 {
      LowerNonLetter(t[0], '[');
      LowerNonLetter(t[|t| - 1], ']');
    }
    var a := if |t| > 0 && t[0] == '[' then 1 else 0;
    var b := if |t| > a && t[|t| - 1] == ']' then |t| - 1 else |t|;
    LowerSlice(t, a, b);
    IPv6CoreExecLower(t[a..b]);
    IPv6ExecAt(t, a, b);
    IPv6ExecAt(Lower(t), a, b);
  }

  /** IPv6Exec with the bracket positions named. */
  lemma IPv6ExecAt(t: string, a: int, b: int)
    requires a == (if |t| > 0 && t[0] == '[' then 1 else 0)
    requires b == (if |t| > a && t[|t| - 1] == ']' then |t| - 1 else |t|)
    ensures 0 <= a <= b <= |t| && IPv6Exec(t) == IPv6CoreExec(t[a..b])
  {
  }

  lemma HostExecLower(t: string)
    ensures HostExec(Lower(t)) == HostExec(t)
  {
    DomainExecLower(t);
    LocalhostLower(t);
    IPv4ExecLower(t);
    IPv6ExecLower(t);
  }

  lemma PortLower(t: string)
    ensures IsPort(Lower(t)) == IsPort(t)
  {
    if |t| > 0 {
      LowerNonLetter(t[0], ':');
      LowerDrop(t, 1);
      LowerStringClasses(t[1..]);
    }
  }

  lemma TailLower(t: string)
    ensures IsTail(Lower(t)) == IsTail(t)
  {
    if |t| > 0 {
      LowerNonLetter(t[0], '/');
      LowerNonLetter(t[0], '?');
      LowerDrop(t, 1);
      LowerStringClasses(t[1..]);
      if |t| == 1 {
        assert (Lower(t) == "/") == (Lower(t)[0] == '/');
        assert (t == "/") == (t[0] == '/');
      }
    }
  }

  lemma HostPortExecLower(t: string)
    ensures HostPortExec(Lower(t)) == HostPortExec(t)
  {
    HostExecLower(t);
    LastIndexOfLower(t, ':');
    var c := LastIndexOf(t, ':');
    if 0 <= c {
      LowerDrop(t, c);
      PortLower(t[c..]);
      LowerTake(t, c);
      HostExecLower(t[..c]);
    }
  }

  lemma SchemeLengthLower(s: string)
    ensures SchemeLength(Lower(s)) == SchemeLength(s)
  {
    if 6 <= |s| {
      LowerTake(s, 6);
      LowerIdempotent(s[..6]);
    }
    if 7 <= |s| {
      LowerTake(s, 7);
      LowerIdempotent(s[..7]);
    }
    if 8 <= |s| {
      LowerTake(s, 8);
      LowerIdempotent(s[..8]);
    }
  }

  lemma IsValidUrlLower(s: string)
    ensures IsValidUrl(Lower(s)) == IsValidUrl(s)
  {
    SchemeLengthLower(s);
    var n := SchemeLength(s);
    if n > 0 {
      IndexOfAnyLower(s, {'/', '?'}, n);
      var k := IndexOfAny(s, {'/', '?'}, n);
      LowerDrop(s, k);
      TailLower(s[k..]);
      LowerSlice(s, n, k);
      HostPortExecLower(s[n..k]);
    }
  }

  /** Strings that agree up to the case of their letters are both valid or
      both invalid. */
  lemma CaseInsensitive(s: string, s': string)
    requires Lower(s) == Lower(s')
    ensures IsValidUrl(s) == IsValidUrl(s')
  {
    IsValidUrlLower(s);
    IsValidUrlLower(s');
  }
}
