/** Characters, ASCII case folding and searches over strings, as the URL
    validator of main.cpp needs them. `std::regex` with `icase` in the "C"
    locale folds only the ASCII letters; every other character is its own
    lower-case form. */
module Text {

  predicate IsUpper(c: char) { 'A' <= c <= 'Z' }

  predicate IsLower(c: char) { 'a' <= c <= 'z' }

  /** `[A-Z]` under `icase`: a letter of either case. */
  predicate IsLetter(c: char) { IsUpper(c) || IsLower(c) }

  /** `\d` and `[0-9]`. */
  predicate IsDigit(c: char) { '0' <= c <= '9' }

  predicate IsAlnum(c: char) { IsLetter(c) || IsDigit(c) }

  /** `[A-F0-9]` under `icase`. */
  predicate IsHexDigit(c: char) { IsDigit(c) || 'a' <= c <= 'f' || 'A' <= c <= 'F' }

  /** The whitespace class that `\S` excludes: space, tab, line feed,
      vertical tab, form feed and carriage return. */
  predicate IsSpace(c: char) {
    c == ' ' || c == '\t' || c == '\n' || c == '\U{000B}' || c == '\U{000C}' || c == '\r'
  }

  predicate AllDigits(t: string) { forall m | 0 <= m < |t| :: IsDigit(t[m]) }

  predicate AllLetters(t: string) { forall m | 0 <= m < |t| :: IsLetter(t[m]) }

  predicate NoSpace(t: string) { forall m | 0 <= m < |t| :: !IsSpace(t[m]) }

  /** ASCII lower-casing of one character. */
  function LowerChar(c: char): (d: char)
    ensures !IsUpper(d)
    ensures IsUpper(c) ==> IsLower(d) && d as int == c as int + 32
    ensures !IsUpper(c) ==> d == c
  {
    if IsUpper(c) then (c as int + 32) as char else c
  }

  /** Character-wise ASCII lower-casing of a string. */
  function Lower(s: string): (r: string)
    ensures |r| == |s|
  {
    seq(|s|, m requires 0 <= m < |s| => LowerChar(s[m]))
  }

  /** Case folding leaves every character class of the grammar unchanged. */
  lemma LowerCharClasses(c: char)
    ensures IsLetter(LowerChar(c)) == IsLetter(c)
    ensures IsDigit(LowerChar(c)) == IsDigit(c)
    ensures IsAlnum(LowerChar(c)) == IsAlnum(c)
    ensures IsHexDigit(LowerChar(c)) == IsHexDigit(c)
    ensures IsSpace(LowerChar(c)) == IsSpace(c)
    ensures IsLetter(c) || LowerChar(c) == c
  {
  }

  /** Folding commutes with slicing. */
  lemma LowerSlice(s: string, i: int, j: int)
    requires 0 <= i <= j <= |s|
    ensures Lower(s)[i..j] == Lower(s[i..j])
  {
  }

  /** Folding twice is folding once. */
  lemma LowerIdempotent(s: string)
    ensures Lower(Lower(s)) == Lower(s)
  {
  }

  /** Each class predicate over whole strings is blind to letter case. */
  lemma LowerStringClasses(t: string)
    ensures AllDigits(Lower(t)) == AllDigits(t)
    ensures AllLetters(Lower(t)) == AllLetters(t)
    ensures NoSpace(Lower(t)) == NoSpace(t)
  {
    forall m | 0 <= m < |t| ensures Lower(t)[m] == LowerChar(t[m]) {
      LowerCharClasses(t[m]);
    }
  }

  /** The index of the first character of `t` at or after `from` that is
      in `cs`, or `|t|` when there is none. */
  function IndexOfAny(t: string, cs: set<char>, from: nat): (r: nat)
    requires from <= |t|
    ensures from <= r <= |t|
    ensures r < |t| ==> t[r] in cs
    ensures forall m | from <= m < r :: t[m] !in cs
    decreases |t| - from
  {
    if from == |t| then from
    else if t[from] in cs then from
    else IndexOfAny(t, cs, from + 1)
  }

  /** The index of the last occurrence of `c` in `t`, or -1 when there is none. */
  function LastIndexOf(t: string, c: char): (r: int)
    ensures -1 <= r < |t|
    ensures 0 <= r ==> t[r] == c
    ensures forall m | r < m < |t| :: t[m] != c
  {
    if t == [] then -1
    else if t[|t| - 1] == c then |t| - 1
    else LastIndexOf(t[..|t| - 1], c)
  }

  /** Searching for characters that are not letters gives the same answer
      before and after folding. */
  lemma {:induction false} IndexOfAnyLower(t: string, cs: set<char>, from: nat)
    requires from <= |t|
    requires forall c | c in cs :: !IsLetter(c)
    ensures IndexOfAny(Lower(t), cs, from) == IndexOfAny(t, cs, from)
    decreases |t| - from
  {
    if from < |t| {
      LowerCharClasses(t[from]);
      assert Lower(t)[from] == LowerChar(t[from]);
      IndexOfAnyLower(t, cs, from + 1);
    }
  }

  lemma {:induction false} LastIndexOfLower(t: string, c: char)
    requires !IsLetter(c)
    ensures LastIndexOf(Lower(t), c) == LastIndexOf(t, c)
  {
    if t != [] {
      LowerCharClasses(t[|t| - 1]);
      assert Lower(t)[|t| - 1] == LowerChar(t[|t| - 1]);
      LowerSlice(t, 0, |t| - 1);
      LastIndexOfLower(t[..|t| - 1], c);
    }
  }

  /** A position before which, from `from` on, no character of `cs` occurs
      and at which one does is the position IndexOfAny finds. */
  lemma {:induction false} IndexOfAnyAt(t: string, cs: set<char>, from: nat, i: int)
    requires from <= i <= |t|
    requires forall m | from <= m < i :: t[m] !in cs
    requires i < |t| ==> t[i] in cs
    ensures IndexOfAny(t, cs, from) == i
    decreases i - from
  {
    if from < i {
      IndexOfAnyAt(t, cs, from + 1, i);
    }
  }

  /** A position after which `c` does not occur and at which it does is the
      last occurrence of `c`. */
  lemma LastIndexOfAt(t: string, c: char, i: int)
    requires 0 <= i < |t| && t[i] == c
    requires forall m | i < m < |t| :: t[m] != c
    ensures LastIndexOf(t, c) == i
  {
  }
}
