/** Character-level text operations the sources use: strip, lower, split, line breaks. */
module Text {

  /** Characters that `str.strip`, `str.split` and the pattern `\s` treat as blank. */
  predicate IsSpace(c: char) {
    var n := c as int;
    9 <= n <= 13 || 28 <= n <= 32 || n == 0x85 || n == 0xA0 || n == 0x1680
    || 0x2000 <= n <= 0x200A || n == 0x2028 || n == 0x2029 || n == 0x202F || n == 0x205F || n == 0x3000
  }

  /** Characters at which `str.splitlines` ends a line. */
  predicate IsLineBreak(c: char) {
    var n := c as int;
    10 <= n <= 13 || 28 <= n <= 30 || n == 0x85 || n == 0x2028 || n == 0x2029
  }

  /** Lower-casing, for the ASCII letters. */
  function LowerChar(c: char): char {
    if 'A' <= c <= 'Z' then c - 'A' + 'a' else c
  }

  function Lower(s: string): (r: string)
    ensures |r| == |s|
    ensures forall i :: 0 <= i < |s| ==> r[i] == LowerChar(s[i])
  {
    seq(|s|, i requires 0 <= i < |s| => LowerChar(s[i]))
  }

  const CAPITALS := "ABCDEFGHIJKLMNOPQRSTUVWXYZ"
  const SMALL_LETTERS := "abcdefghijklmnopqrstuvwxyz"

  /** One letter in both cases. */
  predicate AreCases(capital: char, small: char) {
    exists i :: 0 <= i < 26 && CAPITALS[i] == capital && SMALL_LETTERS[i] == small
  }

  /** Equal, or the same letter in another case. */
  predicate SameLetter(a: char, b: char) {
    a == b || AreCases(a, b) || AreCases(b, a)
  }

  predicate EqualUpToCase(a: string, b: string) {
    |a| == |b| && forall i :: 0 <= i < |a| ==> SameLetter(a[i], b[i])
  }

  lemma LettersAt(i: nat)
    requires i < 26
    ensures CAPITALS[i] as int == 'A' as int + i && SMALL_LETTERS[i] as int == 'a' as int + i
  {
  }

  lemma AreCasesIff(capital: char, small: char)
    ensures AreCases(capital, small) <==> 'A' <= capital <= 'Z' && small as int == capital as int + 32
  {
    if i :| 0 <= i < 26 && CAPITALS[i] == capital && SMALL_LETTERS[i] == small {
      LettersAt(i);
    }
    if 'A' <= capital <= 'Z' && small as int == capital as int + 32 {
      LettersAt(capital as int - 'A' as int);
      assert CAPITALS[capital as int - 'A' as int] == capital;
    }
  }

  lemma SameLetterIff(a: char, b: char)
    ensures SameLetter(a, b) <==> LowerChar(a) == LowerChar(b)
  {
    AreCasesIff(a, b);
    AreCasesIff(b, a);
  }

  /** Texts are equal in lower case exactly when they are equal up to case. */
  lemma EqualUpToCaseIff(a: string, b: string)
    ensures EqualUpToCase(a, b) <==> Lower(a) == Lower(b)
  {
    if |a| == |b| {
      forall i | 0 <= i < |a| ensures SameLetter(a[i], b[i]) <==> Lower(a)[i] == Lower(b)[i] {
        SameLetterIff(a[i], b[i]);
      }
    }
  }

  predicate StartsWith(s: string, prefix: string) {
    prefix <= s
  }

  /** The first position from `i` on whose element satisfies `p`; the length when there is none. */
  function Find<T>(s: seq<T>, i: nat, p: T -> bool): (k: nat)
    requires i <= |s|
    ensures i <= k <= |s|
    ensures forall j :: i <= j < k ==> !p(s[j])
    ensures k < |s| ==> p(s[k])
    decreases |s| - i
  {
    if i == |s| || p(s[i]) then i else Find(s, i + 1, p)
  }

  lemma FindIs<T>(s: seq<T>, i: nat, k: nat, p: T -> bool)
    requires i <= k < |s| && p(s[k])
    requires forall j :: i <= j < k ==> !p(s[j])
    ensures Find(s, i, p) == k
  {
  }

  /** The first position from `i` on whose character does not satisfy `p`. */
  function SkipFrom(s: string, i: nat, p: char -> bool): (k: nat)
    requires i <= |s|
    ensures i <= k <= |s|
    ensures forall j :: i <= j < k ==> p(s[j])
    ensures k < |s| ==> !p(s[k])
    decreases |s| - i
  {
    if i < |s| && p(s[i]) then SkipFrom(s, i + 1, p) else i
  }

  /** The end of the text without the characters satisfying `p` before position `j`. */
  function BackFrom(s: string, j: nat, p: char -> bool): (k: nat)
    requires j <= |s|
    ensures k <= j
    ensures forall i :: k <= i < j ==> p(s[i])
    ensures k > 0 ==> !p(s[k - 1])
  {
    if j > 0 && p(s[j - 1]) then BackFrom(s, j - 1, p) else j
  }

  /** Drops leading characters satisfying `p`. */
  function TrimLeft(s: string, p: char -> bool): (r: string)
    ensures r != [] ==> !p(r[0])
    ensures |r| <= |s| && r == s[|s| - |r|..]
    ensures forall i :: 0 <= i < |s| - |r| ==> p(s[i])
  {
    s[SkipFrom(s, 0, p)..]
  }

  /** Drops trailing characters satisfying `p`. */
  function TrimRight(s: string, p: char -> bool): (r: string)
    ensures r != [] ==> !p(r[|r| - 1])
    ensures |r| <= |s| && r == s[..|r|]
    ensures forall i :: |r| <= i < |s| ==> p(s[i])
  {
    s[..BackFrom(s, |s|, p)]
  }

  function Strip(s: string): string {
    TrimRight(TrimLeft(s, IsSpace), IsSpace)
  }

  predicate IsDot(c: char) {
    c == '.'
  }

  predicate IsColon(c: char) {
    c == ':'
  }

  /** Removes the trailing dots of a host name. */
  function DropDots(s: string): string {
    TrimRight(s, IsDot)
  }

  predicate AllDots(s: string) {
    forall c :: c in s ==> c == '.'
  }

  /** The texts agree up to `n`, and behind it have nothing but dots. */
  predicate SameStem(a: string, b: string, n: nat) {
    n <= |a| && n <= |b| && a[..n] == b[..n] && AllDots(a[n..]) && AllDots(b[n..])
  }

  lemma DotsBehindStem(a: string)
    ensures AllDots(a[|DropDots(a)|..])
  {
    forall c | c in a[|DropDots(a)|..] ensures c == '.' {
      var i :| |DropDots(a)| <= i < |a| && a[i] == c;
    }
  }

  /** Without their trailing dots texts are equal exactly when they have a common stem. */
  lemma SameStemIff(a: string, b: string)
    ensures DropDots(a) == DropDots(b) <==> exists n: nat :: SameStem(a, b, n)
  {
    if DropDots(a) == DropDots(b) {
      DotsBehindStem(a);
      DotsBehindStem(b);
      assert SameStem(a, b, |DropDots(a)|);
    }
    if n: nat :| SameStem(a, b, n) {
      StemIsNoLonger(a, b, n);
      StemIsNoLonger(b, a, n);
      var x := |DropDots(a)|;
      StemIsShort(a, n);
      assert a[..n][..x] == a[..x] && b[..n][..x] == b[..x];
    }
  }

  lemma StemIsNoLonger(a: string, b: string, n: nat)
    requires n <= |a| && n <= |b| && a[..n] == b[..n] && AllDots(a[n..]) && AllDots(b[n..])
    ensures |DropDots(a)| <= |DropDots(b)|
  {
    var x, y := |DropDots(a)|, |DropDots(b)|;
    StemIsShort(a, n);
    StemIsShort(b, n);
    assert forall i :: 0 <= i < n ==> a[i] == a[..n][i] == b[..n][i] == b[i];
    assert x > 0 ==> DropDots(a)[x - 1] == a[x - 1];
  }

  lemma StemIsShort(a: string, n: nat)
    requires n <= |a| && AllDots(a[n..])
    ensures |DropDots(a)| <= n && forall i :: |DropDots(a)| <= i < n ==> a[i] == '.'
  {
    forall i | n <= i < |a| ensures a[i] == '.' {
      assert a[n..][i - n] in a[n..];
    }
    assert DropDots(a) != [] ==> DropDots(a)[|DropDots(a)| - 1] == a[|DropDots(a)| - 1];
  }

  /** What every line-oriented parser wants of a value: no blank at either end. */
  predicate StripStable(s: string) {
    s == [] || (!IsSpace(s[0]) && !IsSpace(s[|s| - 1]))
  }

  lemma StripOfStable(s: string)
    requires StripStable(s)
    ensures Strip(s) == s
  {
  }

  lemma StripIsStable(s: string)
    ensures StripStable(Strip(s))
    ensures |Strip(s)| < |s| || Strip(s) == s
    ensures Strip(s) == s <==> StripStable(s)
  {
    var t := TrimLeft(s, IsSpace);
    if Strip(s) != [] {
      assert Strip(s)[0] == t[0];
    }
  }

  lemma TrimLeftCons(c: char, s: string, p: char -> bool)
    requires p(c)
    ensures TrimLeft([c] + s, p) == TrimLeft(s, p)
  {
    var u, k := [c] + s, SkipFrom(s, 0, p);
    assert u[0] == c && forall i :: 0 <= i < |s| ==> u[i + 1] == s[i];
    assert SkipFrom(u, 0, p) == k + 1;
    assert u[k + 1..] == s[k..];
  }

  lemma TrimRightSnoc(s: string, c: char, p: char -> bool)
    requires p(c)
    ensures TrimRight(s + [c], p) == TrimRight(s, p)
  {
    var u, k := s + [c], BackFrom(s, |s|, p);
    assert u[|s|] == c && forall i :: 0 <= i < |s| ==> u[i] == s[i];
    assert BackFrom(u, |u|, p) == k;
    assert u[..k] == s[..k];
  }

  lemma TrimLeftSnoc(s: string, c: char, p: char -> bool)
    requires p(c)
    ensures TrimLeft(s + [c], p) == if TrimLeft(s, p) == [] then [] else TrimLeft(s, p) + [c]
  {
    var u, k := s + [c], SkipFrom(s, 0, p);
    assert u[|s|] == c && forall i :: 0 <= i < |s| ==> u[i] == s[i];
    if k < |s| {
      assert SkipFrom(u, 0, p) == k;
      assert u[k..] == s[k..] + [c];
    } else {
      assert SkipFrom(u, 0, p) == |u|;
    }
  }

  /** Stripping does not see a blank at the end. */
  lemma StripSnoc(s: string, c: char)
    requires IsSpace(c)
    ensures Strip(s + [c]) == Strip(s)
  {
    TrimLeftSnoc(s, c, IsSpace);
    if TrimLeft(s, IsSpace) != [] {
      TrimRightSnoc(TrimLeft(s, IsSpace), c, IsSpace);
    }
  }

  predicate AllBlank(s: string) {
    forall c :: c in s ==> IsSpace(c)
  }

  /** What stripping leaves is what stands between the outer blanks. */
  lemma StripShape(s: string) returns (k: nat, m: nat)
    ensures k <= m <= |s| && Strip(s) == s[k..m]
    ensures AllBlank(s[..k]) && AllBlank(s[m..])
    ensures k < m ==> !IsSpace(s[k]) && !IsSpace(s[m - 1])
  {
    var left := TrimLeft(s, IsSpace);
    k := |s| - |left|;
    m := k + |Strip(s)|;
    assert left == s[k..] && Strip(s) == left[..|Strip(s)|];
    forall c | c in s[m..] ensures IsSpace(c) {
      var i :| m <= i < |s| && s[i] == c;
      assert left[i - k] == c;
    }
    if k < m {
      assert Strip(s)[0] == left[0] == s[k] && Strip(s)[|Strip(s)| - 1] == s[m - 1];
    }
  }

  lemma BlankAt(s: string, from: nat, to: nat)
    requires from <= to <= |s| && AllBlank(s[from..to])
    ensures forall i :: from <= i < to ==> IsSpace(s[i])
  {
    forall i | from <= i < to ensures IsSpace(s[i]) {
      assert s[i] == s[from..to][i - from] && s[from..to][i - from] in s[from..to];
    }
  }

  /** Behind leading blanks stands every character that is none. */
  lemma NotBefore(s: string, i: nat, k: nat)
    requires i <= |s| && k < |s| && AllBlank(s[..i]) && !IsSpace(s[k])
    ensures i <= k
  {
    assert s[..i] == s[0..i];
    BlankAt(s, 0, i);
  }

  /** And before final blanks. */
  lemma NotBehind(s: string, m: nat, k: nat)
    requires m <= |s| && k < |s| && AllBlank(s[m..]) && !IsSpace(s[k])
    ensures k < m
  {
    assert s[m..] == s[m..|s|];
    BlankAt(s, m, |s|);
  }

  lemma StripIsEmptyIff(s: string)
    ensures Strip(s) == [] <==> AllBlank(s)
  {
    var k, m := StripShape(s);
    if k < m {
      assert s[k] in s;
    } else {
      assert s == s[..k] + s[m..];
    }
  }

  /** Begins with `prefix`, in any letter case. */
  predicate BeginsWith(s: string, prefix: string) {
    |prefix| <= |s| && EqualUpToCase(s[..|prefix|], prefix)
  }

  lemma BeginsWithIff(s: string, prefix: string)
    requires Lower(prefix) == prefix
    ensures BeginsWith(s, prefix) <==> StartsWith(Lower(s), prefix)
  {
    if |prefix| <= |s| {
      EqualUpToCaseIff(s[..|prefix|], prefix);
      assert Lower(s)[..|prefix|] == Lower(s[..|prefix|]);
    }
  }

  /** Ends with `suffix`, in any letter case. */
  predicate EndsLike(s: string, suffix: string) {
    |suffix| <= |s| && EqualUpToCase(s[|s| - |suffix|..], suffix)
  }

  /** `t` is the text without its final dots, in lower case. */
  predicate IsCleaned(s: string, t: string) {
    && |t| <= |s| && EqualUpToCase(s[..|t|], t) && AllDots(s[|t|..])
    && (t == [] || t[|t| - 1] != '.') && forall c :: c in t ==> c !in CAPITALS
  }

  lemma CapitalsAre(c: char)
    ensures c in CAPITALS <==> 'A' <= c <= 'Z'
  {
    if 'A' <= c <= 'Z' {
      LettersAt(c as int - 'A' as int);
      assert CAPITALS[c as int - 'A' as int] == c;
    }
    if c in CAPITALS {
      var i :| 0 <= i < |CAPITALS| && CAPITALS[i] == c;
      LettersAt(i);
    }
  }

  lemma LowerIsIdempotent(s: string)
    ensures Lower(Lower(s)) == Lower(s)
    ensures forall c :: c in Lower(s) ==> c !in CAPITALS
  {
    forall c | c in Lower(s) ensures c !in CAPITALS {
      CapitalsAre(c);
    }
  }

  lemma LowerStemIsCleaned(s: string)
    ensures IsCleaned(s, Lower(DropDots(s)))
  {
    var d, t := DropDots(s), Lower(DropDots(s));
    DotsBehindStem(s);
    LowerIsIdempotent(d);
    EqualUpToCaseIff(d, t);
    assert d != [] ==> t[|t| - 1] == LowerChar(d[|d| - 1]);
  }

  lemma LowerKeepsDots(s: string)
    ensures AllDots(Lower(s)) <==> AllDots(s)
  {
    forall c | c in Lower(s) && AllDots(s) ensures c == '.' {
      var i :| 0 <= i < |s| && Lower(s)[i] == c;
      assert s[i] in s;
    }
    forall c | c in s && AllDots(Lower(s)) ensures c == '.' {
      var i :| 0 <= i < |s| && s[i] == c;
      assert Lower(s)[i] in Lower(s);
    }
  }

  /** Dots may be dropped before or after lower-casing. */
  lemma LowerThenStemIsCleaned(s: string)
    ensures IsCleaned(s, DropDots(Lower(s)))
  {
    var t := DropDots(Lower(s));
    DotsBehindStem(Lower(s));
    LowerIsIdempotent(s);
    assert Lower(s[|t|..]) == Lower(s)[|t|..];
    LowerKeepsDots(s[|t|..]);
    assert Lower(s[..|t|]) == t == Lower(s)[..|t|];
    LowerIsIdempotent(s[..|t|]);
    EqualUpToCaseIff(s[..|t|], t);
  }
}
