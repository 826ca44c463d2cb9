/** The Python string and path primitives the application relies on:
    `str.strip()`, `str.lower()` on file suffixes, `os.path.basename`,
    `os.path.splitext` (POSIX flavour) and `str(int)` inside f-strings. */
module PyText {
  import opened Wrappers

  // ---------------------------------------------------------------------
  // str.strip()
  // ---------------------------------------------------------------------

  /** Python's `str.isspace()` for a single character. */
  predicate IsSpace(c: char) {
    || c == ' '
    || ('\t' <= c <= '\r')              // \t \n \v \f \r
    || ('\U{1c}' <= c <= '\U{1f}')      // file, group, record and unit separators
    || c == '\U{85}' || c == '\U{a0}' || c == '\U{1680}'
    || ('\U{2000}' <= c <= '\U{200a}')
    || c == '\U{2028}' || c == '\U{2029}' || c == '\U{202f}'
    || c == '\U{205f}' || c == '\U{3000}'
  }

  ghost predicate AllSpace(s: string) {
    forall j :: 0 <= j < |s| ==> IsSpace(s[j])
  }

  /** Neither starts nor ends with whitespace. */
  ghost predicate Trimmed(t: string) {
    t == [] || (!IsSpace(t[0]) && !IsSpace(t[|t| - 1]))
  }

  /** Drops leading whitespace: the result is a suffix of `s`, what was
      dropped is all whitespace, and the result does not start with any. */
  function TrimStart(s: string): (r: string)
    ensures |r| <= |s| && r == s[|s| - |r|..]
    ensures forall j :: 0 <= j < |s| - |r| ==> IsSpace(s[j])
    ensures r != [] ==> !IsSpace(r[0])
    decreases |s|
  {
    if s != [] && IsSpace(s[0]) then
      TrimStart(s[1..])
    else s
  }

  /** Drops trailing whitespace: the result is a prefix of `s`, what was
      dropped is all whitespace, and the result does not end with any. */
  function TrimEnd(s: string): (r: string)
    ensures |r| <= |s| && r == s[..|r|]
    ensures forall j :: |r| <= j < |s| ==> IsSpace(s[j])
    ensures r != [] ==> !IsSpace(r[|r| - 1])
    decreases |s|
  {
    if s != [] && IsSpace(s[|s| - 1]) then
      TrimEnd(s[..|s| - 1])
    else s
  }

  /** Python's `s.strip()` with no argument. */
  function Strip(s: string): string {
    TrimEnd(TrimStart(s))
  }

  lemma {:induction false} TrimStartSkips(p: string, u: string)
    requires AllSpace(p)
    requires u == [] || !IsSpace(u[0])
    ensures TrimStart(p + u) == u
    decreases |p|
  {
    if p != [] {
      assert (p + u)[1..] == p[1..] + u;
      TrimStartSkips(p[1..], u);
    } else {
      assert p + u == u;
    }
  }

  lemma {:induction false} TrimEndSkips(u: string, q: string)
    requires AllSpace(q)
    requires u == [] || !IsSpace(u[|u| - 1])
    ensures TrimEnd(u + q) == u
    decreases |q|
  {
    if q != [] {
      assert (u + q)[..|u + q| - 1] == u + q[..|q| - 1];
      TrimEndSkips(u, q[..|q| - 1]);
    } else {
      assert u + q == u;
    }
  }

  /** `strip()` removes exactly the surrounding whitespace: the result is
      the slice `s[a..b]`, everything outside it is whitespace, and the
      result neither starts nor ends with whitespace. */
  lemma StripSplits(s: string) returns (a: nat, b: nat)
    ensures a <= b <= |s| && Strip(s) == s[a..b]
    ensures forall j :: 0 <= j < a ==> IsSpace(s[j])
    ensures forall j :: b <= j < |s| ==> IsSpace(s[j])
    ensures Trimmed(Strip(s))
  {
    var t := TrimStart(s);
    var r := TrimEnd(t);
    a, b := StripSplitsOf(s, t, r);
  }

  /** The reasoning of `StripSplits`, from the two trimming contracts only. */
  lemma StripSplitsOf(s: string, t: string, r: string) returns (a: nat, b: nat)
    requires |t| <= |s| && t == s[|s| - |t|..]
    requires forall j :: 0 <= j < |s| - |t| ==> IsSpace(s[j])
    requires t != [] ==> !IsSpace(t[0])
    requires |r| <= |t| && r == t[..|r|]
    requires forall j :: |r| <= j < |t| ==> IsSpace(t[j])
    requires r != [] ==> !IsSpace(r[|r| - 1])
    ensures a <= b <= |s| && r == s[a..b]
    ensures forall j :: 0 <= j < a ==> IsSpace(s[j])
    ensures forall j :: b <= j < |s| ==> IsSpace(s[j])
    ensures Trimmed(r)
  {
    a := |s| - |t|;
    b := a + |r|;
    SliceOfSuffix(s, a, t, |r|);
    assert r != [] ==> r[0] == t[0];
  }

  /** Positions of a suffix `t == s[a..]` are positions of `s` shifted by `a`. */
  lemma SliceOfSuffix(s: string, a: nat, t: string, k: nat)
    requires a <= |s| && t == s[a..] && k <= |t|
    ensures t[..k] == s[a..a + k]
    ensures forall j :: a + k <= j < |s| ==> s[j] == t[j - a]
  {
  }

  /** Conversely, whatever sits between two all-whitespace pieces and is
      trimmed is the `strip()` of the whole. */
  lemma StripUnique(p: string, t: string, q: string)
    requires AllSpace(p) && AllSpace(q) && Trimmed(t)
    ensures Strip(p + t + q) == t
  {
    if t == [] {
      assert p + t + q == p + q;
      assert AllSpace(p + q);
      TrimStartSkips(p + q, []);
      assert (p + q) + [] == p + q;
    } else {
      assert p + t + q == p + (t + q);
      TrimStartSkips(p, t + q);
      TrimEndSkips(t, q);
    }
  }

  /** `strip()` leaves nothing exactly when every character is whitespace. */
  lemma StripEmptyIffBlank(s: string)
    ensures Strip(s) == [] <==> forall j :: 0 <= j < |s| ==> IsSpace(s[j])
  {
    var a, b := StripSplits(s);
    if forall j :: 0 <= j < |s| ==> IsSpace(s[j]) {
      assert TrimStart(s) == [];
    }
  }

  /** Stripping twice is stripping once. */
  lemma StripIdempotent(s: string)
    ensures Strip(Strip(s)) == Strip(s)
  {
    var t := TrimStart(s);
    var r := TrimEnd(t);
    assert r != [] ==> r[0] == t[0];
    assert TrimStart(r) == r;
    assert TrimEnd(r) == r;
  }

  // ---------------------------------------------------------------------
  // str.lower() on a file suffix
  // ---------------------------------------------------------------------

  function LowerChar(c: char): (r: char)
    ensures ('A' <= c <= 'Z') ==> ('a' <= r <= 'z')
    ensures !('A' <= c <= 'Z') ==> r == c
  {
    if 'A' <= c <= 'Z' then (c as int - 'A' as int + 'a' as int) as char else c
  }

  /** Lower-cases ASCII letters and leaves every other character alone. */
  function AsciiLower(s: string): (r: string)
    ensures |r| == |s|
    ensures forall j :: 0 <= j < |s| ==> r[j] == LowerChar(s[j])
  {
    seq(|s|, j requires 0 <= j < |s| => LowerChar(s[j]))
  }

  // ---------------------------------------------------------------------
  // os.path.basename and os.path.splitext (POSIX)
  // ---------------------------------------------------------------------

  /** `s.rfind(c)`: the last index holding `c`, or -1. */
  function RFind(s: string, c: char): (r: int)
    ensures -1 <= r < |s|
    ensures r >= 0 ==> s[r] == c
    ensures forall j :: r < j < |s| ==> s[j] != c
    decreases |s|
  {
    if s == [] then -1
    else if s[|s| - 1] == c then |s| - 1
    else RFind(s[..|s| - 1], c)
  }

  /** `os.path.basename(p)`: the text after the last '/'. The result is a
      suffix of `p` holding no '/', and it is either all of `p` or is
      preceded by a '/'. */
  function Basename(p: string): (r: string)
    ensures |r| <= |p| && r == p[|p| - |r|..]
    ensures '/' !in r
    ensures |r| < |p| ==> p[|p| - |r| - 1] == '/'
    decreases |p|
  {
    if p == [] || p[|p| - 1] == '/' then []
    else Basename(p[..|p| - 1]) + [p[|p| - 1]]
  }

  /** Basename is what follows the `rfind('/')` position, as posixpath
      computes it. */
  lemma BasenameAfterLastSlash(p: string)
    ensures Basename(p) == p[RFind(p, '/') + 1..]
  {
    var r := Basename(p);
    var k := RFind(p, '/');
    if k + 1 < |p| - |r| {
      assert false;
    } else if k + 1 > |p| - |r| {
      assert false;
    }
  }

  /** Whatever follows the last '/' of a path is its basename. */
  lemma {:induction false} BasenameOfJoin(dir: string, f: string)
    requires '/' !in f
    ensures Basename(dir + "/" + f) == f
    decreases |f|
  {
    if f == [] {
      assert dir + "/" + f == dir + "/";
    } else {
      var p := dir + "/" + f;
      assert p[..|p| - 1] == dir + "/" + f[..|f| - 1];
      BasenameOfJoin(dir, f[..|f| - 1]);
      assert f == f[..|f| - 1] + [f[|f| - 1]];
    }
  }

  /** A name with no '/' is its own basename. */
  lemma {:induction false} BasenameOfPlainName(f: string)
    requires '/' !in f
    ensures Basename(f) == f
    decreases |f|
  {
    if f != [] {
      BasenameOfPlainName(f[..|f| - 1]);
      assert f == f[..|f| - 1] + [f[|f| - 1]];
    }
  }

  /** The last occurrence is the only one with none after it. */
  lemma RFindIs(s: string, c: char, k: int)
    requires 0 <= k < |s| && s[k] == c
    requires forall j :: k < j < |s| ==> s[j] != c
    ensures RFind(s, c) == k
  {
  }

  /** Cutting `s` after its last `c` leaves that occurrence the last one. */
  lemma RFindOfPrefix(s: string, c: char, n: int)
    requires 0 <= n <= |s| && RFind(s, c) < n
    ensures RFind(s[..n], c) == RFind(s, c)
  {
  }

  predicate HasNonDot(s: string) {
    exists j :: 0 <= j < |s| && s[j] != '.'
  }

  /** `os.path.splitext(p)` (posixpath, via genericpath._splitext): the
      extension starts at the last '.', provided that dot lies after the last
      '/' and the final component has a character other than '.' before it
      (leading dots of a name such as ".md" do not start an extension). */
  function SplitExt(p: string): (string, string) {
    var sep := RFind(p, '/');
    var dot := RFind(p, '.');
    if dot > sep && HasNonDot(p[sep + 1..dot]) then (p[..dot], p[dot..]) else (p, [])
  }

  /** The two parts of `splitext` put back together give the path, and a
      non-empty extension is one '.' followed by neither '.' nor '/'. */
  lemma SplitExtParts(p: string)
    ensures SplitExt(p).0 + SplitExt(p).1 == p
    ensures SplitExt(p).1 != [] ==> SplitExt(p).1[0] == '.'
    ensures forall j :: 0 < j < |SplitExt(p).1| ==> SplitExt(p).1[j] != '.' && SplitExt(p).1[j] != '/'
  {
    var sep := RFind(p, '/');
    var dot := RFind(p, '.');
    if SplitExt(p).1 != [] {
      assert -1 <= sep < dot && SplitExt(p) == (p[..dot], p[dot..]);
      TailAfterLastDot(p, dot, sep);
    }
  }

  lemma TailAfterLastDot(p: string, dot: int, sep: int)
    requires -1 <= sep < dot < |p| && p[dot] == '.'
    requires forall j :: dot < j < |p| ==> p[j] != '.'
    requires forall j :: sep < j < |p| ==> p[j] != '/'
    ensures p[..dot] + p[dot..] == p
    ensures forall j :: 0 < j < |p[dot..]| ==> p[dot..][j] != '.' && p[dot..][j] != '/'
  {
    assert forall j :: 0 < j < |p[dot..]| ==> p[dot..][j] == p[dot + j];
  }

  /** A non-empty extension starts at a '.' that has neither '.' nor '/'
      after it, and the file name before it holds a character other than
      '.'. */
  lemma SplitExtNonEmpty(p: string)
    requires SplitExt(p).1 != []
    ensures |SplitExt(p).1| <= |p|
    ensures var dot := |p| - |SplitExt(p).1|;
      && SplitExt(p).1 == p[dot..]
      && p[dot] == '.'
      && (forall j :: dot < j < |p| ==> p[j] != '.' && p[j] != '/')
      && HasNonDot(Basename(p[..dot]))
  {
    var sep := RFind(p, '/');
    var dot := RFind(p, '.');
    assert sep < dot && HasNonDot(p[sep + 1..dot]) && SplitExt(p).1 == p[dot..];
    RFindOfPrefix(p, '/', dot);
    BasenameAfterLastSlash(p[..dot]);
    assert p[..dot][sep + 1..] == p[sep + 1..dot];
  }

  /** Conversely, such a '.' starts the extension. */
  lemma SplitExtAtDot(p: string, dot: int)
    requires 0 <= dot < |p| && p[dot] == '.'
    requires forall j :: dot < j < |p| ==> p[j] != '.' && p[j] != '/'
    requires HasNonDot(Basename(p[..dot]))
    ensures SplitExt(p).1 == p[dot..]
  {
    RFindIs(p, '.', dot);
    var sep := RFind(p, '/');
    assert sep < dot;
    RFindOfPrefix(p, '/', dot);
    BasenameAfterLastSlash(p[..dot]);
    assert p[..dot][sep + 1..] == p[sep + 1..dot];
  }

  // ---------------------------------------------------------------------
  // str(n) for an int, as f-strings render it
  // ---------------------------------------------------------------------

  function DigitChar(d: nat): (c: char)
    requires d < 10
    ensures '0' <= c <= '9'
  {
    ('0' as int + d) as char
  }

  function DigitValue(c: char): nat
    requires '0' <= c <= '9'
  {
    c as int - '0' as int
  }

  predicate IsDigits(s: string) {
    s != [] && forall j :: 0 <= j < |s| ==> '0' <= s[j] <= '9'
  }

  /** Decimal reading of a non-empty digit string. */
  function DigitsValue(s: string): nat
    requires IsDigits(s)
    decreases |s|
  {
    if |s| == 1 then DigitValue(s[0])
    else DigitsValue(s[..|s| - 1]) * 10 + DigitValue(s[|s| - 1])
  }

  /** Reads back what `IntToString` writes: an optional '-' then digits. */
  function ParseInt(s: string): Option<int> {
    if s != [] && s[0] == '-' && IsDigits(s[1..]) then Some(0 - DigitsValue(s[1..]) as int)
    else if IsDigits(s) then Some(DigitsValue(s))
    else None
  }

  function NatToString(n: nat): string
    decreases n
  {
    if n < 10 then [DigitChar(n)] else NatToString(n / 10) + [DigitChar(n % 10)]
  }

  /** `str(n)`: decimal digits, with a leading '-' for a negative number. */
  function IntToString(n: int): string {
    if n < 0 then "-" + NatToString(-n) else NatToString(n)
  }

  /** Decimal rendering has no superfluous leading zero and reads back to
      the number it renders. */
  lemma {:induction false} NatToStringRoundTrip(n: nat)
    ensures IsDigits(NatToString(n))
    ensures NatToString(n)[0] == '0' ==> n == 0
    ensures DigitsValue(NatToString(n)) == n
    decreases n
  {
    if n >= 10 {
      NatToStringRoundTrip(n / 10);
      var s := NatToString(n);
      var pre := NatToString(n / 10);
      assert s[..|s| - 1] == pre;
      assert s[0] == pre[0];
    }
  }

  /** `str(n)` reads back to `n`, for every integer. */
  lemma IntToStringRoundTrip(n: int)
    ensures ParseInt(IntToString(n)) == Some(n)
  {
    if n < 0 {
      NatToStringRoundTrip(-n);
      ParseNegative(NatToString(-n));
    } else {
      NatToStringRoundTrip(n);
      ParseDigits(NatToString(n));
    }
  }

  lemma ParseDigits(d: string)
    requires IsDigits(d)
    ensures ParseInt(d) == Some(DigitsValue(d) as int)
  {
    assert d[0] != '-';
  }

  lemma ParseNegative(d: string)
    requires IsDigits(d)
    ensures ParseInt("-" + d) == Some(-(DigitsValue(d) as int))
  {
    var s := "-" + d;
    assert s[0] == '-' && s[1..] == d;
  }

  /** A positive number renders as plain digits, with no sign. */
  lemma PositiveIsDigits(n: int)
    requires n > 0
    ensures IsDigits(IntToString(n)) && IntToString(n)[0] != '0'
  {
    NatToStringRoundTrip(n);
  }
}
