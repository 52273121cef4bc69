/**
 * The part of std::filesystem::path and std::to_string that the catalog and the
 * move engine depend on: the final component of a path, its stem and extension,
 * appending a component with operator/, and decimal rendering of a counter.
 * Paths are strings with '/' as the only separator.
 */
module PathNames {

  /** Position of the last occurrence of c in s, or -1. */
  function LastIndexOf(s: string, c: char): (r: int)
    ensures -1 <= r < |s|
    ensures r >= 0 ==> s[r] == c
    ensures forall j :: r < j < |s| ==> s[j] != c
    decreases |s|
  {
    if s == [] then -1
    else if s[|s| - 1] == c then |s| - 1
    else LastIndexOf(s[..|s| - 1], c)
  }

  /** path::filename(): everything after the last separator. */
  function FileName(p: string): (f: string)
    ensures |f| <= |p| && f == p[|p| - |f|..]
    ensures '/' !in f
    ensures |f| < |p| ==> p[|p| - |f| - 1] == '/'
  {
    var i := LastIndexOf(p, '/');
    if i < 0 then p else p[i + 1..]
  }

  /**
   * Where path::extension() begins in the file name f, or -1 when it has none:
   * at the rightmost '.', unless f is "." or "..", or that '.' is the first
   * character (".profile" has no extension).
   */
  function ExtensionStart(f: string): (i: int)
    ensures i == -1 || 0 < i < |f|
    ensures i > 0 ==> f[i] == '.' && '.' !in f[i + 1..]
    ensures i == -1 && f != "." && f != ".." ==> forall j :: 0 < j < |f| ==> f[j] != '.'
    ensures f == "." || f == ".." ==> i == -1
  {
    if f == "." || f == ".." then -1
    else
      var k := LastIndexOf(f, '.');
      if k <= 0 then -1 else k
  }

  /** path::stem() of a file name: the name without its extension. */
  function Stem(f: string): (s: string)
    ensures |s| <= |f| && s == f[..|s|]
    ensures s == f <==> ExtensionStart(f) < 0
  {
    var i := ExtensionStart(f);
    if i < 0 then f else f[..i]
  }

  /** path::extension() of a file name: empty, or a '.' followed by no other '.'. */
  function Extension(f: string): (e: string)
    ensures Stem(f) + e == f
    ensures e == [] || (e[0] == '.' && '.' !in e[1..])
    ensures e != [] ==> Stem(f) != []
  {
    var i := ExtensionStart(f);
    if i < 0 then "" else f[i..]
  }

  /** Stem and extension split the name: the stem is the whole name when there is no extension. */
  lemma StemThenExtension(f: string)
    ensures Stem(f) + Extension(f) == f
    ensures ExtensionStart(f) < 0 ==> Stem(f) == f
    ensures Extension(f) != "" ==> Extension(f)[0] == '.' && '.' !in Extension(f)[1..]
  {
  }

  /** What operator/ puts in front of an appended component. */
  function DirPrefix(d: string): string
  {
    if d == "" || d[|d| - 1] == '/' then d else d + "/"
  }

  /** d / n for a component n without separators. */
  function Join(d: string, n: string): (r: string)
    ensures d == "" ==> r == n
    ensures d != "" && d[|d| - 1] == '/' ==> r == d + n
    ensures d != "" && d[|d| - 1] != '/' ==> r == d + "/" + n
    ensures |r| >= |d| + |n|
  {
    DirPrefix(d) + n
  }

  lemma JoinInjective(d: string, a: string, b: string)
    requires Join(d, a) == Join(d, b)
    ensures a == b
  {
    var p := DirPrefix(d);
    assert a == (p + a)[|p|..];
    assert b == (p + b)[|p|..];
  }

  function Digit(n: nat): (c: char)
    requires n < 10
    ensures '0' <= c <= '9'
  {
    (('0' as int) + n) as char
  }

  /** std::to_string on a non-negative counter: decimal, no leading zeros. */
  function Dec(n: nat): (s: string)
    ensures |s| >= 1
    ensures forall i :: 0 <= i < |s| ==> '0' <= s[i] <= '9'
    ensures n > 0 ==> s[0] != '0'
    decreases n
  {
    if n < 10 then [Digit(n)] else Dec(n / 10) + [Digit(n % 10)]
  }

  function DigitValue(c: char): nat
  {
    if '0' <= c <= '9' then (c as int) - ('0' as int) else 0
  }

  /** Reads a decimal numeral back; the reference against which Dec is checked. */
  function ParseDec(s: string): nat
    decreases |s|
  {
    if s == [] then 0 else ParseDec(s[..|s| - 1]) * 10 + DigitValue(s[|s| - 1])
  }

  lemma {:induction false} ParseDecOfDec(n: nat)
    ensures ParseDec(Dec(n)) == n
    decreases n
  {
    if n >= 10 {
      var s := Dec(n);
      assert s == Dec(n / 10) + [Digit(n % 10)];
      assert s[..|s| - 1] == Dec(n / 10);
      ParseDecOfDec(n / 10);
    }
  }

  lemma DecInjective(a: nat, b: nat)
    requires Dec(a) == Dec(b)
    ensures a == b
  {
    ParseDecOfDec(a);
    ParseDecOfDec(b);
  }

  /** The k-th collision name for file name f: stem + "_" + k + extension. */
  function Numbered(f: string, k: nat): (r: string)
    ensures |r| == |f| + 1 + |Dec(k)|
  {
    Stem(f) + "_" + Dec(k) + Extension(f)
  }

  lemma NumberedInjective(d: string, f: string, j1: nat, j2: nat)
    requires Join(d, Numbered(f, j1)) == Join(d, Numbered(f, j2))
    ensures j1 == j2
  {
    JoinInjective(d, Numbered(f, j1), Numbered(f, j2));
    var a, e := Stem(f) + "_", Extension(f);
    var x, y := Dec(j1), Dec(j2);
    assert a + x + e == a + y + e;
    assert |x| == |y|;
    assert x == (a + x + e)[|a|..|a| + |x|];
    assert y == (a + y + e)[|a|..|a| + |y|];
    DecInjective(j1, j2);
  }

  lemma NumberedDiffersFromOriginal(d: string, f: string, k: nat)
    ensures Join(d, Numbered(f, k)) != Join(d, f)
  {
  }
}
