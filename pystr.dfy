/** Python string and path primitives the crawler relies on: `str.strip`,
    `str.find`/`str.split(sep)[0]`, `str(int)`, `os.path.split(p)[1]` and
    `os.path.join` (POSIX flavour). Each is defined once here and specified
    by what it means, so that the crawler's own functions can be reasoned
    about without re-deriving the Python semantics. */
module PyStr {

  /** `c.isspace()` in Python 3: the ASCII controls TAB..CR and FS..US,
      the space, NEL, NBSP and the Unicode space separators. */
  predicate IsSpace(c: char) {
    || c == ' '
    || ('\t' <= c <= '\r')
    || ('\U{1c}' <= c <= '\U{1f}')
    || c == '\U{85}' || c == '\U{a0}' || c == '\U{1680}'
    || ('\U{2000}' <= c <= '\U{200a}')
    || c == '\U{2028}' || c == '\U{2029}' || c == '\U{202f}'
    || c == '\U{205f}' || c == '\U{3000}'
  }

  predicate AllSpace(s: string) {
    forall k :: 0 <= k < |s| ==> IsSpace(s[k])
  }

  /** ASCII decimal digit. */
  predicate IsDigit(c: char) {
    '0' <= c <= '9'
  }

  predicate AllDigits(s: string) {
    forall k :: 0 <= k < |s| ==> IsDigit(s[k])
  }

  /** Number of leading whitespace characters of `s`. */
  function LeadingSpace(s: string): (n: nat)
    ensures n <= |s|
    ensures AllSpace(s[..n])
    ensures n < |s| ==> !IsSpace(s[n])
  {
    if |s| == 0 || !IsSpace(s[0]) then 0
    else
      var n := 1 + LeadingSpace(s[1..]);
      assert s[1..][..n - 1] == s[1..n];
      n
  }

  /** Number of trailing whitespace characters of `s`. */
  function TrailingSpace(s: string): (n: nat)
    ensures n <= |s|
    ensures AllSpace(s[|s| - n..])
    ensures n < |s| ==> !IsSpace(s[|s| - n - 1])
  {
    if |s| == 0 || !IsSpace(s[|s| - 1]) then 0
    else
      var t := s[..|s| - 1];
      var n := 1 + TrailingSpace(t);
      assert s[|s| - n..] == t[|t| - (n - 1)..] + [s[|s| - 1]];
      n
  }

  /** `s.strip()`: `s` without its leading and trailing whitespace. */
  function Strip(s: string): (r: string)
    ensures exists i, j :: 0 <= i <= j <= |s| && r == s[i..j] && AllSpace(s[..i]) && AllSpace(s[j..])
    ensures r == [] || (!IsSpace(r[0]) && !IsSpace(r[|r| - 1]))
    ensures AllSpace(s) ==> r == []
  {
    var i := LeadingSpace(s);
    if i == |s| then
      assert s[0..0] == [] && s[..0] == [] && s[0..] == s;
      []
    else
      var t := TrailingSpace(s);
      assert !IsSpace(s[i]);
      s[i..|s| - t]
  }

  /** Strip leaves nothing more to strip. */
  lemma StripIdempotent(s: string)
    ensures Strip(Strip(s)) == Strip(s)
  {
    var r := Strip(s);
    assert LeadingSpace(r) == 0;
    if r != [] {
      assert TrailingSpace(r) == 0;
      assert r[0..|r|] == r;
    }
  }

  /** `sep` occurs in `s` at position `i`. */
  predicate OccursAt(s: string, sep: string, i: int) {
    0 <= i && i + |sep| <= |s| && s[i..i + |sep|] == sep
  }

  predicate Contains(s: string, sep: string) {
    exists i | 0 <= i <= |s| :: OccursAt(s, sep, i)
  }

  /** `s.find(sep)`: the first position at which `sep` occurs, or -1. */
  function Find(s: string, sep: string): (r: int)
    ensures -1 <= r <= |s|
    ensures r == -1 <==> !Contains(s, sep)
    ensures r >= 0 ==> OccursAt(s, sep, r)
    ensures forall k :: 0 <= k < r ==> !OccursAt(s, sep, k)
  {
    FindFrom(s, sep, 0)
  }

  function FindFrom(s: string, sep: string, from: nat): (r: int)
    requires from <= |s| + 1
    requires forall k :: 0 <= k < from ==> !OccursAt(s, sep, k)
    ensures -1 <= r <= |s|
    ensures r == -1 <==> !Contains(s, sep)
    ensures r >= 0 ==> OccursAt(s, sep, r)
    ensures forall k :: 0 <= k < r ==> !OccursAt(s, sep, k)
    decreases |s| + 1 - from
  {
    if from + |sep| > |s| then
      assert forall k :: from <= k ==> !OccursAt(s, sep, k);
      -1
    else if s[from..from + |sep|] == sep then
      assert OccursAt(s, sep, from);
      from
    else FindFrom(s, sep, from + 1)
  }

  /** `s.split(sep)[0]`: the part of `s` before the first `sep`, or all of `s`. */
  function BeforeFirst(s: string, sep: string): (r: string)
    requires sep != []
    ensures r <= s
    ensures !Contains(r, sep)
    ensures !Contains(s, sep) ==> r == s
    ensures r != s ==> OccursAt(s, sep, |r|)
    ensures forall k :: 0 <= k < |r| ==> !OccursAt(s, sep, k)
  {
    var i := Find(s, sep);
    if i == -1 then s
    else
      var r := s[..i];
      assert !Contains(r, sep) by {
        forall k | OccursAt(r, sep, k) ensures false {
          assert s[k..k + |sep|] == r[k..k + |sep|];
          assert OccursAt(s, sep, k);
        }
      }
      r
  }

  /** When the first character of `sep` does not occur in `a`, the first
      `sep` in `a + sep + rest` is the one right after `a`. */
  lemma SplitAfterPrefix(a: string, sep: string, rest: string)
    requires sep != [] && sep[0] !in a
    ensures Find(a + sep + rest, sep) == |a|
    ensures BeforeFirst(a + sep + rest, sep) == a
  {
    var s := a + sep + rest;
    assert OccursAt(s, sep, |a|);
    forall k | 0 <= k < |a|
      ensures !OccursAt(s, sep, k)
    {
      assert s[k] == a[k];
      if k + |sep| <= |s| {
        assert s[k..k + |sep|][0] == s[k];
      }
    }
    assert s[..|a|] == a;
  }

  /** A common prefix can be cancelled. */
  lemma CancelPrefix(a: string, x: string, y: string)
    requires a + x == a + y
    ensures x == y
  {
    assert x == (a + x)[|a|..];
    assert y == (a + y)[|a|..];
  }

  lemma ConcatAssociates<T>(a: seq<T>, b: seq<T>, c: seq<T>)
    ensures a + (b + c) == (a + b) + c
  {
  }

  /** Two strings cut by the same separator at the first occurrence agree
      on both parts. */
  lemma SplitAfterPrefixUnique(a: string, a': string, sep: string, rest: string, rest': string)
    requires sep != [] && sep[0] !in a && sep[0] !in a'
    requires a + sep + rest == a' + sep + rest'
    ensures a == a' && rest == rest'
  {
    SplitAfterPrefix(a, sep, rest);
    SplitAfterPrefix(a', sep, rest');
    assert rest == (a + sep + rest)[|a| + |sep|..];
    assert rest' == (a' + sep + rest')[|a'| + |sep|..];
  }

  /** The decimal digits of `n` as Python's `str` prints them. */
  function NatToString(n: nat): (r: string)
    ensures r != []
    ensures AllDigits(r)
    ensures |r| > 1 ==> r[0] != '0'
    ensures r[0] == '0' <==> n == 0
    decreases n
  {
    if n < 10 then [DigitChar(n)]
    else NatToString(n / 10) + [DigitChar(n % 10)]
  }

  function DigitChar(d: nat): (c: char)
    requires d < 10
    ensures IsDigit(c)
  {
    (48 + d) as char
  }

  /** `str(n)` for any Python int: a minus sign before the digits of `|n|`. */
  function IntToString(n: int): (r: string)
    ensures r != []
    ensures n >= 0 ==> AllDigits(r)
    ensures n < 0 ==> r[0] == '-' && AllDigits(r[1..])
    ensures n >= 0 ==> (r[0] == '0' <==> n == 0) && (|r| > 1 ==> r[0] != '0')
    ensures n < 0 ==> |r| >= 2 && r[1] != '0'
  {
    if n >= 0 then NatToString(n) else "-" + NatToString(-n)
  }

  /** The value of a string of decimal digits (`int(s)` on such strings). */
  function ParseNat(s: string): (n: nat)
    requires AllDigits(s)
  {
    if s == [] then 0
    else 10 * ParseNat(s[..|s| - 1]) + (s[|s| - 1] as int - 48)
  }

  /** Inverse of `IntToString`, for the strings it produces. */
  function ParseInt(s: string): (n: int)
    requires s != []
    requires AllDigits(s) || (s[0] == '-' && AllDigits(s[1..]))
  {
    if s[0] == '-' then -(ParseNat(s[1..]) as int) else ParseNat(s)
  }

  lemma {:induction false} ParseNatToString(n: nat)
    ensures ParseNat(NatToString(n)) == n
    decreases n
  {
    if n >= 10 {
      ParseNatToString(n / 10);
      var s := NatToString(n);
      assert s[..|s| - 1] == NatToString(n / 10);
    }
  }

  /** `str` is a round trip with `int`, so distinct ints print differently. */
  lemma ParseIntToString(n: int)
    ensures ParseInt(IntToString(n)) == n
  {
    if n >= 0 {
      ParseNatToString(n);
    } else {
      ParseNatToString(-n);
      assert IntToString(n)[1..] == NatToString(-n);
    }
  }

  /** `str(n)` holds only digits and possibly a leading minus sign. */
  lemma IntToStringChars(n: int, c: char)
    requires !IsDigit(c) && c != '-'
    ensures c !in IntToString(n)
  {
    var r := IntToString(n);
    if n < 0 {
      assert r == [r[0]] + r[1..];
      assert c !in r[1..];
    }
  }

  lemma IntToStringInjective(a: int, b: int)
    requires IntToString(a) == IntToString(b)
    ensures a == b
  {
    ParseIntToString(a);
    ParseIntToString(b);
  }

  /** Index just after the last `'/'` in `p`, or 0 if there is none
      (`p.rfind('/') + 1`). */
  function TailStart(p: string): (i: nat)
    ensures i <= |p|
    ensures i > 0 ==> p[i - 1] == '/'
    ensures forall k :: i <= k < |p| ==> p[k] != '/'
  {
    if |p| == 0 || p[|p| - 1] == '/' then |p|
    else TailStart(p[..|p| - 1])
  }

  /** `os.path.split(p)[1]`: the last path component of `p`. */
  function Basename(p: string): (r: string)
    ensures '/' !in r
    ensures exists head :: p == head + r && (head == [] || head[|head| - 1] == '/')
  {
    var i := TailStart(p);
    assert p == p[..i] + p[i..];
    p[i..]
  }

  /** `b` is relative: it does not start with `'/'`. */
  predicate IsRelative(b: string) {
    b == [] || b[0] != '/'
  }

  /** `path` is `folder`, then at most one `'/'`, then `name`. */
  predicate JoinedUnder(path: string, folder: string, name: string) {
    path == folder + name || path == folder + "/" + name
  }

  /** `os.path.join(a, b)` on POSIX: `b` if it is absolute, otherwise `b`
      appended to `a` with a `'/'` between them unless `a` is empty or
      already ends with one. */
  function PathJoin(a: string, b: string): (r: string)
    ensures !IsRelative(b) ==> r == b
    ensures a == [] ==> r == b
    ensures IsRelative(b) ==> JoinedUnder(r, a, b)
    ensures IsRelative(b) && a != [] ==> r[|r| - |b| - 1] == '/'
    ensures IsRelative(b) && a != [] && a[|a| - 1] == '/' ==> r == a + b
    ensures exists head :: r == head + b && (head == [] || head[|head| - 1] == '/')
  {
    if |b| > 0 && b[0] == '/' then b
    else if a == [] || a[|a| - 1] == '/' then a + b
    else a + "/" + b
  }

  /** Joining a relative name: the name alone onto an empty folder, the
      folder and the name when the folder ends in `'/'`, and otherwise the
      folder, one `'/'` and the name. */
  lemma JoinCases(a: string, b: string)
    requires IsRelative(b)
    ensures a == [] ==> PathJoin(a, b) == b
    ensures a != [] && a[|a| - 1] == '/' ==> PathJoin(a, b) == a + b
    ensures a != [] && a[|a| - 1] != '/' ==> PathJoin(a, b) == a + "/" + b
  {
  }

  /** The last component of a joined path is the file name that was joined,
      when that name holds no `'/'`. */
  lemma BasenameOfJoin(folder: string, name: string)
    requires '/' !in name
    ensures Basename(PathJoin(folder, name)) == name
  {
    var p := PathJoin(folder, name);
    var head :| p == head + name && (head == [] || head[|head| - 1] == '/');
    TailStartOfJoin(head, name);
  }

  lemma {:induction false} TailStartOfJoin(head: string, name: string)
    requires '/' !in name
    requires head == [] || head[|head| - 1] == '/'
    ensures TailStart(head + name) == |head|
    decreases |name|
  {
    var p := head + name;
    if name != [] {
      assert name[|name| - 1] in name;
      assert p[..|p| - 1] == head + name[..|name| - 1];
      assert forall c :: c in name[..|name| - 1] ==> c in name;
      TailStartOfJoin(head, name[..|name| - 1]);
    } else {
      assert p == head;
    }
  }
}
