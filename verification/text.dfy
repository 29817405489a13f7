/** Character classes, ASCII case and whitespace handling, tokenisation and
    string ordering: the small pieces of Python string behaviour the store
    depends on, restricted to ASCII. */
module Text {

  /** The regular-expression class `[a-zA-Z0-9]`. */
  predicate IsAlnum(c: char) {
    ('a' <= c <= 'z') || ('A' <= c <= 'Z') || ('0' <= c <= '9')
  }

  /** ASCII characters for which Python's `str.isspace` holds:
      tab through carriage return, the four separators 0x1C-0x1F, and space. */
  predicate IsSpace(c: char) {
    c == ' ' || ('\t' <= c <= '\r') || (28 <= c as int <= 31)
  }

  function LowerChar(c: char): char {
    if 'A' <= c <= 'Z' then (c as int + 32) as char else c
  }

  /** `str.lower` on ASCII. */
  function Lower(s: string): string {
    seq(|s|, k requires 0 <= k < |s| => LowerChar(s[k]))
  }

  function TrimStart(s: string): (r: string)
    ensures |r| <= |s| && r == s[|s| - |r|..]
    ensures forall k :: 0 <= k < |s| - |r| ==> IsSpace(s[k])
    ensures r == [] || !IsSpace(r[0])
    decreases |s|
  {
    if |s| > 0 && IsSpace(s[0]) then TrimStart(s[1..]) else s
  }

  function TrimEnd(s: string): (r: string)
    ensures |r| <= |s| && r == s[..|r|]
    ensures forall k :: |r| <= k < |s| ==> IsSpace(s[k])
    ensures r == [] || !IsSpace(r[|r| - 1])
    decreases |s|
  {
    if |s| > 0 && IsSpace(s[|s| - 1]) then TrimEnd(s[..|s| - 1]) else s
  }

  /** `str.strip()` on ASCII: the result is the middle of `s`, everything cut
      off on either side is whitespace, and the result neither starts nor
      ends with whitespace. */
  function Strip(s: string): (r: string)
    ensures var i := |s| - |TrimStart(s)|;
      && i + |r| <= |s|
      && r == s[i..i + |r|]
      && (forall k :: 0 <= k < i ==> IsSpace(s[k]))
      && (forall k :: i + |r| <= k < |s| ==> IsSpace(s[k]))
    ensures r == [] || (!IsSpace(r[0]) && !IsSpace(r[|r| - 1]))
  {
    var t := TrimStart(s);
    var r := TrimEnd(t);
    assert r == [] || r[0] == t[0];
    r
  }

  /** Length of the longest all-alphanumeric prefix of `s`. */
  function RunLen(s: string): (n: nat)
    ensures n <= |s|
    ensures forall k :: 0 <= k < n ==> IsAlnum(s[k])
    ensures n < |s| ==> !IsAlnum(s[n])
    ensures |s| > 0 && IsAlnum(s[0]) ==> n > 0
    decreases |s|
  {
    if |s| > 0 && IsAlnum(s[0]) then 1 + RunLen(s[1..]) else 0
  }

  /** `re.findall(r"[a-zA-Z0-9]+", s)`: the maximal alphanumeric runs of `s`,
      left to right. */
  function Tokens(s: string): seq<string>
    decreases |s|
  {
    if |s| == 0 then []
    else if !IsAlnum(s[0]) then Tokens(s[1..])
    else
      var n := RunLen(s);
      [s[..n]] + Tokens(s[n..])
  }

  /** `s[i..j]` is a run of alphanumerics that cannot be extended either way. */
  ghost predicate IsMaximalRun(s: string, i: int, j: int) {
    && 0 <= i < j <= |s|
    && (forall k :: i <= k < j ==> IsAlnum(s[k]))
    && (i == 0 || !IsAlnum(s[i - 1]))
    && (j == |s| || !IsAlnum(s[j]))
  }

  /** A maximal run of a suffix is a maximal run of the whole string when it
      does not touch the cut, or the character before the cut is no
      alphanumeric. */
  lemma ShiftRun(s: string, d: nat, i: int, j: int)
    requires d <= |s| && IsMaximalRun(s[d..], i, j)
    requires i > 0 || d == 0 || !IsAlnum(s[d - 1])
    ensures IsMaximalRun(s, i + d, j + d) && s[i + d..j + d] == s[d..][i..j]
  {
    var u := s[d..];
    assert forall k :: i + d <= k < j + d ==> s[k] == u[k - d];
    if i > 0 {
      assert s[i + d - 1] == u[i - 1];
    }
    if j < |u| {
      assert s[j + d] == u[j];
    }
  }

  lemma UnshiftRun(s: string, d: nat, i: int, j: int)
    requires d <= i && IsMaximalRun(s, i, j)
    ensures IsMaximalRun(s[d..], i - d, j - d) && s[d..][i - d..j - d] == s[i..j]
  {
    var u := s[d..];
    assert forall k :: i - d <= k < j - d ==> u[k] == s[k + d];
    if i > d {
      assert u[i - d - 1] == s[i - 1];
    }
    if j < |s| {
      assert u[j - d] == s[j];
    }
  }

  lemma {:induction false} TokenIsMaximalRun(s: string, t: string)
    requires t in Tokens(s)
    ensures exists i, j :: IsMaximalRun(s, i, j) && s[i..j] == t
    decreases |s|
  {
    assert |s| > 0;
    if !IsAlnum(s[0]) {
      TokenIsMaximalRun(s[1..], t);
      var i, j :| IsMaximalRun(s[1..], i, j) && s[1..][i..j] == t;
      ShiftRun(s, 1, i, j);
    } else {
      var n := RunLen(s);
      if t == s[..n] {
        assert s[0..n] == t;
        assert IsMaximalRun(s, 0, n);
      } else {
        TokenIsMaximalRun(s[n..], t);
        var i, j :| IsMaximalRun(s[n..], i, j) && s[n..][i..j] == t;
        assert n < |s| && s[n..][0] == s[n];
        assert !IsAlnum(s[n..][0]);
        ShiftRun(s, n, i, j);
      }
    }
  }

  lemma {:induction false} MaximalRunIsToken(s: string, i: int, j: int)
    requires IsMaximalRun(s, i, j)
    ensures s[i..j] in Tokens(s)
    decreases |s|
  {
    if !IsAlnum(s[0]) {
      UnshiftRun(s, 1, i, j);
      MaximalRunIsToken(s[1..], i - 1, j - 1);
    } else {
      var n := RunLen(s);
      if i == 0 {
        assert s[..n] == s[i..j];
      } else {
        UnshiftRun(s, n, i, j);
        MaximalRunIsToken(s[n..], i - n, j - n);
      }
    }
  }

  /** The tokens of `s` are exactly its maximal alphanumeric runs. */
  lemma TokensAreMaximalRuns(s: string, t: string)
    ensures t in Tokens(s) <==> exists i, j :: IsMaximalRun(s, i, j) && s[i..j] == t
  {
    if t in Tokens(s) {
      TokenIsMaximalRun(s, t);
    }
    if exists i, j :: IsMaximalRun(s, i, j) && s[i..j] == t {
      var i, j :| IsMaximalRun(s, i, j) && s[i..j] == t;
      MaximalRunIsToken(s, i, j);
    }
  }

  /** A string has no token exactly when it has no alphanumeric character. */
  lemma {:induction false} NoTokensIffNoAlnum(s: string)
    ensures Tokens(s) == [] <==> forall k :: 0 <= k < |s| ==> !IsAlnum(s[k])
    decreases |s|
  {
    if |s| > 0 {
      NoTokensIffNoAlnum(s[1..]);
      if !IsAlnum(s[0]) {
        assert forall k :: 1 <= k < |s| ==> s[k] == s[1..][k - 1];
      }
    }
  }

  /** Python's ordering of strings: lexicographic by code point, a proper
      prefix coming first. */
  predicate Less(a: string, b: string)
    decreases |a|
  {
    |b| > 0 && (|a| == 0 || a[0] < b[0] || (a[0] == b[0] && Less(a[1..], b[1..])))
  }

  lemma {:induction false} LessIrreflexive(a: string)
    ensures !Less(a, a)
    decreases |a|
  {
    if |a| > 0 {
      LessIrreflexive(a[1..]);
    }
  }

  lemma {:induction false} LessAsymmetric(a: string, b: string)
    ensures Less(a, b) ==> !Less(b, a)
    decreases |a|
  {
    if Less(a, b) && |a| > 0 && a[0] == b[0] {
      LessAsymmetric(a[1..], b[1..]);
    }
  }

  lemma {:induction false} LessTransitive(a: string, b: string, c: string)
    ensures Less(a, b) && Less(b, c) ==> Less(a, c)
    decreases |a|
  {
    if Less(a, b) && Less(b, c) && |a| > 0 && a[0] == b[0] && b[0] == c[0] {
      LessTransitive(a[1..], b[1..], c[1..]);
    }
  }

  lemma {:induction false} LessTotal(a: string, b: string)
    ensures a == b || Less(a, b) || Less(b, a)
    decreases |a|
  {
    if |a| > 0 && |b| > 0 && a[0] == b[0] {
      LessTotal(a[1..], b[1..]);
      if a[1..] == b[1..] {
        assert a == [a[0]] + a[1..] && b == [b[0]] + b[1..];
      }
    }
  }

  /** `p` occurs in `t` as a contiguous piece: the SQL pattern `%p%`. */
  predicate Contains(t: string, p: string) {
    exists i :: 0 <= i <= |t| - |p| && OccursAt(t, p, i)
  }

  predicate OccursAt(t: string, p: string, i: int) {
    0 <= i <= |t| - |p| && t[i..i + |p|] == p
  }

  /** An occurrence survives lowercasing both sides. */
  lemma ContainsLower(t: string, p: string)
    requires Contains(t, p)
    ensures Contains(Lower(t), Lower(p))
  {
    var i :| 0 <= i <= |t| - |p| && OccursAt(t, p, i);
    assert Lower(t)[i..i + |p|] == Lower(p);
    assert OccursAt(Lower(t), Lower(p), i);
  }

  /** An occurrence in a piece is an occurrence in anything built around it. */
  lemma ContainsWithin(a: string, t: string, b: string, p: string)
    requires Contains(t, p)
    ensures Contains(a + t + b, p)
  {
    var i :| 0 <= i <= |t| - |p| && OccursAt(t, p, i);
    var u := a + t + b;
    assert u[|a| + i..|a| + i + |p|] == t[i..i + |p|];
    assert OccursAt(u, p, |a| + i);
  }

  /** Python's `s[:n]` for a non-negative `n`. */
  function Prefix(s: string, n: nat): (r: string)
    ensures |r| == if |s| <= n then |s| else n
    ensures r == s[..|r|]
    ensures |s| <= n ==> r == s
  {
    if |s| <= n then s else s[..n]
  }

  /** `sep.join(parts)`. */
  function Join(parts: seq<string>, sep: string): string {
    if |parts| == 0 then ""
    else if |parts| == 1 then parts[0]
    else parts[0] + sep + Join(parts[1..], sep)
  }

  /** A joined list starts with its first part. */
  lemma JoinStartsWithFirst(parts: seq<string>, sep: string)
    requires |parts| > 0
    ensures parts[0] <= Join(parts, sep)
  {
  }

  function DigitChar(d: nat): char
    requires d < 10
  {
    ('0' as int + d) as char
  }

  /** `str(n)` for a natural number. */
  function NatToString(n: nat): (r: string)
    ensures |r| > 0
    ensures forall k :: 0 <= k < |r| ==> '0' <= r[k] <= '9'
    decreases n
  {
    if n < 10 then [DigitChar(n)] else NatToString(n / 10) + [DigitChar(n % 10)]
  }
}
