/** The few Python string operations the view relies on, on `seq<char>`. */
module Text {

  /** The characters `str.isspace()` accepts: what `str.strip()` removes by default. */
  const Whitespace: set<char> := {
    ' ', '\t', '\n', '\r', '\U{0B}', '\U{0C}', '\U{1C}', '\U{1D}', '\U{1E}', '\U{1F}',
    '\U{85}', '\U{A0}', '\U{1680}',
    '\U{2000}', '\U{2001}', '\U{2002}', '\U{2003}', '\U{2004}', '\U{2005}',
    '\U{2006}', '\U{2007}', '\U{2008}', '\U{2009}', '\U{200A}',
    '\U{2028}', '\U{2029}', '\U{202F}', '\U{205F}', '\U{3000}'
  }

  predicate IsSpace(c: char) {
    c in Whitespace
  }

  /** `s.startswith(p)` */
  predicate StartsWith(s: string, p: string) {
    |p| <= |s| && s[..|p|] == p
  }

  /** `s.endswith(f)` */
  predicate EndsWith(s: string, f: string) {
    |f| <= |s| && s[|s| - |f|..] == f
  }

  /** `s.lstrip()`: drops the leading whitespace, and nothing else. */
  function StripStart(s: string): (r: string)
    ensures |r| <= |s| && r == s[|s| - |r|..]
    ensures forall i :: 0 <= i < |s| - |r| ==> IsSpace(s[i])
    ensures r == [] || !IsSpace(r[0])
  {
    if |s| > 0 && IsSpace(s[0]) then
      var r := StripStart(s[1..]);
      assert forall i :: 1 <= i < |s| - |r| ==> s[i] == s[1..][i - 1];
      r
    else s
  }

  /** `s.rstrip()`: drops the trailing whitespace, and nothing else. */
  function StripEnd(s: string): (r: string)
    ensures |r| <= |s| && r == s[..|r|]
    ensures forall i :: |r| <= i < |s| ==> IsSpace(s[i])
    ensures r == [] || !IsSpace(r[|r| - 1])
  {
    if |s| > 0 && IsSpace(s[|s| - 1]) then
      var r := StripEnd(s[..|s| - 1]);
      assert forall i :: |r| <= i < |s| - 1 ==> s[i] == s[..|s| - 1][i];
      r
    else s
  }

  /** `s.strip()`: the slice of `s` left once the whitespace at both ends is gone. */
  function Strip(s: string): (r: string)
    ensures r == [] || (!IsSpace(r[0]) && !IsSpace(r[|r| - 1]))
  {
    StripEnd(StripStart(s))
  }

  /** What `strip()` keeps is one slice of the input, with only whitespace cut off
      on either side. */
  lemma StripIsTrimmedSlice(s: string)
    ensures exists i, j ::
              && 0 <= i <= j <= |s| && Strip(s) == s[i..j]
              && (forall k :: 0 <= k < i ==> IsSpace(s[k]))
              && (forall k :: j <= k < |s| ==> IsSpace(s[k]))
  {
    var l := StripStart(s);
    var r := StripEnd(l);
    assert r == s[|s| - |l|..|s| - |l| + |r|];
  }

  /** `strip()` leaves a string alone when neither end is whitespace. */
  lemma StripKeeps(s: string)
    requires s == [] || (!IsSpace(s[0]) && !IsSpace(s[|s| - 1]))
    ensures Strip(s) == s
  {
  }

  /** One leading space in front of an unspaced string is all `strip()` removes. */
  lemma {:induction false} StripLeadingSpace(s: string)
    requires s != [] && !IsSpace(s[0]) && !IsSpace(s[|s| - 1])
    ensures Strip([' '] + s) == s
  {
    var t := [' '] + s;
    assert IsSpace(t[0]);
    assert t[1..] == s;
    assert StripStart(t) == StripStart(s);
    assert StripStart(s) == s;
    StripKeeps(s);
  }

  /** What `strip()` keeps of a string that does not start with whitespace begins
      with that string's first character. */
  lemma StripFirst(s: string)
    requires s != [] && !IsSpace(s[0])
    ensures Strip(s) != [] && Strip(s)[0] == s[0]
  {
    assert StripStart(s) == s;
    var r := StripEnd(s);
  }

  /** A string framed by `h` and `f` starts with `h` and ends with `f`. */
  lemma Framed(h: string, m: string, f: string)
    ensures StartsWith(h + m + f, h)
    ensures EndsWith(h + m + f, f)
  {
    assert (h + m + f)[..|h|] == h;
  }

  /** `s.split(c, 1)[1]`: everything after the first occurrence of `c`. */
  function AfterFirst(s: string, c: char): (r: string)
    requires c in s
    ensures exists i :: 0 <= i < |s| && s[i] == c && c !in s[..i] && r == s[i + 1..]
  {
    if s[0] == c then
      assert c !in s[..0];
      s[1..]
    else
      var r := AfterFirst(s[1..], c);
      ghost var i :| 0 <= i < |s[1..]| && s[1..][i] == c && c !in s[1..][..i] && r == s[1..][i + 1..];
      assert s[..i + 1] == [s[0]] + s[1..][..i];
      r
  }

  /** Once the first occurrence is known, what follows it is pinned down. */
  lemma AfterFirstAt(s: string, c: char, i: nat)
    requires i < |s| && s[i] == c && c !in s[..i]
    ensures AfterFirst(s, c) == s[i + 1..]
  {
    var j :| 0 <= j < |s| && s[j] == c && c !in s[..j] && AfterFirst(s, c) == s[j + 1..];
  }

  /** `sep.join(xs)` */
  function JoinWith(xs: seq<string>, sep: string): string {
    if |xs| == 0 then ""
    else if |xs| == 1 then xs[0]
    else xs[0] + sep + JoinWith(xs[1..], sep)
  }

  /** `"".join(xs)` */
  function Concat(xs: seq<string>): string {
    JoinWith(xs, "")
  }

  /** `s.split(c)`: the pieces of `s` between the occurrences of `c`. */
  function Split(s: string, c: char): (r: seq<string>)
    ensures |r| >= 1
    ensures forall k :: 0 <= k < |r| ==> c !in r[k]
  {
    if |s| == 0 then [""]
    else
      var rest := Split(s[1..], c);
      if s[0] == c then
        assert s == [c] + s[1..];
        [""] + rest
      else
        var r := [[s[0]] + rest[0]] + rest[1..];
        assert r[1..] == rest[1..];
        r
  }

  /** Joining the pieces with the separator gives the string back. */
  lemma {:induction false} JoinSplit(s: string, c: char)
    ensures JoinWith(Split(s, c), [c]) == s
  {
    if |s| > 0 {
      JoinSplit(s[1..], c);
      var rest := Split(s[1..], c);
      if s[0] == c {
        assert s == [c] + s[1..];
      } else {
        var r := Split(s, c);
        assert r[1..] == rest[1..];
        if |rest| > 1 {
          assert JoinWith(rest, [c]) == rest[0] + [c] + JoinWith(rest[1..], [c]);
        }
        assert s == [s[0]] + s[1..];
      }
    }
  }

  /** Splitting a joined list gives the list back, when no piece holds the separator. */
  lemma {:induction false} SplitJoin(xs: seq<string>, c: char)
    requires |xs| >= 1
    requires forall k :: 0 <= k < |xs| ==> c !in xs[k]
    ensures Split(JoinWith(xs, [c]), c) == xs
  {
    if |xs| == 1 {
      SplitPlain(xs[0], c);
    } else {
      SplitJoin(xs[1..], c);
      SplitPiece(xs[0], JoinWith(xs[1..], [c]), c);
    }
  }

  lemma {:induction false} SplitPlain(s: string, c: char)
    requires c !in s
    ensures Split(s, c) == [s]
  {
    if |s| > 0 {
      assert s[0] != c;
      SplitPlain(s[1..], c);
      assert [s[0]] + s[1..] == s;
    }
  }

  /** Splitting `a + [c] + b` with `c` not in `a` splits off `a` first. */
  lemma {:induction false} SplitPiece(a: string, b: string, c: char)
    requires c !in a
    ensures Split(a + [c] + b, c) == [a] + Split(b, c)
  {
    var s := a + [c] + b;
    if |a| == 0 {
      assert s[1..] == b;
    } else {
      assert s[1..] == a[1..] + [c] + b;
      SplitPiece(a[1..], b, c);
      assert [a[0]] + a[1..] == a;
    }
  }

  /** `[x] * n` */
  function Repeat(x: string, n: nat): (r: seq<string>)
    ensures |r| == n && forall k :: 0 <= k < n ==> r[k] == x
  {
    if n == 0 then [] else [x] + Repeat(x, n - 1)
  }

  function Digit(d: nat): (c: char)
    requires d < 10
    ensures '0' <= c <= '9'
  {
    ('0' as int + d) as char
  }

  function DigitValue(c: char): nat {
    if '0' <= c <= '9' then c as int - '0' as int else 0
  }

  /** `'%d' % n` for a non-negative `n` */
  function Decimal(n: nat): (r: string)
    ensures |r| >= 1 && (|r| > 1 ==> r[0] != '0')
    ensures forall k :: 0 <= k < |r| ==> '0' <= r[k] <= '9'
  {
    if n < 10 then [Digit(n)] else Decimal(n / 10) + [Digit(n % 10)]
  }

  /** Reads a run of decimal digits back as a number. */
  function DecimalValue(s: string): nat {
    if |s| == 0 then 0 else DecimalValue(s[..|s| - 1]) * 10 + DigitValue(s[|s| - 1])
  }

  /** `%d` loses nothing: the printed index reads back as the index. */
  lemma {:induction false} DecimalRoundTrip(n: nat)
    ensures DecimalValue(Decimal(n)) == n
  {
    if n >= 10 {
      var q, d := n / 10, n % 10;
      assert n == q * 10 + d;
      DecimalRoundTrip(q);
      var s := Decimal(n);
      assert s == Decimal(q) + [Digit(d)];
      assert s[..|s| - 1] == Decimal(q);
      assert DigitValue(s[|s| - 1]) == d;
      assert DecimalValue(s) == DecimalValue(Decimal(q)) * 10 + d;
    } else {
      assert DigitValue(Digit(n)) == n;
    }
  }
}
