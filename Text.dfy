/** The pieces of Go's `strings`, `path/filepath` and `fmt` packages that the
    client relies on, on `string` = `seq<char>`: Index, Split, Join,
    TrimSpace, Base (Unix) and the `%d` verb, and a count of occurrences of a
    character, in whose terms the split's properties are stated. */
module Text {

  // ---------------------------------------------------------------------------
  // strings.Index, strings.Split, strings.Join, and counting a character
  // ---------------------------------------------------------------------------

  /** `sep` occurs in `s` starting at position `k`. */
  predicate OccursAt(s: string, sep: string, k: nat)
  {
    k + |sep| <= |s| && s[k..k + |sep|] == sep
  }

  lemma OccursAtTail(s: string, sep: string, k: nat)
    requires |s| > 0
    ensures OccursAt(s[1..], sep, k) <==> OccursAt(s, sep, k + 1)
  {
    if k + 1 + |sep| <= |s| {
      assert s[1..][k..k + |sep|] == s[k + 1..k + 1 + |sep|];
    }
  }

  /** strings.Index for a non-empty separator: the first position at which
      `sep` occurs in `s`, or -1 when it occurs nowhere. */
  function Index(s: string, sep: string): (r: int)
    requires |sep| > 0
    ensures r == -1 || 0 <= r <= |s| - |sep|
    ensures r >= 0 ==> OccursAt(s, sep, r) && forall k: nat :: k < r ==> !OccursAt(s, sep, k)
    ensures r < 0 ==> forall k: nat :: !OccursAt(s, sep, k)
    decreases |s|
  {
    if |s| < |sep| then -1
    else if s[..|sep|] == sep then 0
    else
      var r := Index(s[1..], sep);
      assert forall k: nat :: OccursAt(s[1..], sep, k) <==> OccursAt(s, sep, k + 1) by {
        forall k: nat ensures OccursAt(s[1..], sep, k) <==> OccursAt(s, sep, k + 1) {
          OccursAtTail(s, sep, k);
        }
      }
      assert !OccursAt(s, sep, 0);
      assert forall k: nat :: k > 0 ==> (OccursAt(s, sep, k) <==> OccursAt(s[1..], sep, k - 1));
      if r < 0 then -1 else r + 1
  }

  /** strings.Split for a non-empty separator: the pieces of `s` between the
      successive non-overlapping occurrences of `sep`, left to right. */
  function Split(s: string, sep: string): (r: seq<string>)
    requires |sep| > 0
    ensures |r| >= 1
    decreases |s|
  {
    var i := Index(s, sep);
    if i < 0 then [s] else [s[..i]] + Split(s[i + |sep|..], sep)
  }

  /** strings.Join: the elements of `xs` with `sep` between each two. */
  function Join(xs: seq<string>, sep: string): string
  {
    if |xs| == 0 then ""
    else if |xs| == 1 then xs[0]
    else xs[0] + sep + Join(xs[1..], sep)
  }

  /** How often `c` occurs in `s` (a specification helper; the client does
      not call strings.Count). */
  function Count(s: string, c: char): nat
  {
    if s == [] then 0 else (if s[0] == c then 1 else 0) + Count(s[1..], c)
  }

  lemma {:induction false} CountAppend(a: string, b: string, c: char)
    ensures Count(a + b, c) == Count(a, c) + Count(b, c)
  {
    if a != [] {
      assert (a + b)[0] == a[0];
      assert (a + b)[1..] == a[1..] + b;
      CountAppend(a[1..], b, c);
    } else {
      assert a + b == b;
    }
  }

  lemma {:induction false} CountZero(s: string, c: char)
    ensures Count(s, c) == 0 <==> c !in s
  {
    if s != [] {
      CountZero(s[1..], c);
      assert s == [s[0]] + s[1..];
    }
  }

  /** Where `x` holds no occurrence of the separator's first character, the
      first occurrence of the separator in `x + sep + t` is right after `x`,
      and the separator does not occur in `x` at all. */
  lemma IndexAfterFreePrefix(x: string, sep: string, t: string)
    requires |sep| > 0 && sep[0] !in x
    ensures Index(x + sep + t, sep) == |x|
    ensures Index(x, sep) == -1
  {
    var s := x + sep + t;
    assert s[|x|..|x| + |sep|] == sep;
    assert OccursAt(s, sep, |x|);
    var r := Index(s, sep);
    var q := Index(x, sep);
  }

  /** Splitting a join gives the elements back when none of them contains the
      separator's first character. */
  lemma {:induction false} SplitJoin(xs: seq<string>, sep: string)
    requires |xs| > 0 && |sep| > 0
    requires forall i :: 0 <= i < |xs| ==> sep[0] !in xs[i]
    ensures Split(Join(xs, sep), sep) == xs
  {
    var x := xs[0];
    if |xs| == 1 {
      IndexAfterFreePrefix(x, sep, "");
      assert Split(x, sep) == [x];
    } else {
      var tail := xs[1..];
      var rest := Join(tail, sep);
      var s := x + sep + rest;
      assert Join(xs, sep) == s;
      IndexAfterFreePrefix(x, sep, rest);
      assert s[..|x|] == x;
      assert s[|x| + |sep|..] == rest;
      assert Split(s, sep) == [x] + Split(rest, sep);
      assert forall i :: 0 <= i < |tail| ==> sep[0] !in tail[i] by {
        forall i | 0 <= i < |tail| ensures sep[0] !in tail[i] {
          assert tail[i] == xs[i + 1];
        }
      }
      SplitJoin(tail, sep);
      assert xs == [x] + tail;
    }
  }

  /** A one-character separator that does not occur at `k` is not the
      character at `k`. */
  lemma CharNotAt(s: string, c: char, k: nat)
    requires k < |s| && !OccursAt(s, [c], k)
    ensures s[k] != c
  {
    assert s[k..k + 1] == [s[k]];
  }

  /** Splitting on a one-character separator yields one more piece than there
      are occurrences of that character. */
  lemma {:induction false} SplitCount(s: string, c: char)
    ensures |Split(s, [c])| == Count(s, c) + 1
    decreases |s|
  {
    var i := Index(s, [c]);
    if i < 0 {
      forall k | 0 <= k < |s| ensures s[k] != c {
        CharNotAt(s, c, k);
      }
      CountZero(s, c);
    } else {
      var a, b := s[..i], s[i + 1..];
      assert s == a + [c] + b by {
        assert s[i..i + 1] == [c];
      }
      forall k | 0 <= k < i ensures a[k] != c {
        CharNotAt(s, c, k);
      }
      CountZero(a, c);
      CountAppend(a + [c], b, c);
      CountAppend(a, [c], c);
      assert Count([c], c) == 1 by { assert [c][1..] == []; }
      SplitCount(b, c);
    }
  }

  /** The two pieces of a split on `c` that yields exactly two: the string is
      first piece, `c`, second piece, and neither piece contains `c`. */
  lemma SplitTwo(s: string, c: char)
    requires |Split(s, [c])| == 2
    ensures var w := Split(s, [c]); s == w[0] + [c] + w[1] && c !in w[0] && c !in w[1]
  {
    var i := Index(s, [c]);
    var a, b := s[..i], s[i + 1..];
    assert Index(b, [c]) < 0;
    assert s == a + [c] + b by {
      assert s[i..i + 1] == [c];
    }
    forall k | 0 <= k < i ensures a[k] != c {
      CharNotAt(s, c, k);
    }
    forall k | 0 <= k < |b| ensures b[k] != c {
      CharNotAt(b, c, k);
    }
  }

  // ---------------------------------------------------------------------------
  // strings.TrimSpace
  // ---------------------------------------------------------------------------

  /** unicode.IsSpace: the Latin-1 white space characters and the other
      characters with the Unicode White_Space property. */
  predicate IsSpace(c: char)
  {
    c == ' ' || c == '\t' || c == '\n' || c == '\U{000B}' || c == '\U{000C}' || c == '\r'
    || c == '\U{0085}' || c == '\U{00A0}' || c == '\U{1680}'
    || ('\U{2000}' <= c <= '\U{200A}')
    || c == '\U{2028}' || c == '\U{2029}' || c == '\U{202F}' || c == '\U{205F}' || c == '\U{3000}'
  }

  /** The number of white space characters at the start of `s`. */
  function LeadingSpaces(s: string): (n: nat)
    ensures n <= |s|
    ensures forall k :: 0 <= k < n ==> IsSpace(s[k])
    ensures n < |s| ==> !IsSpace(s[n])
  {
    if s == [] || !IsSpace(s[0]) then 0 else 1 + LeadingSpaces(s[1..])
  }

  /** The number of white space characters at the end of `s`. */
  function TrailingSpaces(s: string): (n: nat)
    ensures n <= |s|
    ensures forall k :: |s| - n <= k < |s| ==> IsSpace(s[k])
    ensures n < |s| ==> !IsSpace(s[|s| - 1 - n])
  {
    if s == [] || !IsSpace(s[|s| - 1]) then 0 else 1 + TrailingSpaces(s[..|s| - 1])
  }

  /** strings.TrimSpace: `s` without its leading and trailing white space. */
  function TrimSpace(s: string): string
  {
    var t := s[LeadingSpaces(s)..];
    t[..|t| - TrailingSpaces(t)]
  }

  /** The trimmed string is the piece of `s` that starts at its first
      non-space character and ends at its last one; everything outside it
      is white space. */
  lemma TrimSpaceSpec(s: string)
    ensures var r := TrimSpace(s);
      r == [] || (!IsSpace(r[0]) && !IsSpace(r[|r| - 1]))
    ensures var r := TrimSpace(s); var i := LeadingSpaces(s);
      i + |r| <= |s| && s[i..i + |r|] == r
      && (forall k :: 0 <= k < i ==> IsSpace(s[k]))
      && (forall k :: i + |r| <= k < |s| ==> IsSpace(s[k]))
  {
    var i := LeadingSpaces(s);
    var t := s[i..];
    var j := TrailingSpaces(t);
    var r := t[..|t| - j];
    assert r == TrimSpace(s);
    assert s[i..i + |r|] == r;
    forall k | i + |r| <= k < |s| ensures IsSpace(s[k]) {
      assert s[k] == t[k - i];
    }
    if r != [] {
      assert r[0] == s[i];
      assert r[|r| - 1] == t[|t| - 1 - j];
    }
  }

  // ---------------------------------------------------------------------------
  // filepath.Base (Unix, separator '/')
  // ---------------------------------------------------------------------------

  /** `p` with its trailing slashes removed. */
  function StripTrailingSlashes(p: string): string
  {
    if p != [] && p[|p| - 1] == '/' then StripTrailingSlashes(p[..|p| - 1]) else p
  }

  /** What StripTrailingSlashes removes is a run of slashes at the end, all
      of them. */
  lemma {:induction false} StripTrailingSlashesSpec(p: string)
    ensures var r := StripTrailingSlashes(p);
      |r| <= |p| && p[..|r|] == r
      && (r == [] || r[|r| - 1] != '/')
      && (forall k :: |r| <= k < |p| ==> p[k] == '/')
  {
    if p != [] && p[|p| - 1] == '/' {
      StripTrailingSlashesSpec(p[..|p| - 1]);
    }
  }

  /** The part of `p` after its last slash (all of `p` when it has none). */
  function AfterLastSlash(p: string): string
  {
    if p == [] || p[|p| - 1] == '/' then []
    else AfterLastSlash(p[..|p| - 1]) + [p[|p| - 1]]
  }

  /** AfterLastSlash gives the longest end of `p` without a slash. */
  lemma {:induction false} AfterLastSlashSpec(p: string)
    ensures var r := AfterLastSlash(p);
      |r| <= |p| && p[|p| - |r|..] == r
      && '/' !in r
      && (|r| < |p| ==> p[|p| - |r| - 1] == '/')
  {
    if !(p == [] || p[|p| - 1] == '/') {
      var q := p[..|p| - 1];
      var c := p[|p| - 1];
      AfterLastSlashSpec(q);
      var r' := AfterLastSlash(q);
      var r := r' + [c];
      assert AfterLastSlash(p) == r;
      assert p == q + [c];
      assert p[|p| - |r|..] == q[|q| - |r'|..] + [c];
      assert '/' !in r by {
        assert forall k :: 0 <= k < |r'| ==> r[k] == r'[k];
      }
      if |r| < |p| {
        assert p[|p| - |r| - 1] == q[|q| - |r'| - 1];
      }
    }
  }

  /** filepath.Base on Unix: the last element of the path. Trailing slashes
      are dropped first; the empty path gives "." and a path of slashes only
      gives "/". */
  function Base(p: string): string
  {
    if p == "" then "."
    else
      var b := AfterLastSlash(StripTrailingSlashes(p));
      if b == "" then "/" else b
  }

  /** A base name is never empty, and it holds a slash exactly when the path
      is made of slashes only. */
  lemma BaseSlash(p: string)
    ensures Base(p) != ""
    ensures '/' in Base(p) <==> p != "" && forall k :: 0 <= k < |p| ==> p[k] == '/'
  {
    if p != "" {
      var q := StripTrailingSlashes(p);
      StripTrailingSlashesSpec(p);
      AfterLastSlashSpec(q);
      if q != [] {
        assert q[|q| - 1] != '/';
        var b := AfterLastSlash(q);
        assert b != [];
        assert p[|q| - 1] != '/';
      }
    }
  }

  /** A path with no slash is its own base name. */
  lemma BaseOfPlainName(p: string)
    requires p != "" && '/' !in p
    ensures Base(p) == p
  {
    assert StripTrailingSlashes(p) == p;
    AfterLastSlashSpec(p);
    var b := AfterLastSlash(p);
  }

  // ---------------------------------------------------------------------------
  // fmt's %d for a non-negative int
  // ---------------------------------------------------------------------------

  predicate IsDigit(c: char)
  {
    '0' as int <= c as int <= '9' as int
  }

  function DigitChar(d: nat): (c: char)
    requires d < 10
    ensures IsDigit(c) && (c as int) - ('0' as int) == d
  {
    (('0' as int) + d) as char
  }

  /** The decimal numeral of `n`, as `%d` prints it: digits only, and no
      leading zero unless `n` is zero. */
  function Decimal(n: nat): (r: string)
    ensures |r| >= 1
    ensures forall k :: 0 <= k < |r| ==> IsDigit(r[k])
    ensures r[0] == '0' <==> n == 0
  {
    if n < 10 then [DigitChar(n)] else Decimal(n / 10) + [DigitChar(n % 10)]
  }

  /** The number a string of decimal digits denotes. */
  function DecimalValue(s: string): nat
    requires forall k :: 0 <= k < |s| ==> IsDigit(s[k])
  {
    if s == [] then 0
    else
      assert IsDigit(s[|s| - 1]);
      var d: nat := (s[|s| - 1] as int) - ('0' as int);
      DecimalValue(s[..|s| - 1]) * 10 + d
  }

  /** Reading back a printed numeral gives the number. */
  lemma {:induction false} DecimalRoundTrip(n: nat)
    ensures DecimalValue(Decimal(n)) == n
  {
    var r := Decimal(n);
    if n >= 10 {
      assert r[..|r| - 1] == Decimal(n / 10);
      DecimalRoundTrip(n / 10);
    }
  }
}
