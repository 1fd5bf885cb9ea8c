/** The string handling the server applies to the rule engine's output:
    JavaScript's `String.prototype.trim`. */
module Text {

  /** JavaScript's WhiteSpace and LineTerminator code points, which `trim` removes. */
  const Spaces: set<char> :=
    {'\t', '\n', '\U{000B}', '\U{000C}', '\r', ' ', '\U{00A0}', '\U{1680}',
     '\U{2000}', '\U{2001}', '\U{2002}', '\U{2003}', '\U{2004}', '\U{2005}', '\U{2006}',
     '\U{2007}', '\U{2008}', '\U{2009}', '\U{200A}', '\U{2028}', '\U{2029}', '\U{202F}',
     '\U{205F}', '\U{3000}', '\U{FEFF}'}

  predicate IsSpace(c: char)
  {
    c in Spaces
  }

  predicate AllSpace(s: string)
  {
    forall k :: 0 <= k < |s| ==> IsSpace(s[k])
  }

  /** The number of leading space characters of `s`. */
  function LeadingSpaces(s: string): (n: nat)
    ensures n <= |s|
  {
    if |s| > 0 && IsSpace(s[0]) then 1 + LeadingSpaces(s[1..]) else 0
  }

  /** The length of `s` without its trailing space characters. */
  function WithoutTrailing(s: string): (n: nat)
    ensures n <= |s|
  {
    if |s| > 0 && IsSpace(s[|s| - 1]) then WithoutTrailing(s[..|s| - 1]) else |s|
  }

  /** `LeadingSpaces` counts exactly the space characters before the first other one. */
  lemma {:induction false} LeadingSpan(s: string)
    ensures forall k :: 0 <= k < LeadingSpaces(s) ==> IsSpace(s[k])
    ensures LeadingSpaces(s) < |s| ==> !IsSpace(s[LeadingSpaces(s)])
  {
    if |s| > 0 && IsSpace(s[0]) {
      LeadingSpan(s[1..]);
      forall k | 0 < k < LeadingSpaces(s) ensures IsSpace(s[k]) { assert s[k] == s[1..][k - 1]; }
    }
  }

  /** `WithoutTrailing` cuts off exactly the space characters after the last other one. */
  lemma {:induction false} TrailingSpan(s: string)
    ensures forall k :: WithoutTrailing(s) <= k < |s| ==> IsSpace(s[k])
    ensures WithoutTrailing(s) > 0 ==> !IsSpace(s[WithoutTrailing(s) - 1])
  {
    if |s| > 0 && IsSpace(s[|s| - 1]) {
      TrailingSpan(s[..|s| - 1]);
    }
  }

  /** `s.trim()`: the part of `s` between its leading and its trailing white space. */
  function Trim(s: string): (r: string)
    ensures |r| <= |s|
  {
    var i := LeadingSpaces(s);
    var n := WithoutTrailing(s[i..]);
    s[i..i + n]
  }

  /** What `trim` returns has no white space at either end, and it is empty exactly when
      its argument is white space only. */
  lemma TrimShape(s: string)
    ensures Trim(s) != [] ==> !IsSpace(Trim(s)[0]) && !IsSpace(Trim(s)[|Trim(s)| - 1])
    ensures Trim(s) == [] <==> AllSpace(s)
  {
    var i := LeadingSpaces(s);
    LeadingSpan(s);
    TrailingSpan(s[i..]);
  }

  /** What `trim` returns is a contiguous part of its argument, and only white space is cut off. */
  lemma TrimIsInfix(s: string)
    ensures exists i, j :: 0 <= i <= j <= |s| && Trim(s) == s[i..j] && AllSpace(s[..i]) && AllSpace(s[j..])
  {
    var i := LeadingSpaces(s);
    var n := WithoutTrailing(s[i..]);
    var j := i + n;
    LeadingSpan(s);
    TrailingSpan(s[i..]);
    assert AllSpace(s[..i]) by {
      forall k | 0 <= k < i ensures IsSpace(s[..i][k]) { assert s[..i][k] == s[k]; }
    }
    assert AllSpace(s[j..]) by {
      forall k | 0 <= k < |s| - j ensures IsSpace(s[j..][k]) { assert s[j..][k] == s[i..][n + k]; }
    }
    assert Trim(s) == s[i..j];
  }

  /** Trimming a string twice is trimming it once. */
  lemma TrimIdempotent(s: string)
    ensures Trim(Trim(s)) == Trim(s)
  {
    var t := Trim(s);
    TrimShape(s);
    if t != [] {
      assert LeadingSpaces(t) == 0;
      assert t[0..] == t;
      assert WithoutTrailing(t) == |t|;
    }
  }

  /** White space around a string, such as the newline a process writes at the end of
      its output, does not change what `trim` returns. */
  lemma {:induction false} TrimIgnoresPadding(front: string, s: string, back: string)
    requires AllSpace(front) && AllSpace(back)
    ensures Trim(front + s + back) == Trim(s)
  {
    var w := front + s + back;
    LeadingSkipsPadding(front, s + back);
    assert w == front + (s + back);
    var i := LeadingSpaces(s + back);
    if i <= |s| {
      LeadingPrefix(s, back);
      SuffixOfPadded(front, s, back, i);
      TrailingSkipsPadding(s[i..], back);
      TrimFromParts(w, |front| + i, s, i, back, WithoutTrailing(s[i..]));
    } else {
      LeadingSpan(s + back);
      AllSpaceOfLongPrefix(s, back, i);
      AllSpaceConcat(front, s, back);
      TrimShape(s);
      TrimShape(w);
    }
  }

  /** Two strings whose trimmed parts are the same slice trim to the same string. */
  lemma TrimFromParts(w: string, a: nat, s: string, i: nat, back: string, n: nat)
    requires LeadingSpaces(w) == a && LeadingSpaces(s) == i
    requires a <= |w| && i <= |s| && w[a..] == s[i..] + back
    requires WithoutTrailing(w[a..]) == n && WithoutTrailing(s[i..]) == n
    ensures Trim(w) == Trim(s)
  {
    TrimAt(w, a, n);
    TrimAt(s, i, n);
    SameSlice(w, a, s, i, back, n);
  }

  lemma TrimAt(s: string, i: nat, n: nat)
    requires LeadingSpaces(s) == i && WithoutTrailing(s[i..]) == n
    ensures i + n <= |s| && Trim(s) == s[i..i + n]
  {
    assert Trim(s) == s[LeadingSpaces(s)..LeadingSpaces(s) + WithoutTrailing(s[LeadingSpaces(s)..])];
  }

  lemma SameSlice(w: string, a: nat, s: string, i: nat, back: string, n: nat)
    requires a <= |w| && i <= |s| && w[a..] == s[i..] + back && n <= |s| - i
    ensures a + n <= |w| && w[a..a + n] == s[i..i + n]
  {
    assert w[a..a + n] == w[a..][..n];
    assert (s[i..] + back)[..n] == s[i..i + n];
  }

  lemma SuffixOfPadded(front: string, s: string, back: string, i: nat)
    requires i <= |s|
    ensures (front + s + back)[|front| + i..] == s[i..] + back
  {
  }

  lemma AllSpaceOfLongPrefix(s: string, back: string, i: nat)
    requires |s| < i <= |s + back| && forall k :: 0 <= k < i ==> IsSpace((s + back)[k])
    ensures AllSpace(s)
  {
    forall k | 0 <= k < |s| ensures IsSpace(s[k]) { assert (s + back)[k] == s[k]; }
  }

  lemma AllSpaceConcat(front: string, s: string, back: string)
    requires AllSpace(front) && AllSpace(s) && AllSpace(back)
    ensures AllSpace(front + s + back)
  {
    var w := front + s + back;
    forall k | 0 <= k < |w| ensures IsSpace(w[k]) {
      if k < |front| { assert w[k] == front[k]; }
      else if k < |front| + |s| { assert w[k] == s[k - |front|]; }
      else { assert w[k] == back[k - |front| - |s|]; }
    }
  }

  lemma {:induction false} LeadingSkipsPadding(front: string, s: string)
    requires AllSpace(front)
    ensures LeadingSpaces(front + s) == |front| + LeadingSpaces(s)
  {
    if front != [] {
      assert (front + s)[1..] == front[1..] + s;
      LeadingSkipsPadding(front[1..], s);
    } else {
      assert front + s == s;
    }
  }

  lemma {:induction false} LeadingPrefix(s: string, back: string)
    requires LeadingSpaces(s + back) <= |s|
    ensures LeadingSpaces(s + back) == LeadingSpaces(s)
  {
    if |s| > 0 && IsSpace(s[0]) {
      assert (s + back)[0] == s[0];
      assert (s + back)[1..] == s[1..] + back;
      LeadingPrefix(s[1..], back);
    } else if |s| > 0 {
      assert (s + back)[0] == s[0];
    } else {
      assert s + back == back;
    }
  }

  lemma {:induction false} TrailingSkipsPadding(s: string, back: string)
    requires AllSpace(back)
    ensures WithoutTrailing(s + back) == WithoutTrailing(s)
  {
    if back != [] {
      var w := s + back;
      assert w[|w| - 1] == back[|back| - 1];
      assert w[..|w| - 1] == s + back[..|back| - 1];
      TrailingSkipsPadding(s, back[..|back| - 1]);
    } else {
      assert s + back == s;
    }
  }
}
