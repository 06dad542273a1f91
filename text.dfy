/**
  Python's `str.strip()` with no argument: whitespace is removed from both
  ends of a string and nothing else is changed. Whitespace is what Python's
  `str.isspace()` accepts.
 */
module Text {

  /** The 29 code points for which Python's `str.isspace()` is true. */
  predicate IsWhitespace(c: char)
  {
    var n := c as int;
    || 0x09 <= n <= 0x0D
    || 0x1C <= n <= 0x20
    || n == 0x85 || n == 0xA0 || n == 0x1680
    || 0x2000 <= n <= 0x200A
    || n == 0x2028 || n == 0x2029 || n == 0x202F || n == 0x205F || n == 0x3000
  }

  /** The same 29 code points, listed one by one in increasing order. */
  const PythonWhitespace: seq<int> := [
    0x09, 0x0A, 0x0B, 0x0C, 0x0D, 0x1C, 0x1D, 0x1E, 0x1F, 0x20,
    0x85, 0xA0, 0x1680,
    0x2000, 0x2001, 0x2002, 0x2003, 0x2004, 0x2005, 0x2006, 0x2007, 0x2008, 0x2009, 0x200A,
    0x2028, 0x2029, 0x202F, 0x205F, 0x3000
  ]

  /** `IsWhitespace` accepts exactly the 29 listed code points, which are distinct. */
  lemma WhitespaceIsListed()
    ensures |PythonWhitespace| == 29
    ensures forall k | 0 < k < |PythonWhitespace| :: PythonWhitespace[k - 1] < PythonWhitespace[k]
    ensures forall c: char :: IsWhitespace(c) <==> c as int in PythonWhitespace
  {
    forall c: char
      ensures IsWhitespace(c) <==> c as int in PythonWhitespace
    {
      WhitespaceListedAt(c as int);
    }
  }

  /** One code point at a time: the ranges of `IsWhitespace` against the list. */
  lemma WhitespaceListedAt(n: int)
    ensures (|| 0x09 <= n <= 0x0D
             || 0x1C <= n <= 0x20
             || n == 0x85 || n == 0xA0 || n == 0x1680
             || 0x2000 <= n <= 0x200A
             || n == 0x2028 || n == 0x2029 || n == 0x202F || n == 0x205F || n == 0x3000)
            <==> n in PythonWhitespace
  {
    if 0x2000 <= n <= 0x200A {
      assert PythonWhitespace[13 + n - 0x2000] == n;
    } else if 0x09 <= n <= 0x0D {
      assert PythonWhitespace[n - 0x09] == n;
    } else if 0x1C <= n <= 0x20 {
      assert PythonWhitespace[5 + n - 0x1C] == n;
    }
  }

  /** A string that neither starts nor ends with whitespace. */
  predicate IsTrimmed(s: string)
  {
    s == [] || (!IsWhitespace(s[0]) && !IsWhitespace(s[|s| - 1]))
  }

  /** Every character of `s` is whitespace. */
  predicate AllWhitespace(s: string)
  {
    forall k | 0 <= k < |s| :: IsWhitespace(s[k])
  }

  /** `s.strip()`: drop one whitespace character from the front, else from the back, until neither end is whitespace. */
  function Strip(s: string): (r: string)
    ensures |r| <= |s|
    ensures IsTrimmed(r)
    decreases |s|
  {
    if s != [] && IsWhitespace(s[0]) then Strip(s[1..])
    else if s != [] && IsWhitespace(s[|s| - 1]) then Strip(s[..|s| - 1])
    else s
  }

  /**
    Reference characterisation of `strip`: if `s[i..j]` is trimmed and only
    whitespace lies before and after it, then it is `Strip(s)`.
   */
  lemma {:induction false} StripSlice(s: string, i: nat, j: nat)
    requires i <= j <= |s|
    requires AllWhitespace(s[..i]) && AllWhitespace(s[j..])
    requires IsTrimmed(s[i..j])
    ensures Strip(s) == s[i..j]
    decreases |s|
  {
    if s != [] && IsWhitespace(s[0]) {
      var i', j' := DropFront(s, i, j);
      StripSlice(s[1..], i', j');
    } else if s != [] && IsWhitespace(s[|s| - 1]) {
      DropBack(s, i, j);
      StripSlice(s[..|s| - 1], i, j);
    } else {
      assert s[i..j] == s;
    }
  }

  /**
    Dropping a whitespace first character keeps a trimmed, whitespace-bounded
    slice: it becomes `s[1..][i'..j']`, still bounded by whitespace.
   */
  lemma DropFront(s: string, i: nat, j: nat) returns (i': nat, j': nat)
    requires i <= j <= |s|
    requires AllWhitespace(s[..i]) && AllWhitespace(s[j..])
    requires IsTrimmed(s[i..j])
    requires s != [] && IsWhitespace(s[0])
    ensures i' <= j' <= |s| - 1
    ensures AllWhitespace(s[1..][..i']) && AllWhitespace(s[1..][j'..])
    ensures s[1..][i'..j'] == s[i..j]
  {
    var t := s[1..];
    if i == 0 {
      i', j' := 0, 0;
      assert AllWhitespace(t[0..]) by {
        forall k | 0 <= k < |t| ensures IsWhitespace(t[k]) { assert t[k] == s[j..][k + 1]; }
      }
    } else {
      i', j' := i - 1, j - 1;
      var u := t[..i - 1];
      assert AllWhitespace(u) by {
        forall k | 0 <= k < |u| ensures IsWhitespace(u[k]) { assert u[k] == s[..i][k + 1]; }
      }
      assert t[j - 1..] == s[j..];
      assert t[i - 1..j - 1] == s[i..j];
    }
  }

  /**
    When only the last character is whitespace, dropping it keeps a trimmed,
    whitespace-bounded slice `s[i..j]` in place.
   */
  lemma DropBack(s: string, i: nat, j: nat)
    requires i <= j <= |s|
    requires AllWhitespace(s[..i]) && AllWhitespace(s[j..])
    requires IsTrimmed(s[i..j])
    requires s != [] && !IsWhitespace(s[0]) && IsWhitespace(s[|s| - 1])
    ensures j <= |s| - 1
    ensures AllWhitespace(s[..|s| - 1][..i]) && AllWhitespace(s[..|s| - 1][j..])
    ensures s[..|s| - 1][i..j] == s[i..j]
  {
    var t := s[..|s| - 1];
    assert t[..i] == s[..i];
    assert AllWhitespace(t[j..]) by {
      forall k | 0 <= k < |t| - j ensures IsWhitespace(t[j..][k]) { assert t[j..][k] == s[j..][k]; }
    }
    assert t[i..j] == s[i..j];
  }

  /** Conversely, `Strip(s)` is always such a slice of `s`. */
  lemma {:induction false} StripIsSlice(s: string) returns (i: nat, j: nat)
    ensures i <= j <= |s| && Strip(s) == s[i..j]
    ensures AllWhitespace(s[..i]) && AllWhitespace(s[j..])
    decreases |s|
  {
    if s != [] && IsWhitespace(s[0]) {
      var i', j' := StripIsSlice(s[1..]);
      i, j := i' + 1, j' + 1;
      SliceAfterFront(s, i', j');
    } else if s != [] && IsWhitespace(s[|s| - 1]) {
      i, j := StripIsSlice(s[..|s| - 1]);
      SliceBeforeBack(s, i, j);
    } else {
      i, j := 0, |s|;
      assert s[0..|s|] == s;
    }
  }

  /** A whitespace-bounded slice of `s[1..]` is one of `s` when `s[0]` is whitespace. */
  lemma SliceAfterFront(s: string, i: nat, j: nat)
    requires s != [] && IsWhitespace(s[0])
    requires i <= j <= |s| - 1
    requires AllWhitespace(s[1..][..i]) && AllWhitespace(s[1..][j..])
    ensures s[i + 1..j + 1] == s[1..][i..j]
    ensures AllWhitespace(s[..i + 1]) && AllWhitespace(s[j + 1..])
  {
    var t := s[1..];
    assert s[i + 1..j + 1] == t[i..j] by {
      forall k | 0 <= k < j - i ensures s[i + 1..j + 1][k] == t[i..j][k] { assert t[i + k] == s[i + 1 + k]; }
    }
    assert s[j + 1..] == t[j..];
    var pre := s[..i + 1];
    forall k | 0 <= k < |pre| ensures IsWhitespace(pre[k]) {
      if k > 0 { assert pre[k] == t[..i][k - 1]; }
    }
  }

  /** A whitespace-bounded slice of `s[..|s| - 1]` is one of `s` when the last character is whitespace. */
  lemma SliceBeforeBack(s: string, i: nat, j: nat)
    requires s != [] && IsWhitespace(s[|s| - 1])
    requires i <= j <= |s| - 1
    requires AllWhitespace(s[..|s| - 1][..i]) && AllWhitespace(s[..|s| - 1][j..])
    ensures s[i..j] == s[..|s| - 1][i..j]
    ensures AllWhitespace(s[..i]) && AllWhitespace(s[j..])
  {
    var t := s[..|s| - 1];
    assert s[..i] == t[..i];
    forall k | 0 <= k < |s| - j ensures IsWhitespace(s[j..][k]) {
      if j + k < |t| { assert s[j..][k] == t[j..][k]; }
    }
  }

  /** A trimmed string is left as it is. */
  lemma StripTrimmed(s: string)
    requires IsTrimmed(s)
    ensures Strip(s) == s
  {
    assert s[..0] == [] && s[|s|..] == [] && s[0..|s|] == s;
    StripSlice(s, 0, |s|);
  }

  /** Stripping twice is stripping once. */
  lemma StripIdempotent(s: string)
    ensures Strip(Strip(s)) == Strip(s)
  {
    StripTrimmed(Strip(s));
  }

  /** Whitespace padding on either side of a trimmed string is removed, and only that. */
  lemma StripPadded(pre: string, t: string, post: string)
    requires AllWhitespace(pre) && AllWhitespace(post)
    requires IsTrimmed(t)
    ensures Strip(pre + t + post) == t
  {
    var s := pre + t + post;
    assert s[..|pre|] == pre;
    assert s[|pre|..|pre| + |t|] == t;
    assert s[|pre| + |t|..] == post;
    StripSlice(s, |pre|, |pre| + |t|);
  }
}
