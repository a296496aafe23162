/** python/shortest-palindrome.py: the KMP failure array, and the shortest palindrome that ends in a given string. */
module ShortestPalindrome {

  /** `b` is the length of a proper border of the first `i` letters. */
  ghost predicate Border(s: string, i: nat, b: nat) {
    b < i <= |s| && s[..b] == s[i - b..i]
  }

  ghost predicate LongestBorder(s: string, i: nat, k: nat) {
    Border(s, i, k) && forall b: nat :: Border(s, i, b) ==> b <= k
  }

  /** `kmp[i]` is the longest proper border of the first i + 1 letters, for all i below `n`. */
  ghost predicate Failure(s: string, kmp: seq<nat>, n: nat) {
    n <= |kmp| == |s| && forall i :: 0 <= i < n ==> LongestBorder(s, i + 1, kmp[i])
  }

  /** The first `p` letters of `s` end the text `t`. */
  ghost predicate EndsText(s: string, t: string, p: nat) {
    p <= |s| && p <= |t| && s[..p] == t[|t| - p..]
  }

  ghost predicate LongestEnd(s: string, t: string, p: nat) {
    EndsText(s, t, p) && forall q: nat :: EndsText(s, t, q) ==> q <= p
  }

  /** `p` ends the text, and whatever else ends it and is followed by `c` is no longer. */
  ghost predicate Candidate(s: string, t: string, c: char, p: nat) {
    && EndsText(s, t, p) && p < |s|
    && forall q: nat :: EndsText(s, t, q) && q < |s| && s[q] == c ==> q <= p
  }

  /** Of two prefixes that end a text, the shorter one is a border of the longer one. */
  lemma ShorterIsBorder(s: string, t: string, p: nat, q: nat)
    requires EndsText(s, t, p) && EndsText(s, t, q) && q < p
    ensures Border(s, p, q)
  {
    assert t[|t| - q..] == t[|t| - p..][p - q..];
    assert s[..p][p - q..] == s[p - q..p];
  }

  lemma BorderEndsText(s: string, t: string, p: nat, b: nat)
    requires EndsText(s, t, p) && Border(s, p, b)
    ensures EndsText(s, t, b)
  {
    assert t[|t| - b..] == t[|t| - p..][p - b..];
    assert s[..p][p - b..] == s[p - b..p];
  }

  /** Falling back along the failure array loses no candidate. */
  lemma FallBack(s: string, t: string, c: char, kmp: seq<nat>, p: nat)
    requires Candidate(s, t, c, p) && 0 < p && s[p] != c && |kmp| == |s| && LongestBorder(s, p, kmp[p - 1])
    ensures Candidate(s, t, c, kmp[p - 1]) && kmp[p - 1] < p
  {
    BorderEndsText(s, t, p, kmp[p - 1]);
    forall q: nat | EndsText(s, t, q) && q < |s| && s[q] == c ensures q <= kmp[p - 1] {
      ShorterIsBorder(s, t, p, q);
    }
  }

  lemma Extends(s: string, t: string, c: char, q: nat)
    requires q < |s|
    ensures EndsText(s, t + [c], q + 1) <==> EndsText(s, t, q) && s[q] == c
  {
    if q <= |t| {
      assert s[..q + 1] == s[..q] + [s[q]];
      assert (t + [c])[|t| - q..] == t[|t| - q..] + [c];
      if s[..q + 1] == (t + [c])[|t| - q..] {
        assert s[..q] == s[..q + 1][..q] && t[|t| - q..] == (t + [c])[|t| - q..][..q];
        assert s[q] == s[..q + 1][q] && c == (t + [c])[|t| - q..][q];
      }
    }
  }

  /** After the loop that falls back, one more letter gives the longest prefix that ends the longer text. */
  lemma NextLongest(s: string, t: string, c: char, p: nat)
    requires Candidate(s, t, c, p) && (p == 0 || s[p] == c)
    ensures var p' := if s[p] == c then p + 1 else p;
            LongestEnd(s, t + [c], p')
  {
    Extends(s, t, c, p);
    forall q: nat | EndsText(s, t + [c], q) ensures q <= if s[p] == c then p + 1 else p {
      if 0 < q { Extends(s, t, c, q - 1); }
    }
  }

  /** A border of the first i letters is a prefix that ends the text s[1..i]. */
  lemma BorderIsEnd(s: string, i: nat, b: nat)
    requires 0 < i <= |s|
    ensures Border(s, i, b) <==> EndsText(s, s[1..i], b)
  {
    if b < i { assert s[1..i][i - 1 - b..] == s[i - b..i]; }
  }

  lemma BorderStep(s: string, i: nat, p: nat)
    requires 0 < i < |s| && LongestEnd(s, s[1..i + 1], p)
    ensures LongestBorder(s, i + 1, p)
  {
    var j, t := i + 1, s[1..i + 1];
    forall b: nat ensures Border(s, j, b) <==> EndsText(s, t, b) { BorderIsEnd(s, j, b); }
  }

  lemma CandidateFromLongest(s: string, t: string, c: char, p: nat)
    requires LongestEnd(s, t, p) && p < |s|
    ensures Candidate(s, t, c, p)
  {}

  method GetKmp(s: string) returns (kmp: seq<nat>)
    requires s != ""
    ensures Failure(s, kmp, |s|)
  {
    hide Border, EndsText, LongestBorder, LongestEnd, Candidate;
    kmp := seq(|s|, _ => 0);
    var prev: nat := 0;
    FirstLetter(s);
    for i := 1 to |s|
      invariant Failure(s, kmp, i) && prev == kmp[i - 1]
    {
      LongestAsEnd(s, i, prev);
      CandidateFromLongest(s, s[1..i], s[i], prev);
      while prev > 0 && s[prev] != s[i]
        invariant prev < i && Candidate(s, s[1..i], s[i], prev)
      {
        assert LongestBorder(s, prev - 1 + 1, kmp[prev - 1]);
        FallBack(s, s[1..i], s[i], kmp, prev);
        prev := kmp[prev - 1];
      }
      NextLongest(s, s[1..i], s[i], prev);
      if s[prev] == s[i] {
        prev := prev + 1;
      }
      assert s[1..i] + [s[i]] == s[1..i + 1];
      BorderStep(s, i, prev);
      kmp := kmp[i := prev];
    }
  }

  lemma FirstLetter(s: string)
    requires s != ""
    ensures LongestBorder(s, 1, 0)
  {}

  lemma LongestAsEnd(s: string, i: nat, k: nat)
    requires 0 < i < |s| && LongestBorder(s, i, k)
    ensures LongestEnd(s, s[1..i], k) && k < i
  {
    forall b: nat ensures Border(s, i, b) <==> EndsText(s, s[1..i], b) { BorderIsEnd(s, i, b); }
  }

  function Reverse(s: string): string {
    seq(|s|, i requires 0 <= i < |s| => s[|s| - 1 - i])
  }

  ghost predicate Palindrome(s: string) { Reverse(s) == s }

  ghost predicate EndsIn(r: string, s: string) { |s| <= |r| && r[|r| - |s|..] == s }

  /** A prefix of `s` that ends the reversed `s` is a palindrome, and the other way round. */
  lemma PalindromePrefix(s: string, p: nat)
    requires p <= |s|
    ensures EndsText(s, Reverse(s), p) <==> Palindrome(s[..p])
  {
    var n := |s|;
    forall k | 0 <= k < p ensures Reverse(s)[n - p..][k] == Reverse(s[..p])[k] {
      assert Reverse(s)[n - p..][k] == Reverse(s)[n - p + k] == s[p - 1 - k];
    }
    assert Reverse(s)[n - p..] == Reverse(s[..p]);
  }

  /** If `s` is the end of the palindrome `r`, the part of `s` mirrored into itself is a palindrome prefix of `s`. */
  lemma CentreIsPalindrome(r: string, s: string)
    requires Palindrome(r) && EndsIn(r, s) && |r| <= 2 * |s|
    ensures Palindrome(s[..2 * |s| - |r|])
  {
    var m, n := |r|, |s|;
    var d := m - n;
    var c := s[..n - d];
    forall k | 0 <= k < n - d ensures c[k] == Reverse(c)[k] {
      assert c[k] == s[k] == r[m - n..][k] == r[d + k];
      assert r[d + k] == Reverse(r)[d + k] == r[m - 1 - d - k];
      assert Reverse(c)[k] == c[n - d - 1 - k] == r[m - n..][n - d - 1 - k] == r[m - 1 - d - k];
    }
  }

  lemma MirrorIsPalindrome(s: string, p: nat)
    requires p <= |s| && Palindrome(s[..p])
    ensures Palindrome(Reverse(s[p..]) + s) && EndsIn(Reverse(s[p..]) + s, s)
  {
    var n := |s|;
    var r := Reverse(s[p..]) + s;
    forall k | 0 <= k < |r| ensures Reverse(r)[k] == r[k] {
      var j := |r| - 1 - k;
      assert Reverse(r)[k] == r[j];
      MirrorAt(s, p, k);
      MirrorAt(s, p, j);
      if n - p <= k < n && n - p <= j < n {
        assert s[..p][k - (n - p)] == Reverse(s[..p])[k - (n - p)];
      }
    }
  }

  lemma MirrorAt(s: string, p: nat, k: nat)
    requires p <= |s| && k < 2 * |s| - p
    ensures (Reverse(s[p..]) + s)[k] == if k < |s| - p then s[|s| - 1 - k] else s[k - (|s| - p)]
  {}

  /** The scan of the text backwards against its own start. */
  method LongestPalindromicPrefix(s: string, kmp: seq<nat>) returns (p: nat)
    requires s != "" && Failure(s, kmp, |s|)
    ensures p <= |s| && LongestEnd(s, Reverse(s), p)
  {
    hide Border, EndsText, LongestBorder, LongestEnd, Candidate, Reverse;
    p := 0;
    var n := |s|;
    ghost var t := Reverse(s);
    ReverseAt(s, 0);
    EmptyText(s);
    assert t[..0] == "";
    var i := n - 1;
    while i >= 0
      invariant -1 <= i < n && p <= n - 1 - i
      invariant LongestEnd(s, t[..n - 1 - i], p)
    {
      var c := s[i];
      ghost var done := t[..n - 1 - i];
      CandidateFromLongest(s, done, c, p);
      while p > 0 && c != s[p]
        invariant p <= n - 1 - i && Candidate(s, done, c, p)
      {
        assert LongestBorder(s, p - 1 + 1, kmp[p - 1]);
        FallBack(s, done, c, kmp, p);
        p := kmp[p - 1];
      }
      NextLongest(s, done, c, p);
      if c == s[p] {
        p := p + 1;
      }
      ReverseAt(s, i);
      assert done + [c] == t[..n - i];
      i := i - 1;
    }
    assert t[..n] == t;
  }

  /** The same from both ends. */
  lemma PalindromeMeans(r: string)
    ensures Palindrome(r) <==> forall i :: 0 <= i < |r| ==> r[i] == r[|r| - 1 - i]
  {
    if forall i :: 0 <= i < |r| ==> r[i] == r[|r| - 1 - i] {
      assert forall i :: 0 <= i < |r| ==> Reverse(r)[i] == r[|r| - 1 - i];
    } else {
      var i :| 0 <= i < |r| && r[i] != r[|r| - 1 - i];
      assert Reverse(r)[i] == r[|r| - 1 - i];
    }
  }

  /** A palindrome that ends in `s`; no shorter one does. */
  method Shortest(s: string) returns (r: string)
    ensures forall i :: 0 <= i < |r| ==> r[i] == r[|r| - 1 - i]
    ensures |s| <= |r| && r[|r| - |s|..] == s
    ensures forall other: string :: Palindrome(other) && EndsIn(other, s) ==> |r| <= |other|
    ensures forall other: string ::
      |s| <= |other| && other[|other| - |s|..] == s && (forall i :: 0 <= i < |other| ==> other[i] == other[|other| - 1 - i]) ==>
        |r| <= |other|
  {
    r := Mirrored(s);
    PalindromeMeans(r);
    forall other: string | forall i :: 0 <= i < |other| ==> other[i] == other[|other| - 1 - i] ensures Palindrome(other) {
      PalindromeMeans(other);
    }
  }

  /** Mirrors what is behind the longest palindrome that `s` begins with. */
  method Mirrored(s: string) returns (r: string)
    ensures Palindrome(r) && EndsIn(r, s)
    ensures forall other: string :: Palindrome(other) && EndsIn(other, s) ==> |r| <= |other|
  {
    if |s| == 0 {
      return "";
    }
    hide LongestBorder, LongestEnd, Palindrome, EndsIn, Reverse;
    var kmp := GetKmp(s);
    var p := LongestPalindromicPrefix(s, kmp);
    r := Reverse(s[p..]) + s;
    LongestEnds(s, Reverse(s), p);
    PalindromePrefix(s, p);
    MirrorIsPalindrome(s, p);
    forall other | Palindrome(other) && EndsIn(other, s) ensures |r| <= |other| {
      NoShorter(s, p, other);
    }
  }

  lemma NoShorter(s: string, p: nat, other: string)
    requires p <= |s| && LongestEnd(s, Reverse(s), p)
    requires Palindrome(other) && EndsIn(other, s)
    ensures |Reverse(s[p..]) + s| <= |other|
  {
    if |other| <= 2 * |s| {
      CentreIsPalindrome(other, s);
      PalindromePrefix(s, 2 * |s| - |other|);
    }
  }

  lemma LongestEnds(s: string, t: string, p: nat)
    requires LongestEnd(s, t, p)
    ensures EndsText(s, t, p)
  {}

  lemma EmptyText(s: string)
    ensures LongestEnd(s, "", 0)
  {}

  lemma ReverseAt(s: string, i: nat)
    requires i < |s|
    ensures |Reverse(s)| == |s| && Reverse(s)[|s| - 1 - i] == s[i]
  {}
}
