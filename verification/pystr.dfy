/**
 * Python's `str.strip()` with no argument: remove every leading and trailing
 * character for which `str.isspace()` holds.
 */
module PyStr {

  /** The characters Python's `str.isspace()` accepts. */
  const Whitespace: set<char> := {
    '\t', '\n', '\U{0B}', '\U{0C}', '\r',
    '\U{1C}', '\U{1D}', '\U{1E}', '\U{1F}', ' ',
    '\U{85}', '\U{A0}', '\U{1680}',
    '\U{2000}', '\U{2001}', '\U{2002}', '\U{2003}', '\U{2004}', '\U{2005}',
    '\U{2006}', '\U{2007}', '\U{2008}', '\U{2009}', '\U{200A}',
    '\U{2028}', '\U{2029}', '\U{202F}', '\U{205F}', '\U{3000}'
  }

  predicate IsSpace(c: char) {
    c in Whitespace
  }

  predicate AllSpace(s: string) {
    forall i :: 0 <= i < |s| ==> IsSpace(s[i])
  }

  /** Neither end of `s` is whitespace: what `strip` leaves behind. */
  predicate Trimmed(s: string) {
    |s| == 0 || (!IsSpace(s[0]) && !IsSpace(s[|s| - 1]))
  }

  /** Index of the first non-whitespace character of `s` at or after `i`, or `|s|`. */
  function SkipForward(s: string, i: nat): (k: nat)
    requires i <= |s|
    ensures i <= k <= |s|
    ensures forall m :: i <= m < k ==> IsSpace(s[m])
    ensures k == |s| || !IsSpace(s[k])
    decreases |s| - i
  {
    if i == |s| || !IsSpace(s[i]) then i else SkipForward(s, i + 1)
  }

  /** End of the last non-whitespace character of `s[lo..j]`, or `lo` when there is none. */
  function SkipBackward(s: string, lo: nat, j: nat): (k: nat)
    requires lo <= j <= |s|
    ensures lo <= k <= j
    ensures forall m :: k <= m < j ==> IsSpace(s[m])
    ensures k == lo || !IsSpace(s[k - 1])
    decreases j
  {
    if j == lo || !IsSpace(s[j - 1]) then j else SkipBackward(s, lo, j - 1)
  }

  /**
   * `s.strip()`: scan forward past leading whitespace, then backward past
   * trailing whitespace, and keep what lies between.
   */
  function Strip(s: string): (r: string)
    ensures |r| <= |s|
    ensures Trimmed(r)
    ensures exists lo :: 0 <= lo <= |s| - |r| && r == s[lo..lo + |r|]
                         && AllSpace(s[..lo]) && AllSpace(s[lo + |r|..])
  {
    var lo := SkipForward(s, 0);
    var hi := SkipBackward(s, lo, |s|);
    assert AllSpace(s[..lo]);
    assert AllSpace(s[hi..]);
    s[lo..hi]
  }

  /**
   * The converse of `Strip`'s contract: whatever whitespace surrounds a
   * trimmed core, stripping yields exactly that core.
   */
  lemma StripUnique(a: string, core: string, b: string)
    requires AllSpace(a) && AllSpace(b) && Trimmed(core)
    ensures Strip(a + core + b) == core
  {
    var s := a + core + b;
    var lo := SkipForward(s, 0);
    var hi := SkipBackward(s, lo, |s|);
    assert forall m :: 0 <= m < |a| ==> s[m] == a[m];
    assert forall m :: 0 <= m < |core| ==> s[|a| + m] == core[m];
    assert forall m :: 0 <= m < |b| ==> s[|a| + |core| + m] == b[m];
    if |core| == 0 {
      assert AllSpace(s);
      assert lo == |s|;
    } else {
      assert lo == |a|;
      assert hi == |a| + |core|;
      assert s[lo..hi] == core;
    }
  }

  /** A value with no whitespace at either end is left unchanged by `strip`. */
  lemma StripTrimmed(s: string)
    requires Trimmed(s)
    ensures Strip(s) == s
  {
    assert "" + s + "" == s;
    StripUnique("", s, "");
  }

  /** Stripping twice is the same as stripping once. */
  lemma StripIdempotent(s: string)
    ensures Strip(Strip(s)) == Strip(s)
  {
    StripTrimmed(Strip(s));
  }

  /** Every string is its stripped value with whitespace-only text on either side. */
  lemma StripParts(s: string) returns (p: string, q: string)
    ensures s == p + Strip(s) + q
    ensures AllSpace(p) && AllSpace(q)
  {
    var lo := SkipForward(s, 0);
    var hi := SkipBackward(s, lo, |s|);
    p, q := s[..lo], s[hi..];
    assert Strip(s) == s[lo..hi];
    assert s == p + s[lo..hi] + q;
  }

  /** Extra whitespace on either side never changes the result of `strip`. */
  lemma StripIgnoresPadding(a: string, s: string, b: string)
    requires AllSpace(a) && AllSpace(b)
    ensures Strip(a + s + b) == Strip(s)
  {
    var p, q := StripParts(s);
    var core := Strip(s);
    Regroup(a, p, core, q, b);
    AllSpaceConcat(a, p);
    AllSpaceConcat(q, b);
    StripUnique(a + p, core, q + b);
  }

  lemma AllSpaceConcat(x: string, y: string)
    requires AllSpace(x) && AllSpace(y)
    ensures AllSpace(x + y)
  {
    forall m | 0 <= m < |x + y|
      ensures IsSpace((x + y)[m])
    {
      if m >= |x| {
        assert (x + y)[m] == y[m - |x|];
      }
    }
  }

  /**
   * Regrouping of a padded, split string. Kept apart from the lemma that uses
   * it: stated there, next to `Strip`'s definition, the same equality costs the
   * solver several times as much.
   */
  lemma Regroup(a: string, p: string, core: string, q: string, b: string)
    ensures a + (p + core + q) + b == (a + p) + core + (q + b)
  {
  }
}
