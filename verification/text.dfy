/** Whitespace trimming of a task name, as JavaScript's String.prototype.trim
    performs it on the value typed into the name field. */
module Text {

  /** The code points ECMAScript counts as WhiteSpace or LineTerminator.
      The Unicode "Space_Separator" (Zs) members are listed explicitly, as
      they stand in Unicode 15. */
  predicate IsWhitespace(c: char) {
    || c == '\t' || c == '\n' || c == '\U{000B}' || c == '\U{000C}' || c == '\r'
    || c == ' ' || c == '\U{00A0}' || c == '\U{1680}'
    || ('\U{2000}' <= c <= '\U{200A}')
    || c == '\U{2028}' || c == '\U{2029}' || c == '\U{202F}' || c == '\U{205F}'
    || c == '\U{3000}' || c == '\U{FEFF}'
  }

  predicate AllWhitespace(s: string) {
    forall k :: 0 <= k < |s| ==> IsWhitespace(s[k])
  }

  /** Neither the first nor the last character of `s` is whitespace. */
  predicate Trimmed(s: string) {
    s == [] || (!IsWhitespace(s[0]) && !IsWhitespace(s[|s| - 1]))
  }

  /** `r` is what is left of `s` once a whitespace prefix and a whitespace
      suffix are cut away, and nothing more can be cut. This is the
      declarative meaning of trimming, independent of how it is computed. */
  ghost predicate IsTrimOf(s: string, r: string) {
    exists i, j :: CutAt(s, i, j, r)
  }

  /** `r` is `s[i..j]`, everything outside it is whitespace and `r` has no
      whitespace at either end. */
  predicate CutAt(s: string, i: int, j: int, r: string) {
    && 0 <= i <= j <= |s| && r == s[i..j]
    && AllWhitespace(s[..i]) && AllWhitespace(s[j..]) && Trimmed(r)
  }

  /** Drops leading whitespace. */
  function TrimStart(s: string): (r: string)
    ensures |r| <= |s| && r == s[|s| - |r|..]
    ensures AllWhitespace(s[..|s| - |r|])
    ensures r == [] || !IsWhitespace(r[0])
  {
    if s == [] || !IsWhitespace(s[0]) then s
    else
      var r := TrimStart(s[1..]);
      assert s[..|s| - |r|] == [s[0]] + s[1..][..|s| - 1 - |r|];
      r
  }

  /** Drops trailing whitespace. */
  function TrimEnd(s: string): (r: string)
    ensures |r| <= |s| && r == s[..|r|]
    ensures AllWhitespace(s[|r|..])
    ensures r == [] || !IsWhitespace(r[|r| - 1])
  {
    if s == [] || !IsWhitespace(s[|s| - 1]) then s
    else
      var r := TrimEnd(s[..|s| - 1]);
      assert s[|r|..] == s[..|s| - 1][|r|..] + [s[|s| - 1]];
      r
  }

  /** String.prototype.trim: both ends stripped of whitespace. */
  function Trim(s: string): (r: string)
    ensures IsTrimOf(s, r)
    ensures r == [] <==> AllWhitespace(s)
  {
    var a := TrimStart(s);
    var r := TrimEnd(a);
    var i := |s| - |a|;
    var j := i + |r|;
    assert r == s[i..j];
    assert s[j..] == a[|r|..];
    assert CutAt(s, i, j, r);
    CutEmptyIffAllWhitespace(s, i, j, r);
    r
  }

  /** What is cut away is whitespace and what is kept has none at its ends,
      so nothing is kept exactly when the whole string is whitespace. */
  lemma CutEmptyIffAllWhitespace(s: string, i: int, j: int, r: string)
    requires CutAt(s, i, j, r)
    ensures r == [] <==> AllWhitespace(s)
  {
    if r == [] {
      forall k | 0 <= k < |s| ensures IsWhitespace(s[k]) {
        if k < i {
          assert s[k] == s[..i][k];
        } else {
          assert s[k] == s[j..][k - j];
        }
      }
    } else {
      assert r[0] == s[i];
    }
  }

  /** Two cuts of the same string that both keep something keep the same
      range: the first kept character is the first non-whitespace one, and
      the last kept is the last non-whitespace one. */
  lemma CutBoundsUnique(s: string, i: int, j: int, r: string, i': int, j': int, t: string)
    requires CutAt(s, i, j, r) && CutAt(s, i', j', t)
    requires r != [] && t != []
    ensures i == i' && j == j'
  {
    assert r[0] == s[i] && t[0] == s[i'];
    assert r[|r| - 1] == s[j - 1] && t[|t| - 1] == s[j' - 1];
  }

  /** A trimmed string determines where it was cut from: whichever prefix and
      suffix witness `IsTrimOf(s, r)`, `r` is the value `Trim` computes. */
  lemma TrimUnique(s: string, r: string)
    requires IsTrimOf(s, r)
    ensures r == Trim(s)
  {
    var i, j :| CutAt(s, i, j, r);
    var t := Trim(s);
    var i', j' :| CutAt(s, i', j', t);
    CutEmptyIffAllWhitespace(s, i, j, r);
    CutEmptyIffAllWhitespace(s, i', j', t);
    if r != [] && t != [] {
      CutBoundsUnique(s, i, j, r, i', j', t);
    }
  }

  /** A name without whitespace at its ends is left as it is. */
  lemma TrimKeepsTrimmed(s: string)
    requires Trimmed(s)
    ensures Trim(s) == s
  {
    assert s == s[0..|s|] && s[..0] == [] && s[|s|..] == [];
    assert CutAt(s, 0, |s|, s);
    TrimUnique(s, s);
  }

  /** Trimming an already trimmed name changes nothing. */
  lemma TrimIdempotent(s: string)
    ensures Trim(Trim(s)) == Trim(s)
  {
    var t := Trim(s);
    var i, j :| CutAt(s, i, j, t);
    TrimKeepsTrimmed(t);
  }
}
