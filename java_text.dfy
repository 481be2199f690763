/** Java's `String.trim`, on strings as sequences of characters. */
module JavaText {

  /** `trim` removes every character whose code is at most U+0020 (space and the control characters). */
  predicate IsBlank(c: char) {
    c <= ' '
  }

  /** `s` is empty or starts and ends with a non-blank: there is nothing for `trim` to remove. */
  predicate IsTrimmed(s: string) {
    s == [] || (!IsBlank(s[0]) && !IsBlank(s[|s| - 1]))
  }

  /** Every character of `s` outside the index range `lo..hi` is blank. */
  predicate BlankOutside(s: string, lo: int, hi: int) {
    forall i | 0 <= i < |s| && (i < lo || hi <= i) :: IsBlank(s[i])
  }

  /** `r` occurs in `s` at index `lo`, with only blanks before and after it. */
  predicate BlankAround(s: string, lo: nat, r: string) {
    lo + |r| <= |s| && r == s[lo..lo + |r|] && BlankOutside(s, lo, lo + |r|)
  }

  /** The number of leading blanks of `s`: where `trim`'s first loop stops. */
  function LeadingBlanks(s: string): (n: nat)
    ensures n <= |s|
    ensures forall i | 0 <= i < n :: IsBlank(s[i])
    ensures n < |s| ==> !IsBlank(s[n])
    decreases |s|
  {
    if |s| > 0 && IsBlank(s[0]) then
      var n := 1 + LeadingBlanks(s[1..]);
      assert forall i | 1 <= i < n :: s[i] == s[1..][i - 1];
      n
    else 0
  }

  /** The number of trailing blanks of `s`: how far `trim`'s second loop moves the end. */
  function TrailingBlanks(s: string): (n: nat)
    ensures n <= |s|
    ensures forall i | |s| - n <= i < |s| :: IsBlank(s[i])
    ensures n < |s| ==> !IsBlank(s[|s| - n - 1])
    decreases |s|
  {
    if |s| > 0 && IsBlank(s[|s| - 1]) then 1 + TrailingBlanks(s[..|s| - 1]) else 0
  }

  /** `String.trim`: the part of `s` between its leading and its trailing blanks. The end is
      searched for only after the start, so an all-blank string trims to the empty string. */
  function Trim(s: string): (r: string)
    ensures exists lo: nat :: BlankAround(s, lo, r)
    ensures IsTrimmed(r)
  {
    var lo := LeadingBlanks(s);
    var hi := |s| - TrailingBlanks(s[lo..]);
    BetweenBlanks(s, lo, hi);
    s[lo..hi]
  }

  /** Trim's result lies between the leading and the trailing blanks and is trimmed itself. */
  lemma BetweenBlanks(s: string, lo: nat, hi: int)
    requires lo == LeadingBlanks(s) && hi == |s| - TrailingBlanks(s[lo..])
    ensures lo <= hi <= |s|
    ensures BlankAround(s, lo, s[lo..hi]) && IsTrimmed(s[lo..hi])
  {
    SuffixTrailingBlanks(s, lo);
    assert BlankOutside(s, lo, hi);
    TrimmedBetween(s, lo, hi);
  }

  /** The trailing blanks of a suffix of `s` are trailing blanks of `s`. */
  lemma SuffixTrailingBlanks(s: string, lo: nat)
    requires lo <= |s|
    ensures forall i | |s| - TrailingBlanks(s[lo..]) <= i < |s| :: IsBlank(s[i])
  {
    var tail := s[lo..];
    forall i | |s| - TrailingBlanks(tail) <= i < |s| ensures IsBlank(s[i]) {
      assert s[i] == tail[i - lo];
    }
  }

  /** What lies between the leading and the trailing blanks starts and ends with a non-blank. */
  lemma TrimmedBetween(s: string, lo: nat, hi: int)
    requires lo == LeadingBlanks(s) && hi == |s| - TrailingBlanks(s[lo..])
    ensures lo <= hi <= |s| && IsTrimmed(s[lo..hi])
  {
    var tail := s[lo..];
    var n := TrailingBlanks(tail);
    var r := s[lo..hi];
    if r != [] {
      assert r[0] == s[lo];
      assert r[|r| - 1] == tail[|tail| - n - 1];
    }
  }

  /** The conditions of `Trim`'s contract determine its result: an infix of `s` that is empty or
      starts and ends with a non-blank, with only blanks around it, is `Trim(s)`. */
  lemma TrimUnique(s: string, lo: nat, r: string)
    requires BlankAround(s, lo, r)
    requires IsTrimmed(r)
    ensures r == Trim(s)
  {
    var t := Trim(s);
    var lo': nat :| BlankAround(s, lo', t);
    if r != [] {
      assert s[lo] == r[0] && s[lo + |r| - 1] == r[|r| - 1];
    }
    if t != [] {
      assert s[lo'] == t[0] && s[lo' + |t| - 1] == t[|t| - 1];
    }
    assert |r| == |t| && (r != [] ==> lo == lo') by {
      if r == [] && t != [] {
        assert false;
      } else if r != [] && t == [] {
        assert false;
      } else if r != [] {
        assert lo == lo';
        assert lo + |r| == lo' + |t|;
      }
    }
  }

  /** `trim` returns its argument unchanged exactly when it is empty or starts and ends with a non-blank. */
  lemma TrimFixpoint(s: string)
    ensures Trim(s) == s <==> IsTrimmed(s)
  {
    if IsTrimmed(s) {
      assert s[..0] == [] && s[|s|..] == [];
      assert BlankAround(s, 0, s);
      TrimUnique(s, 0, s);
    }
  }

  /** Trimming twice is trimming once. */
  lemma TrimIdempotent(s: string)
    ensures Trim(Trim(s)) == Trim(s)
  {
    TrimFixpoint(Trim(s));
  }
}
