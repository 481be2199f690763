/** `Address.isValidAddress`: a whole-string match against the pattern `.+,.+,.+,.+`. */
module AddressValidation {

  /** The characters Java's regex `.` does not match (the pattern is compiled without DOTALL):
      newline, carriage return, next line, line separator and paragraph separator. */
  predicate IsLineTerminator(c: char) {
    c == '\n' || c == '\r' || c == '\U{0085}' || c == '\U{2028}' || c == '\U{2029}'
  }

  predicate NoLineTerminator(s: string) {
    forall i | 0 <= i < |s| :: !IsLineTerminator(s[i])
  }

  /** `s` matches `.+`. */
  predicate MatchesDotPlus(s: string) {
    |s| > 0 && NoLineTerminator(s)
  }

  /** `s` matches `.+` followed by `commas` repetitions of `,.+`; the pattern `.+,.+,.+,.+` is the
      case of three commas. Each `.+` may itself swallow commas, so any comma may be the one that
      the literal `,` of the pattern matches. */
  predicate MatchesGroups(s: string, commas: nat)
    decreases commas, 1
  {
    if commas == 0 then MatchesDotPlus(s)
    else exists k | 0 < k < |s| :: FirstGroupEndsAt(s, k, commas)
  }

  /** The comma at index `k` is the one the pattern's first literal `,` matches: before it `.+`,
      after it the remaining `commas - 1` repetitions. */
  predicate FirstGroupEndsAt(s: string, k: int, commas: nat)
    requires commas > 0
    decreases commas, 0
  {
    0 < k < |s| && s[k] == ',' && MatchesDotPlus(s[..k]) && MatchesGroups(s[k + 1..], commas - 1)
  }

  /** Three commas at positions `p1 < p2 < p3` with at least one character before `p1`, between
      each two of them, and after `p3`. */
  predicate HasSeparatingCommas(s: string) {
    exists p1, p2, p3 | 0 < p1 && p1 + 1 < p2 && p2 + 1 < p3 && p3 + 1 < |s| ::
      s[p1] == ',' && s[p2] == ',' && s[p3] == ','
  }

  /** `isValidAddress(test)`, that is `test.matches(".+,.+,.+,.+")`, read directly off the
      characters: no line terminator, and three commas that separate four non-empty stretches.
      Further commas may sit anywhere, since `.` matches a comma too. The direct reading agrees
      with the regex: it holds exactly when the whole string matches `.+` followed by three
      repetitions of `,.+`. */
  predicate IsValidAddress(test: string)
    ensures IsValidAddress(test) <==> MatchesGroups(test, 3)
  {
    SeparatingCommasMatchPattern(test);
    NoLineTerminator(test) && HasSeparatingCommas(test)
  }

  /** A matched string holds no line terminator. */
  lemma {:induction false} GroupsHaveNoLineTerminator(s: string, commas: nat)
    requires MatchesGroups(s, commas)
    ensures NoLineTerminator(s)
  {
    if commas > 0 {
      var k :| 0 < k < |s| && FirstGroupEndsAt(s, k, commas);
      GroupsHaveNoLineTerminator(s[k + 1..], commas - 1);
      forall i | 0 <= i < |s| ensures !IsLineTerminator(s[i]) {
        if i < k {
          assert s[i] == s[..k][i];
        } else if i > k {
          assert s[i] == s[k + 1..][i - k - 1];
        }
      }
    }
  }

  /** A stretch of a terminator-free string is terminator-free. */
  lemma NoLineTerminatorSlice(s: string, i: int, j: int)
    requires NoLineTerminator(s) && 0 <= i <= j <= |s|
    ensures NoLineTerminator(s[i..j])
  {
    forall k | 0 <= k < j - i ensures !IsLineTerminator(s[i..j][k]) {
      assert s[i..j][k] == s[i + k];
    }
  }

  /** One more group in front: if what follows the comma at `k` matches, so does the stretch of a
      terminator-free `s` from `i`, for any `i` before `k`. */
  lemma GroupsConsAt(s: string, i: int, k: int, commas: nat)
    requires NoLineTerminator(s)
    requires 0 <= i < k < |s| && s[k] == ','
    requires MatchesGroups(s[k + 1..], commas)
    ensures MatchesGroups(s[i..], commas + 1)
  {
    var t := s[i..];
    NoLineTerminatorSlice(s, i, k);
    assert t[k - i] == s[k] && t[..k - i] == s[i..k] && t[k - i + 1..] == s[k + 1..];
    assert FirstGroupEndsAt(t, k - i, commas + 1);
  }

  /** A non-empty terminator-free tail matches `.+`. */
  lemma LastGroupMatches(s: string, i: int)
    requires NoLineTerminator(s) && 0 <= i < |s|
    ensures MatchesGroups(s[i..], 0)
  {
    NoLineTerminatorSlice(s, i, |s|);
    assert s[i..|s|] == s[i..];
  }

  /** From the positions of three separating commas to a match, group by group from the end. */
  lemma MatchFromCommas(s: string, p1: int, p2: int, p3: int)
    requires NoLineTerminator(s)
    requires 0 < p1 && p1 + 1 < p2 && p2 + 1 < p3 && p3 + 1 < |s|
    requires s[p1] == ',' && s[p2] == ',' && s[p3] == ','
    ensures MatchesGroups(s, 3)
  {
    LastGroupMatches(s, p3 + 1);
    GroupsConsAt(s, p2 + 1, p3, 0);
    GroupsConsAt(s, p1 + 1, p2, 1);
    GroupsConsAt(s, 0, p1, 2);
    assert s[0..] == s;
  }

  /** Both directions between the direct reading and the group-by-group one. */
  lemma SeparatingCommasMatchPattern(s: string)
    ensures NoLineTerminator(s) && HasSeparatingCommas(s) <==> MatchesGroups(s, 3)
  {
    if MatchesGroups(s, 3) {
      CommasFromMatch(s);
    }
    if NoLineTerminator(s) && HasSeparatingCommas(s) {
      var p1, p2, p3 :| 0 < p1 && p1 + 1 < p2 && p2 + 1 < p3 && p3 + 1 < |s| && s[p1] == ',' && s[p2] == ',' && s[p3] == ',';
      MatchFromCommas(s, p1, p2, p3);
    }
  }

  /** From a match to the positions of the commas the pattern's three literal `,` matched. */
  lemma CommasFromMatch(s: string)
    requires MatchesGroups(s, 3)
    ensures NoLineTerminator(s) && HasSeparatingCommas(s)
  {
    GroupsHaveNoLineTerminator(s, 3);
    var k1 :| 0 < k1 < |s| && FirstGroupEndsAt(s, k1, 3);
    var s1 := s[k1 + 1..];
    var k2 :| 0 < k2 < |s1| && FirstGroupEndsAt(s1, k2, 2);
    var s2 := s1[k2 + 1..];
    var k3 :| 0 < k3 < |s2| && FirstGroupEndsAt(s2, k3, 1);
    assert |s2[k3 + 1..]| > 0;
    var p1, p2, p3 := k1, k1 + 1 + k2, k1 + k2 + k3 + 2;
    assert s[p2] == s1[k2] && s[p3] == s2[k3];
    assert s[p1] == ',' && s[p2] == ',' && s[p3] == ',';
  }
}
