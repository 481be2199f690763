/** `String.split` with the literal token `", "` and the default limit 0, as `Address` uses it,
    and its inverse `Join`. */
module AddressSplit {

  /** The delimiter Address splits on and joins with. */
  const SPLIT_TOKEN: string := ", "

  /** An occurrence of SPLIT_TOKEN starts at index `i` of `s`. */
  predicate TokenAt(s: string, i: int) {
    0 <= i && i + 1 < |s| && s[i] == ',' && s[i + 1] == ' '
  }

  predicate HasToken(s: string) {
    exists i | 0 <= i < |s| :: TokenAt(s, i)
  }

  /** `TokenAt` spells out SPLIT_TOKEN character by character. */
  lemma TokenAtIsSplitToken(s: string, i: int)
    ensures TokenAt(s, i) <==> 0 <= i && i + |SPLIT_TOKEN| <= |s| && s[i..i + |SPLIT_TOKEN|] == SPLIT_TOKEN
  {
    if 0 <= i && i + |SPLIT_TOKEN| <= |s| && s[i..i + |SPLIT_TOKEN|] == SPLIT_TOKEN {
      assert s[i] == s[i..i + 2][0] && s[i + 1] == s[i..i + 2][1];
    }
  }

  /** The pieces of `s` between the successive leftmost occurrences of SPLIT_TOKEN, empty ones
      included: what the regex split collects before it drops trailing empty strings. */
  function Pieces(s: string): (r: seq<string>)
    ensures |r| > 0
    decreases |s|
  {
    if TokenAt(s, 0) then [""] + Pieces(s[2..])
    else if s == [] then [""]
    else
      var rest := Pieces(s[1..]);
      [[s[0]] + rest[0]] + rest[1..]
  }

  /** The parts separated by SPLIT_TOKEN; the empty list joins to the empty string. */
  function Join(parts: seq<string>): string {
    if |parts| == 0 then ""
    else if |parts| == 1 then parts[0]
    else parts[0] + SPLIT_TOKEN + Join(parts[1..])
  }

  /** What `split` with limit 0 does last: the trailing empty strings are removed. */
  function DropTrailingEmpty(parts: seq<string>): (r: seq<string>)
    ensures r <= parts
    ensures r == [] || r[|r| - 1] != ""
    ensures forall i | |r| <= i < |parts| :: parts[i] == ""
  {
    if |parts| == 0 then []
    else if parts[|parts| - 1] == "" then DropTrailingEmpty(parts[..|parts| - 1])
    else parts
  }

  /** `s.split(SPLIT_TOKEN)`: without any occurrence of the token the result is `s` alone (even when
      `s` is empty); otherwise the pieces without the trailing empty ones. Either way the result
      is a prefix of the pieces, none of which holds the token, leaving off only empty pieces; the
      last piece kept is not empty unless `s` holds no token. */
  function Split(s: string): (r: seq<string>)
    ensures forall i | 0 <= i < |r| :: !HasToken(r[i])
    ensures r <= Pieces(s)
    ensures forall i | |r| <= i < |Pieces(s)| :: Pieces(s)[i] == ""
    ensures !HasToken(s) ==> r == [s]
    ensures HasToken(s) ==> r == [] || r[|r| - 1] != ""
  {
    PiecesJoin(s);
    if !HasToken(s) then
      PiecesWithoutToken(s);
      [s]
    else DropTrailingEmpty(Pieces(s))
  }

  /** Joining two non-empty lists puts one SPLIT_TOKEN between their joins. */
  lemma {:induction false} JoinAppend(xs: seq<string>, ys: seq<string>)
    requires |xs| > 0 && |ys| > 0
    ensures Join(xs + ys) == Join(xs) + SPLIT_TOKEN + Join(ys)
    decreases |xs|
  {
    if |xs| == 1 {
      assert (xs + ys)[1..] == ys;
    } else {
      assert (xs + ys)[1..] == xs[1..] + ys;
      JoinAppend(xs[1..], ys);
    }
  }

  /** The join of four parts, written out. */
  lemma JoinFour(w: string, x: string, y: string, z: string)
    ensures Join([w, x, y, z]) == w + SPLIT_TOKEN + x + SPLIT_TOKEN + y + SPLIT_TOKEN + z
  {
    assert [w, x, y, z][1..] == [x, y, z] && [x, y, z][1..] == [y, z] && [y, z][1..] == [z];
    assert Join([y, z]) == y + SPLIT_TOKEN + z;
    assert Join([x, y, z]) == x + SPLIT_TOKEN + (y + SPLIT_TOKEN + z);
    assert Join([w, x, y, z]) == w + SPLIT_TOKEN + (x + SPLIT_TOKEN + (y + SPLIT_TOKEN + z));
  }

  /** The join of a list starts with its first part. */
  lemma JoinStartsWithFirst(parts: seq<string>)
    requires |parts| > 0
    ensures parts[0] <= Join(parts)
  {
  }

  /** Splitting loses nothing: the pieces rejoin to `s`, and no piece holds the token. */
  lemma {:induction false} PiecesJoin(s: string)
    ensures Join(Pieces(s)) == s
    ensures forall i | 0 <= i < |Pieces(s)| :: !HasToken(Pieces(s)[i])
    decreases |s|
  {
    if TokenAt(s, 0) {
      PiecesJoin(s[2..]);
      PiecesJoinAfterToken(s);
    } else if s != [] {
      PiecesJoin(s[1..]);
      PiecesJoinAfterChar(s);
    }
  }

  /** PiecesJoin's step where `s` starts with the token: an empty piece is cut off. */
  lemma PiecesJoinAfterToken(s: string)
    requires TokenAt(s, 0)
    requires Join(Pieces(s[2..])) == s[2..]
    requires forall i | 0 <= i < |Pieces(s[2..])| :: !HasToken(Pieces(s[2..])[i])
    ensures Join(Pieces(s)) == s
    ensures forall i | 0 <= i < |Pieces(s)| :: !HasToken(Pieces(s)[i])
  {
    var r := Pieces(s);
    var rest := Pieces(s[2..]);
    assert r[1..] == rest;
    assert Join(r) == "" + SPLIT_TOKEN + Join(rest);
    assert "" + SPLIT_TOKEN == SPLIT_TOKEN;
    assert s == SPLIT_TOKEN + s[2..];
    forall i | 0 <= i < |r| ensures !HasToken(r[i]) {
      if i > 0 { assert r[i] == rest[i - 1]; }
    }
  }

  /** PiecesJoin's step where `s` starts with an ordinary character: it joins the first piece. */
  lemma PiecesJoinAfterChar(s: string)
    requires s != [] && !TokenAt(s, 0)
    requires Join(Pieces(s[1..])) == s[1..]
    requires forall i | 0 <= i < |Pieces(s[1..])| :: !HasToken(Pieces(s[1..])[i])
    ensures Join(Pieces(s)) == s
    ensures forall i | 0 <= i < |Pieces(s)| :: !HasToken(Pieces(s)[i])
  {
    JoinAfterChar(s);
    TokenFreeAfterChar(s);
  }

  lemma JoinAfterChar(s: string)
    requires s != [] && !TokenAt(s, 0)
    requires Join(Pieces(s[1..])) == s[1..]
    ensures Join(Pieces(s)) == s
  {
    var rest := Pieces(s[1..]);
    assert Pieces(s) == [[s[0]] + rest[0]] + rest[1..];
    ConsJoin(s[0], rest);
    assert s == [s[0]] + s[1..];
  }

  /** A character put in front of the first part is put in front of the join. */
  lemma ConsJoin(c: char, parts: seq<string>)
    requires |parts| > 0
    ensures Join([[c] + parts[0]] + parts[1..]) == [c] + Join(parts)
  {
    if |parts| == 1 {
      assert [[c] + parts[0]] + parts[1..] == [[c] + parts[0]];
    } else {
      var h := [c] + parts[0];
      var j := Join(parts[1..]);
      assert Join([h] + parts[1..]) == h + SPLIT_TOKEN + j by {
        assert ([h] + parts[1..])[1..] == parts[1..];
      }
      assert Join(parts) == parts[0] + SPLIT_TOKEN + j;
      Assoc([c], parts[0], SPLIT_TOKEN);
      Assoc([c], parts[0] + SPLIT_TOKEN, j);
    }
  }

  /** Concatenation is associative; stated once so that proofs can regroup in a single step. */
  lemma Assoc(x: string, y: string, z: string)
    ensures (x + y) + z == x + (y + z)
  {
  }

  lemma TokenFreeAfterChar(s: string)
    requires s != [] && !TokenAt(s, 0)
    requires Join(Pieces(s[1..])) == s[1..]
    requires forall i | 0 <= i < |Pieces(s[1..])| :: !HasToken(Pieces(s[1..])[i])
    ensures forall i | 0 <= i < |Pieces(s)| :: !HasToken(Pieces(s)[i])
  {
    var r := Pieces(s);
    var rest := Pieces(s[1..]);
    JoinStartsWithFirst(rest);
    assert !(s[0] == ',' && |rest[0]| > 0 && rest[0][0] == ' ') by {
      if |rest[0]| > 0 { assert rest[0][0] == s[1]; }
    }
    ConsTokenFree(s[0], rest[0]);
    assert r == [[s[0]] + rest[0]] + rest[1..];
    forall i | 0 <= i < |r| ensures !HasToken(r[i]) {
      if i > 0 { assert r[i] == rest[i]; }
    }
  }

  /** A character in front of a token-free string makes a token only as a comma before a space. */
  lemma ConsTokenFree(c: char, p: string)
    requires !HasToken(p)
    requires !(c == ',' && |p| > 0 && p[0] == ' ')
    ensures !HasToken([c] + p)
  {
    var t := [c] + p;
    forall j | 0 <= j < |t| ensures !TokenAt(t, j) {
      if j > 0 {
        assert !TokenAt(p, j - 1);
        assert t[j] == p[j - 1];
        if j + 1 < |t| { assert t[j + 1] == p[j]; }
      }
    }
  }

  /** The first `n` pieces rejoin to all of `s` when they are all its pieces, and otherwise to a
      prefix of `s` that the token follows. */
  lemma JoinFirstPieces(s: string, n: nat)
    requires 0 < n <= |Pieces(s)|
    ensures n == |Pieces(s)| ==> Join(Pieces(s)[..n]) == s
    ensures n < |Pieces(s)| ==> Join(Pieces(s)[..n]) + SPLIT_TOKEN <= s
  {
    var ps := Pieces(s);
    PiecesJoin(s);
    if n < |ps| {
      assert ps == ps[..n] + ps[n..];
      JoinAppend(ps[..n], ps[n..]);
    } else {
      assert ps[..n] == ps;
    }
  }

  /** A string without the token is its own single piece. */
  lemma PiecesWithoutToken(s: string)
    requires !HasToken(s)
    ensures Pieces(s) == [s]
  {
    PiecesJoin(s);
    SeveralPiecesMeanToken(s);
  }

  /** When the scan cuts `s` at all, the token follows the first piece. */
  lemma SeveralPiecesMeanToken(s: string)
    ensures |Pieces(s)| > 1 ==> TokenAt(s, |Pieces(s)[0]|)
  {
    var r := Pieces(s);
    PiecesJoin(s);
    if |r| > 1 {
      assert Join(r) == r[0] + SPLIT_TOKEN + Join(r[1..]);
      assert s[|r[0]|] == ',' && s[|r[0]| + 1] == ' ';
    }
  }

  /** The scan cuts at the token that follows a token-free first part. */
  lemma {:induction false} PiecesAfterPart(part: string, rest: string)
    requires !HasToken(part)
    ensures Pieces(part + SPLIT_TOKEN + rest) == [part] + Pieces(rest)
    decreases |part|
  {
    var s := part + SPLIT_TOKEN + rest;
    if part == [] {
      assert s[2..] == rest;
    } else {
      var tail := part[1..];
      assert !HasToken(tail) by {
        forall j | 0 <= j < |tail| ensures !TokenAt(tail, j) {
          assert !TokenAt(part, j + 1);
        }
      }
      assert !TokenAt(s, 0) by {
        if |part| == 1 { assert s[1] == ','; } else { assert s[1] == part[1]; assert !TokenAt(part, 0); }
      }
      assert s[1..] == tail + SPLIT_TOKEN + rest;
      PiecesAfterPart(tail, rest);
      assert [s[0]] + tail == part;
    }
  }

  /** Splitting undoes joining: a non-empty list of token-free parts is recovered from its join. */
  lemma {:induction false} JoinPieces(parts: seq<string>)
    requires |parts| > 0
    requires forall i | 0 <= i < |parts| :: !HasToken(parts[i])
    ensures Pieces(Join(parts)) == parts
    decreases |parts|
  {
    if |parts| == 1 {
      PiecesWithoutToken(parts[0]);
    } else {
      JoinPieces(parts[1..]);
      PiecesAfterPart(parts[0], Join(parts[1..]));
      assert parts == [parts[0]] + parts[1..];
    }
  }

  /** A join whose last part is empty ends with the token. */
  lemma JoinLastEmpty(parts: seq<string>)
    ensures |parts| > 1 && parts[|parts| - 1] == "" ==> |Join(parts)| >= 2 && Join(parts)[|Join(parts)| - 1] == ' '
  {
    var n := |parts|;
    if n > 1 && parts[n - 1] == "" {
      assert parts == parts[..n - 1] + [parts[n - 1]];
      JoinAppend(parts[..n - 1], [parts[n - 1]]);
    }
  }

  /** For a non-empty string that does not end with a space, as a trimmed string never does,
      `split` keeps every piece: the last piece is not empty. */
  lemma SplitKeepsAllPieces(s: string)
    requires s != [] && s[|s| - 1] != ' '
    ensures Split(s) == Pieces(s)
  {
    var ps := Pieces(s);
    PiecesJoin(s);
    if HasToken(s) {
      JoinLastEmpty(ps);
      assert ps[|ps| - 1] != "";
    } else {
      PiecesWithoutToken(s);
    }
  }
}
