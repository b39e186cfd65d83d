/**
 * The few java.lang.String operations the scraper relies on, with Java's
 * semantics written out: `split` on a one-character literal delimiter,
 * `replace` of one character by another, `contains`, an ASCII
 * `toLowerCase`, and the ordering of `compareTo` that a `TreeMap<String, _>`
 * uses for its keys.
 */
module JavaStrings {

  // ---------------------------------------------------------------------
  // replace, toLowerCase, contains
  // ---------------------------------------------------------------------

  /** `s.replace(from, to)` for one-character arguments. */
  function ReplaceChar(s: string, from: char, to: char): (r: string)
    ensures |r| == |s|
    ensures forall i :: 0 <= i < |s| ==> r[i] == (if s[i] == from then to else s[i])
    ensures from != to ==> from !in r
  {
    if s == [] then []
    else [if s[0] == from then to else s[0]] + ReplaceChar(s[1..], from, to)
  }

  /** Lower-casing of one character; only the ASCII letters A-Z change. */
  function LowerChar(c: char): char
  {
    if 'A' <= c <= 'Z' then (c as int + 32) as char else c
  }

  /** `s.toLowerCase()`, restricted to ASCII letters. */
  function ToLowerCase(s: string): (r: string)
    ensures |r| == |s|
    ensures forall i :: 0 <= i < |s| ==> r[i] == LowerChar(s[i])
  {
    if s == [] then [] else [LowerChar(s[0])] + ToLowerCase(s[1..])
  }

  /** `s.contains(sub)`. */
  predicate Contains(s: string, sub: string)
  {
    exists i | 0 <= i <= |s| - |sub| :: OccursAt(s, sub, i)
  }

  /** `sub` occurs in `s` starting at index `i`. */
  predicate OccursAt(s: string, sub: string, i: nat)
  {
    i + |sub| <= |s| && s[i..i + |sub|] == sub
  }

  // ---------------------------------------------------------------------
  // split
  // ---------------------------------------------------------------------

  /**
   * The maximal runs of `s` between occurrences of `d`, empty runs included:
   * one more piece than there are delimiters.
   */
  function Pieces(s: string, d: char): (ps: seq<string>)
    ensures |ps| >= 1
    ensures forall i :: 0 <= i < |ps| ==> d !in ps[i]
  {
    if s == [] then [""]
    else
      var rest := Pieces(s[1..], d);
      if s[0] == d then [""] + rest else [[s[0]] + rest[0]] + rest[1..]
  }

  /** `String.join(d, ps)`: the inverse of Pieces. */
  function Join(ps: seq<string>, d: char): string
    requires |ps| >= 1
  {
    if |ps| == 1 then ps[0] else ps[0] + [d] + Join(ps[1..], d)
  }

  /** Removes every empty string at the end of `ps`, as `split` does. */
  function StripTrailingEmpty(ps: seq<string>): (r: seq<string>)
    ensures |r| <= |ps| && r == ps[..|r|]
    ensures r == [] || r[|r| - 1] != ""
    ensures forall i :: |r| <= i < |ps| ==> ps[i] == ""
  {
    if ps == [] then []
    else if ps[|ps| - 1] == "" then StripTrailingEmpty(ps[..|ps| - 1])
    else ps
  }

  /**
   * `s.split(d)` with a one-character literal `d` and limit 0: when `d` does
   * not occur the result is `[s]` (even for the empty string); otherwise the
   * pieces between delimiters with the trailing empty ones removed.
   */
  function Split(s: string, d: char): (r: seq<string>)
    ensures forall i :: 0 <= i < |r| ==> d !in r[i]
    ensures d !in s ==> r == [s]
    ensures d in s ==> |r| <= |Pieces(s, d)| && r == Pieces(s, d)[..|r|]
    // only the trailing empty pieces are dropped
    ensures d in s ==> (r == [] || r[|r| - 1] != "") && forall i :: |r| <= i < |Pieces(s, d)| ==> Pieces(s, d)[i] == ""
  {
    if d !in s then [s] else StripTrailingEmpty(Pieces(s, d))
  }

  /** Some character other than `d` occurs in `s`. */
  predicate HasNonDelimiter(s: string, d: char)
  {
    exists j :: 0 <= j < |s| && s[j] != d
  }

  /** Some occurrence of `d` in `s` is followed, later on, by a character other than `d`. */
  predicate HasFieldAfterDelimiter(s: string, d: char)
  {
    exists i :: 0 <= i < |s| && s[i] == d && HasNonDelimiter(s[i + 1..], d)
  }

  /** Some piece at index `k` or later is non-empty. */
  predicate NonEmptyFrom(ps: seq<string>, k: nat)
  {
    exists i :: k <= i < |ps| && ps[i] != ""
  }

  lemma {:induction false} JoinPieces(s: string, d: char)
    ensures Join(Pieces(s, d), d) == s
  {
    if s != [] {
      JoinPieces(s[1..], d);
      var rest := Pieces(s[1..], d);
      if s[0] == d {
        assert ([""] + rest)[1..] == rest;
      } else if |rest| == 1 {
      } else {
        assert ([[s[0]] + rest[0]] + rest[1..])[1..] == rest[1..];
        assert Join(rest, d) == rest[0] + [d] + Join(rest[1..], d);
      }
    }
  }

  /** Pieces of a text that starts with a delimiter-free run `a`. */
  lemma {:induction false} PiecesAfterRun(a: string, t: string, d: char)
    requires d !in a
    ensures Pieces(a + t, d) == [a + Pieces(t, d)[0]] + Pieces(t, d)[1..]
  {
    var p := Pieces(t, d);
    if a == [] {
      assert a + t == t && a + p[0] == p[0];
      assert p == [p[0]] + p[1..];
    } else {
      assert (a + t)[0] == a[0] != d;
      assert (a + t)[1..] == a[1..] + t;
      PiecesAfterRun(a[1..], t, d);
      var r := Pieces(a[1..] + t, d);
      assert r[0] == a[1..] + p[0] && r[1..] == p[1..];
      assert Pieces(a + t, d) == [[a[0]] + r[0]] + r[1..];
      assert [a[0]] + a[1..] == a;
      assert [a[0]] + (a[1..] + p[0]) == ([a[0]] + a[1..]) + p[0];
    }
  }

  lemma {:induction false} PiecesJoin(ps: seq<string>, d: char)
    requires |ps| >= 1
    requires forall i :: 0 <= i < |ps| ==> d !in ps[i]
    ensures Pieces(Join(ps, d), d) == ps
  {
    if |ps| == 1 {
      PiecesAfterRun(ps[0], "", d);
      assert ps[0] + "" == ps[0];
    } else {
      PiecesJoin(ps[1..], d);
      var t := [d] + Join(ps[1..], d);
      assert t[0] == d && t[1..] == Join(ps[1..], d);
      assert Pieces(t, d) == [""] + ps[1..];
      assert Join(ps, d) == ps[0] + t;
      PiecesAfterRun(ps[0], t, d);
      assert ps[0] + "" == ps[0];
      assert ([""] + ps[1..])[1..] == ps[1..];
      assert [ps[0]] + ps[1..] == ps;
    }
  }

  lemma {:induction false} PiecesNonEmpty(s: string, d: char)
    ensures NonEmptyFrom(Pieces(s, d), 0) <==> HasNonDelimiter(s, d)
  {
    if s != [] {
      var rest := Pieces(s[1..], d);
      PiecesNonEmpty(s[1..], d);
      if s[0] == d {
        var ps := [""] + rest;
        if NonEmptyFrom(rest, 0) {
          var i :| 0 <= i < |rest| && rest[i] != "";
          assert ps[i + 1] == rest[i];
        }
        if NonEmptyFrom(ps, 0) {
          var i :| 0 <= i < |ps| && ps[i] != "";
          assert rest[i - 1] == ps[i];
        }
        if HasNonDelimiter(s[1..], d) {
          var j :| 0 <= j < |s[1..]| && s[1..][j] != d;
          assert s[j + 1] != d;
        }
        if HasNonDelimiter(s, d) {
          var j :| 0 <= j < |s| && s[j] != d;
          assert s[1..][j - 1] != d;
        }
      } else {
        assert Pieces(s, d)[0] != "";
        assert s[0] != d;
      }
    }
  }

  lemma {:induction false} FieldHasNonDelimiter(s: string, d: char)
    requires HasFieldAfterDelimiter(s, d)
    ensures HasNonDelimiter(s, d)
  {
    var i :| 0 <= i < |s| && s[i] == d && HasNonDelimiter(s[i + 1..], d);
    var j :| 0 <= j < |s[i + 1..]| && s[i + 1..][j] != d;
    assert s[i + 1 + j] != d;
  }

  /** Induction step of PiecesLaterNonEmpty when `s` starts with the delimiter. */
  lemma PiecesLaterAfterDelimiter(s: string, d: char)
    requires s != [] && s[0] == d
    ensures NonEmptyFrom(Pieces(s, d), 1) <==> HasFieldAfterDelimiter(s, d)
  {
    var t := s[1..];
    var rest := Pieces(t, d);
    var ps := Pieces(s, d);
    assert ps == [""] + rest;
    PiecesNonEmpty(t, d);
    if NonEmptyFrom(rest, 0) {
      var i :| 0 <= i < |rest| && rest[i] != "";
      assert ps[i + 1] == rest[i];
      assert s[0] == d && s[0 + 1..] == t;
    }
    if NonEmptyFrom(ps, 1) {
      var i :| 1 <= i < |ps| && ps[i] != "";
      assert rest[i - 1] == ps[i];
    }
    if HasFieldAfterDelimiter(s, d) {
      var i :| 0 <= i < |s| && s[i] == d && HasNonDelimiter(s[i + 1..], d);
      if i > 0 {
        assert t[i - 1] == d && t[i - 1 + 1..] == s[i + 1..];
        FieldHasNonDelimiter(t, d);
      }
    }
  }

  /** Induction step of PiecesLaterNonEmpty when `s` starts with another character. */
  lemma PiecesLaterAfterOther(s: string, d: char)
    requires s != [] && s[0] != d
    requires NonEmptyFrom(Pieces(s[1..], d), 1) <==> HasFieldAfterDelimiter(s[1..], d)
    ensures NonEmptyFrom(Pieces(s, d), 1) <==> HasFieldAfterDelimiter(s, d)
  {
    var t := s[1..];
    var rest := Pieces(t, d);
    var ps := Pieces(s, d);
    assert ps == [[s[0]] + rest[0]] + rest[1..];
    if NonEmptyFrom(rest, 1) {
      var i :| 1 <= i < |rest| && rest[i] != "";
      assert ps[i] == rest[i];
    }
    if NonEmptyFrom(ps, 1) {
      var i :| 1 <= i < |ps| && ps[i] != "";
      assert rest[i] == ps[i];
    }
    if HasFieldAfterDelimiter(t, d) {
      var i :| 0 <= i < |t| && t[i] == d && HasNonDelimiter(t[i + 1..], d);
      assert s[i + 1] == d && s[i + 1 + 1..] == t[i + 1..];
    }
    if HasFieldAfterDelimiter(s, d) {
      var i :| 0 <= i < |s| && s[i] == d && HasNonDelimiter(s[i + 1..], d);
      assert t[i - 1] == d && t[i - 1 + 1..] == s[i + 1..];
    }
  }

  lemma {:induction false} PiecesLaterNonEmpty(s: string, d: char)
    ensures NonEmptyFrom(Pieces(s, d), 1) <==> HasFieldAfterDelimiter(s, d)
  {
    if s != [] {
      if s[0] == d {
        PiecesLaterAfterDelimiter(s, d);
      } else {
        PiecesLaterNonEmpty(s[1..], d);
        PiecesLaterAfterOther(s, d);
      }
    }
  }

  /**
   * `s.split(d)[1]` exists exactly when some delimiter is followed later by
   * a character other than the delimiter; it is then the second piece.
   */
  lemma SplitHasSecond(s: string, d: char)
    ensures |Split(s, d)| >= 2 <==> HasFieldAfterDelimiter(s, d)
    ensures |Split(s, d)| >= 2 ==> Split(s, d)[1] == Pieces(s, d)[1]
  {
    if d in s {
      var ps := Pieces(s, d);
      var r := Split(s, d);
      PiecesLaterNonEmpty(s, d);
      if |r| >= 2 {
        assert ps[|r| - 1] == r[|r| - 1] != "";
      }
      if NonEmptyFrom(ps, 1) {
        var i :| 1 <= i < |ps| && ps[i] != "";
        assert i < |r|;
      }
    }
  }

  /**
   * `s.split(d)` is empty exactly when `s` is made of delimiters only (and is
   * not empty itself): the empty string still splits into one field.
   */
  lemma SplitEmpty(s: string, d: char)
    ensures |Split(s, d)| == 0 <==> s != "" && !HasNonDelimiter(s, d)
  {
    if d in s {
      var ps := Pieces(s, d);
      var r := Split(s, d);
      PiecesNonEmpty(s, d);
      if |r| > 0 {
        assert ps[|r| - 1] == r[|r| - 1] != "";
      }
    } else if s != "" {
      assert s[0] != d;
    }
  }

  /** A `type/subtype` value with delimiter-free parts splits into exactly those parts. */
  lemma SplitTwoFields(a: string, b: string, d: char)
    requires d !in a && d !in b && b != ""
    ensures Split(a + [d] + b, d) == [a, b]
  {
    var ps := [a, b];
    PiecesJoin(ps, d);
    assert Join(ps, d) == a + [d] + b;
    assert (a + [d] + b)[|a|] == d;
  }

  // ---------------------------------------------------------------------
  // compareTo
  // ---------------------------------------------------------------------

  /** `a.compareTo(b) < 0`: lexicographic on characters, a proper prefix first. */
  predicate Less(a: string, b: string)
  {
    if a == [] then b != []
    else if b == [] then false
    else if a[0] != b[0] then a[0] < b[0]
    else Less(a[1..], b[1..])
  }

  lemma {:induction false} LessIrreflexive(a: string)
    ensures !Less(a, a)
  {
    if a != [] {
      LessIrreflexive(a[1..]);
    }
  }

  lemma {:induction false} LessAsymmetric(a: string, b: string)
    requires Less(a, b)
    ensures !Less(b, a)
  {
    if a != [] && b != [] && a[0] == b[0] {
      LessAsymmetric(a[1..], b[1..]);
    }
  }

  lemma {:induction false} LessTransitive(a: string, b: string, c: string)
    requires Less(a, b) && Less(b, c)
    ensures Less(a, c)
  {
    if a != [] && a[0] == b[0] && b[0] == c[0] {
      LessTransitive(a[1..], b[1..], c[1..]);
    }
  }

  lemma {:induction false} LessTotal(a: string, b: string)
    requires a != b
    ensures Less(a, b) || Less(b, a)
  {
    if a != [] && b != [] && a[0] == b[0] {
      assert a == [a[0]] + a[1..] && b == [b[0]] + b[1..];
      LessTotal(a[1..], b[1..]);
    }
  }
}
