/**
 * The two string operations the field's decisions rest on: Swift's
 * `split(separator: ".")`, which drops empty pieces, and the alphabet filter
 * of the predictive-input sanitiser.
 */
module Text {

  /** The pieces of `s` between dots, with empty pieces dropped:
      `SplitDot("5.") == ["5"]`, `SplitDot("1..2") == ["1", "2"]`. A string
      without a dot is one piece, or none when empty; `SplitDotAtDot` gives
      the pieces of a string around any of its dots. */
  function SplitDot(s: string): (pieces: seq<string>)
    ensures forall k :: 0 <= k < |pieces| ==> pieces[k] != [] && '.' !in pieces[k]
    ensures '.' !in s ==> pieces == if s == [] then [] else [s]
  {
    if '.' in s then Pieces(s, [])
    else
      PiecesDotFree(s, []);
      assert [] + s == s;
      Pieces(s, [])
  }

  /** Splits `s` with `run` as the dot-free piece collected so far. */
  function Pieces(s: string, run: string): (pieces: seq<string>)
    requires '.' !in run
    ensures forall k :: 0 <= k < |pieces| ==> pieces[k] != [] && '.' !in pieces[k]
    decreases |s|
  {
    if s == [] then
      (if run == [] then [] else [run])
    else if s[0] == '.' then
      (if run == [] then [] else [run]) + Pieces(s[1..], [])
    else
      Pieces(s[1..], run + [s[0]])
  }

  /** The characters of `s` that occur in `allowed`, in order, repeats kept. */
  function Filter(s: string, allowed: string): (r: string)
    ensures |r| <= |s|
    ensures forall k :: 0 <= k < |r| ==> r[k] in allowed
  {
    if s == [] then []
    else (if s[0] in allowed then [s[0]] else []) + Filter(s[1..], allowed)
  }

  // ---------------------------------------------------------------------
  // Splitting

  lemma {:induction false} PiecesDotFree(s: string, run: string)
    requires '.' !in s && '.' !in run
    ensures Pieces(s, run) == if run + s == [] then [] else [run + s]
    decreases |s|
  {
    if s != [] {
      PiecesDotFree(s[1..], run + [s[0]]);
      assert run + [s[0]] + s[1..] == run + s;
    } else {
      assert run + s == run;
    }
  }

  lemma {:induction false} PiecesSkip(a: string, rest: string, run: string)
    requires '.' !in a && '.' !in run
    ensures Pieces(a + rest, run) == Pieces(rest, run + a)
    decreases |a|
  {
    if a == [] {
      assert a + rest == rest && run + a == run;
    } else {
      assert (a + rest)[0] == a[0];
      assert (a + rest)[1..] == a[1..] + rest;
      PiecesSkip(a[1..], rest, run + [a[0]]);
      assert run + [a[0]] + a[1..] == run + a;
    }
  }

  lemma {:induction false} PiecesAtDot(a: string, b: string, run: string)
    requires '.' !in run
    ensures Pieces(a + "." + b, run) == Pieces(a, run) + SplitDot(b)
    decreases |a|
  {
    var u := a + "." + b;
    if a == [] {
      assert u == "." + b && u[0] == '.' && u[1..] == b;
    } else {
      assert u[0] == a[0] && u[1..] == a[1..] + "." + b;
      if a[0] == '.' {
        PiecesAtDot(a[1..], b, []);
      } else {
        PiecesAtDot(a[1..], b, run + [a[0]]);
      }
    }
  }

  /** Around any dot, the pieces are those of the part before it followed by
      those of the part after it. With the dot-free case of `SplitDot` this
      fixes the pieces of every string. */
  lemma SplitDotAtDot(a: string, b: string)
    ensures SplitDot(a + "." + b) == SplitDot(a) + SplitDot(b)
  {
    PiecesAtDot(a, b, []);
    assert '.' in a + "." + b by {
      assert (a + "." + b)[|a|] == '.';
    }
    if '.' !in a {
      PiecesDotFree(a, []);
      assert [] + a == a;
    }
  }

  /** Empty pieces are dropped: "1..2" has two pieces. */
  lemma SplitDotDoubleDot()
    ensures SplitDot("1..2") == ["1", "2"]
  {
    assert "1" + "." + "" == "1.";
    SplitDotAtDot("1", "");
    assert SplitDot("1.") == ["1"];
    assert "1." + "." + "2" == "1..2";
    SplitDotAtDot("1.", "2");
  }

  /** Two dots between digits make three pieces. */
  lemma SplitDotThreePieces()
    ensures SplitDot("1.2.3") == ["1", "2", "3"]
  {
    assert "2" + "." + "3" == "2.3";
    SplitDotAtDot("2", "3");
    assert SplitDot("2.3") == ["2", "3"];
    assert "1" + "." + "2.3" == "1.2.3";
    SplitDotAtDot("1", "2.3");
  }

  /** A string with exactly one dot, not at the front, splits into the part
      before it and, when non-empty, the part after it. */
  lemma SplitDotOneDot(s: string, i: nat)
    requires 0 < i < |s| && s[i] == '.'
    requires '.' !in s[..i] && '.' !in s[i + 1..]
    ensures SplitDot(s) == [s[..i]] + (if i + 1 == |s| then [] else [s[i + 1..]])
  {
    var rest := s[i..];
    assert s == s[..i] + rest;
    PiecesSkip(s[..i], rest, []);
    assert [] + s[..i] == s[..i];
    assert rest[0] == '.' && rest[1..] == s[i + 1..];
    PiecesDotFree(s[i + 1..], []);
    assert [] + s[i + 1..] == s[i + 1..];
  }

  lemma {:induction false} PiecesCount(s: string, run: string)
    requires '.' !in run
    ensures |Pieces(s, run)| <= multiset(s)['.'] + 1
    decreases |s|
  {
    if s != [] {
      assert s == [s[0]] + s[1..];
      assert multiset(s) == multiset([s[0]]) + multiset(s[1..]);
      if s[0] == '.' {
        PiecesCount(s[1..], []);
      } else {
        PiecesCount(s[1..], run + [s[0]]);
      }
    }
  }

  /** There are never more pieces than dots plus one. */
  lemma SplitDotCount(s: string)
    ensures |SplitDot(s)| <= multiset(s)['.'] + 1
  {
    PiecesCount(s, []);
  }

  // ---------------------------------------------------------------------
  // Filtering

  /** Filtering a concatenation filters each part: the order of the kept
      characters is the order in the input. */
  lemma {:induction false} FilterAppend(a: string, b: string, allowed: string)
    ensures Filter(a + b, allowed) == Filter(a, allowed) + Filter(b, allowed)
    decreases |a|
  {
    if a == [] {
      assert a + b == b;
    } else {
      assert (a + b)[0] == a[0];
      assert (a + b)[1..] == a[1..] + b;
      FilterAppend(a[1..], b, allowed);
    }
  }

  /** Every allowed character is kept as often as it occurs; every other
      character is dropped. */
  lemma {:induction false} FilterCounts(s: string, allowed: string, c: char)
    ensures multiset(Filter(s, allowed))[c] == if c in allowed then multiset(s)[c] else 0
    decreases |s|
  {
    if s != [] {
      FilterCounts(s[1..], allowed, c);
      assert s == [s[0]] + s[1..];
      assert multiset(s) == multiset([s[0]]) + multiset(s[1..]);
      var head: string := if s[0] in allowed then [s[0]] else [];
      assert multiset(Filter(s, allowed)) == multiset(head) + multiset(Filter(s[1..], allowed));
    }
  }

  /** Filtering changes a string exactly when it holds a character outside
      the alphabet. */
  lemma {:induction false} FilterFixedPoint(s: string, allowed: string)
    ensures Filter(s, allowed) == s <==> forall k :: 0 <= k < |s| ==> s[k] in allowed
    decreases |s|
  {
    if s != [] {
      FilterFixedPoint(s[1..], allowed);
      if s[0] !in allowed {
        assert |Filter(s, allowed)| < |s|;
      } else if forall k :: 0 <= k < |s| ==> s[k] in allowed {
        assert forall k :: 0 <= k < |s[1..]| ==> s[1..][k] in allowed by {
          forall k | 0 <= k < |s[1..]| ensures s[1..][k] in allowed {
            assert s[1..][k] == s[k + 1];
          }
        }
        assert s == [s[0]] + s[1..];
      }
    }
  }

  /** Filtering twice is filtering once. */
  lemma FilterIdempotent(s: string, allowed: string)
    ensures Filter(Filter(s, allowed), allowed) == Filter(s, allowed)
  {
    FilterFixedPoint(Filter(s, allowed), allowed);
  }
}
