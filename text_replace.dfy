/**
 * strings.Replace(s, pattern, replacement, -1) as createTrContext uses it
 * to mark the translated text inside a function body (main.go:420).
 */
module TextReplace {

  /** `pattern` occurs in `s` starting at index `i`. */
  predicate OccursAt(pattern: string, s: string, i: int)
  {
    0 <= i && i + |pattern| <= |s| && s[i..i + |pattern|] == pattern
  }

  /** `pattern` occurs somewhere in `s`. */
  predicate Occurs(pattern: string, s: string)
  {
    exists i | 0 <= i <= |s| :: OccursAt(pattern, s, i)
  }

  /** The empty pattern matches before every character and at the end. */
  function Interleave(s: string, replacement: string): string
  {
    if s == [] then replacement
    else replacement + [s[0]] + Interleave(s[1..], replacement)
  }

  /**
   * Replace every non-overlapping occurrence of `pattern`: copy the text up
   * to the first occurrence, write the replacement, and go on after it.
   */
  function ReplaceAll(s: string, pattern: string, replacement: string): string
    decreases |s|
  {
    if pattern == [] then Interleave(s, replacement)
    else
      var i := Index(s, pattern);
      if i < 0 then s
      else s[..i] + replacement + ReplaceAll(s[i + |pattern|..], pattern, replacement)
  }

  /** Text in which the pattern does not occur comes back unchanged. */
  lemma ReplaceAbsent(s: string, pattern: string, replacement: string)
    requires pattern != []
    requires !Occurs(pattern, s)
    ensures ReplaceAll(s, pattern, replacement) == s
  {
    IndexFirst(s, pattern);
  }

  /** Replacing a pattern by itself changes nothing. */
  lemma {:induction false} ReplaceBySelf(s: string, pattern: string)
    ensures ReplaceAll(s, pattern, pattern) == s
    decreases |s|
  {
    if pattern == [] {
      InterleaveEmpty(s);
    } else {
      var i := Index(s, pattern);
      if i >= 0 {
        IndexFirst(s, pattern);
        ReplaceBySelf(s[i + |pattern|..], pattern);
        assert s == s[..i] + s[i..i + |pattern|] + s[i + |pattern|..];
      }
    }
  }

  lemma {:induction false} InterleaveEmpty(s: string)
    ensures Interleave(s, "") == s
  {
    if s != [] {
      InterleaveEmpty(s[1..]);
      assert s == [s[0]] + s[1..];
    }
  }

  /** Wherever the pattern occurred, the replacement now occurs. */
  lemma ReplaceMarks(s: string, pattern: string, replacement: string)
    requires Occurs(pattern, s)
    ensures Occurs(replacement, ReplaceAll(s, pattern, replacement))
  {
    var r := ReplaceAll(s, pattern, replacement);
    if pattern == [] {
      if s == [] {
        assert r == replacement;
      } else {
        assert r == replacement + [s[0]] + Interleave(s[1..], replacement);
      }
      assert r[0..0 + |replacement|] == replacement;
      assert OccursAt(replacement, r, 0);
    } else {
      IndexFirst(s, pattern);
      var i := Index(s, pattern);
      var front := s[..i];
      assert r == front + replacement + ReplaceAll(s[i + |pattern|..], pattern, replacement);
      assert r[|front|..|front| + |replacement|] == replacement;
      assert OccursAt(replacement, r, |front|);
    }
  }

  /** strings.Index: the position of the first occurrence of a non-empty pattern, or -1. */
  function Index(s: string, pattern: string): (r: int)
    requires pattern != []
    ensures -1 <= r && (r >= 0 ==> r + |pattern| <= |s|)
    decreases |s|
  {
    if |s| < |pattern| then -1
    else if s[..|pattern|] == pattern then 0
    else
      var i := Index(s[1..], pattern);
      if i < 0 then -1 else i + 1
  }

  /** Index finds the first occurrence, and finds none exactly when there is none. */
  lemma {:induction false} IndexFirst(s: string, pattern: string)
    requires pattern != []
    ensures Index(s, pattern) >= 0 ==>
      && OccursAt(pattern, s, Index(s, pattern))
      && forall j :: 0 <= j < Index(s, pattern) ==> !OccursAt(pattern, s, j)
    ensures Index(s, pattern) < 0 <==> !Occurs(pattern, s)
    decreases |s|
  {
    if |s| < |pattern| {
      assert forall j :: 0 <= j <= |s| ==> !OccursAt(pattern, s, j);
    } else if s[..|pattern|] == pattern {
      assert s[0..|pattern|] == s[..|pattern|];
      assert OccursAt(pattern, s, 0);
    } else {
      var i := Index(s[1..], pattern);
      IndexFirst(s[1..], pattern);
      if i < 0 {
        AbsentAfterMiss(s, pattern);
      } else {
        assert s[1..][i..i + |pattern|] == s[i + 1..i + 1 + |pattern|];
        ShiftedMisses(s, pattern, i);
        assert OccursAt(pattern, s, i + 1);
      }
    }
  }

  /** No occurrence before `i + 1` in `s` when `s` does not start with the pattern and `s[1..]` has none before `i`. */
  lemma ShiftedMisses(s: string, pattern: string, i: nat)
    requires pattern != [] && |s| >= |pattern| && s[..|pattern|] != pattern
    requires forall j :: 0 <= j < i ==> !OccursAt(pattern, s[1..], j)
    ensures forall j :: 0 <= j < i + 1 ==> !OccursAt(pattern, s, j)
  {
    assert s[0..|pattern|] == s[..|pattern|];
    forall j | 1 <= j < i + 1
      ensures !OccursAt(pattern, s, j)
    {
      assert !OccursAt(pattern, s[1..], j - 1);
      if j + |pattern| <= |s| {
        assert s[1..][j - 1..j - 1 + |pattern|] == s[j..j + |pattern|];
      }
    }
  }

  /** No occurrence in `s` when `s` does not start with the pattern and `s[1..]` has none. */
  lemma AbsentAfterMiss(s: string, pattern: string)
    requires pattern != [] && |s| >= |pattern| && s[..|pattern|] != pattern
    requires !Occurs(pattern, s[1..])
    ensures !Occurs(pattern, s)
  {
    assert s[0..|pattern|] == s[..|pattern|];
    forall j | 1 <= j <= |s|
      ensures !OccursAt(pattern, s, j)
    {
      assert !OccursAt(pattern, s[1..], j - 1);
      if j + |pattern| <= |s| {
        assert s[1..][j - 1..j - 1 + |pattern|] == s[j..j + |pattern|];
      }
    }
  }

  /**
   * strings.Split(s, pattern) for a non-empty pattern: the text between
   * the leftmost non-overlapping occurrences, in order.
   */
  function Pieces(s: string, pattern: string): (ps: seq<string>)
    requires pattern != []
    ensures |ps| >= 1
    decreases |s|
  {
    var i := Index(s, pattern);
    if i < 0 then [s] else [s[..i]] + Pieces(s[i + |pattern|..], pattern)
  }

  /** strings.Join: the pieces with `sep` between consecutive ones. */
  function JoinWith(ps: seq<string>, sep: string): string
  {
    if ps == [] then ""
    else if |ps| == 1 then ps[0]
    else ps[0] + sep + JoinWith(ps[1..], sep)
  }

  lemma PiecesCons(first: string, ps: seq<string>, sep: string)
    requires |ps| >= 1
    ensures JoinWith([first] + ps, sep) == first + sep + JoinWith(ps, sep)
  {
    assert ([first] + ps)[1..] == ps;
  }

  /** Joining the pieces with the pattern itself gives the text back. */
  lemma PiecesJoin(s: string, pattern: string)
    requires pattern != []
    ensures JoinWith(Pieces(s, pattern), pattern) == s
  {
    ReplaceByPieces(s, pattern, pattern);
    ReplaceBySelf(s, pattern);
  }

  /** No piece contains the pattern. */
  lemma {:induction false} PiecesFree(s: string, pattern: string)
    requires pattern != []
    ensures forall k :: 0 <= k < |Pieces(s, pattern)| ==> !Occurs(pattern, Pieces(s, pattern)[k])
    decreases |s|
  {
    var i := Index(s, pattern);
    IndexFirst(s, pattern);
    if i >= 0 {
      var rest := s[i + |pattern|..];
      PiecesFree(rest, pattern);
      PrefixFree(s, pattern, i);
      var ps := Pieces(s, pattern);
      assert ps == [s[..i]] + Pieces(rest, pattern);
      forall k | 0 <= k < |ps|
        ensures !Occurs(pattern, ps[k])
      {
        if k > 0 {
          assert ps[k] == Pieces(rest, pattern)[k - 1];
        }
      }
    }
  }

  /** The text before the first occurrence holds no occurrence. */
  lemma PrefixFree(s: string, pattern: string, i: nat)
    requires pattern != [] && i <= |s| && forall j :: 0 <= j < i ==> !OccursAt(pattern, s, j)
    ensures !Occurs(pattern, s[..i])
  {
    forall j | 0 <= j <= i
      ensures !OccursAt(pattern, s[..i], j)
    {
      if j + |pattern| <= i {
        assert !OccursAt(pattern, s, j);
        assert s[..i][j..j + |pattern|] == s[j..j + |pattern|];
      }
    }
  }

  /**
   * strings.Replace(s, pattern, r, -1) is strings.Join(strings.Split(s, pattern), r):
   * each leftmost non-overlapping occurrence, and nothing else, becomes the replacement.
   */
  lemma {:induction false} ReplaceByPieces(s: string, pattern: string, replacement: string)
    requires pattern != []
    ensures ReplaceAll(s, pattern, replacement) == JoinWith(Pieces(s, pattern), replacement)
    decreases |s|
  {
    var i := Index(s, pattern);
    if i < 0 {
      assert Pieces(s, pattern) == [s];
    } else {
      var rest := s[i + |pattern|..];
      var ps := Pieces(rest, pattern);
      assert Pieces(s, pattern) == [s[..i]] + ps;
      assert ReplaceAll(s, pattern, replacement) == s[..i] + replacement + ReplaceAll(rest, pattern, replacement);
      ReplaceByPieces(rest, pattern, replacement);
      PiecesCons(s[..i], ps, replacement);
    }
  }

  /**
   * Only leftmost non-overlapping occurrences are replaced: in "aaa" the
   * occurrence of "aa" at index 1 overlaps the one at 0 and is kept.
   */
  lemma OverlapLeftmost()
    ensures ReplaceAll("aaa", "aa", "X") == "Xa"
    ensures OccursAt("aa", "aaa", 1)
  {
    assert "aaa"[..2] == "aa";
    assert Index("aaa", "aa") == 0;
    assert "aaa"[2..] == "a";
    assert Index("a", "aa") == -1;
    assert "aaa"[1..3] == "aa";
  }
}
