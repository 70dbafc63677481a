/**
 * Dotted key paths: how flattenJSON joins a prefix and a member key, and
 * strings.Split / strings.Join with the separator ".".
 */
module DottedPath {
  import TextReplace

  /** The path of member `key` below `prefix`; the empty prefix means the root. */
  function JoinKey(prefix: string, key: string): string
  {
    if prefix == "" then key else prefix + "." + key
  }

  predicate DotFree(s: string)
  {
    forall i :: 0 <= i < |s| ==> s[i] != '.'
  }

  /** strings.Split(s, "."): always at least one segment, none holding a dot. */
  function Split(s: string): (parts: seq<string>)
    ensures |parts| >= 1
    ensures forall i :: 0 <= i < |parts| ==> DotFree(parts[i])
  {
    if s == [] then [""]
    else
      var rest := Split(s[1..]);
      if s[0] == '.' then [""] + rest
      else [[s[0]] + rest[0]] + rest[1..]
  }

  /** strings.Join(parts, "."). */
  function Join(parts: seq<string>): string
    requires |parts| >= 1
  {
    if |parts| == 1 then parts[0] else parts[0] + "." + Join(parts[1..])
  }

  /** Joining the segments of a split gives back the original text. */
  lemma {:induction false} JoinSplit(s: string)
    ensures Join(Split(s)) == s
  {
    if s != [] {
      var rest := Split(s[1..]);
      JoinSplit(s[1..]);
      if s[0] == '.' {
        assert Split(s) == [""] + rest;
        assert Join(Split(s)) == "" + "." + Join(rest);
      } else {
        var parts := Split(s);
        assert parts == [[s[0]] + rest[0]] + rest[1..];
        if |rest| == 1 {
          assert Join(parts) == [s[0]] + rest[0];
        } else {
          assert parts[1..] == rest[1..];
          assert Join(rest) == rest[0] + "." + Join(rest[1..]);
        }
        assert s == [s[0]] + s[1..];
      }
    }
  }

  /** A dot-free segment splits to itself. */
  lemma {:induction false} SplitDotFree(k: string)
    requires DotFree(k)
    ensures Split(k) == [k]
  {
    if k != [] {
      SplitDotFree(k[1..]);
      assert k == [k[0]] + k[1..];
    }
  }

  /** Splitting `k.x` for a dot-free `k` peels off `k` as the first segment. */
  lemma {:induction false} SplitCons(k: string, x: string)
    requires DotFree(k)
    ensures Split(k + "." + x) == [k] + Split(x)
  {
    if k == [] {
      assert ("" + "." + x)[1..] == x;
    } else {
      SplitCons(k[1..], x);
      var s := k + "." + x;
      assert s[0] == k[0] && s[0] != '.';
      assert s[1..] == k[1..] + "." + x;
      var rest := Split(s[1..]);
      assert rest == [k[1..]] + Split(x);
      assert Split(s) == [[k[0]] + rest[0]] + rest[1..];
      assert [k[0]] + k[1..] == k;
    }
  }

  /** Splitting the join of dot-free segments gives back the segments. */
  lemma {:induction false} SplitJoin(parts: seq<string>)
    requires |parts| >= 1
    requires forall i :: 0 <= i < |parts| ==> DotFree(parts[i])
    ensures Split(Join(parts)) == parts
  {
    if |parts| == 1 {
      SplitDotFree(parts[0]);
    } else {
      SplitJoin(parts[1..]);
      SplitCons(parts[0], Join(parts[1..]));
      assert parts == [parts[0]] + parts[1..];
    }
  }

  /** A key path written as one dotted path; the empty path is the root "". */
  function Dotted(path: seq<string>): string
  {
    if path == [] then "" else Join(path)
  }

  /** Extending a non-empty path by a segment appends "." and the segment. */
  lemma {:induction false} JoinSnoc(path: seq<string>, key: string)
    requires |path| >= 1
    ensures Join(path + [key]) == Join(path) + "." + key
    decreases |path|
  {
    if |path| > 1 {
      JoinSnoc(path[1..], key);
      assert (path + [key])[1..] == path[1..] + [key];
    }
  }

  /**
   * The path of member `key` below a key path of non-empty segments is
   * that path extended by `key`.
   */
  lemma DottedSnoc(path: seq<string>, key: string)
    requires forall i :: 0 <= i < |path| ==> path[i] != ""
    ensures Dotted(path + [key]) == JoinKey(Dotted(path), key)
  {
    if path != [] {
      JoinSnoc(path, key);
      assert Join(path) != "" by {
        if |path| > 1 {
          assert Join(path) == path[0] + "." + Join(path[1..]);
        }
      }
    }
  }

  /** Join is strings.Join with "." as TextReplace models it for any separator. */
  lemma {:induction false} JoinIsJoinWith(parts: seq<string>)
    requires |parts| >= 1
    ensures Join(parts) == TextReplace.JoinWith(parts, ".")
  {
    if |parts| > 1 {
      JoinIsJoinWith(parts[1..]);
    }
  }

  /** A text in which "." does not occur has no dot. */
  lemma NoDotOccurs(s: string)
    requires !TextReplace.Occurs(".", s)
    ensures DotFree(s)
  {
    forall i | 0 <= i < |s|
      ensures s[i] != '.'
    {
      assert !TextReplace.OccursAt(".", s, i);
      assert s[i..i + 1] == [s[i]];
    }
  }

  /**
   * Split is strings.Split with "." as TextReplace models it for any
   * non-empty separator: both readings of main.go:153 and main.go:420 are
   * one function.
   */
  lemma SplitIsPieces(s: string)
    ensures Split(s) == TextReplace.Pieces(s, ".")
  {
    var ps := TextReplace.Pieces(s, ".");
    TextReplace.PiecesJoin(s, ".");
    TextReplace.PiecesFree(s, ".");
    forall i | 0 <= i < |ps|
      ensures DotFree(ps[i])
    {
      NoDotOccurs(ps[i]);
    }
    JoinIsJoinWith(ps);
    SplitJoin(ps);
  }
}
