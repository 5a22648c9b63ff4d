/** The string operations the model registry relies on: splitting a path at
    a separator as Swift's `split(separator:)` does with its default
    arguments, taking the last piece, and substring containment. */
module Strings {
  import opened Wrappers

  /** The pieces of `s` between occurrences of `sep`, in order. Empty pieces
      are dropped (Swift's `omittingEmptySubsequences: true`), so a leading,
      trailing or doubled separator yields no piece. */
  function Split(s: string, sep: char): (pieces: seq<string>)
    ensures forall k :: 0 <= k < |pieces| ==> pieces[k] != [] && sep !in pieces[k]
  {
    SplitFrom(s, sep, [])
  }

  /** Splits `s` when `cur` holds the characters of the piece read so far. */
  function SplitFrom(s: string, sep: char, cur: string): (pieces: seq<string>)
    requires sep !in cur
    ensures forall k :: 0 <= k < |pieces| ==> pieces[k] != [] && sep !in pieces[k]
    decreases |s|
  {
    if s == [] then
      (if cur == [] then [] else [cur])
    else if s[0] == sep then
      (if cur == [] then [] else [cur]) + SplitFrom(s[1..], sep, [])
    else
      SplitFrom(s[1..], sep, cur + [s[0]])
  }

  /** A separator in the middle splits the string into the pieces before it
      followed by the pieces after it. */
  lemma {:induction false} SplitAround(a: string, b: string, sep: char, cur: string)
    requires sep !in cur
    ensures SplitFrom(a + [sep] + b, sep, cur) == SplitFrom(a, sep, cur) + SplitFrom(b, sep, [])
    decreases |a|
  {
    if a == [] {
      assert a + [sep] + b == [sep] + b;
      assert ([sep] + b)[1..] == b;
    } else {
      assert (a + [sep] + b)[0] == a[0];
      assert (a + [sep] + b)[1..] == a[1..] + [sep] + b;
      if a[0] == sep {
        SplitAround(a[1..], b, sep, []);
      } else {
        SplitAround(a[1..], b, sep, cur + [a[0]]);
      }
    }
  }

  /** A non-empty string without the separator is a single piece. */
  lemma {:induction false} SplitSingle(s: string, sep: char, cur: string)
    requires sep !in s && sep !in cur && cur + s != []
    ensures SplitFrom(s, sep, cur) == [cur + s]
    decreases |s|
  {
    if s == [] {
      assert cur + s == cur;
    } else {
      assert cur + s == (cur + [s[0]]) + s[1..];
      SplitSingle(s[1..], sep, cur + [s[0]]);
    }
  }

  /** There are no pieces exactly when the string holds nothing but separators. */
  lemma {:induction false} SplitEmpty(s: string, sep: char, cur: string)
    requires sep !in cur
    ensures SplitFrom(s, sep, cur) == [] <==> cur == [] && forall i :: 0 <= i < |s| ==> s[i] == sep
    decreases |s|
  {
    if s != [] {
      if s[0] == sep {
        SplitEmpty(s[1..], sep, []);
        if cur == [] && SplitFrom(s[1..], sep, []) == [] {
          forall i | 0 <= i < |s| ensures s[i] == sep {
            if i > 0 { assert s[i] == s[1..][i - 1]; }
          }
        }
        if cur == [] && forall i :: 0 <= i < |s| ==> s[i] == sep {
          forall i | 0 <= i < |s[1..]| ensures s[1..][i] == sep {
            assert s[1..][i] == s[i + 1];
          }
        }
      } else {
        SplitEmpty(s[1..], sep, cur + [s[0]]);
      }
    }
  }

  /** `piece` sits at position `k` of `s`, at the start or right after a
      separator, and nothing but separators follows it. */
  predicate FinalPieceAt(s: string, piece: string, sep: char, k: nat)
  {
    k + |piece| <= |s| && s[k..k + |piece|] == piece
    && (k == 0 || s[k - 1] == sep)
    && forall i :: k + |piece| <= i < |s| ==> s[i] == sep
  }

  /** `piece` is the final run of non-separators in `s`. */
  ghost predicate EndsWithPiece(s: string, piece: string, sep: char)
  {
    exists k: nat :: FinalPieceAt(s, piece, sep, k)
  }

  /** A final piece of the tail stays final once a separator and any prefix
      are put in front. */
  lemma FinalPieceShift(cur: string, s: string, piece: string, sep: char, k: nat)
    requires s != [] && s[0] == sep && FinalPieceAt(s[1..], piece, sep, k)
    ensures FinalPieceAt(cur + s, piece, sep, |cur| + 1 + k)
  {
    var t := cur + s;
    var n := |cur| + 1 + k;
    assert t[n..n + |piece|] == s[1..][k..k + |piece|];
    if k == 0 { assert t[n - 1] == s[0]; } else { assert t[n - 1] == s[1..][k - 1]; }
    forall i | n + |piece| <= i < |t| ensures t[i] == sep {
      assert t[i] == s[1..][i - |cur| - 1];
    }
  }

  /** A non-empty prefix followed only by separators is the final piece. */
  lemma FinalPieceFirst(cur: string, s: string, sep: char)
    requires forall i :: 0 <= i < |s| ==> s[i] == sep
    ensures FinalPieceAt(cur + s, cur, sep, 0)
  {
    var t := cur + s;
    assert t[..|cur|] == cur;
    forall i | |cur| <= i < |t| ensures t[i] == sep {
      assert t[i] == s[i - |cur|];
    }
  }

  /** The last piece of a split is the final run of non-separators of the
      string (`cur` counts as the string's first characters). */
  lemma {:induction false} SplitLast(s: string, sep: char, cur: string)
    requires sep !in cur
    ensures SplitFrom(s, sep, cur) != [] ==>
      EndsWithPiece(cur + s, SplitFrom(s, sep, cur)[|SplitFrom(s, sep, cur)| - 1], sep)
    decreases |s|
  {
    var pieces := SplitFrom(s, sep, cur);
    if pieces == [] { return; }
    var last := pieces[|pieces| - 1];
    if s == [] {
      FinalPieceFirst(cur, s, sep);
    } else if s[0] == sep {
      var rest := SplitFrom(s[1..], sep, []);
      if rest != [] {
        SplitLast(s[1..], sep, []);
        assert [] + s[1..] == s[1..];
        var k: nat :| FinalPieceAt(s[1..], rest[|rest| - 1], sep, k);
        assert last == rest[|rest| - 1];
        FinalPieceShift(cur, s, last, sep, k);
      } else {
        SplitEmpty(s[1..], sep, []);
        assert last == cur;
        FinalPieceFirst(cur, s, sep);
      }
    } else {
      assert (cur + [s[0]]) + s[1..] == cur + s;
      SplitLast(s[1..], sep, cur + [s[0]]);
    }
  }

  /** The last non-empty `/`-separated segment of a path: Swift's
      `path.split(separator: "/").last`, None when the path holds nothing
      but slashes. */
  function LastSegment(path: string): (seg: Option<string>)
    ensures seg.Some? ==> seg.value != [] && '/' !in seg.value
    ensures seg.None? <==> forall i :: 0 <= i < |path| ==> path[i] == '/'
    ensures seg.Some? ==> EndsWithPiece(path, seg.value, '/')
  {
    SplitEmpty(path, '/', []);
    SplitLast(path, '/', []);
    assert [] + path == path;
    var pieces := Split(path, '/');
    if pieces == [] then None else Some(pieces[|pieces| - 1])
  }

  /** A file name appended to a directory is the path's last segment, whatever
      the directory looks like. */
  lemma LastSegmentOfChild(dir: string, name: string)
    requires name != [] && '/' !in name
    ensures LastSegment(dir + "/" + name) == Some(name)
  {
    SplitAround(dir, name, '/', []);
    SplitSingle(name, '/', []);
    assert [] + name == name;
  }

  /** `sub` occurs in `s` starting at position `i`. */
  predicate SliceAt(s: string, sub: string, i: nat)
  {
    i + |sub| <= |s| && s[i..i + |sub|] == sub
  }

  /** `s` contains `sub`: Swift's `String.contains(_:)` on a non-empty `sub`.
      (The empty `sub` is contained in every string; callers never pass it.) */
  predicate Contains(s: string, sub: string): (c: bool)
    ensures c <==> exists i: nat :: SliceAt(s, sub, i)
  {
    PrefixOfSuffix(s, sub);
    exists i | 0 <= i <= |s| :: sub <= s[i..]
  }

  /** `sub` starts the suffix at `i` exactly when it is the slice of its
      length at `i`. */
  lemma PrefixOfSuffix(s: string, sub: string)
    ensures forall i: nat :: i <= |s| ==> (sub <= s[i..] <==> SliceAt(s, sub, i))
    ensures forall i: nat :: SliceAt(s, sub, i) ==> i <= |s|
  {
    forall i: nat | i <= |s|
      ensures sub <= s[i..] <==> SliceAt(s, sub, i)
    {
      if i + |sub| <= |s| {
        assert s[i..][..|sub|] == s[i..i + |sub|];
      }
    }
  }

  /** Every slice of a string is contained in it. */
  lemma ContainsSlice(s: string, i: nat, j: nat)
    requires i <= j <= |s|
    ensures Contains(s, s[i..j])
  {
    assert s[i..j] <= s[i..];
  }
}
