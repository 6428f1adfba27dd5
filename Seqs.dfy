/** Sequence helpers shared by the codecs and the record splitter: Python's
    `str.split(sep)`, its inverse `sep.join(parts)`, and prefix slicing. */
module Seqs {

  /** `sep.join(parts)` */
  function Join<T>(parts: seq<seq<T>>, sep: seq<T>): seq<T>
  {
    if |parts| == 0 then []
    else if |parts| == 1 then parts[0]
    else parts[0] + sep + Join(parts[1..], sep)
  }

  /** `s.split(sep)` for a non-empty separator: the pieces between the
      left-most non-overlapping occurrences of `sep`, empty pieces included. */
  function SplitOn<T(==)>(s: seq<T>, sep: seq<T>): (parts: seq<seq<T>>)
    requires |sep| > 0
    ensures |parts| >= 1
    ensures Join(parts, sep) == s
    ensures |sep| == 1 ==>
      forall i, j :: 0 <= i < |parts| && 0 <= j < |parts[i]| ==> parts[i][j] != sep[0]
    decreases |s|
  {
    if |s| < |sep| then
      assert |sep| == 1 ==> s == [];
      [s]
    else if s[..|sep|] == sep then
      var rest := SplitOn(s[|sep|..], sep);
      assert ([[]] + rest)[1..] == rest;
      assert s == sep + s[|sep|..];
      [[]] + rest
    else
      var rest := SplitOn(s[1..], sep);
      var parts := [[s[0]] + rest[0]] + rest[1..];
      assert parts[1..] == rest[1..];
      assert s == [s[0]] + s[1..];
      assert |sep| == 1 ==> s[0] != sep[0] by {
        if |sep| == 1 { assert s[..1] == [s[0]]; }
      }
      assert |sep| == 1 ==>
        forall i, j :: 0 <= i < |parts| && 0 <= j < |parts[i]| ==> parts[i][j] != sep[0] by {
        if |sep| == 1 {
          forall i, j | 0 <= i < |parts| && 0 <= j < |parts[i]| ensures parts[i][j] != sep[0] {
            if i == 0 {
              if j > 0 { assert parts[0][j] == rest[0][j - 1]; }
            } else {
              assert parts[i] == rest[i];
            }
          }
        }
      }
      parts
  }

  /** `sep` occurs in `s` at offset `k`. */
  predicate MatchAt<T(==)>(s: seq<T>, sep: seq<T>, k: nat)
  {
    k + |sep| <= |s| && s[k..k + |sep|] == sep
  }

  /** Piece `i` followed by the separator after it, if there is one: the
      stretch of the joined text where an occurrence starting in the piece
      would have to lie. */
  function Seam<T>(parts: seq<seq<T>>, sep: seq<T>, i: nat): seq<T>
    requires i < |parts|
  {
    if i + 1 < |parts| then parts[i] + sep else parts[i]
  }

  lemma SeamPrefix<T>(parts: seq<seq<T>>, sep: seq<T>)
    requires |parts| >= 1
    ensures Seam(parts, sep, 0) <= Join(parts, sep)
  {
  }

  /** No occurrence of `sep` starts inside a piece of the joined text. */
  ghost predicate CutsLeftmost<T>(parts: seq<seq<T>>, sep: seq<T>)
  {
    forall i: nat, k: nat :: i < |parts| && k < |parts[i]| ==> !MatchAt(Seam(parts, sep, i), sep, k)
  }

  /** No piece holds `sep`. */
  ghost predicate PiecesFree<T>(parts: seq<seq<T>>, sep: seq<T>)
  {
    forall i: nat, k: nat :: i < |parts| ==> !MatchAt(parts[i], sep, k)
  }

  /** `str.split` cuts at the left-most non-overlapping occurrences: no
      occurrence of the separator starts inside a piece, so no piece holds
      the separator and every cut is at the first occurrence after the
      previous one. */
  lemma {:induction false} SplitOnLeftmost<T>(s: seq<T>, sep: seq<T>)
    requires |sep| > 0
    ensures CutsLeftmost(SplitOn(s, sep), sep)
    ensures PiecesFree(SplitOn(s, sep), sep)
    decreases |s|
  {
    var parts := SplitOn(s, sep);
    if |s| < |sep| {
    } else if s[..|sep|] == sep {
      var rest := SplitOn(s[|sep|..], sep);
      SplitOnLeftmost(s[|sep|..], sep);
      assert parts == [[]] + rest;
      forall i: nat, k: nat | i < |parts| && k < |parts[i]|
        ensures !MatchAt(Seam(parts, sep, i), sep, k)
      {
        assert i > 0;
        assert parts[i] == rest[i - 1];
        assert Seam(parts, sep, i) == Seam(rest, sep, i - 1);
        assert !MatchAt(Seam(rest, sep, i - 1), sep, k);
      }
    } else {
      var rest := SplitOn(s[1..], sep);
      SplitOnLeftmost(s[1..], sep);
      assert parts == [[s[0]] + rest[0]] + rest[1..];
      forall i: nat, k: nat | i < |parts| && k < |parts[i]|
        ensures !MatchAt(Seam(parts, sep, i), sep, k)
      {
        if i == 0 {
          var seam := Seam(parts, sep, 0);
          assert seam == [s[0]] + Seam(rest, sep, 0);
          if k == 0 {
            SeamPrefix(parts, sep);
          } else {
            if MatchAt(seam, sep, k) {
              assert seam[k..k + |sep|] == Seam(rest, sep, 0)[k - 1..k - 1 + |sep|];
              assert MatchAt(Seam(rest, sep, 0), sep, k - 1);
            }
          }
        } else {
          assert parts[i] == rest[i];
          assert Seam(parts, sep, i) == Seam(rest, sep, i);
          assert !MatchAt(Seam(rest, sep, i), sep, k);
        }
      }
    }
    forall i: nat, k: nat | i < |parts| ensures !MatchAt(parts[i], sep, k) {
      if MatchAt(parts[i], sep, k) {
        assert parts[i] <= Seam(parts, sep, i);
        assert Seam(parts, sep, i)[k..k + |sep|] == parts[i][k..k + |sep|];
        assert MatchAt(Seam(parts, sep, i), sep, k);
      }
    }
  }

  /** Concatenation is associative. */
  lemma AppendAssoc<T>(a: seq<T>, b: seq<T>, c: seq<T>)
    ensures a + (b + c) == (a + b) + c
  {
  }

  lemma {:induction false} JoinSnoc<T>(parts: seq<seq<T>>, p: seq<T>, sep: seq<T>)
    requires |parts| >= 1
    ensures Join(parts + [p], sep) == Join(parts, sep) + sep + p
    decreases |parts|
  {
    if |parts| == 1 {
      assert (parts + [p])[1..] == [p];
    } else {
      assert (parts + [p])[1..] == parts[1..] + [p];
      JoinSnoc(parts[1..], p, sep);
    }
  }

  /** `s[:n]` for a non-negative `n` */
  function Take<T>(s: seq<T>, n: nat): (r: seq<T>)
    ensures |r| == if n < |s| then n else |s|
    ensures r <= s
  {
    if n < |s| then s[..n] else s
  }

  /** `b''.join(chunks)` */
  function Concat<T>(chunks: seq<seq<T>>): seq<T>
  {
    if chunks == [] then [] else chunks[0] + Concat(chunks[1..])
  }

  lemma {:induction false} ConcatSnoc<T>(chunks: seq<seq<T>>, c: seq<T>)
    ensures Concat(chunks + [c]) == Concat(chunks) + c
    decreases |chunks|
  {
    if chunks == [] {
      assert [c][1..] == [];
    } else {
      assert (chunks + [c])[1..] == chunks[1..] + [c];
      ConcatSnoc(chunks[1..], c);
    }
  }
  /** Splitting on a single element undoes joining pieces that do not hold it. */
  lemma {:induction false} SplitOnJoin<T>(parts: seq<seq<T>>, c: T)
    requires |parts| >= 1
    requires forall i, j :: 0 <= i < |parts| && 0 <= j < |parts[i]| ==> parts[i][j] != c
    ensures SplitOn(Join(parts, [c]), [c]) == parts
    decreases |parts|
  {
    if |parts| == 1 {
      SplitOnFree(parts[0], c);
    } else {
      var rest := parts[1..];
      assert forall i, j :: 0 <= i < |rest| && 0 <= j < |rest[i]| ==> rest[i][j] != c by {
        forall i, j | 0 <= i < |rest| && 0 <= j < |rest[i]| ensures rest[i][j] != c {
          assert rest[i] == parts[i + 1];
        }
      }
      SplitOnJoin(rest, c);
      SplitOnPiece(parts[0], c, Join(rest, [c]));
      assert [parts[0]] + rest == parts;
    }
  }

  lemma {:induction false} SplitOnFree<T>(p: seq<T>, c: T)
    requires forall j :: 0 <= j < |p| ==> p[j] != c
    ensures SplitOn(p, [c]) == [p]
    decreases |p|
  {
    if p != [] {
      assert p[..1] == [p[0]];
      SplitOnFree(p[1..], c);
      assert [p[0]] + p[1..] == p;
    }
  }

  lemma {:induction false} SplitOnPiece<T>(p: seq<T>, c: T, x: seq<T>)
    requires forall j :: 0 <= j < |p| ==> p[j] != c
    ensures SplitOn(p + [c] + x, [c]) == [p] + SplitOn(x, [c])
    decreases |p|
  {
    var s := p + [c] + x;
    if p == [] {
      assert s[..1] == [c];
      assert s[1..] == x;
    } else {
      assert s[..1] == [p[0]];
      assert s[1..] == p[1..] + [c] + x;
      SplitOnPiece(p[1..], c, x);
      assert [p[0]] + p[1..] == p;
    }
  }
}
