/**
 * The few java.lang.String operations the request utilities rely on, with Java's own
 * semantics: `split` on a one-character literal separator with limit 0, `lastIndexOf`,
 * `startsWith`, `endsWith`, and the separator join of wicket's `Strings.join`.
 */
module JavaStrings {

  function Last<T>(s: seq<T>): T
    requires |s| > 0
  {
    s[|s| - 1]
  }

  /** `s.startsWith(prefix)` */
  predicate StartsWith(s: string, prefix: string) {
    |prefix| <= |s| && s[..|prefix|] == prefix
  }

  /** `s.endsWith(c)` for a one-character suffix */
  predicate EndsWith(s: string, c: char) {
    |s| > 0 && Last(s) == c
  }

  /** `s.lastIndexOf(c)`: the position of the last `c`, or -1 when there is none. */
  function LastIndexOf(s: string, c: char): (r: int)
    ensures -1 <= r < |s|
    ensures 0 <= r ==> s[r] == c
    ensures forall k :: r < k < |s| ==> s[k] != c
  {
    if |s| == 0 then -1
    else if Last(s) == c then |s| - 1
    else LastIndexOf(s[..|s| - 1], c)
  }

  /** Every piece of `s` between separators, empty pieces included: one more piece than separators. */
  function Pieces(s: string, sep: char): (r: seq<string>)
    ensures |r| >= 1
    ensures forall i :: 0 <= i < |r| ==> sep !in r[i]
  {
    if |s| == 0 then [[]]
    else
      var p := Pieces(s[..|s| - 1], sep);
      if Last(s) == sep then p + [[]]
      else p[..|p| - 1] + [Last(p) + [Last(s)]]
  }

  /** Drops the run of empty strings at the end of `parts`. */
  function DropTrailingEmpty(parts: seq<string>): (r: seq<string>)
    ensures |r| <= |parts| && r == parts[..|r|]
    ensures |r| > 0 ==> Last(r) != []
    ensures forall k :: |r| <= k < |parts| ==> parts[k] == []
  {
    if |parts| == 0 || Last(parts) != [] then parts
    else DropTrailingEmpty(parts[..|parts| - 1])
  }

  /**
   * `s.split(sep)` with limit 0: a string without the separator is returned whole (so the
   * empty string gives one empty piece); otherwise the pieces, less the trailing empty ones.
   */
  function Split(s: string, sep: char): seq<string> {
    if sep !in s then [s] else DropTrailingEmpty(Pieces(s, sep))
  }

  /** No piece of a split holds the separator. */
  lemma SplitSeparatorFree(s: string, sep: char)
    ensures forall i :: 0 <= i < |Split(s, sep)| ==> sep !in Split(s, sep)[i]
  {
    if sep in s {
      var p := Pieces(s, sep);
      assert forall i :: 0 <= i < |Split(s, sep)| ==> Split(s, sep)[i] == p[i];
    }
  }

  /** `Strings.join(sep, parts)`: the parts with one separator between neighbours. */
  function Join(parts: seq<string>, sep: char): string {
    if |parts| == 0 then []
    else if |parts| == 1 then parts[0]
    else parts[0] + [sep] + Join(parts[1..], sep)
  }

  /** Joining one more part adds one separator and that part. */
  lemma {:induction false} JoinSnoc(parts: seq<string>, x: string, sep: char)
    requires |parts| > 0
    ensures Join(parts + [x], sep) == Join(parts, sep) + [sep] + x
  {
    if |parts| > 1 {
      assert (parts + [x])[1..] == parts[1..] + [x];
      JoinSnoc(parts[1..], x, sep);
    }
  }

  /** `s` without its run of trailing `c` characters. */
  function StripTrailing(s: string, c: char): (r: string)
    ensures |r| <= |s| && r == s[..|r|] && !EndsWith(r, c)
    ensures forall k :: |r| <= k < |s| ==> s[k] == c
  {
    if EndsWith(s, c) then StripTrailing(s[..|s| - 1], c) else s
  }

  lemma {:induction false} PiecesWithoutSeparator(s: string, sep: char)
    requires sep !in s
    ensures Pieces(s, sep) == [s]
  {
    if |s| > 0 {
      assert sep !in s[..|s| - 1];
      PiecesWithoutSeparator(s[..|s| - 1], sep);
      assert s[..|s| - 1] + [Last(s)] == s;
    }
  }

  lemma {:induction false} JoinExtendLast(parts: seq<string>, sep: char, t: string)
    requires |parts| > 0
    ensures Join(parts[..|parts| - 1] + [Last(parts) + t], sep) == Join(parts, sep) + t
  {
    var init := parts[..|parts| - 1];
    if |parts| > 1 {
      JoinSnoc(init, Last(parts) + t, sep);
      JoinSnoc(init, Last(parts), sep);
      assert init + [Last(parts)] == parts;
    }
  }

  /** Joining the pieces gives the string back. */
  lemma {:induction false} JoinPieces(s: string, sep: char)
    ensures Join(Pieces(s, sep), sep) == s
  {
    if |s| > 0 {
      var s' := s[..|s| - 1];
      var p := Pieces(s', sep);
      JoinPieces(s', sep);
      assert s' + [Last(s)] == s;
      if Last(s) == sep {
        JoinSnoc(p, [], sep);
      } else {
        JoinExtendLast(p, sep, [Last(s)]);
      }
    }
  }

  /** The last piece of a string that does not end with the separator is not empty. */
  lemma LastPieceNonEmpty(s: string, sep: char)
    requires |s| > 0 && Last(s) != sep
    ensures Last(Pieces(s, sep)) != []
  {
  }

  /** Joining the split pieces gives the string back, less its trailing separators. */
  lemma {:induction false} JoinSplit(s: string, sep: char)
    ensures Join(Split(s, sep), sep) == StripTrailing(s, sep)
  {
    if sep !in s {
      if |s| > 0 {
        assert Last(s) in s;
      }
    } else if Last(s) != sep {
      LastPieceNonEmpty(s, sep);
      JoinPieces(s, sep);
    } else {
      var s' := s[..|s| - 1];
      assert (Pieces(s', sep) + [[]])[..|Pieces(s', sep)|] == Pieces(s', sep);
      assert DropTrailingEmpty(Pieces(s, sep)) == DropTrailingEmpty(Pieces(s', sep));
      if sep in s' {
        JoinSplit(s', sep);
      } else {
        PiecesWithoutSeparator(s', sep);
        if |s'| > 0 {
          assert Last(s') in s';
        }
      }
    }
  }

  /** `(k + sep + v).split(sep)` with two separator-free parts and a non-empty tail is `[k, v]`. */
  lemma SplitPair(k: string, v: string, sep: char)
    requires sep !in k && sep !in v && v != []
    ensures Split(k + [sep] + v, sep) == [k, v]
  {
    PiecesWithoutSeparator(k, sep);
    PiecesWithoutSeparator(v, sep);
    PiecesConcat(k, v, sep);
    assert Pieces(k + [sep] + v, sep) == [k, v];
    assert sep in k + [sep] + v by { assert (k + [sep] + v)[|k|] == sep; }
  }

  /** Only strings made of separators alone split into no pieces at all. */
  lemma {:induction false} SplitEmpty(s: string, sep: char)
    ensures Split(s, sep) == [] <==> |s| > 0 && forall i :: 0 <= i < |s| ==> s[i] == sep
  {
    JoinSplit(s, sep);
    var r := Split(s, sep);
    if |s| > 0 && forall i :: 0 <= i < |s| ==> s[i] == sep {
      assert sep in s by { assert s[0] == sep; }
      if r != [] {
        JoinNonEmpty(r, sep);
      }
    }
  }

  /** The join of parts ending with a non-empty part is not empty. */
  lemma JoinNonEmpty(parts: seq<string>, sep: char)
    requires |parts| > 0 && Last(parts) != []
    ensures Join(parts, sep) != []
  {
  }

  /** One more character either starts a new piece (a separator) or extends the last one. */
  lemma PiecesSnoc(s: string, c: char, sep: char)
    ensures var p := Pieces(s, sep);
      Pieces(s + [c], sep) == if c == sep then p + [[]] else p[..|p| - 1] + [Last(p) + [c]]
  {
    assert (s + [c])[..|s|] == s;
  }

  /** A separator between `a` and `b` splits their pieces apart. */
  lemma {:induction false} PiecesConcat(a: string, b: string, sep: char)
    ensures Pieces(a + [sep] + b, sep) == Pieces(a, sep) + Pieces(b, sep)
  {
    if |b| == 0 {
      assert a + [sep] + b == a + [sep];
      PiecesSnoc(a, sep, sep);
    } else {
      var b', c := b[..|b| - 1], Last(b);
      var front := a + [sep] + b';
      assert b == b' + [c];
      assert a + [sep] + b == front + [c];
      PiecesConcat(a, b', sep);
      PiecesSnoc(front, c, sep);
      PiecesSnoc(b', c, sep);
      ExtendConcat(Pieces(a, sep), Pieces(b', sep), c, c == sep);
    }
  }

  /** Starting or extending the last piece of `pa + pb` does the same to `pb`. */
  lemma ExtendConcat(pa: seq<string>, pb: seq<string>, c: char, starts: bool)
    requires |pb| > 0
    ensures var p := pa + pb;
      (if starts then p + [[]] else p[..|p| - 1] + [Last(p) + [c]]) ==
      pa + (if starts then pb + [[]] else pb[..|pb| - 1] + [Last(pb) + [c]])
  {
    var p := pa + pb;
    if !starts {
      assert p[..|p| - 1] == pa + pb[..|pb| - 1];
    }
  }

  /** Splitting a join of separator-free parts recovers the parts. */
  lemma {:induction false} PiecesJoin(parts: seq<string>, sep: char)
    requires |parts| > 0
    requires forall i :: 0 <= i < |parts| ==> sep !in parts[i]
    ensures Pieces(Join(parts, sep), sep) == parts
  {
    PiecesWithoutSeparator(parts[0], sep);
    if |parts| > 1 {
      PiecesJoin(parts[1..], sep);
      PiecesConcat(parts[0], Join(parts[1..], sep), sep);
      assert [parts[0]] + parts[1..] == parts;
    }
  }

  /**
   * `String.split` inverts the join of separator-free parts, provided the join holds a
   * separator and its last part is not empty (trailing empty parts would be dropped).
   */
  lemma SplitJoin(parts: seq<string>, sep: char)
    requires |parts| > 1 && Last(parts) != []
    requires forall i :: 0 <= i < |parts| ==> sep !in parts[i]
    ensures Split(Join(parts, sep), sep) == parts
  {
    PiecesJoin(parts, sep);
    assert sep in Join(parts, sep) by {
      assert Join(parts, sep)[|parts[0]|] == sep;
    }
  }

  /** A trailing separator does not change how a non-empty string splits. */
  lemma SplitTrailingSeparator(s: string, sep: char)
    requires |s| > 0
    ensures Split(s + [sep], sep) == Split(s, sep)
  {
    assert (s + [sep])[..|s|] == s;
    assert sep in s + [sep] by { assert (s + [sep])[|s|] == sep; }
    assert DropTrailingEmpty(Pieces(s + [sep], sep)) == DropTrailingEmpty(Pieces(s, sep));
    if sep !in s {
      PiecesWithoutSeparator(s, sep);
    }
  }

  /** The number of occurrences of `c` in `s`. */
  function Count(s: string, c: char): nat {
    if |s| == 0 then 0 else Count(s[..|s| - 1], c) + (if Last(s) == c then 1 else 0)
  }

  /** Cutting off a tail that holds no `c` keeps every `c`. */
  lemma {:induction false} CountPrefix(s: string, j: nat, c: char)
    requires j <= |s|
    requires forall k :: j <= k < |s| ==> s[k] != c
    ensures Count(s[..j], c) == Count(s, c)
  {
    if j < |s| {
      assert s[..|s| - 1][..j] == s[..j];
      CountPrefix(s[..|s| - 1], j, c);
    } else {
      assert s[..j] == s;
    }
  }

}
