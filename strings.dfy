/** String helpers shared by the path model and the routines: `startsWith`,
    `split(sep)` and joining with a separator, as JavaScript has them. */
module Strings {

  predicate StartsWith(s: string, prefix: string)
  {
    |prefix| <= |s| && s[..|prefix|] == prefix
  }

  /** `s.split(sep)` for a one-character separator: empty pieces are kept and
      there is always at least one piece. */
  function SplitOn(s: string, sep: char): (r: seq<string>)
    ensures |r| >= 1
    decreases |s|
  {
    if s == [] then [""]
    else
      var rest := SplitOn(s[1..], sep);
      if s[0] == sep then [""] + rest
      else [[s[0]] + rest[0]] + rest[1..]
  }

  /** `pieces.join(sep)`. */
  function JoinWith(pieces: seq<string>, sep: char): string
  {
    if pieces == [] then ""
    else if |pieces| == 1 then pieces[0]
    else pieces[0] + [sep] + JoinWith(pieces[1..], sep)
  }

  lemma {:induction false} SplitNoSep(s: string, sep: char)
    requires sep !in s
    ensures SplitOn(s, sep) == [s]
    decreases |s|
  {
    if s != [] {
      assert sep !in s[1..];
      SplitNoSep(s[1..], sep);
      assert [s[0]] + s[1..] == s;
    }
  }

  /** How a split begins when the first character is not the separator. */
  lemma SplitCons(c: char, t: string, sep: char)
    requires c != sep
    ensures SplitOn([c] + t, sep) == [[c] + SplitOn(t, sep)[0]] + SplitOn(t, sep)[1..]
  {
    assert ([c] + t)[1..] == t;
  }

  lemma ExtendFirst<T>(x: seq<T>, sa: seq<seq<T>>, sb: seq<seq<T>>)
    requires |sa| >= 1
    ensures [x + (sa + sb)[0]] + (sa + sb)[1..] == ([x + sa[0]] + sa[1..]) + sb
  {
    assert (sa + sb)[0] == sa[0];
    assert (sa + sb)[1..] == sa[1..] + sb;
  }

  /** Splitting on the separator that joins two strings splits both. */
  lemma {:induction false} SplitAround(a: string, b: string, sep: char)
    ensures SplitOn(a + [sep] + b, sep) == SplitOn(a, sep) + SplitOn(b, sep)
    decreases |a|
  {
    if a == [] {
      assert a + [sep] + b == [sep] + b;
      assert ([sep] + b)[1..] == b;
    } else {
      var t := a[1..] + [sep] + b;
      assert a + [sep] + b == [a[0]] + t;
      assert a == [a[0]] + a[1..];
      SplitAround(a[1..], b, sep);
      if a[0] == sep {
        assert ([a[0]] + t)[1..] == t;
        assert ([a[0]] + a[1..])[1..] == a[1..];
      } else {
        SplitCons(a[0], t, sep);
        SplitCons(a[0], a[1..], sep);
        ExtendFirst([a[0]], SplitOn(a[1..], sep), SplitOn(b, sep));
      }
    }
  }

  /** Splitting a concatenation: the last piece of `a` and the first piece
      of `b` run together. */
  lemma {:induction false} SplitConcat(a: string, b: string, sep: char)
    ensures Merged(SplitOn(a + b, sep), SplitOn(a, sep), SplitOn(b, sep))
    decreases |a|
  {
    var sb := SplitOn(b, sep);
    if a == [] {
      assert a + b == b;
      assert "" + sb[0] == sb[0];
      assert [sb[0]] + sb[1..] == sb;
    } else {
      var c, t := a[0], a[1..];
      assert a == [c] + t && a + b == [c] + (t + b);
      SplitConcat(t, b, sep);
      if c == sep {
        SplitSep(t, sep);
        SplitSep(t + b, sep);
        MergedSep(SplitOn(t + b, sep), SplitOn(t, sep), sb);
      } else {
        SplitCons(c, t, sep);
        SplitCons(c, t + b, sep);
        MergedCons([c], SplitOn(t + b, sep), SplitOn(t, sep), sb);
      }
    }
  }

  /** `r` is `sa` and `sb` with the last of `sa` run into the first of `sb`. */
  ghost predicate Merged(r: seq<string>, sa: seq<string>, sb: seq<string>)
    requires |sa| >= 1 && |sb| >= 1
  {
    r == sa[..|sa| - 1] + [sa[|sa| - 1] + sb[0]] + sb[1..]
  }

  lemma MergedSep(r: seq<string>, sa: seq<string>, sb: seq<string>)
    requires |sa| >= 1 && |sb| >= 1 && Merged(r, sa, sb)
    ensures Merged([""] + r, [""] + sa, sb)
  {
    assert ([""] + sa)[..|sa|] == [""] + sa[..|sa| - 1];
  }

  lemma MergedCons(x: string, r: seq<string>, sa: seq<string>, sb: seq<string>)
    requires |sa| >= 1 && |sb| >= 1 && Merged(r, sa, sb)
    ensures |r| >= 1 && Merged([x + r[0]] + r[1..], [x + sa[0]] + sa[1..], sb)
  {
    var sa' := [x + sa[0]] + sa[1..];
    if |sa| == 1 {
      assert r[0] == sa[0] + sb[0] && r[1..] == sb[1..];
      assert x + (sa[0] + sb[0]) == (x + sa[0]) + sb[0];
      assert sa'[..|sa'| - 1] == [] && sa'[|sa'| - 1] == x + sa[0];
    } else {
      assert r[0] == sa[0];
      assert r[1..] == sa[1..|sa| - 1] + [sa[|sa| - 1] + sb[0]] + sb[1..];
      assert sa'[..|sa'| - 1] == [x + sa[0]] + sa[1..|sa| - 1];
      assert sa'[|sa'| - 1] == sa[|sa| - 1];
    }
  }

  /** How a split begins when the first character is the separator. */
  lemma SplitSep(t: string, sep: char)
    ensures SplitOn([sep] + t, sep) == [""] + SplitOn(t, sep)
  {
    assert ([sep] + t)[1..] == t;
  }

  /** Joining the pieces of a split gives the string back. */
  lemma {:induction false} JoinSplit(s: string, sep: char)
    ensures JoinWith(SplitOn(s, sep), sep) == s
    decreases |s|
  {
    if s != [] {
      JoinSplit(s[1..], sep);
      var r := SplitOn(s[1..], sep);
      if s[0] == sep {
        assert SplitOn(s, sep)[1..] == r;
      } else if |r| > 1 {
        assert SplitOn(s, sep)[1..] == r[1..];
      }
      assert [s[0]] + s[1..] == s;
    }
  }

  /** Splitting a join of separator-free pieces gives the pieces back. */
  lemma {:induction false} SplitJoin(pieces: seq<string>, sep: char)
    requires |pieces| >= 1
    requires forall i :: 0 <= i < |pieces| ==> sep !in pieces[i]
    ensures SplitOn(JoinWith(pieces, sep), sep) == pieces
    decreases |pieces|
  {
    if |pieces| == 1 {
      SplitNoSep(pieces[0], sep);
    } else {
      SplitJoin(pieces[1..], sep);
      SplitAround(pieces[0], JoinWith(pieces[1..], sep), sep);
      SplitNoSep(pieces[0], sep);
      assert [pieces[0]] + pieces[1..] == pieces;
    }
  }

  /** A character that no piece contains and that is not the separator does
      not occur in the join. */
  lemma {:induction false} JoinAvoids(pieces: seq<string>, sep: char, c: char)
    requires c != sep
    requires forall i :: 0 <= i < |pieces| ==> c !in pieces[i]
    ensures c !in JoinWith(pieces, sep)
    decreases |pieces|
  {
    if |pieces| > 1 {
      JoinAvoids(pieces[1..], sep, c);
    }
  }

  /** No piece of a split contains the separator. */
  lemma {:induction false} SplitPiecesAvoid(s: string, sep: char)
    ensures forall i :: 0 <= i < |SplitOn(s, sep)| ==> sep !in SplitOn(s, sep)[i]
    decreases |s|
  {
    if s != [] {
      SplitPiecesAvoid(s[1..], sep);
      var rest := SplitOn(s[1..], sep);
      if s[0] != sep {
        assert forall i :: 1 <= i < |SplitOn(s, sep)| ==> SplitOn(s, sep)[i] == rest[i];
      }
    }
  }

  /** A string starting with the separator has an empty first piece, and one
      ending with it an empty last piece. */
  lemma SplitEnds(s: string, sep: char)
    requires s != []
    ensures s[0] == sep ==> SplitOn(s, sep)[0] == ""
    ensures s[|s| - 1] == sep ==> SplitOn(s, sep)[|SplitOn(s, sep)| - 1] == ""
  {
    if s[|s| - 1] == sep {
      var init := s[..|s| - 1];
      assert s == init + [sep] + "";
      SplitAround(init, "", sep);
    }
  }
}
