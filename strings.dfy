/** The two `System.String` operations the package checker relies on:
    `Split(char)` and ordinal `Contains(string)`. */
module Strings {

  /** `s.Split(d)`: the pieces of `s` between occurrences of `d`. As in .NET,
      there is always at least one piece, and empty pieces are kept. */
  function Split(s: string, d: char): (pieces: seq<string>)
    ensures |pieces| >= 1
    ensures |pieces| == 1 + Occurrences(s, d)
    ensures forall i :: 0 <= i < |pieces| ==> d !in pieces[i]
    decreases |s|
  {
    if |s| == 0 then [""]
    else if s[0] == d then [""] + Split(s[1..], d)
    else
      var rest := Split(s[1..], d);
      [[s[0]] + rest[0]] + rest[1..]
  }

  /** How many times `d` occurs in `s`. */
  function Occurrences(s: string, d: char): nat
    decreases |s|
  {
    if |s| == 0 then 0 else (if s[0] == d then 1 else 0) + Occurrences(s[1..], d)
  }

  /** `String.Join(d, pieces)`: the pieces with `d` between them. */
  function Join(pieces: seq<string>, d: char): string
    requires |pieces| >= 1
    decreases |pieces|
  {
    if |pieces| == 1 then pieces[0] else pieces[0] + [d] + Join(pieces[1..], d)
  }

  /** Joining the pieces back with the separator gives the original string. */
  lemma {:induction false} JoinSplit(s: string, d: char)
    ensures Join(Split(s, d), d) == s
    decreases |s|
  {
    if |s| == 0 {
    } else if s[0] == d {
      JoinSplit(s[1..], d);
      assert [""] + Split(s[1..], d) == Split(s, d);
      assert s == [d] + s[1..];
    } else {
      JoinSplit(s[1..], d);
      var rest := Split(s[1..], d);
      var pieces := [[s[0]] + rest[0]] + rest[1..];
      assert pieces[1..] == rest[1..];
      if |rest| == 1 {
        assert s == [s[0]] + rest[0];
      } else {
        assert Join(rest, d) == rest[0] + [d] + Join(rest[1..], d);
        assert s == [s[0]] + s[1..];
      }
    }
  }

  /** Splitting a joined list of pieces that do not contain the separator
      gives the pieces back. */
  lemma {:induction false} SplitJoin(pieces: seq<string>, d: char)
    requires |pieces| >= 1
    requires forall i :: 0 <= i < |pieces| ==> d !in pieces[i]
    ensures Split(Join(pieces, d), d) == pieces
    decreases |pieces|, |pieces[0]|
  {
    if |pieces| == 1 {
      SplitNoSeparator(pieces[0], d);
    } else if |pieces[0]| == 0 {
      SplitJoin(pieces[1..], d);
      assert Join(pieces, d) == [d] + Join(pieces[1..], d);
      assert [""] + pieces[1..] == pieces;
    } else {
      var p := pieces[0];
      var shorter := [p[1..]] + pieces[1..];
      assert forall i :: 0 <= i < |shorter| ==> d !in shorter[i] by {
        forall i | 0 <= i < |shorter|
          ensures d !in shorter[i]
        {
          if i == 0 {
            assert forall c :: c in p[1..] ==> c in p;
          } else {
            assert shorter[i] == pieces[i];
          }
        }
      }
      SplitJoin(shorter, d);
      JoinFirstChar(pieces, d);
      assert p[0] != d by {
        assert p[0] in p;
      }
      SplitFirstChar(p[0], Join(shorter, d), d);
      assert [p[0]] + p[1..] == p;
      assert [p] + pieces[1..] == pieces;
    }
  }

  /** Joining pieces whose first piece is not empty starts with that
      piece's first character. */
  lemma JoinFirstChar(pieces: seq<string>, d: char)
    requires |pieces| >= 2 && |pieces[0]| > 0
    ensures Join(pieces, d) == [pieces[0][0]] + Join([pieces[0][1..]] + pieces[1..], d)
  {
    var shorter := [pieces[0][1..]] + pieces[1..];
    assert shorter[1..] == pieces[1..];
    assert pieces[0] == [pieces[0][0]] + pieces[0][1..];
  }

  /** A first character other than the separator joins the first piece. */
  lemma SplitFirstChar(c: char, s: string, d: char)
    requires c != d
    ensures Split([c] + s, d) == [[c] + Split(s, d)[0]] + Split(s, d)[1..]
  {
    assert ([c] + s)[1..] == s;
  }

  /** A string without the separator splits into itself alone. */
  lemma {:induction false} SplitNoSeparator(s: string, d: char)
    requires d !in s
    ensures Split(s, d) == [s]
    decreases |s|
  {
    if |s| > 0 {
      assert s[0] in s;
      assert forall c :: c in s[1..] ==> c in s;
      SplitNoSeparator(s[1..], d);
      assert [s[0]] + s[1..] == s;
    }
  }

  /** `t` occurs in `s` at position `i`. */
  predicate OccursAt(s: string, t: string, i: nat) {
    i + |t| <= |s| && s[i..i + |t|] == t
  }

  /** Ordinal `s.Contains(t)`: `t` is a prefix of `s` or of one of its
      suffixes. */
  predicate Contains(s: string, t: string)
    decreases |s|
  {
    t <= s || (|s| > 0 && Contains(s[1..], t))
  }

  /** `Contains` holds exactly when `t` occurs at some position of `s`. */
  lemma {:induction false} ContainsIff(s: string, t: string)
    ensures Contains(s, t) <==> exists i: nat :: OccursAt(s, t, i)
    decreases |s|
  {
    if exists i: nat :: OccursAt(s, t, i) {
      var i: nat :| OccursAt(s, t, i);
      if i == 0 {
        assert t <= s;
      } else {
        assert s[1..][i - 1..i - 1 + |t|] == s[i..i + |t|];
        assert OccursAt(s[1..], t, i - 1);
        ContainsIff(s[1..], t);
      }
    }
    if Contains(s, t) {
      if t <= s {
        assert OccursAt(s, t, 0);
      } else {
        ContainsIff(s[1..], t);
        var i: nat :| OccursAt(s[1..], t, i);
        assert s[1..][i..i + |t|] == s[i + 1..i + 1 + |t|];
        assert OccursAt(s, t, i + 1);
      }
    }
  }

  /** A string contains every string it ends with. */
  lemma {:induction false} ContainsSuffix(s: string, t: string)
    ensures Contains(s + t, t)
    decreases |s|
  {
    if |s| == 0 {
      assert s + t == t;
    } else {
      ContainsSuffix(s[1..], t);
      assert (s + t)[1..] == s[1..] + t;
    }
  }
}
