/** JavaScript's `String.prototype.split` with a one-character separator and
    `Array.prototype.join`, on strings as sequences of characters. */
module Text {

  /** The number of occurrences of `c` in `s`. */
  function Count(s: string, c: char): nat {
    if s == [] then 0 else (if s[0] == c then 1 else 0) + Count(s[1..], c)
  }

  /** `s.split(sep)`: the pieces of `s` between occurrences of `sep`. */
  function Split(s: string, sep: char): (parts: seq<string>)
    ensures |parts| >= 1
  {
    if s == [] then [""]
    else
      var rest := Split(s[1..], sep);
      if s[0] == sep then [""] + rest
      else [[s[0]] + rest[0]] + rest[1..]
  }

  /** There is always one more piece than separators, and no piece holds
      the separator. */
  lemma {:induction false} SplitPieces(s: string, sep: char)
    ensures |Split(s, sep)| == Count(s, sep) + 1
    ensures forall i :: 0 <= i < |Split(s, sep)| ==> sep !in Split(s, sep)[i]
  {
    if s != [] {
      SplitPieces(s[1..], sep);
      var rest := Split(s[1..], sep);
      var parts := Split(s, sep);
      if s[0] != sep {
        assert parts == [[s[0]] + rest[0]] + rest[1..];
        assert forall i :: 1 <= i < |parts| ==> parts[i] == rest[i];
        assert sep !in rest[0];
      } else {
        assert parts == [""] + rest;
        assert forall i :: 1 <= i < |parts| ==> parts[i] == rest[i - 1];
      }
    }
  }

  /** `parts.join(sep)`; the empty array joins to the empty string. */
  function Join(parts: seq<string>, sep: string): string {
    if parts == [] then ""
    else if |parts| == 1 then parts[0]
    else parts[0] + sep + Join(parts[1..], sep)
  }

  /** Joining the pieces back with the separator gives the original string. */
  lemma {:induction false} JoinSplit(s: string, sep: char)
    ensures Join(Split(s, sep), [sep]) == s
  {
    if s != [] {
      var rest := Split(s[1..], sep);
      JoinSplit(s[1..], sep);
      if s[0] == sep {
        assert Split(s, sep) == [""] + rest;
        assert Join([""] + rest, [sep]) == "" + [sep] + Join(rest, [sep]);
      } else {
        assert Split(s, sep) == [[s[0]] + rest[0]] + rest[1..];
        if |rest| == 1 {
          assert Join(rest, [sep]) == rest[0];
        } else {
          assert Join(rest, [sep]) == rest[0] + [sep] + Join(rest[1..], [sep]);
          assert ([[s[0]] + rest[0]] + rest[1..])[1..] == rest[1..];
        }
      }
    }
  }

  /** A string without the separator splits into itself alone. */
  lemma {:induction false} SplitWithoutSeparator(s: string, sep: char)
    requires sep !in s
    ensures Split(s, sep) == [s]
  {
    if s != [] {
      SplitWithoutSeparator(s[1..], sep);
      assert [s[0]] + s[1..] == s;
    }
  }

  /** A separator-free first piece followed by the separator is split off as
      the first piece. */
  lemma {:induction false} SplitFirstPiece(p: string, sep: char, rest: string)
    requires sep !in p
    ensures Split(p + [sep] + rest, sep) == [p] + Split(rest, sep)
  {
    if p == [] {
      assert p + [sep] + rest == [sep] + rest;
      assert ([sep] + rest)[1..] == rest;
    } else {
      SplitFirstPiece(p[1..], sep, rest);
      assert (p + [sep] + rest)[1..] == p[1..] + [sep] + rest;
      assert [p[0]] + p[1..] == p;
    }
  }

  /** Splitting is the inverse of joining pieces that do not hold the
      separator. */
  lemma {:induction false} SplitJoin(parts: seq<string>, sep: char)
    requires |parts| >= 1
    requires forall i :: 0 <= i < |parts| ==> sep !in parts[i]
    ensures Split(Join(parts, [sep]), sep) == parts
  {
    if |parts| == 1 {
      SplitWithoutSeparator(parts[0], sep);
    } else {
      SplitJoin(parts[1..], sep);
      SplitFirstPiece(parts[0], sep, Join(parts[1..], [sep]));
      assert [parts[0]] + parts[1..] == parts;
    }
  }

  /** Splitting a concatenation: the complete pieces of `x` are kept and the
      last, unterminated piece of `x` is continued by `y`. */
  lemma {:induction false} SplitAppend(x: string, y: string, sep: char)
    ensures var px := Split(x, sep);
      Split(x + y, sep) == px[..|px| - 1] + Split(px[|px| - 1] + y, sep)
  {
    if x == [] {
      assert x + y == y;
    } else {
      assert (x + y)[1..] == x[1..] + y;
      SplitAppend(x[1..], y, sep);
      if x[0] == sep {
        SplitAppendSeparator(x, y, sep);
      } else {
        SplitAppendOther(x, y, sep);
      }
    }
  }

  lemma SplitAppendSeparator(x: string, y: string, sep: char)
    requires x != [] && x[0] == sep
    requires var pt := Split(x[1..], sep);
      Split(x[1..] + y, sep) == pt[..|pt| - 1] + Split(pt[|pt| - 1] + y, sep)
    ensures var px := Split(x, sep);
      Split(x + y, sep) == px[..|px| - 1] + Split(px[|px| - 1] + y, sep)
  {
    var t := x[1..];
    var xy := x + y;
    assert xy[0] == sep && xy[1..] == t + y;
    SplitAtSeparator(x, sep);
    SplitAtSeparator(xy, sep);
    var pt := Split(t, sep);
    ConsShift("", pt, Split(pt[|pt| - 1] + y, sep));
  }

  /** A leading separator ends an empty first piece. */
  lemma SplitAtSeparator(s: string, sep: char)
    requires s != [] && s[0] == sep
    ensures Split(s, sep) == [""] + Split(s[1..], sep)
  {
  }

  /** Putting a piece in front commutes with cutting off the last piece. */
  lemma ConsShift(h: string, pt: seq<string>, pr: seq<string>)
    requires |pt| >= 1
    ensures var px := [h] + pt;
      && [h] + (pt[..|pt| - 1] + pr) == px[..|px| - 1] + pr
      && px[|px| - 1] == pt[|pt| - 1]
  {
    var px := [h] + pt;
    assert px[..|px| - 1] == [h] + pt[..|pt| - 1];
  }

  lemma SplitAppendOther(x: string, y: string, sep: char)
    requires x != [] && x[0] != sep
    requires var pt := Split(x[1..], sep);
      Split(x[1..] + y, sep) == pt[..|pt| - 1] + Split(pt[|pt| - 1] + y, sep)
    ensures var px := Split(x, sep);
      Split(x + y, sep) == px[..|px| - 1] + Split(px[|px| - 1] + y, sep)
  {
    var c := x[0];
    var t := x[1..];
    var xy := x + y;
    assert xy[0] == c && xy[1..] == t + y;
    var pt := Split(t, sep);
    var q := Split(t + y, sep);
    var px := Split(x, sep);
    SplitCons(x, sep);
    SplitCons(xy, sep);
    var pr := Split(pt[|pt| - 1] + y, sep);
    if |pt| == 1 {
      var z := px[|px| - 1] + y;
      SplitAppendOtherLast(c, pt, q, pr, px, z, y);
      SplitCons(z, sep);
    } else {
      SplitAppendOtherMiddle(c, pt, q, pr);
    }
  }

  /** A leading character other than the separator begins the first
      piece. */
  lemma SplitCons(s: string, sep: char)
    requires s != [] && s[0] != sep
    ensures var pt := Split(s[1..], sep);
      Split(s, sep) == [[s[0]] + pt[0]] + pt[1..]
  {
  }

  lemma SplitAppendOtherLast(c: char, pt: seq<string>, q: seq<string>, pr: seq<string>, px: seq<string>,
                             z: string, y: string)
    requires |pt| == 1 && |pr| >= 1
    requires q == pt[..|pt| - 1] + pr
    requires px == [[c] + pt[0]] + pt[1..]
    requires z == px[|px| - 1] + y
    ensures px[..|px| - 1] == [] && z != [] && z[0] == c && z[1..] == pt[|pt| - 1] + y
    ensures [[c] + q[0]] + q[1..] == px[..|px| - 1] + ([[c] + pr[0]] + pr[1..])
  {
    assert q == pr;
    assert px == [[c] + pt[0]];
  }

  lemma SplitAppendOtherMiddle(c: char, pt: seq<string>, q: seq<string>, pr: seq<string>)
    requires |pt| > 1
    requires q == pt[..|pt| - 1] + pr
    ensures var px := [[c] + pt[0]] + pt[1..];
      [[c] + q[0]] + q[1..] == px[..|px| - 1] + pr
  {
    var px := [[c] + pt[0]] + pt[1..];
    assert q[0] == pt[0];
    assert q[1..] == pt[1..|pt| - 1] + pr;
    assert px[..|px| - 1] == [[c] + pt[0]] + pt[1..|pt| - 1];
  }

  /** Appending one more piece to a join. */
  lemma {:induction false} JoinAppend(parts: seq<string>, p: string, sep: string)
    ensures Join(parts + [p], sep) == if parts == [] then p else Join(parts, sep) + sep + p
  {
    if |parts| == 1 {
      assert parts + [p] == [parts[0], p];
      assert [parts[0], p][1..] == [p];
    } else if |parts| > 1 {
      JoinAppend(parts[1..], p, sep);
      assert (parts + [p])[1..] == parts[1..] + [p];
    }
  }

  /** A character found neither in the pieces nor in the separator is not in
      their join. */
  lemma {:induction false} JoinWithout(parts: seq<string>, sep: string, c: char)
    requires c !in sep
    requires forall i :: 0 <= i < |parts| ==> c !in parts[i]
    ensures c !in Join(parts, sep)
  {
    if |parts| > 1 {
      JoinWithout(parts[1..], sep, c);
    }
  }
}
