/** String helpers shared by the codec and the formatting functions:
    Python's `sep.join(parts)`, `s.split(c)` and concatenation of a list
    of sequences. */
module Text {
  import Common

  /** `sep.join(parts)`. */
  function Join(parts: seq<string>, sep: string): string
  {
    if |parts| == 0 then ""
    else if |parts| == 1 then parts[0]
    else parts[0] + sep + Join(parts[1..], sep)
  }

  /** `s.split(c)` for a one-character separator: never empty, and "" splits to [""]. */
  function Split(s: string, c: char): (parts: seq<string>)
    ensures |parts| >= 1
  {
    if s == [] then [""]
    else
      var rest := Split(s[1..], c);
      if s[0] == c then [""] + rest else [[s[0]] + rest[0]] + rest[1..]
  }

  /** Concatenation of all the pieces, in order. */
  function Flatten<T>(pieces: seq<seq<T>>): seq<T>
  {
    if |pieces| == 0 then [] else pieces[0] + Flatten(pieces[1..])
  }

  /** No piece contains the separator character. */
  predicate FreeOf(parts: seq<string>, c: char)
  {
    forall i :: 0 <= i < |parts| ==> c !in parts[i]
  }

  lemma {:induction false} SplitWithout(p: string, c: char)
    requires c !in p
    ensures Split(p, c) == [p]
    decreases |p|
  {
    if p != [] {
      SplitWithout(p[1..], c);
      assert [p[0]] + p[1..] == p;
    }
  }

  lemma {:induction false} SplitAfter(p: string, rest: string, c: char)
    requires c !in p
    ensures Split(p + [c] + rest, c) == [p] + Split(rest, c)
    decreases |p|
  {
    if p == [] {
      assert p + [c] + rest == [c] + rest;
      assert ([c] + rest)[1..] == rest;
    } else {
      var s := p + [c] + rest;
      assert s[0] == p[0] && s[1..] == p[1..] + [c] + rest;
      SplitAfter(p[1..], rest, c);
      assert [p[0]] + p[1..] == p;
    }
  }

  /** Splitting a join at its separator gives the parts back, provided no part
      contains the separator. */
  lemma {:induction false} SplitJoin(parts: seq<string>, c: char)
    requires |parts| >= 1 && FreeOf(parts, c)
    ensures Split(Join(parts, [c]), c) == parts
    decreases |parts|
  {
    if |parts| == 1 {
      SplitWithout(parts[0], c);
    } else {
      assert c !in parts[0];
      SplitAfter(parts[0], Join(parts[1..], [c]), c);
      SplitJoin(parts[1..], c);
      assert [parts[0]] + parts[1..] == parts;
    }
  }

  /** Joining parts of one common width w gives |parts|*w characters plus the separators. */
  lemma {:induction false} JoinLength(parts: seq<string>, sep: string, w: nat)
    requires |parts| >= 1
    requires forall i :: 0 <= i < |parts| ==> |parts[i]| == w
    ensures |Join(parts, sep)| == |parts| * w + (|parts| - 1) * |sep|
    decreases |parts|
  {
    if |parts| > 1 {
      JoinLength(parts[1..], sep, w);
    }
  }

  /** Joining a joined suffix as the last part is the same as joining all parts. */
  lemma {:induction false} JoinNested(prefix: seq<string>, suffix: seq<string>, sep: string)
    requires |suffix| >= 1
    ensures Join(prefix + [Join(suffix, sep)], sep) == Join(prefix + suffix, sep)
    decreases |prefix|
  {
    if |prefix| == 0 {
      assert prefix + [Join(suffix, sep)] == [Join(suffix, sep)];
      assert prefix + suffix == suffix;
    } else {
      JoinNested(prefix[1..], suffix, sep);
      assert (prefix + [Join(suffix, sep)])[1..] == prefix[1..] + [Join(suffix, sep)];
      assert (prefix + suffix)[1..] == prefix[1..] + suffix;
    }
  }

  lemma {:induction false} FlattenAppend<T>(pieces: seq<seq<T>>, last: seq<T>)
    ensures Flatten(pieces + [last]) == Flatten(pieces) + last
    decreases |pieces|
  {
    if |pieces| == 0 {
      assert pieces + [last] == [last];
    } else {
      assert (pieces + [last])[1..] == pieces[1..] + [last];
      FlattenAppend(pieces[1..], last);
    }
  }

  /** A character in no part and not in the separator is not in the join. */
  lemma {:induction false} JoinFree(parts: seq<string>, sep: string, c: char)
    requires FreeOf(parts, c) && c !in sep
    ensures c !in Join(parts, sep)
    decreases |parts|
  {
    if |parts| > 1 {
      JoinFree(parts[1..], sep, c);
    }
  }

  /** Lines each ended by c split at c into the lines, plus the empty tail
      after the last c. */
  lemma {:induction false} SplitLines(bodies: seq<string>, c: char)
    requires FreeOf(bodies, c)
    ensures Split(Flatten(seq(|bodies|, i requires 0 <= i < |bodies| => bodies[i] + [c])), c) == bodies + [""]
    decreases |bodies|
  {
    var lines := seq(|bodies|, i requires 0 <= i < |bodies| => bodies[i] + [c]);
    if bodies != [] {
      var tail := seq(|bodies| - 1, i requires 0 <= i < |bodies| - 1 => bodies[1..][i] + [c]);
      assert lines[1..] == tail;
      SplitLines(bodies[1..], c);
      assert c !in bodies[0];
      SplitAfter(bodies[0], Flatten(tail), c);
      assert Flatten(lines) == bodies[0] + [c] + Flatten(tail);
      assert [bodies[0]] + (bodies[1..] + [""]) == bodies + [""];
    }
  }

  /** Joining parts whose widths lie between lo and hi. */
  lemma {:induction false} JoinLengthBetween(parts: seq<string>, sep: string, lo: nat, hi: nat)
    requires |parts| >= 1
    requires forall i :: 0 <= i < |parts| ==> lo <= |parts[i]| <= hi
    ensures |parts| * lo + (|parts| - 1) * |sep| <= |Join(parts, sep)| <= |parts| * hi + (|parts| - 1) * |sep|
    decreases |parts|
  {
    if |parts| > 1 {
      var m := |parts| - 1;
      var rest := Join(parts[1..], sep);
      assert |Join(parts, sep)| == |parts[0]| + |sep| + |rest|;
      assert m * lo + (m - 1) * |sep| <= |rest| <= m * hi + (m - 1) * |sep| by {
        JoinLengthBetween(parts[1..], sep, lo, hi);
      }
      assert (m + 1) * lo == m * lo + lo && (m + 1) * hi == m * hi + hi && m * |sep| == (m - 1) * |sep| + |sep| by {
        Common.Times(m, lo);
        Common.Times(m, hi);
        Common.Times(m - 1, |sep|);
      }
    }
  }
}
