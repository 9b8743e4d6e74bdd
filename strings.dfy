/**
 * The string primitives the path code relies on, with the semantics JavaScript gives them
 * for a one-character separator: `String.prototype.split`, `Array.prototype.join`,
 * `String.prototype.endsWith`, `String.prototype.substr` and a trailing-separator trim.
 */
module Strings {

  /** `s.endsWith(c)`: the last character of `s` is `c` (never true of the empty string). */
  predicate EndsWith(s: string, c: char) {
    |s| > 0 && s[|s| - 1] == c
  }

  /** `s.substr(start)` for a non-negative start: the rest of `s`, or "" past its end. */
  function Substr(s: string, start: nat): (r: string)
    ensures start <= |s| ==> s[..start] + r == s
    ensures start > |s| ==> r == ""
  {
    if start <= |s| then s[start..] else ""
  }

  /**
   * `s.split(c)`: every piece between separators is kept, empty ones included,
   * so the result is never empty and no piece contains the separator.
   */
  function Split(s: string, c: char): (r: seq<string>)
    ensures |r| >= 1
    ensures forall k :: 0 <= k < |r| ==> c !in r[k]
    decreases |s|
  {
    if s == [] then [""]
    else
      var rest := Split(s[1..], c);
      if s[0] == c then [""] + rest
      else [[s[0]] + rest[0]] + rest[1..]
  }

  /** `xs.join(c)`: the pieces with one separator between neighbours. */
  function Join(xs: seq<string>, c: char): string
  {
    if |xs| == 0 then ""
    else if |xs| == 1 then xs[0]
    else xs[0] + [c] + Join(xs[1..], c)
  }

  /** Each piece followed by its own separator: the reference reading of a rendered directory. */
  function EachTerminated(xs: seq<string>, c: char): string
  {
    if xs == [] then "" else xs[0] + [c] + EachTerminated(xs[1..], c)
  }

  /** `s` with every trailing `c` removed, as the `while (s.endsWith(c))` loop of joinFile leaves it. */
  function TrimTrailing(s: string, c: char): (r: string)
    ensures r <= s
    ensures !EndsWith(r, c)
    ensures forall k :: |r| <= k < |s| ==> s[k] == c
    decreases |s|
  {
    if EndsWith(s, c) then TrimTrailing(s[..|s| - 1], c) else s
  }

  /** `u` is the prefix of `s` up to and including its last `c`, or "" when `s` has no `c`. */
  predicate ThroughLastSeparator(u: string, s: string, c: char) {
    u <= s && (u == [] || u[|u| - 1] == c) && c !in s[|u|..]
  }

  /** `t` is the text of `s` after its last `c`, or all of `s` when there is none. */
  predicate LastPiece(t: string, s: string, c: char) {
    |t| <= |s| && s[|s| - |t|..] == t && ThroughLastSeparator(s[..|s| - |t|], s, c)
  }

  /** There is exactly one prefix through the last separator. */
  lemma ThroughLastSeparatorUnique(u: string, v: string, s: string, c: char)
    requires ThroughLastSeparator(u, s, c) && ThroughLastSeparator(v, s, c)
    ensures u == v
  {
  }

  /** Splitting a string without the separator gives that string alone. */
  lemma {:induction false} SplitNoSeparator(s: string, c: char)
    requires c !in s
    ensures Split(s, c) == [s]
    decreases |s|
  {
    if s != [] {
      assert c !in s[1..];
      SplitNoSeparator(s[1..], c);
      assert [s[0]] + s[1..] == s;
    }
  }

  /** Split distributes over a separator: the pieces of `a` followed by the pieces of `b`. */
  lemma {:induction false} SplitConcat(a: string, b: string, c: char)
    ensures Split(a + [c] + b, c) == Split(a, c) + Split(b, c)
    decreases |a|
  {
    var s := a + [c] + b;
    if a == [] {
      assert s[1..] == b;
    } else {
      assert s[0] == a[0];
      assert s[1..] == a[1..] + [c] + b;
      SplitConcat(a[1..], b, c);
    }
  }

  /** Joining the pieces of a split gives the string back, doubled and leading separators included. */
  lemma {:induction false} JoinSplit(s: string, c: char)
    ensures Join(Split(s, c), c) == s
    decreases |s|
  {
    if s != [] {
      var rest := Split(s[1..], c);
      JoinSplit(s[1..], c);
      if s[0] == c {
        assert Split(s, c) == [""] + rest;
        assert ([""] + rest)[1..] == rest;
      } else {
        var xs := [[s[0]] + rest[0]] + rest[1..];
        assert Split(s, c) == xs;
        if |rest| > 1 {
          assert xs[1..] == rest[1..];
          assert Join(rest, c) == rest[0] + [c] + Join(rest[1..], c);
        }
      }
    }
  }

  /** Appending one piece adds one separator. */
  lemma {:induction false} JoinSnoc(xs: seq<string>, y: string, c: char)
    requires |xs| >= 1
    ensures Join(xs + [y], c) == Join(xs, c) + [c] + y
    decreases |xs|
  {
    if |xs| > 1 {
      assert (xs + [y])[1..] == xs[1..] + [y];
      JoinSnoc(xs[1..], y, c);
    }
  }

  /** Splitting a join gives the pieces back when none of them holds the separator. */
  lemma {:induction false} SplitJoin(xs: seq<string>, c: char)
    requires |xs| >= 1
    requires forall k :: 0 <= k < |xs| ==> c !in xs[k]
    ensures Split(Join(xs, c), c) == xs
    decreases |xs|
  {
    SplitNoSeparator(xs[0], c);
    if |xs| > 1 {
      SplitJoin(xs[1..], c);
      SplitConcat(xs[0], Join(xs[1..], c), c);
      assert [xs[0]] + xs[1..] == xs;
    }
  }

  /** A non-empty list rendered with a separator after each piece is its join plus one separator. */
  lemma {:induction false} EachTerminatedJoin(xs: seq<string>, c: char)
    requires |xs| >= 1
    ensures EachTerminated(xs, c) == Join(xs, c) + [c]
    decreases |xs|
  {
    if |xs| > 1 {
      EachTerminatedJoin(xs[1..], c);
    }
  }

  /** Rendering each piece with its separator distributes over concatenation. */
  lemma {:induction false} EachTerminatedConcat(xs: seq<string>, ys: seq<string>, c: char)
    ensures EachTerminated(xs + ys, c) == EachTerminated(xs, c) + EachTerminated(ys, c)
    decreases |xs|
  {
    if xs != [] {
      assert (xs + ys)[1..] == xs[1..] + ys;
      EachTerminatedConcat(xs[1..], ys, c);
    } else {
      assert xs + ys == ys;
    }
  }

  /**
   * The last piece of a split is the text after the last separator, and the other pieces,
   * each followed by a separator, are the text up to and including it.
   */
  lemma SplitLastPiece(s: string, c: char)
    ensures var xs := Split(s, c);
      EachTerminated(xs[..|xs| - 1], c) + xs[|xs| - 1] == s &&
      ThroughLastSeparator(EachTerminated(xs[..|xs| - 1], c), s, c) &&
      LastPiece(xs[|xs| - 1], s, c)
  {
    var xs := Split(s, c);
    var n := |xs|;
    var init, last := xs[..n - 1], xs[n - 1];
    JoinSplit(s, c);
    if n > 1 {
      assert xs == init + [last];
      JoinSnoc(init, last, c);
      EachTerminatedJoin(init, c);
    }
    var u := EachTerminated(init, c);
    assert u + last == s;
    assert s[|u|..] == last;
    assert s[..|s| - |last|] == u;
  }

  /** A split has a single piece exactly when the separator does not occur. */
  lemma SplitSingle(s: string, c: char)
    ensures |Split(s, c)| == 1 <==> c !in s
  {
    if c !in s {
      SplitNoSeparator(s, c);
    } else if |Split(s, c)| == 1 {
      JoinSplit(s, c);
    }
  }

  /** A string that ends with the separator splits into the pieces before it and one empty piece. */
  lemma SplitTrailingSeparator(s: string, c: char)
    requires EndsWith(s, c)
    ensures Split(s, c) == Split(s[..|s| - 1], c) + [""]
  {
    var t := s[..|s| - 1];
    assert s == t + [c] + [];
    SplitConcat(t, [], c);
  }

  /** Trimming ignores one more trailing separator. */
  lemma TrimTrailingAbsorbs(s: string, c: char)
    ensures TrimTrailing(s + [c], c) == TrimTrailing(s, c)
  {
    assert (s + [c])[..|s|] == s;
  }
}
