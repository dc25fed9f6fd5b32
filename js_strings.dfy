/** The two JavaScript string builtins the components rely on:
    `String.prototype.split` with a string separator and `Array.prototype.join`.
    Strings are sequences of Unicode scalar values. */
module JsStrings {

  /** `s.split(sep)`. An empty separator yields one piece per character (and no
      piece at all for the empty string); any other separator yields the pieces
      between its leftmost non-overlapping occurrences, at least one piece. */
  function Split(s: string, sep: string): (r: seq<string>)
    ensures sep != [] ==> |r| >= 1
    ensures sep == [] ==> |r| == |s| && forall i :: 0 <= i < |s| ==> r[i] == [s[i]]
  {
    if sep == [] then seq(|s|, i requires 0 <= i < |s| => [s[i]]) else SplitOn(s, sep)
  }

  /** Splitting on a non-empty separator, scanning from the left: either the
      separator starts here and closes the current (empty) piece, or the first
      character belongs to the first piece of the rest. */
  function SplitOn(s: string, sep: string): (r: seq<string>)
    requires sep != []
    ensures |r| >= 1
    decreases |s|
  {
    if s == [] then [[]]
    else if sep <= s then [[]] + SplitOn(s[|sep|..], sep)
    else
      var rest := SplitOn(s[1..], sep);
      [[s[0]] + rest[0]] + rest[1..]
  }

  /** `xs.join(sep)`: the empty list joins to the empty string. */
  function Join(xs: seq<string>, sep: string): (r: string)
  {
    if xs == [] then [] else xs[0] + JoinRest(xs[1..], sep)
  }

  /** The separator-prefixed remainder of a join. */
  function JoinRest(xs: seq<string>, sep: string): string
  {
    if xs == [] then [] else sep + xs[0] + JoinRest(xs[1..], sep)
  }

  /** Number of occurrences of `c` in `s`. */
  function Occurrences(s: string, c: char): nat
  {
    if s == [] then 0 else (if s[0] == c then 1 else 0) + Occurrences(s[1..], c)
  }

  /** Sum of the lengths of the pieces. */
  function TotalLength(xs: seq<string>): nat
  {
    if xs == [] then 0 else |xs[0]| + TotalLength(xs[1..])
  }

  lemma JoinRestIsSeparatorThenJoin(xs: seq<string>, sep: string)
    requires xs != []
    ensures JoinRest(xs, sep) == sep + Join(xs, sep)
  {
  }

  /** Joining the pieces of a split with the same separator gives back the
      original string, for every separator. */
  lemma {:induction false} JoinSplit(s: string, sep: string)
    ensures Join(Split(s, sep), sep) == s
  {
    if sep == [] {
      JoinChars(s);
    } else {
      JoinSplitOn(s, sep);
    }
  }

  lemma {:induction false} JoinChars(s: string)
    ensures Join(Split(s, []), []) == s
  {
    if s != [] {
      var r := Split(s, []);
      JoinChars(s[1..]);
      assert r[1..] == Split(s[1..], []);
      if |s| > 1 {
        JoinRestIsSeparatorThenJoin(r[1..], []);
      }
      assert s == [s[0]] + s[1..];
    }
  }

  lemma {:induction false} JoinSplitOn(s: string, sep: string)
    requires sep != []
    ensures Join(SplitOn(s, sep), sep) == s
  {
    if s == [] {
    } else if sep <= s {
      var rest := SplitOn(s[|sep|..], sep);
      JoinSplitOn(s[|sep|..], sep);
      assert ([[]] + rest)[1..] == rest;
      JoinRestIsSeparatorThenJoin(rest, sep);
      assert s == sep + s[|sep|..];
    } else {
      var rest := SplitOn(s[1..], sep);
      JoinSplitOn(s[1..], sep);
      var r := [[s[0]] + rest[0]] + rest[1..];
      assert r[1..] == rest[1..];
      calc {
        Join(r, sep);
        [s[0]] + rest[0] + JoinRest(rest[1..], sep);
        [s[0]] + Join(rest, sep);
        [s[0]] + s[1..];
        s;
      }
    }
  }

  /** Splitting on a one-character separator yields one more piece than the
      separator has occurrences. */
  lemma {:induction false} SplitCount(s: string, c: char)
    ensures |Split(s, [c])| == Occurrences(s, c) + 1
  {
    if s != [] {
      SplitCount(s[1..], c);
    }
  }

  /** No piece of a split on a one-character separator contains that character. */
  lemma {:induction false} SplitPiecesFree(s: string, c: char)
    ensures forall p :: p in Split(s, [c]) ==> c !in p
  {
    if s != [] {
      SplitPiecesFree(s[1..], c);
      var rest := SplitOn(s[1..], [c]);
      if s[0] != c {
        assert forall p :: p in rest[1..] ==> p in rest;
        assert rest[0] in rest;
      }
    }
  }

  lemma {:induction false} SplitFreePrefix(w: string, t: string, c: char)
    requires c !in w
    ensures SplitOn(w + t, [c]) == [w + SplitOn(t, [c])[0]] + SplitOn(t, [c])[1..]
  {
    if w == [] {
      var r := SplitOn(t, [c]);
      assert w + t == t && w + r[0] == r[0];
      assert r == [r[0]] + r[1..];
    } else {
      SplitFreePrefix(w[1..], t, c);
      assert w + t == [w[0]] + (w[1..] + t);
      assert (w + t)[1..] == w[1..] + t;
      assert !([c] <= w + t);
      var r := SplitOn(t, [c]);
      var rest := SplitOn(w[1..] + t, [c]);
      assert rest[0] == w[1..] + r[0] && rest[1..] == r[1..];
      assert [w[0]] + rest[0] == w + r[0];
    }
  }

  /** Splitting a join of pieces that do not contain the one-character
      separator gives back exactly those pieces. */
  lemma {:induction false} SplitJoin(xs: seq<string>, c: char)
    requires xs != []
    requires forall x :: x in xs ==> c !in x
    ensures Split(Join(xs, [c]), [c]) == xs
  {
    if |xs| == 1 {
      SplitFreePrefix(xs[0], [], c);
      assert xs[0] + [] == xs[0];
    } else {
      var ys := xs[1..];
      assert forall y :: y in ys ==> y in xs;
      SplitJoin(ys, c);
      JoinRestIsSeparatorThenJoin(ys, [c]);
      var t := [c] + Join(ys, [c]);
      assert Join(xs, [c]) == xs[0] + t;
      SplitFreePrefix(xs[0], t, c);
      assert [c] <= t && t[1..] == Join(ys, [c]);
      assert SplitOn(t, [c]) == [[]] + ys;
      assert xs[0] + [] == xs[0];
      assert xs == [xs[0]] + ys;
    }
  }

  /** The length of a join: the pieces plus one separator between each two. */
  lemma {:induction false} JoinLength(xs: seq<string>, sep: string)
    requires xs != []
    ensures |Join(xs, sep)| == TotalLength(xs) + (|xs| - 1) * |sep|
  {
    JoinRestLength(xs[1..], sep);
  }

  lemma {:induction false} JoinRestLength(xs: seq<string>, sep: string)
    ensures |JoinRest(xs, sep)| == TotalLength(xs) + |xs| * |sep|
  {
    if xs != [] {
      JoinRestLength(xs[1..], sep);
    }
  }
}
