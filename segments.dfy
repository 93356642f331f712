/**
 The string and array primitives the edge router chains together to pull a
 short code out of a request path: `split("/")`, `filter(Boolean)` and `pop()`,
 plus an independent reference definition of "the last maximal run of
 non-slash characters" that the chain is proved to compute.
 */
module PathSegments {

  /** The result of `Array.prototype.pop`: `undefined` on an empty array. */
  datatype Option<T> = None | Some(value: T)

  const Slash: char := '/'

  /** Pieces joined back with `/` between them (`Array.prototype.join("/")`). */
  function Join(xs: seq<string>): (r: string)
    requires |xs| >= 1
    ensures |r| >= |xs| - 1
  {
    if |xs| == 1 then xs[0] else Join(xs[..|xs| - 1]) + [Slash] + xs[|xs| - 1]
  }

  /**
   `s.split("/")`: the pieces of `s` between slashes, in order, empty pieces
   included. There is always one more piece than there are slashes, so the
   empty string splits into one empty piece.
   */
  function Split(s: string): (r: seq<string>)
    ensures |r| >= 1
    ensures forall i :: 0 <= i < |r| ==> Slash !in r[i]
    ensures Join(r) == s
  {
    if s == [] then [[]]
    else
      var init, c := s[..|s| - 1], s[|s| - 1];
      assert s == init + [c];
      var t := Split(init);
      if c == Slash then
        assert (t + [[]])[..|t|] == t;
        t + [[]]
      else
        var r := t[..|t| - 1] + [t[|t| - 1] + [c]];
        assert r[..|r| - 1] == t[..|t| - 1];
        assert |t| > 1 ==> Join(t) == Join(t[..|t| - 1]) + [Slash] + t[|t| - 1];
        r
  }

  /**
   `xs.filter(Boolean)` on strings: keeps every non-empty piece as often as it
   occurs and drops the empty ones. That the pieces keep their order, so that
   `pop()` sees the last non-empty piece, is `NonEmptyKeepsLast`.
   */
  function NonEmpty(xs: seq<string>): (r: seq<string>)
    ensures |r| <= |xs|
    ensures forall i :: 0 <= i < |r| ==> r[i] != []
    ensures forall x :: x in r <==> x in xs && x != []
    ensures multiset(r) == multiset(xs)[[] := 0]
  {
    if xs == [] then []
    else
      var init, x := xs[..|xs| - 1], xs[|xs| - 1];
      assert xs == init + [x];
      assert multiset(xs) == multiset(init) + multiset{x};
      if x == [] then NonEmpty(init) else NonEmpty(init) + [x]
  }

  /** The last piece the filter keeps is the last non-empty piece of the input. */
  lemma {:induction false} NonEmptyKeepsLast(xs: seq<string>, k: int)
    requires LastNonEmptyAt(xs, k)
    ensures NonEmpty(xs) != [] && NonEmpty(xs)[|NonEmpty(xs)| - 1] == xs[k]
  {
    var init, x := xs[..|xs| - 1], xs[|xs| - 1];
    assert xs == init + [x];
    if k < |xs| - 1 {
      assert LastNonEmptyAt(init, k);
      NonEmptyKeepsLast(init, k);
    }
  }

  /** `xs[k]` is the last non-empty piece of `xs`. */
  predicate LastNonEmptyAt(xs: seq<string>, k: int) {
    0 <= k < |xs| && xs[k] != [] && forall j :: k < j < |xs| ==> xs[j] == []
  }

  /** `xs.pop()`, read only for its result: the last element, or `undefined`. */
  function Pop(xs: seq<string>): (r: Option<string>)
    ensures r.None? <==> xs == []
    ensures r.Some? ==> r.value in xs
  {
    if xs == [] then None else Some(xs[|xs| - 1])
  }

  /** The run of non-slash characters at the very end of `s` (empty when `s` ends in `/`). */
  function TrailingRun(s: string): (r: string)
    ensures |r| <= |s| && r == s[|s| - |r|..]
    ensures Slash !in r
    ensures |r| < |s| ==> s[|s| - |r| - 1] == Slash
  {
    if s == [] || s[|s| - 1] == Slash then []
    else TrailingRun(s[..|s| - 1]) + [s[|s| - 1]]
  }

  /**
   Reference definition of the short code: skip the trailing slashes, then
   take the maximal run of non-slash characters before them.
   */
  function LastSegment(s: string): (r: string)
    ensures Slash !in r
    ensures r == [] <==> forall i :: 0 <= i < |s| ==> s[i] == Slash
  {
    if s == [] then []
    else if s[|s| - 1] == Slash then
      var r := LastSegment(s[..|s| - 1]);
      assert forall i :: 0 <= i < |s| - 1 ==> s[..|s| - 1][i] == s[i];
      r
    else
      var r := TrailingRun(s);
      assert r[|r| - 1] == s[|s| - 1];
      r
  }

  /** The last piece `split("/")` produces is the trailing run of non-slash characters. */
  lemma {:induction false} SplitLastIsTrailingRun(s: string)
    ensures Split(s)[|Split(s)| - 1] == TrailingRun(s)
  {
    if s != [] {
      SplitLastIsTrailingRun(s[..|s| - 1]);
    }
  }

  /**
   `split("/").filter(Boolean).pop()` yields the reference last segment, or
   `undefined` exactly when the string has no non-slash character.
   */
  lemma {:induction false} PopNonEmptySplitIsLastSegment(s: string)
    ensures Pop(NonEmpty(Split(s))) == if LastSegment(s) == [] then None else Some(LastSegment(s))
  {
    if s != [] {
      var init, c := s[..|s| - 1], s[|s| - 1];
      var t := Split(init);
      if c == Slash {
        assert Split(s) == t + [[]];
        NonEmptyAppend(t, []);
        PopNonEmptySplitIsLastSegment(init);
      } else {
        SplitLastIsTrailingRun(s);
        var pieces := Split(s);
        var last := pieces[|pieces| - 1];
        assert pieces == pieces[..|pieces| - 1] + [last];
        NonEmptyAppend(pieces[..|pieces| - 1], last);
        assert LastSegment(s) == TrailingRun(s) == last;
      }
    }
  }

  /** Filtering distributes over appending one more piece. */
  lemma NonEmptyAppend(xs: seq<string>, x: string)
    ensures NonEmpty(xs + [x]) == if x == [] then NonEmpty(xs) else NonEmpty(xs) + [x]
  {
    assert (xs + [x])[..|xs|] == xs;
  }

  /** Splitting undoes joining when no piece holds a slash. */
  lemma {:induction false} SplitJoin(xs: seq<string>)
    requires |xs| >= 1
    requires forall i :: 0 <= i < |xs| ==> Slash !in xs[i]
    ensures Split(Join(xs)) == xs
  {
    if |xs| == 1 {
      SplitOfSegment(xs[0]);
    } else {
      var init, x := xs[..|xs| - 1], xs[|xs| - 1];
      SplitJoin(init);
      SplitAfterSlash(Join(init), x);
      assert xs == init + [x];
    }
  }

  /** A string with no slash splits into itself alone. */
  lemma {:induction false} SplitOfSegment(x: string)
    requires Slash !in x
    ensures Split(x) == [x]
  {
    if x != [] {
      var init := x[..|x| - 1];
      assert x == init + [x[|x| - 1]];
      SplitOfSegment(init);
    }
  }

  /** Appending `/` and a slash-free piece appends exactly that piece to the split. */
  lemma {:induction false} SplitAfterSlash(a: string, x: string)
    requires Slash !in x
    ensures Split(a + [Slash] + x) == Split(a) + [x]
  {
    var s := a + [Slash] + x;
    if x == [] {
      assert s[..|s| - 1] == a;
    } else {
      var init := x[..|x| - 1];
      assert x == init + [x[|x| - 1]];
      assert s[..|s| - 1] == a + [Slash] + init;
      SplitAfterSlash(a, init);
    }
  }

  /** A leading slash never changes the last segment. */
  lemma {:induction false} LastSegmentLeadingSlash(s: string)
    ensures LastSegment([Slash] + s) == LastSegment(s)
  {
    var t := [Slash] + s;
    if s == [] {
      assert t[..0] == [];
    } else {
      var init, c := s[..|s| - 1], s[|s| - 1];
      assert t[|t| - 1] == c;
      assert t[..|t| - 1] == [Slash] + init;
      if c == Slash {
        LastSegmentLeadingSlash(init);
        assert LastSegment(t) == LastSegment([Slash] + init);
      } else {
        TrailingRunLeadingSlash(s);
        assert LastSegment(t) == TrailingRun(t);
      }
    }
  }

  lemma {:induction false} TrailingRunLeadingSlash(s: string)
    ensures TrailingRun([Slash] + s) == TrailingRun(s)
  {
    var t := [Slash] + s;
    if s != [] && s[|s| - 1] != Slash {
      var init, c := s[..|s| - 1], s[|s| - 1];
      assert t[|t| - 1] == c;
      assert t[..|t| - 1] == [Slash] + init;
      TrailingRunLeadingSlash(init);
      calc {
        TrailingRun(t);
        TrailingRun([Slash] + init) + [c];
        TrailingRun(init) + [c];
        TrailingRun(s);
      }
    }
  }

  /** A trailing slash never changes the last segment. */
  lemma LastSegmentTrailingSlash(s: string)
    ensures LastSegment(s + [Slash]) == LastSegment(s)
  {
  }

  /** The last segment of `a + "/" + x` is `x` itself when `x` is a non-empty slash-free piece. */
  lemma {:induction false} LastSegmentAfterSlash(a: string, x: string)
    requires x != [] && Slash !in x
    ensures LastSegment(a + [Slash] + x) == x
  {
    TrailingRunAfterSlash(a, x);
  }

  lemma {:induction false} TrailingRunAfterSlash(a: string, x: string)
    requires Slash !in x
    ensures TrailingRun(a + [Slash] + x) == x
  {
    var s := a + [Slash] + x;
    if x != [] {
      var init := x[..|x| - 1];
      assert x == init + [x[|x| - 1]];
      assert s[..|s| - 1] == a + [Slash] + init;
      TrailingRunAfterSlash(a, init);
    }
  }
}
