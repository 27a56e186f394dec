/**
 * Cutting a flat sequence into the maximal runs between separator elements,
 * and joining runs back together. The table renderer is characterised by
 * these two functions: rows are the runs between row breaks, cells the runs
 * between column breaks.
 */
module Segments {

  /** The runs of `xs` between occurrences of `sep`, in order; always at least one. */
  function Split<T(==)>(xs: seq<T>, sep: T): (runs: seq<seq<T>>)
    ensures |runs| >= 1
  {
    if xs == [] then [[]]
    else
      var rest := Split(xs[1..], sep);
      if xs[0] == sep then [[]] + rest
      else [[xs[0]] + rest[0]] + rest[1..]
  }

  /** The runs glued back together with one `sep` between neighbours. */
  function Join<T>(runs: seq<seq<T>>, sep: T): seq<T>
    requires |runs| >= 1
  {
    if |runs| == 1 then runs[0] else runs[0] + [sep] + Join(runs[1..], sep)
  }

  /** Splitting loses nothing and reorders nothing. */
  lemma {:induction false} JoinSplit<T>(xs: seq<T>, sep: T)
    ensures Join(Split(xs, sep), sep) == xs
  {
    if xs != [] {
      var rest := Split(xs[1..], sep);
      JoinSplit(xs[1..], sep);
      if xs[0] != sep && |rest| > 1 {
        assert Split(xs, sep)[1..] == rest[1..];
      }
    }
  }

  /** No run contains the separator. */
  lemma {:induction false} SplitRunsFree<T>(xs: seq<T>, sep: T)
    ensures forall i :: 0 <= i < |Split(xs, sep)| ==> sep !in Split(xs, sep)[i]
  {
    if xs != [] {
      SplitRunsFree(xs[1..], sep);
    }
  }

  /** There is one run more than there are separators. */
  lemma {:induction false} SplitCount<T>(xs: seq<T>, sep: T)
    ensures |Split(xs, sep)| == multiset(xs)[sep] + 1
  {
    if xs != [] {
      SplitCount(xs[1..], sep);
      assert xs == [xs[0]] + xs[1..];
      assert multiset(xs) == multiset([xs[0]]) + multiset(xs[1..]);
    }
  }

  /** Joining separator-free runs and splitting again gives the runs back. */
  lemma {:induction false} SplitJoin<T>(runs: seq<seq<T>>, sep: T)
    requires |runs| >= 1
    requires forall i :: 0 <= i < |runs| ==> sep !in runs[i]
    ensures Split(Join(runs, sep), sep) == runs
  {
    if |runs| == 1 {
      SplitFree(runs[0], sep);
    } else {
      SplitJoin(runs[1..], sep);
      SplitAtFirst(runs[0], Join(runs[1..], sep), sep);
      assert Join(runs, sep) == runs[0] + [sep] + Join(runs[1..], sep);
      assert runs == [runs[0]] + runs[1..];
    }
  }

  /** A sequence without the separator is a single run. */
  lemma {:induction false} SplitFree<T>(xs: seq<T>, sep: T)
    requires sep !in xs
    ensures Split(xs, sep) == [xs]
  {
    if xs != [] {
      SplitFree(xs[1..], sep);
      assert [xs[0]] + xs[1..] == xs;
    }
  }

  /** The first separator ends the first run. */
  lemma {:induction false} SplitAtFirst<T>(c: seq<T>, t: seq<T>, sep: T)
    requires sep !in c
    ensures Split(c + [sep] + t, sep) == [c] + Split(t, sep)
  {
    if c == [] {
      assert c + [sep] + t == [sep] + t;
      assert ([sep] + t)[1..] == t;
    } else {
      assert (c + [sep] + t)[1..] == c[1..] + [sep] + t;
      SplitAtFirst(c[1..], t, sep);
      assert [c[0]] + c[1..] == c;
    }
  }

  /** A separator at the very end closes the last run and opens an empty one. */
  lemma {:induction false} SplitTrailing<T>(xs: seq<T>, sep: T)
    ensures Split(xs + [sep], sep) == Split(xs, sep) + [[]]
  {
    if xs == [] {
      assert [] + [sep] == [sep];
    } else {
      assert (xs + [sep])[1..] == xs[1..] + [sep];
      SplitTrailing(xs[1..], sep);
    }
  }

  /** The runs with `x` appended to the last one. */
  function ExtendLast<T>(runs: seq<seq<T>>, x: T): (runs': seq<seq<T>>)
    requires |runs| >= 1
    ensures |runs'| == |runs|
  {
    runs[..|runs| - 1] + [runs[|runs| - 1] + [x]]
  }

  /** Any other element at the very end joins the last run. */
  lemma {:induction false} SplitExtend<T>(xs: seq<T>, x: T, sep: T)
    requires x != sep
    ensures Split(xs + [x], sep) == ExtendLast(Split(xs, sep), x)
  {
    if xs == [] {
      var empty: seq<T> := [];
      SplitSingle(x, sep);
      assert xs + [x] == [x];
      assert Split(xs, sep) == [empty];
      assert ExtendLast([empty], x) == [empty + [x]];
      assert empty + [x] == [x];
    } else {
      var t, h := xs[1..], xs[0];
      var runs := Split(t, sep);
      assert (xs + [x])[1..] == t + [x];
      SplitExtend(t, x, sep);
      if h == sep {
        ExtendLastCons([], runs, x);
      } else {
        var runs' := ExtendLast(runs, x);
        if |runs| == 1 {
          assert runs' == [runs[0] + [x]];
          assert [h] + (runs[0] + [x]) == [h] + runs[0] + [x];
        } else {
          ExtendLastCons([h] + runs[0], runs[1..], x);
          ExtendLastCons(runs[0], runs[1..], x);
          assert [runs[0]] + runs[1..] == runs;
        }
      }
    }
  }

  lemma ExtendLastCons<T>(r: seq<T>, runs: seq<seq<T>>, x: T)
    requires |runs| >= 1
    ensures ExtendLast([r] + runs, x) == [r] + ExtendLast(runs, x)
  {
    assert ([r] + runs)[..|runs|] == [r] + runs[..|runs| - 1];
  }

  lemma SplitSingle<T>(x: T, sep: T)
    requires x != sep
    ensures Split([x], sep) == [[x]]
  {
    var empty: seq<T> := [];
    assert [x][1..] == empty;
    assert Split(empty, sep) == [empty];
    assert Split([x], sep) == [[x] + empty] + [empty][1..];
    assert [x] + empty == [x];
  }
}
