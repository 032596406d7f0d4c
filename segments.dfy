/** `MplWidget._split_into_segments`: a sampled curve is cut into the maximal
    runs of samples whose y value is defined, so that the plot does not join
    points across a pole or a clipped stretch. A y value is `Some(v)`, or
    `None` where the sample holds NaN. */
module Segments {
  import opened Wrappers

  /** One piece of the curve: its x values and its y values, index-aligned. */
  datatype Segment = Segment(xs: seq<real>, ys: seq<real>)

  /** Every sample with index in `[lo, hi)` has a y value. */
  predicate Defined(ys: seq<Option<real>>, lo: nat, hi: nat)
    requires lo <= hi <= |ys|
  {
    forall i :: lo <= i < hi ==> ys[i].Some?
  }

  /** The y values defined among the samples `[lo, hi)`, in order. */
  function DefinedValues(ys: seq<Option<real>>, lo: nat, hi: nat): (r: seq<real>)
    requires lo <= hi <= |ys|
    ensures |r| <= hi - lo
    ensures Defined(ys, lo, hi) ==> |r| == hi - lo
    decreases hi
  {
    if hi == lo then []
    else DefinedValues(ys, lo, hi - 1) + (if ys[hi - 1].Some? then [ys[hi - 1].value] else [])
  }

  /** The x values of the samples among the first `n` whose y is defined. */
  function DefinedXs(xs: seq<real>, ys: seq<Option<real>>, n: nat): seq<real>
    requires n <= |xs| && n <= |ys|
  {
    if n == 0 then []
    else DefinedXs(xs, ys, n - 1) + (if ys[n - 1].Some? then [xs[n - 1]] else [])
  }

  /** The maximal runs `[start, end)` of defined samples among the first `n`,
      left to right: a defined sample widens the run its predecessor is in,
      or starts a new one. */
  function Runs(ys: seq<Option<real>>, n: nat): (runs: seq<(nat, nat)>)
    requires n <= |ys|
    ensures runs != [] ==> runs[|runs| - 1].1 <= n
    ensures (n > 0 && ys[n - 1].Some?) <==> (runs != [] && runs[|runs| - 1].1 == n)
    decreases n
  {
    if n == 0 then []
    else
      var before := Runs(ys, n - 1);
      if ys[n - 1].None? then before
      else if n >= 2 && ys[n - 2].Some? then
        before[|before| - 1 := (before[|before| - 1].0, n)]
      else before + [(n - 1, n)]
  }

  /** Every run is a non-empty stretch of the first `n` samples. */
  lemma {:induction false} RunBounds(ys: seq<Option<real>>, n: nat, k: int)
    requires n <= |ys|
    ensures 0 <= k < |Runs(ys, n)| ==> Runs(ys, n)[k].0 < Runs(ys, n)[k].1 <= n
    decreases n
  {
    if n > 0 {
      RunBounds(ys, n - 1, k);
      var before := Runs(ys, n - 1);
      if ys[n - 1].Some? && n >= 2 && ys[n - 2].Some? {
        RunBounds(ys, n - 1, |before| - 1);
      }
    }
  }

  /** `RunBounds` for all runs at once. */
  lemma RunsBounded(ys: seq<Option<real>>, n: nat)
    requires n <= |ys|
    ensures forall k :: 0 <= k < |Runs(ys, n)| ==> Runs(ys, n)[k].0 < Runs(ys, n)[k].1 <= n
  {
    forall k | 0 <= k < |Runs(ys, n)|
      ensures Runs(ys, n)[k].0 < Runs(ys, n)[k].1 <= n
    {
      RunBounds(ys, n, k);
    }
  }

  /** The segments cut from the given runs. */
  function Pieces(xs: seq<real>, ys: seq<Option<real>>, runs: seq<(nat, nat)>): (r: seq<Segment>)
    requires |xs| <= |ys|
    requires forall k :: 0 <= k < |runs| ==> runs[k].0 <= runs[k].1 <= |xs|
    ensures |r| == |runs|
  {
    seq(|runs|, k requires 0 <= k < |runs| =>
      Segment(xs[runs[k].0..runs[k].1], DefinedValues(ys, runs[k].0, runs[k].1)))
  }

  /** The segments of the first `n` samples. */
  function SplitPrefix(xs: seq<real>, ys: seq<Option<real>>, n: nat): (r: seq<Segment>)
    requires n <= |xs| <= |ys|
    ensures |r| == |Runs(ys, n)|
    ensures forall k :: 0 <= k < |r| ==> 0 < |r[k].xs| == |r[k].ys|
  {
    RunsAreMaximal(ys, n);
    Pieces(xs, ys, Runs(ys, n))
  }

  /** The segments of a whole sampled curve: one per maximal run of defined
      samples, holding that run's x values and y values. */
  function Split(xs: seq<real>, ys: seq<Option<real>>): (segments: seq<Segment>)
    requires |xs| <= |ys|
    ensures xs == [] ==> segments == []
    ensures forall k :: 0 <= k < |segments| ==> 0 < |segments[k].xs| == |segments[k].ys|
  {
    SplitPrefix(xs, ys, |xs|)
  }

  /** The x values of all segments, one after another. */
  function XsOf(segments: seq<Segment>): seq<real> {
    if segments == [] then []
    else XsOf(segments[..|segments| - 1]) + segments[|segments| - 1].xs
  }

  /** The y values of all segments, one after another. */
  function YsOf(segments: seq<Segment>): seq<real> {
    if segments == [] then []
    else YsOf(segments[..|segments| - 1]) + segments[|segments| - 1].ys
  }

  /** Sample `i` starts a run: it is defined and its predecessor is not. */
  predicate StartsRun(ys: seq<Option<real>>, i: nat)
    requires i < |ys|
  {
    ys[i].Some? && (i == 0 || ys[i - 1].None?)
  }

  /** How many runs start among the first `n` samples. */
  function RunStarts(ys: seq<Option<real>>, n: nat): nat
    requires n <= |ys|
  {
    if n == 0 then 0
    else RunStarts(ys, n - 1) + (if StartsRun(ys, n - 1) then 1 else 0)
  }

  /** The piece of one run. */
  function Piece(xs: seq<real>, ys: seq<Option<real>>, lo: nat, hi: nat): Segment
    requires lo <= hi <= |xs| <= |ys|
  {
    Segment(xs[lo..hi], DefinedValues(ys, lo, hi))
  }

  lemma PiecesAppend(xs: seq<real>, ys: seq<Option<real>>, runs: seq<(nat, nat)>, lo: nat, hi: nat)
    requires |xs| <= |ys| && lo <= hi <= |xs|
    requires forall k :: 0 <= k < |runs| ==> runs[k].0 <= runs[k].1 <= |xs|
    ensures Pieces(xs, ys, runs + [(lo, hi)]) == Pieces(xs, ys, runs) + [Piece(xs, ys, lo, hi)]
  {
    var runs' := runs + [(lo, hi)];
    assert forall k :: 0 <= k < |runs| ==> runs'[k] == runs[k];
  }

  lemma PiecesWiden(xs: seq<real>, ys: seq<Option<real>>, runs: seq<(nat, nat)>, hi: nat)
    requires |xs| <= |ys| && runs != []
    requires forall k :: 0 <= k < |runs| ==> runs[k].0 <= runs[k].1 <= |xs|
    requires runs[|runs| - 1].0 <= hi <= |xs|
    ensures var m := |runs| - 1;
      Pieces(xs, ys, runs[m := (runs[m].0, hi)]) == Pieces(xs, ys, runs)[m := Piece(xs, ys, runs[m].0, hi)]
  {
  }

  /** Widening a piece by one defined sample appends that sample to it. */
  lemma PieceGrows(xs: seq<real>, ys: seq<Option<real>>, lo: nat, hi: nat)
    requires lo <= hi < |xs| <= |ys| && ys[hi].Some?
    ensures Piece(xs, ys, lo, hi + 1) == Segment(Piece(xs, ys, lo, hi).xs + [xs[hi]], Piece(xs, ys, lo, hi).ys + [ys[hi].value])
  {
    assert xs[lo..hi + 1] == xs[lo..hi] + [xs[hi]];
  }

  /** A missing sample leaves the runs as they were. */
  lemma RunsSkip(ys: seq<Option<real>>, n: nat)
    requires 0 < n <= |ys| && ys[n - 1].None?
    ensures Runs(ys, n) == Runs(ys, n - 1)
  {
  }

  /** A defined sample after a missing one (or at the start) opens a run. */
  lemma RunsOpen(ys: seq<Option<real>>, n: nat)
    requires 0 < n <= |ys| && ys[n - 1].Some? && (n == 1 || ys[n - 2].None?)
    ensures Runs(ys, n) == Runs(ys, n - 1) + [(n - 1, n)]
  {
  }

  /** A defined sample after a defined one widens the last run. */
  lemma RunsWiden(ys: seq<Option<real>>, n: nat)
    requires 2 <= n <= |ys| && ys[n - 1].Some? && ys[n - 2].Some?
    ensures var before := Runs(ys, n - 1);
      before != [] && before[|before| - 1].1 == n - 1
      && Runs(ys, n) == before[|before| - 1 := (before[|before| - 1].0, n)]
  {
  }

  /** A defined sample after a defined one adds its values to the last segment. */
  lemma SplitWidens(xs: seq<real>, ys: seq<Option<real>>, i: nat)
    requires 0 < i < |xs| <= |ys| && ys[i].Some? && ys[i - 1].Some?
    ensures var before := SplitPrefix(xs, ys, i);
      before != []
      && SplitPrefix(xs, ys, i + 1) == before[|before| - 1 :=
           Segment(before[|before| - 1].xs + [xs[i]], before[|before| - 1].ys + [ys[i].value])]
  {
    var runs := Runs(ys, i);
    RunsBounded(ys, i);
    RunsWiden(ys, i + 1);
    PiecesWiden(xs, ys, runs, i + 1);
    PieceGrows(xs, ys, runs[|runs| - 1].0, i);
  }

  /** A defined sample after a missing one (or at the start) adds a segment of
      one point. */
  lemma SplitOpens(xs: seq<real>, ys: seq<Option<real>>, i: nat)
    requires i < |xs| <= |ys| && ys[i].Some? && (i == 0 || ys[i - 1].None?)
    ensures SplitPrefix(xs, ys, i + 1) == SplitPrefix(xs, ys, i) + [Segment([xs[i]], [ys[i].value])]
  {
    RunsBounded(ys, i);
    RunsOpen(ys, i + 1);
    PiecesAppend(xs, ys, Runs(ys, i), i, i + 1);
    assert xs[i..i + 1] == [xs[i]];
    assert DefinedValues(ys, i, i + 1) == [ys[i].value];
  }

  /** How the segments change when sample `i` is looked at: a missing y closes
      nothing new, a defined y widens the open segment when its predecessor was
      defined and opens a segment of one point otherwise. */
  lemma SplitStep(xs: seq<real>, ys: seq<Option<real>>, i: nat)
    requires i < |xs| <= |ys|
    ensures var before, after := SplitPrefix(xs, ys, i), SplitPrefix(xs, ys, i + 1);
      && (ys[i].None? ==> after == before)
      && (ys[i].Some? && i > 0 && ys[i - 1].Some? ==>
            before != []
            && after == before[|before| - 1 :=
                 Segment(before[|before| - 1].xs + [xs[i]], before[|before| - 1].ys + [ys[i].value])])
      && (ys[i].Some? && !(i > 0 && ys[i - 1].Some?) ==>
            after == before + [Segment([xs[i]], [ys[i].value])])
  {
    if ys[i].None? {
      RunsSkip(ys, i + 1);
    } else if i > 0 && ys[i - 1].Some? {
      SplitWidens(xs, ys, i);
    } else {
      SplitOpens(xs, ys, i);
    }
  }

  /** `_split_into_segments(x_vals, y_vals)`: one pass over the samples,
      collecting the current run and closing it at every missing y value. */
  method SplitIntoSegments(xs: seq<real>, ys: seq<Option<real>>) returns (segments: seq<Segment>)
    requires |xs| <= |ys|
    ensures segments == Split(xs, ys)
  {
    segments := [];
    var currentXs: seq<real> := [];
    var currentYs: seq<real> := [];
    for i := 0 to |xs|
      invariant (i > 0 && ys[i - 1].Some?) <==> currentXs != []
      invariant |currentYs| == |currentXs|
      invariant currentXs == [] ==> segments == SplitPrefix(xs, ys, i)
      invariant currentXs != [] ==> segments + [Segment(currentXs, currentYs)] == SplitPrefix(xs, ys, i)
    {
      SplitStep(xs, ys, i);
      ghost var before := SplitPrefix(xs, ys, i);
      if ys[i].Some? {
        if currentXs != [] {
          assert before[|before| - 1] == Segment(currentXs, currentYs);
          assert segments + [Segment(currentXs + [xs[i]], currentYs + [ys[i].value])]
              == before[|before| - 1 := Segment(currentXs + [xs[i]], currentYs + [ys[i].value])];
        } else {
          assert currentXs + [xs[i]] == [xs[i]] && currentYs + [ys[i].value] == [ys[i].value];
        }
        currentXs := currentXs + [xs[i]];
        currentYs := currentYs + [ys[i].value];
      } else if currentXs != [] {
        segments := segments + [Segment(currentXs, currentYs)];
        currentXs := [];
        currentYs := [];
      }
    }
    if currentXs != [] {
      segments := segments + [Segment(currentXs, currentYs)];
    }
  }

  /** Segment `k` of the first `n` samples is the piece of run `k`. */
  lemma SplitPrefixAt(xs: seq<real>, ys: seq<Option<real>>, n: nat, k: nat)
    requires n <= |xs| <= |ys| && k < |Runs(ys, n)|
    ensures |SplitPrefix(xs, ys, n)| == |Runs(ys, n)|
    ensures Runs(ys, n)[k].0 < Runs(ys, n)[k].1 <= n
    ensures SplitPrefix(xs, ys, n)[k] == Piece(xs, ys, Runs(ys, n)[k].0, Runs(ys, n)[k].1)
  {
    RunBounds(ys, n, k);
  }

  /** Run `k` holds only defined samples, and the sample before it is missing. */
  lemma {:induction false} RunInside(ys: seq<Option<real>>, n: nat, k: nat)
    requires n <= |ys| && k < |Runs(ys, n)|
    ensures Runs(ys, n)[k].0 < Runs(ys, n)[k].1 <= n
    ensures Defined(ys, Runs(ys, n)[k].0, Runs(ys, n)[k].1)
    ensures Runs(ys, n)[k].0 == 0 || ys[Runs(ys, n)[k].0 - 1].None?
  {
    RunBounds(ys, n, k);
    var before := Runs(ys, n - 1);
    if ys[n - 1].None? {
      RunsSkip(ys, n);
      RunInside(ys, n - 1, k);
    } else if n >= 2 && ys[n - 2].Some? {
      RunsWiden(ys, n);
      RunInside(ys, n - 1, k);
      var lo := before[k].0;
      if k == |before| - 1 {
        assert Runs(ys, n)[k] == (lo, n);
        forall i | lo <= i < n
          ensures ys[i].Some?
        {
          if i < n - 1 {
            assert Defined(ys, lo, n - 1);
          }
        }
      } else {
        assert Runs(ys, n)[k] == before[k];
      }
    } else {
      RunsOpen(ys, n);
      if k < |before| {
        RunInside(ys, n - 1, k);
        assert Runs(ys, n)[k] == before[k];
      } else {
        assert Runs(ys, n)[k] == (n - 1, n);
      }
    }
  }

  /** Run `k` ends at the `n`-th sample or just before a missing one, and
      it starts after its predecessor's end with a gap between them. */
  lemma {:induction false} RunSeparated(ys: seq<Option<real>>, n: nat, k: nat)
    requires n <= |ys| && k < |Runs(ys, n)|
    ensures Runs(ys, n)[k].1 <= n
    ensures Runs(ys, n)[k].1 == n || ys[Runs(ys, n)[k].1].None?
    ensures k > 0 ==> Runs(ys, n)[k - 1].1 < Runs(ys, n)[k].0
  {
    RunBounds(ys, n, k);
    var before, runs := Runs(ys, n - 1), Runs(ys, n);
    if ys[n - 1].None? {
      RunsSkip(ys, n);
      RunSeparated(ys, n - 1, k);
    } else {
      if k < |before| {
        RunSeparated(ys, n - 1, k);
        if k + 1 < |before| {
          RunSeparated(ys, n - 1, k + 1);
          RunBounds(ys, n - 1, k + 1);
          assert before[k].1 < n - 1;
        }
      }
      if n >= 2 && ys[n - 2].Some? {
        RunsWiden(ys, n);
        var m := |before| - 1;
        if k < m {
          assert runs[k] == before[k];
          if k > 0 {
            assert runs[k - 1] == before[k - 1];
          }
        } else {
          assert runs[k] == (before[m].0, n);
          if k > 0 {
            assert runs[k - 1] == before[k - 1];
          }
        }
      } else {
        RunsOpen(ys, n);
        if k < |before| {
          assert runs[k] == before[k];
          if k > 0 {
            assert runs[k - 1] == before[k - 1];
          }
        } else {
          assert runs[k] == (n - 1, n);
          if k > 0 {
            assert runs[k - 1] == before[k - 1];
          }
        }
      }
    }
  }

  /** `[lo, hi)` is a maximal run of defined samples among the first `n`. */
  predicate MaximalRun(ys: seq<Option<real>>, n: nat, lo: nat, hi: nat)
    requires lo <= hi <= n <= |ys|
  {
    && Defined(ys, lo, hi)
    && (lo == 0 || ys[lo - 1].None?)
    && (hi == n || ys[hi].None?)
  }

  /** Every run is a non-empty, maximal stretch of defined samples, and
      consecutive runs are separated by at least one missing sample. */
  lemma RunsAreMaximal(ys: seq<Option<real>>, n: nat)
    requires n <= |ys|
    ensures forall k :: 0 <= k < |Runs(ys, n)| ==>
      Runs(ys, n)[k].0 < Runs(ys, n)[k].1 <= n && MaximalRun(ys, n, Runs(ys, n)[k].0, Runs(ys, n)[k].1)
    ensures forall k :: 0 < k < |Runs(ys, n)| ==> Runs(ys, n)[k - 1].1 < Runs(ys, n)[k].0
  {
    forall k | 0 <= k < |Runs(ys, n)|
      ensures Runs(ys, n)[k].0 < Runs(ys, n)[k].1 <= n
      ensures MaximalRun(ys, n, Runs(ys, n)[k].0, Runs(ys, n)[k].1)
      ensures k > 0 ==> Runs(ys, n)[k - 1].1 < Runs(ys, n)[k].0
    {
      RunInside(ys, n, k);
      RunSeparated(ys, n, k);
    }
  }

  /** The run that holds defined sample `i`: every defined sample among the
      first `n` lies in one of the runs. */
  function RunContaining(ys: seq<Option<real>>, n: nat, i: nat): (k: nat)
    requires i < n <= |ys| && ys[i].Some?
    ensures k < |Runs(ys, n)| && Runs(ys, n)[k].0 <= i < Runs(ys, n)[k].1
    decreases n
  {
    if i == n - 1 then
      RunBounds(ys, n, |Runs(ys, n)| - 1);
      |Runs(ys, n)| - 1
    else
      var k := RunContaining(ys, n - 1, i);
      assert Runs(ys, n)[k].0 == Runs(ys, n - 1)[k].0;
      k
  }

  /** The number of segments is the number of samples that start a run. */
  lemma {:induction false} RunsCounted(ys: seq<Option<real>>, n: nat)
    requires n <= |ys|
    ensures |Runs(ys, n)| == RunStarts(ys, n)
  {
    if n > 0 {
      RunsCounted(ys, n - 1);
    }
  }

  /** Appending a segment appends its values. */
  lemma OfAppended(segments: seq<Segment>, s: Segment)
    ensures XsOf(segments + [s]) == XsOf(segments) + s.xs
    ensures YsOf(segments + [s]) == YsOf(segments) + s.ys
  {
    assert (segments + [s])[..|segments|] == segments;
  }

  /** Widening the last segment by one point appends that point's values. */
  lemma OfWidened(segments: seq<Segment>, x: real, y: real)
    requires segments != []
    ensures var m := |segments| - 1;
      var after := segments[m := Segment(segments[m].xs + [x], segments[m].ys + [y])];
      XsOf(after) == XsOf(segments) + [x] && YsOf(after) == YsOf(segments) + [y]
  {
    var m := |segments| - 1;
    var after := segments[m := Segment(segments[m].xs + [x], segments[m].ys + [y])];
    assert after[..m] == segments[..m];
  }

  /** The segments of the first `n` samples, concatenated, are the x values
      and the y values of the defined samples among them, in order. */
  lemma {:induction false} SplitPrefixFlattens(xs: seq<real>, ys: seq<Option<real>>, n: nat)
    requires n <= |xs| <= |ys|
    ensures XsOf(SplitPrefix(xs, ys, n)) == DefinedXs(xs, ys, n)
    ensures YsOf(SplitPrefix(xs, ys, n)) == DefinedValues(ys, 0, n)
  {
    if n > 0 {
      var i := n - 1;
      SplitPrefixFlattens(xs, ys, i);
      SplitStep(xs, ys, i);
      var before := SplitPrefix(xs, ys, i);
      if ys[i].Some? && i > 0 && ys[i - 1].Some? {
        OfWidened(before, xs[i], ys[i].value);
      } else if ys[i].Some? {
        OfAppended(before, Segment([xs[i]], [ys[i].value]));
      }
    }
  }

  /** Concatenating the segments gives back exactly the samples whose y value
      is defined, x with x and y with y, in their original order. */
  lemma SplitFlattens(xs: seq<real>, ys: seq<Option<real>>)
    requires |xs| <= |ys|
    ensures XsOf(Split(xs, ys)) == DefinedXs(xs, ys, |xs|)
    ensures YsOf(Split(xs, ys)) == DefinedValues(ys, 0, |xs|)
  {
    SplitPrefixFlattens(xs, ys, |xs|);
  }

  /** Every segment is non-empty, its x and y values are appended together, and
      its x values are the contiguous stretch of the input its run covers. */
  lemma SplitSegmentsAreRuns(xs: seq<real>, ys: seq<Option<real>>)
    requires |xs| <= |ys|
    ensures |Split(xs, ys)| == |Runs(ys, |xs|)|
    ensures forall k :: 0 <= k < |Split(xs, ys)| ==>
      && Runs(ys, |xs|)[k].0 < Runs(ys, |xs|)[k].1 <= |xs|
      && Split(xs, ys)[k].xs == xs[Runs(ys, |xs|)[k].0..Runs(ys, |xs|)[k].1]
      && |Split(xs, ys)[k].xs| == |Split(xs, ys)[k].ys| > 0
  {
    forall k | 0 <= k < |Split(xs, ys)|
      ensures Runs(ys, |xs|)[k].0 < Runs(ys, |xs|)[k].1 <= |xs|
      ensures Split(xs, ys)[k].xs == xs[Runs(ys, |xs|)[k].0..Runs(ys, |xs|)[k].1]
      ensures |Split(xs, ys)[k].xs| == |Split(xs, ys)[k].ys| > 0
    {
      SplitPrefixAt(xs, ys, |xs|, k);
      RunInside(ys, |xs|, k);
    }
  }

  /** There are as many segments as samples that start a run; a curve that is
      missing everywhere has no segment at all. */
  lemma SplitCount(xs: seq<real>, ys: seq<Option<real>>)
    requires |xs| <= |ys|
    ensures |Split(xs, ys)| == RunStarts(ys, |xs|)
    ensures Split(xs, ys) == [] <==> forall i :: 0 <= i < |xs| ==> ys[i].None?
  {
    RunsCounted(ys, |xs|);
    var runs := Runs(ys, |xs|);
    if runs != [] {
      RunInside(ys, |xs|, 0);
      assert ys[runs[0].0].Some?;
    }
    if i :| 0 <= i < |xs| && ys[i].Some? {
      var k := RunContaining(ys, |xs|, i);
    }
  }

  /** Samples `i <= j` end up in the same segment exactly when no sample from
      `i` to `j` is missing. */
  lemma SameSegment(xs: seq<real>, ys: seq<Option<real>>, i: nat, j: nat)
    requires |xs| <= |ys| && i <= j < |xs|
    ensures (exists k :: 0 <= k < |Runs(ys, |xs|)| && Runs(ys, |xs|)[k].0 <= i && j < Runs(ys, |xs|)[k].1)
            <==> Defined(ys, i, j + 1)
  {
    var n, runs := |xs|, Runs(ys, |xs|);
    if Defined(ys, i, j + 1) {
      var k := RunContaining(ys, n, i);
      RunSeparated(ys, n, k);
      assert j < runs[k].1;
    } else {
      var m :| i <= m <= j && ys[m].None?;
      forall k | 0 <= k < |runs|
        ensures m < runs[k].0 || runs[k].1 <= m
      {
        RunInside(ys, n, k);
      }
    }
  }

  /** An input without gaps gives one segment equal to the input. */
  lemma SplitContinuous()
    ensures Split([0.0, 1.0, 2.0, 3.0, 4.0], [Some(0.0), Some(1.0), Some(4.0), Some(9.0), Some(16.0)])
         == [Segment([0.0, 1.0, 2.0, 3.0, 4.0], [0.0, 1.0, 4.0, 9.0, 16.0])]
  {
    var xs, ys := [0.0, 1.0, 2.0, 3.0, 4.0], [Some(0.0), Some(1.0), Some(4.0), Some(9.0), Some(16.0)];
    assert Runs(ys, 1) == [(0, 1)];
    assert Runs(ys, 2) == [(0, 2)];
    assert Runs(ys, 3) == [(0, 3)];
    assert Runs(ys, 4) == [(0, 4)];
    assert Runs(ys, 5) == [(0, 5)];
    assert DefinedValues(ys, 0, 5) == [0.0, 1.0, 4.0, 9.0, 16.0] by {
      assert DefinedValues(ys, 0, 1) == [0.0];
      assert DefinedValues(ys, 0, 2) == [0.0, 1.0];
      assert DefinedValues(ys, 0, 3) == [0.0, 1.0, 4.0];
      assert DefinedValues(ys, 0, 4) == [0.0, 1.0, 4.0, 9.0];
    }
    assert xs[0..5] == xs;
  }

  /** A single interior gap gives two segments, one on each side. */
  lemma SplitWithGap()
    ensures Split([0.0, 1.0, 2.0, 3.0, 4.0], [Some(0.0), Some(1.0), None, Some(9.0), Some(16.0)])
         == [Segment([0.0, 1.0], [0.0, 1.0]), Segment([3.0, 4.0], [9.0, 16.0])]
  {
    var xs, ys := [0.0, 1.0, 2.0, 3.0, 4.0], [Some(0.0), Some(1.0), None, Some(9.0), Some(16.0)];
    assert Runs(ys, 1) == [(0, 1)];
    assert Runs(ys, 2) == [(0, 2)];
    assert Runs(ys, 3) == [(0, 2)];
    assert Runs(ys, 4) == [(0, 2), (3, 4)];
    assert Runs(ys, 5) == [(0, 2), (3, 5)];
    assert DefinedValues(ys, 0, 2) == [0.0, 1.0] by {
      assert DefinedValues(ys, 0, 1) == [0.0];
    }
    assert DefinedValues(ys, 3, 5) == [9.0, 16.0] by {
      assert DefinedValues(ys, 3, 4) == [9.0];
    }
    assert xs[0..2] == [0.0, 1.0] && xs[3..5] == [3.0, 4.0];
  }

  /** Two separated gaps give three segments. */
  lemma SplitMultipleGaps()
    ensures |Split([0.0, 1.0, 2.0, 3.0, 4.0, 5.0, 6.0],
                   [Some(0.0), Some(1.0), None, Some(3.0), None, Some(5.0), Some(6.0)])| == 3
  {
    var ys := [Some(0.0), Some(1.0), None, Some(3.0), None, Some(5.0), Some(6.0)];
    assert Runs(ys, 1) == [(0, 1)];
    assert Runs(ys, 2) == [(0, 2)];
    assert Runs(ys, 3) == [(0, 2)];
    assert Runs(ys, 4) == [(0, 2), (3, 4)];
    assert Runs(ys, 5) == [(0, 2), (3, 4)];
    assert Runs(ys, 6) == [(0, 2), (3, 4), (5, 6)];
    assert Runs(ys, 7) == [(0, 2), (3, 4), (5, 7)];
  }

  /** A curve missing everywhere gives no segment. */
  lemma SplitAllMissing()
    ensures Split([0.0, 1.0, 2.0, 3.0], [None, None, None, None]) == []
  {
    var ys: seq<Option<real>> := [None, None, None, None];
    assert Runs(ys, 1) == [];
    assert Runs(ys, 2) == [];
    assert Runs(ys, 3) == [];
    assert Runs(ys, 4) == [];
  }
}
