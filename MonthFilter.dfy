/** The per-month selection that the chart component of
    `src/components/FigureZone.tsx` applies to each of its eight series
    before plotting. */
module MonthFilter {

  /** A plotted series: timestamps as text and the value at each one,
      parallel arrays as in the component's `Series` interface. */
  datatype Series = Series(x: seq<string>, y: seq<real>)

  /** The selector value that disables filtering. */
  const AllMonths: string := "all"

  function Min(a: int, b: int): int { if a <= b then a else b }

  /** JavaScript's `String.prototype.slice(start, end)` for non-negative
      arguments: both ends are clamped to the string's length and an
      inverted range gives the empty string. */
  function Slice(s: string, start: nat, end: nat): (r: string)
    ensures start <= end <= |s| ==> r == s[start..end]
    ensures start <= |s| <= end ==> r == s[start..]
    ensures end <= start || |s| <= start ==> r == ""
  {
    var b := Min(start, |s|);
    var e := Min(end, |s|);
    if b <= e then s[b..e] else ""
  }

  /** The two month digits of a `YYYY-MM-DD HH:MM:SS` timestamp
      (`x[i].slice(5, 7)`); a shorter text gives what is left of them. */
  function MonthField(t: string): (r: string)
    ensures 7 <= |t| ==> r == t[5..7] && |r| == 2
    ensures 5 <= |t| < 7 ==> r == t[5..]
    ensures |t| <= 5 ==> r == ""
  {
    Slice(t, 5, 7)
  }

  /** The pairs among the first `n` of `src` whose month field equals
      `month`, in their original order: what the filtering loop has pushed
      after `n` iterations. */
  function Selected(src: Series, month: string, n: nat): (r: Series)
    requires n <= |src.x| && n <= |src.y|
    ensures |r.x| == |r.y| <= n
    ensures forall j :: 0 <= j < |r.x| ==> MonthField(r.x[j]) == month
  {
    if n == 0 then Series([], [])
    else
      var r := Selected(src, month, n - 1);
      if MonthField(src.x[n - 1]) == month then Series(r.x + [src.x[n - 1]], r.y + [src.y[n - 1]])
      else r
  }

  /** The positions of the pairs that `Selected` keeps: increasing, below
      `n`, and exactly those whose timestamp's month field equals `month`. */
  function SelectedIndices(src: Series, month: string, n: nat): (r: seq<nat>)
    requires n <= |src.x|
    ensures forall j :: 0 <= j < |r| ==> r[j] < n
    ensures forall j, l :: 0 <= j < l < |r| ==> r[j] < r[l]
    ensures forall i :: 0 <= i < n ==> (MonthField(src.x[i]) == month <==> i in r)
  {
    if n == 0 then []
    else
      var r := SelectedIndices(src, month, n - 1);
      if MonthField(src.x[n - 1]) == month then r + [n - 1] else r
  }

  /** Each pair of `out` is the pair of `src` at the matching position of
      `idx`, a position below `n`. */
  ghost predicate PairsAt(src: Series, n: nat, out: Series, idx: seq<nat>)
    requires n <= |src.x| && n <= |src.y|
  {
    && |idx| == |out.x| == |out.y|
    && forall j :: 0 <= j < |idx| ==>
         idx[j] < n && out.x[j] == src.x[idx[j]] && out.y[j] == src.y[idx[j]]
  }

  /** Pushing the pair at position `n - 1` extends the correspondence. */
  lemma PairsAtPush(src: Series, n: nat, out: Series, idx: seq<nat>)
    requires 0 < n <= |src.x| && n <= |src.y|
    requires PairsAt(src, n - 1, out, idx)
    ensures PairsAt(src, n, Series(out.x + [src.x[n - 1]], out.y + [src.y[n - 1]]), idx + [n - 1])
  {
    var out' := Series(out.x + [src.x[n - 1]], out.y + [src.y[n - 1]]);
    var idx' := idx + [n - 1];
    forall j | 0 <= j < |idx'|
      ensures idx'[j] < n && out'.x[j] == src.x[idx'[j]] && out'.y[j] == src.y[idx'[j]]
    {
      if j < |idx| {
        assert idx'[j] == idx[j] && out'.x[j] == out.x[j] && out'.y[j] == out.y[j];
      }
    }
  }

  /** Each pair that `Selected` keeps is the input pair at the matching
      position of `SelectedIndices`. */
  lemma {:induction false} SelectedPairs(src: Series, month: string, n: nat)
    requires n <= |src.x| && n <= |src.y|
    ensures PairsAt(src, n, Selected(src, month, n), SelectedIndices(src, month, n))
  {
    if n > 0 {
      SelectedPairs(src, month, n - 1);
      var prev, pidx := Selected(src, month, n - 1), SelectedIndices(src, month, n - 1);
      if MonthField(src.x[n - 1]) == month {
        PairsAtPush(src, n, prev, pidx);
      }
    }
  }

  /** `out` is an order-preserving selection from the first `n` pairs of `src`
      through the positions `idx`: each output pair is the input pair at its
      position, positions strictly increase, and a position is used exactly
      when its timestamp's month field equals `month`. */
  ghost predicate IsSelection(src: Series, month: string, n: nat, out: Series, idx: seq<nat>)
    requires n <= |src.x| && n <= |src.y|
  {
    && PairsAt(src, n, out, idx)
    && (forall j, l :: 0 <= j < l < |idx| ==> idx[j] < idx[l])
    && (forall i :: 0 <= i < n ==> (MonthField(src.x[i]) == month <==> i in idx))
  }

  /** Filtering keeps a pair if and only if its month matches, drops or adds
      nothing else, and keeps the kept pairs in their original order. */
  lemma SelectedIsSelection(src: Series, month: string, n: nat)
    requires n <= |src.x| && n <= |src.y|
    ensures IsSelection(src, month, n, Selected(src, month, n), SelectedIndices(src, month, n))
  {
    SelectedPairs(src, month, n);
  }

  /** A series all of whose timestamps already carry `month` passes through
      the filter unchanged. */
  lemma {:induction false} SelectedAllMatching(s: Series, month: string, n: nat)
    requires n <= |s.x| && n <= |s.y|
    requires forall j :: 0 <= j < |s.x| ==> MonthField(s.x[j]) == month
    ensures Selected(s, month, n) == Series(s.x[..n], s.y[..n])
  {
    if n > 0 {
      SelectedAllMatching(s, month, n - 1);
      assert s.x[..n] == s.x[..n - 1] + [s.x[n - 1]];
      assert s.y[..n] == s.y[..n - 1] + [s.y[n - 1]];
    }
  }

  /** Filtering twice by the same month is the same as filtering once. */
  lemma SelectedIdempotent(src: Series, month: string)
    requires |src.x| <= |src.y|
    ensures var once := Selected(src, month, |src.x|);
            Selected(once, month, |once.x|) == once
  {
    var once := Selected(src, month, |src.x|);
    SelectedAllMatching(once, month, |once.x|);
    assert once.x[..|once.x|] == once.x;
    assert once.y[..|once.y|] == once.y;
  }

  /** The body of each per-series `useMemo` callback: the whole series for
      the selector "all", otherwise a fresh series into which the loop pushes,
      in order, every pair whose timestamp lies in the selected month. */
  method FilterByMonth(src: Series, month: string) returns (out: Series)
    requires month != AllMonths ==> |src.x| <= |src.y|
    ensures month == AllMonths ==> out == src
    ensures month != AllMonths ==> out == Selected(src, month, |src.x|)
    ensures month != AllMonths ==> |out.x| == |out.y| <= |src.x|
    ensures month != AllMonths ==> forall j :: 0 <= j < |out.x| ==> MonthField(out.x[j]) == month
  {
    if month == AllMonths {
      return src;
    }
    out := Series([], []);
    for i := 0 to |src.x|
      invariant out == Selected(src, month, i)
    {
      if MonthField(src.x[i]) == month {
        out := out.(x := out.x + [src.x[i]], y := out.y + [src.y[i]]);
      }
    }
  }
}
