/** Lengths of half-open integer intervals, measured by counting the points they contain. */
module IntervalMeasure {
  import opened Arithmetic

  datatype Span = Span(from: int, to: int)

  function Len(s: Span): nat {
    if s.from <= s.to then s.to - s.from else 0
  }

  predicate Contains(s: Span, x: int) {
    s.from <= x < s.to
  }

  ghost function Points(s: Span): set<int> {
    set x | s.from <= x < s.to && Contains(s, x)
  }

  lemma {:induction false} PointCount(s: Span)
    ensures |Points(s)| == Len(s)
    decreases Len(s)
  {
    if Len(s) == 0 {
      assert Points(s) == {};
    } else {
      PointCount(Span(s.from, s.to - 1));
      assert Points(s) == Points(Span(s.from, s.to - 1)) + {s.to - 1};
    }
  }

  function TotalLen(ss: seq<Span>): nat {
    if ss == [] then 0 else TotalLen(ss[..|ss| - 1]) + Len(ss[|ss| - 1])
  }

  predicate Apart(a: Span, b: Span) {
    a.to <= b.from || b.to <= a.from
  }

  ghost predicate PairwiseApart(ss: seq<Span>) {
    forall i, j :: 0 <= i < j < |ss| ==> Apart(ss[i], ss[j])
  }

  predicate Within(s: Span, w: Span) {
    w.from <= s.from && s.to <= w.to
  }

  ghost function Covered(ss: seq<Span>): set<int> {
    if ss == [] then {} else Covered(ss[..|ss| - 1]) + Points(ss[|ss| - 1])
  }

  lemma {:induction false} CoveredBySome(ss: seq<Span>, x: int)
    requires x in Covered(ss)
    ensures exists i :: 0 <= i < |ss| && Contains(ss[i], x)
  {
    if Contains(ss[|ss| - 1], x) {
    } else {
      CoveredBySome(ss[..|ss| - 1], x);
      var i :| 0 <= i < |ss| - 1 && Contains(ss[..|ss| - 1][i], x);
      assert Contains(ss[i], x);
    }
  }

  lemma {:induction false} CoveredCount(ss: seq<Span>)
    requires PairwiseApart(ss)
    ensures |Covered(ss)| == TotalLen(ss)
  {
    if ss != [] {
      var init, last := ss[..|ss| - 1], ss[|ss| - 1];
      assert forall i :: 0 <= i < |init| ==> init[i] == ss[i];
      CoveredCount(init);
      PointCount(last);
      forall x | x in Covered(init) ensures x !in Points(last) {
        CoveredBySome(init, x);
        var i :| 0 <= i < |init| && Contains(init[i], x);
        assert Apart(ss[i], ss[|ss| - 1]);
      }
      assert Covered(init) * Points(last) == {};
    }
  }

  /** Intervals that lie in a window and do not overlap are together no longer than the window. */
  lemma DisjointSpansFit(ss: seq<Span>, w: Span)
    requires PairwiseApart(ss)
    requires forall i :: 0 <= i < |ss| ==> Within(ss[i], w)
    ensures TotalLen(ss) <= Len(w)
  {
    CoveredCount(ss);
    PointCount(w);
    forall x | x in Covered(ss) ensures x in Points(w) {
      CoveredBySome(ss, x);
      var i :| 0 <= i < |ss| && Contains(ss[i], x);
      assert Within(ss[i], w);
    }
    SubsetCard(Covered(ss), Points(w));
  }
}
