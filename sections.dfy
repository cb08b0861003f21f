/**
 * Source sections and the line numbers they span.
 *
 * A section is identified by its source and its character range, so two
 * sections on the same line at different columns stay apart; the line
 * projections look only at its inclusive line span. `Lines` is the reference
 * definition of the line projection that `PerSource.StatementsToLineNumbers`
 * computes with nested loops.
 */
module Sections {

  /** An opaque identity of one loaded source; the model only compares it. */
  datatype Source = Source(id: nat)

  /** A section of a source: its character range, which tells apart sections on
      the same line, and its inclusive line span. Only the line span matters to
      the line projections. Nothing forces `startLine <= endLine`: a section
      whose span is inverted spans no line. */
  datatype SourceSection = SourceSection(source: Source, charIndex: int, charLength: int, startLine: int, endLine: int)

  predicate Between(lo: int, i: int, hi: int)
  {
    lo <= i <= hi
  }

  /** The inclusive run of lines `lo..hi`, empty when `hi < lo`. (The bounds are
      written twice: once for Dafny to see that the set is finite, once through
      `Between` to give the membership quantifier a trigger.) */
  function Span(lo: int, hi: int): set<int>
  {
    set i | lo <= i <= hi && Between(lo, i, hi)
  }

  /** Section `s` spans line `line`. */
  predicate Spans(s: SourceSection, line: int)
  {
    Between(s.startLine, line, s.endLine)
  }

  /** Every line number spanned by some section of `sections`. */
  function Lines(sections: set<SourceSection>): set<int>
  {
    set s, i | s in sections && s.startLine <= i <= s.endLine && Spans(s, i) :: i
  }

  /** A section of `sections` that spans `line` puts `line` in the projection. */
  lemma LinesIntro(sections: set<SourceSection>, s: SourceSection, line: int)
    requires s in sections && Spans(s, line)
    ensures line in Lines(sections)
  {
  }

  /** Membership in the projection, both ways. */
  lemma LinesMembership(sections: set<SourceSection>)
    ensures forall line :: line in Lines(sections) <==> exists s :: s in sections && Spans(s, line)
  {
    forall line | exists s :: s in sections && Spans(s, line)
      ensures line in Lines(sections)
    {
      var s :| s in sections && Spans(s, line);
      LinesIntro(sections, s, line);
    }
  }

  /** A span grows one line at a time at its upper end. */
  lemma SpanExtend(lo: int, hi: int)
    requires lo <= hi
    ensures Span(lo, hi) == Span(lo, hi - 1) + {hi}
  {
  }

  lemma {:induction false} SpanSize(lo: int, hi: int)
    ensures |Span(lo, hi)| == if lo <= hi then hi - lo + 1 else 0
    decreases hi - lo
  {
    if lo <= hi {
      SpanSize(lo, hi - 1);
      SpanExtend(lo, hi);
    } else {
      assert Span(lo, hi) == {};
    }
  }

  /** Projecting a set extended by one section adds exactly that section's span. */
  lemma LinesInsert(sections: set<SourceSection>, s: SourceSection)
    ensures Lines(sections + {s}) == Lines(sections) + Span(s.startLine, s.endLine)
  {
    forall line | line in Lines(sections + {s})
      ensures line in Lines(sections) + Span(s.startLine, s.endLine)
    {
      var t :| t in sections + {s} && Spans(t, line);
      if t != s {
        LinesIntro(sections, t, line);
      }
    }
    forall line | line in Lines(sections) + Span(s.startLine, s.endLine)
      ensures line in Lines(sections + {s})
    {
      if line in Lines(sections) {
        var t :| t in sections && Spans(t, line);
        LinesIntro(sections + {s}, t, line);
      } else {
        LinesIntro(sections + {s}, s, line);
      }
    }
  }

  /** A single section projects onto its own span, of size `endLine - startLine + 1`
      when the span is not inverted and of size zero otherwise. */
  lemma SingleSectionLines(s: SourceSection)
    ensures Lines({s}) == Span(s.startLine, s.endLine)
    ensures |Lines({s})| == if s.startLine <= s.endLine then s.endLine - s.startLine + 1 else 0
  {
    LinesInsert({}, s);
    assert {} + {s} == {s};
    SpanSize(s.startLine, s.endLine);
  }

  /** No section, no line. */
  lemma LinesEmpty()
    ensures Lines({}) == {}
  {
  }

  /** A section with an inverted span contributes no line to any projection. */
  lemma InvertedSectionAddsNoLines(sections: set<SourceSection>, s: SourceSection)
    requires s.endLine < s.startLine
    ensures Lines(sections + {s}) == Lines(sections)
  {
    LinesInsert(sections, s);
    assert Span(s.startLine, s.endLine) == {};
  }

  /** The projection distributes over union. */
  lemma LinesUnion(a: set<SourceSection>, b: set<SourceSection>)
    ensures Lines(a + b) == Lines(a) + Lines(b)
  {
    forall line | line in Lines(a + b)
      ensures line in Lines(a) + Lines(b)
    {
      var t :| t in a + b && Spans(t, line);
      if t in a {
        LinesIntro(a, t, line);
      } else {
        LinesIntro(b, t, line);
      }
    }
  }

  /** The projection is monotone: more sections never span fewer lines. */
  lemma LinesMonotone(a: set<SourceSection>, b: set<SourceSection>)
    requires a <= b
    ensures Lines(a) <= Lines(b)
  {
    LinesUnion(a, b - a);
    assert a + (b - a) == b;
  }

  /** The lines of the loaded-but-not-covered sections: what
      `nonCoveredLineNumbers` and `nonCoveredRootLineNumbers` compute. */
  function NonCoveredLines(loaded: set<SourceSection>, covered: set<SourceSection>): set<int>
  {
    Lines(loaded - covered)
  }

  /** Non-covered lines are loaded lines, and every loaded line that no covered
      section spans is a non-covered line. A loaded line spanned by some covered
      section can still be non-covered, when an uncovered section spans it too. */
  lemma NonCoveredBounds(loaded: set<SourceSection>, covered: set<SourceSection>)
    ensures NonCoveredLines(loaded, covered) <= Lines(loaded)
    ensures Lines(loaded) - Lines(covered) <= NonCoveredLines(loaded, covered)
  {
    LinesMonotone(loaded - covered, loaded);
    forall line | line in Lines(loaded) - Lines(covered)
      ensures line in Lines(loaded - covered)
    {
      var t :| t in loaded && Spans(t, line);
      if t in covered {
        LinesIntro(covered, t, line);
      } else {
        LinesIntro(loaded - covered, t, line);
      }
    }
  }

  /** The lines that the complement technique counts as covered are exactly the
      loaded lines every one of whose loaded sections is covered. */
  lemma ComplementCoveredLines(loaded: set<SourceSection>, covered: set<SourceSection>, line: int)
    ensures line in Lines(loaded) - NonCoveredLines(loaded, covered)
        <==> (exists s :: s in loaded && Spans(s, line)) &&
             (forall s :: s in loaded && Spans(s, line) ==> s in covered)
  {
    if line in Lines(loaded) - NonCoveredLines(loaded, covered) {
      forall s | s in loaded && Spans(s, line)
        ensures s in covered
      {
        if s !in covered {
          LinesIntro(loaded - covered, s, line);
        }
      }
    }
    if (exists s :: s in loaded && Spans(s, line)) &&
       (forall s :: s in loaded && Spans(s, line) ==> s in covered) {
      var s :| s in loaded && Spans(s, line);
      LinesIntro(loaded, s, line);
    }
  }

  /** When covered sections are also loaded, covered lines are loaded lines. */
  lemma CoveredLinesWithinLoaded(loaded: set<SourceSection>, covered: set<SourceSection>)
    requires covered <= loaded
    ensures Lines(covered) <= Lines(loaded)
  {
    LinesMonotone(covered, loaded);
  }

  /** Without that caller discipline, covered lines need not be loaded lines:
      a covered section that was never loaded. */
  lemma CoveredLinesCanEscapeLoaded()
    ensures !(Lines({SourceSection(Source(0), 0, 1, 1, 1)}) <= Lines({}))
  {
    LinesIntro({SourceSection(Source(0), 0, 1, 1, 1)}, SourceSection(Source(0), 0, 1, 1, 1), 1);
  }

  /** Overlapping sections: loaded {1-3, 3-5}, covered {1-3}. Line 3 is spanned by
      the uncovered section 3-5, so it is non-covered although the covered
      section 1-3 spans it too; a naive loaded-minus-covered gives {4, 5}. */
  lemma OverlapNonCoveredLines(u: Source)
    ensures NonCoveredLines({SourceSection(u, 0, 20, 1, 3), SourceSection(u, 10, 30, 3, 5)}, {SourceSection(u, 0, 20, 1, 3)}) == {3, 4, 5}
    ensures Lines({SourceSection(u, 0, 20, 1, 3), SourceSection(u, 10, 30, 3, 5)}) - Lines({SourceSection(u, 0, 20, 1, 3)}) == {4, 5}
  {
    var a, b := SourceSection(u, 0, 20, 1, 3), SourceSection(u, 10, 30, 3, 5);
    assert {a, b} - {a} == {b};
    SingleSectionLines(b);
    SpanOfThree(3);
    LinesInsert({a}, b);
    assert {a} + {b} == {a, b};
    SingleSectionLines(a);
    SpanOfThree(1);
    assert Lines({a, b}) == {1, 2, 3} + {3, 4, 5};
  }

  lemma SpanOfThree(lo: int)
    ensures Span(lo, lo + 2) == {lo, lo + 1, lo + 2}
  {
  }

  /** Two statements on one line at different columns are two sections: loaded
      {a, b} with only `a` covered leaves line 1 non-covered, though the covered
      section `a` spans it. */
  lemma SameLineSectionsStayApart(u: Source)
    ensures |{SourceSection(u, 0, 5, 1, 1), SourceSection(u, 6, 5, 1, 1)}| == 2
    ensures NonCoveredLines({SourceSection(u, 0, 5, 1, 1), SourceSection(u, 6, 5, 1, 1)}, {SourceSection(u, 0, 5, 1, 1)}) == {1}
  {
    var a, b := SourceSection(u, 0, 5, 1, 1), SourceSection(u, 6, 5, 1, 1);
    assert {a, b} - {a} == {b};
    SingleSectionLines(b);
    assert Span(1, 1) == {1} by {
      SpanExtend(1, 1);
    }
  }
}
