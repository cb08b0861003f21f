/**
 * The in-memory coverage store of the Truffle coverage tool.
 *
 * `Coverage` maps each source to a `PerSource` entry holding four sets of
 * sections: loaded statements, loaded roots, covered statements and covered
 * roots. The instrumentation feeds the store through the four `Add*` methods;
 * reporting reads a read-only copy and asks each entry for its ratios and line
 * projections.
 */
module TruffleCoverage {
  import opened Sections

  /** The one way a mutation can fail: the map or set it targets is unmodifiable. */
  datatype Error = UnsupportedOperation

  datatype Outcome = Pass | Fail(error: Error)

  datatype Result<T> = Success(value: T) | Failure(error: Error)

  /** A coverage ratio as the integer pair the floating-point division is made
      of; `Undefined` stands for a zero denominator (NaN or an infinity). */
  datatype Ratio = Quotient(numerator: int, denominator: int) | Undefined

  function Fraction(part: int, whole: int): (r: Ratio)
    ensures r.Quotient? <==> whole != 0
  {
    if whole == 0 then Undefined else Quotient(part, whole)
  }

  /** A part of a finite set is no larger than the set, and as large only when it is the set. */
  lemma SubsetSize<T>(part: set<T>, whole: set<T>)
    ensures part <= whole ==> |part| <= |whole|
    ensures part <= whole ==> (|part| == |whole| <==> part == whole)
    ensures |part| == 0 <==> part == {}
  {
    if part <= whole {
      assert whole == part + (whole - part);
      assert |whole| == |part| + |whole - part|;
      if |part| == |whole| {
        assert |whole - part| == 0;
        assert whole - part == {};
      }
    }
  }

  /** The four sets a `PerSource` holds. */
  datatype Kind = LoadedStatement | LoadedRoot | CoveredStatement | CoveredRoot

  /** The contents of one `PerSource` entry, as a value. */
  datatype SectionSets = SectionSets(
    loadedStatements: set<SourceSection>,
    loadedRoots: set<SourceSection>,
    coveredStatements: set<SourceSection>,
    coveredRoots: set<SourceSection>)
  {
    function Get(kind: Kind): set<SourceSection>
    {
      match kind
      case LoadedStatement => loadedStatements
      case LoadedRoot => loadedRoots
      case CoveredStatement => coveredStatements
      case CoveredRoot => coveredRoots
    }

    /** Insert `section` into the set `kind` names; the other three stay as they are. */
    function Insert(kind: Kind, section: SourceSection): (r: SectionSets)
      ensures r.Get(kind) == Get(kind) + {section}
      ensures forall other :: other != kind ==> r.Get(other) == Get(other)
    {
      match kind
      case LoadedStatement => this.(loadedStatements := loadedStatements + {section})
      case LoadedRoot => this.(loadedRoots := loadedRoots + {section})
      case CoveredStatement => this.(coveredStatements := coveredStatements + {section})
      case CoveredRoot => this.(coveredRoots := coveredRoots + {section})
    }

    /** Every section held belongs to source `src`. */
    predicate BelongTo(src: Source)
    {
      forall kind, s :: s in Get(kind) ==> s.source == src
    }
  }

  const NoSections := SectionSets({}, {}, {}, {})

  function EntryOrEmpty(m: map<Source, SectionSets>, src: Source): SectionSets
  {
    if src in m then m[src] else NoSections
  }

  /** The store's contents after recording `section` in the set `kind` names:
      the entry for the section's source is found or created empty, and the
      section is inserted into one of its sets. */
  function Record(m: map<Source, SectionSets>, kind: Kind, section: SourceSection): (r: map<Source, SectionSets>)
    ensures r.Keys == m.Keys + {section.source}
    ensures section.source !in m ==> r[section.source] == NoSections.Insert(kind, section)
    ensures section.source in m ==> r[section.source] == m[section.source].Insert(kind, section)
    ensures forall src :: src in m && src != section.source ==> r[src] == m[src]
  {
    m[section.source := EntryOrEmpty(m, section.source).Insert(kind, section)]
  }

  /** Finding or creating the entry and then inserting into it is recording. */
  lemma RecordAfterEnsure(m: map<Source, SectionSets>, kind: Kind, section: SourceSection)
    ensures var e := m[section.source := EntryOrEmpty(m, section.source)];
            e[section.source := e[section.source].Insert(kind, section)] == Record(m, kind, section)
  {
  }

  /** Inserting a section of `src` into an entry holding only sections of `src`
      keeps it so. */
  lemma InsertKeepsBelongTo(e: SectionSets, kind: Kind, section: SourceSection)
    requires e.BelongTo(section.source)
    ensures e.Insert(kind, section).BelongTo(section.source)
  {
    var r := e.Insert(kind, section);
    forall k, s | s in r.Get(k)
      ensures s.source == section.source
    {
      if k != kind || s != section {
        assert s in e.Get(k);
      }
    }
  }

  /** Every entry holds only sections of its own source. */
  predicate Owned(m: map<Source, SectionSets>)
  {
    forall src :: src in m ==> m[src].BelongTo(src)
  }

  /** Recording keeps every section in the entry of its own source. */
  lemma RecordKeepsOwned(m: map<Source, SectionSets>, kind: Kind, section: SourceSection)
    requires Owned(m)
    ensures Owned(Record(m, kind, section))
  {
    var r := Record(m, kind, section);
    forall src | src in r
      ensures r[src].BelongTo(src)
    {
      if src == section.source {
        InsertKeepsBelongTo(EntryOrEmpty(m, src), kind, section);
      }
    }
  }

  /** Recording the same section twice is the same as recording it once: the
      four collections are sets, not multisets. */
  lemma RecordIdempotent(m: map<Source, SectionSets>, kind: Kind, section: SourceSection)
    ensures Record(Record(m, kind, section), kind, section) == Record(m, kind, section)
  {
    var once := Record(m, kind, section);
    var e := once[section.source];
    assert e.Get(kind) + {section} == e.Get(kind);
    assert e.Insert(kind, section) == e;
  }

  /** Per-source coverage: the four sets, the line projections and the ratios. */
  class PerSource {
    var loadedStatements: set<SourceSection>
    var loadedRoots: set<SourceSection>
    var coveredStatements: set<SourceSection>
    var coveredRoots: set<SourceSection>
    /** Set for an entry of a read-only copy, whose four sets are wrapped unmodifiable. */
    const readOnly: bool
    /** The source the store files this entry under (proof bookkeeping only). */
    ghost const key: Source

    /** A fresh entry with four empty, modifiable sets. */
    constructor (ghost key: Source)
      ensures Sets() == NoSections && !readOnly && this.key == key
    {
      this.key := key;
      loadedStatements, loadedRoots := {}, {};
      coveredStatements, coveredRoots := {}, {};
      readOnly := false;
    }

    /** An entry over four unmodifiable sets. */
    constructor Unmodifiable(ghost key: Source,
                             loadedStatements: set<SourceSection>, loadedRoots: set<SourceSection>,
                             coveredStatements: set<SourceSection>, coveredRoots: set<SourceSection>)
      ensures Sets() == SectionSets(loadedStatements, loadedRoots, coveredStatements, coveredRoots)
      ensures readOnly && this.key == key
    {
      this.key := key;
      this.loadedStatements, this.loadedRoots := loadedStatements, loadedRoots;
      this.coveredStatements, this.coveredRoots := coveredStatements, coveredRoots;
      readOnly := true;
    }

    function Sets(): SectionSets
      reads this
    {
      SectionSets(loadedStatements, loadedRoots, coveredStatements, coveredRoots)
    }

    /** `Set.add` on one of the four sets: rejected when the set is unmodifiable. */
    method Insert(kind: Kind, section: SourceSection) returns (outcome: Outcome)
      modifies this
      ensures outcome == if readOnly then Fail(UnsupportedOperation) else Pass
      ensures Sets() == if readOnly then old(Sets()) else old(Sets()).Insert(kind, section)
    {
      if readOnly {
        return Fail(UnsupportedOperation);
      }
      match kind {
        case LoadedStatement => loadedStatements := loadedStatements + {section};
        case LoadedRoot => loadedRoots := loadedRoots + {section};
        case CoveredStatement => coveredStatements := coveredStatements + {section};
        case CoveredRoot => coveredRoots := coveredRoots + {section};
      }
      outcome := Pass;
    }

    /** Covered roots over loaded roots: undefined when no root is loaded; when
        every covered root is loaded, a ratio in [0, 1] that is 1 exactly when
        every loaded root is covered and 0 exactly when none is. */
    function RootCoverage(): (r: Ratio)
      reads this
      ensures r.Undefined? <==> loadedRoots == {}
      ensures r.Quotient? ==> r.numerator == |coveredRoots| && r.denominator == |loadedRoots|
      ensures r.Quotient? && coveredRoots <= loadedRoots ==>
                0 <= r.numerator <= r.denominator &&
                (r.numerator == r.denominator <==> coveredRoots == loadedRoots) &&
                (r.numerator == 0 <==> coveredRoots == {})
    {
      SubsetSize(coveredRoots, loadedRoots);
      Fraction(|coveredRoots|, |loadedRoots|)
    }

    /** Covered statements over loaded statements, with the same guarantees as
        `RootCoverage`. */
    function StatementCoverage(): (r: Ratio)
      reads this
      ensures r.Undefined? <==> loadedStatements == {}
      ensures r.Quotient? ==> r.numerator == |coveredStatements| && r.denominator == |loadedStatements|
      ensures r.Quotient? && coveredStatements <= loadedStatements ==>
                0 <= r.numerator <= r.denominator &&
                (r.numerator == r.denominator <==> coveredStatements == loadedStatements) &&
                (r.numerator == 0 <==> coveredStatements == {})
    {
      SubsetSize(coveredStatements, loadedStatements);
      Fraction(|coveredStatements|, |loadedStatements|)
    }

    /** Line coverage by the complement technique: the loaded lines minus the
        lines of loaded-but-uncovered statements, over the loaded lines. The
        numerator counts the loaded lines whose every loaded statement is
        covered; it lies in [0, denominator], whether or not covered statements
        were loaded. */
    method LineCoverage() returns (r: Ratio)
      ensures r.Undefined? <==> Lines(loadedStatements) == {}
      ensures r.Quotient? ==>
                r.denominator == |Lines(loadedStatements)| &&
                r.numerator == |Lines(loadedStatements) - NonCoveredLines(loadedStatements, coveredStatements)|
      ensures r.Quotient? ==> 0 <= r.numerator <= r.denominator
      ensures r.Quotient? ==> (r.numerator == r.denominator <==> NonCoveredLines(loadedStatements, coveredStatements) == {})
    {
      var loaded := LoadedLineNumbers();
      var nonCovered := NonCoveredLineNumbers();
      SubsetSize(nonCovered, loaded);
      assert loaded == nonCovered + (loaded - nonCovered);
      r := Fraction(|loaded| - |nonCovered|, |loaded|);
    }

    /** Lines of the loaded statements that are not covered. Every loaded line
        that no covered statement spans is among them, and they are all loaded lines. */
    method NonCoveredLineNumbers() returns (lines: set<int>)
      ensures lines == Lines(loadedStatements - coveredStatements)
      ensures lines <= Lines(loadedStatements)
      ensures Lines(loadedStatements) - Lines(coveredStatements) <= lines
    {
      var nonCoveredSections := loadedStatements - coveredStatements;
      lines := StatementsToLineNumbers(nonCoveredSections);
      NonCoveredBounds(loadedStatements, coveredStatements);
    }

    method CoveredLineNumbers() returns (lines: set<int>)
      ensures lines == Lines(coveredStatements)
      ensures coveredStatements <= loadedStatements ==> lines <= Lines(loadedStatements)
    {
      lines := StatementsToLineNumbers(coveredStatements);
      if coveredStatements <= loadedStatements {
        CoveredLinesWithinLoaded(loadedStatements, coveredStatements);
      }
    }

    method LoadedLineNumbers() returns (lines: set<int>)
      ensures lines == Lines(loadedStatements)
    {
      lines := StatementsToLineNumbers(loadedStatements);
    }

    method CoveredRootLineNumbers() returns (lines: set<int>)
      ensures lines == Lines(coveredRoots)
      ensures coveredRoots <= loadedRoots ==> lines <= Lines(loadedRoots)
    {
      lines := StatementsToLineNumbers(coveredRoots);
      if coveredRoots <= loadedRoots {
        CoveredLinesWithinLoaded(loadedRoots, coveredRoots);
      }
    }

    method LoadedRootLineNumbers() returns (lines: set<int>)
      ensures lines == Lines(loadedRoots)
    {
      lines := StatementsToLineNumbers(loadedRoots);
    }

    /** Lines of the loaded roots that are not covered, bounded as for statements. */
    method NonCoveredRootLineNumbers() returns (lines: set<int>)
      ensures lines == Lines(loadedRoots - coveredRoots)
      ensures lines <= Lines(loadedRoots)
      ensures Lines(loadedRoots) - Lines(coveredRoots) <= lines
    {
      var nonCoveredSections := loadedRoots - coveredRoots;
      lines := StatementsToLineNumbers(nonCoveredSections);
      NonCoveredBounds(loadedRoots, coveredRoots);
    }

    /** A read-only entry with the same four sets. */
    method ReadOnlyCopy() returns (copy: PerSource)
      ensures fresh(copy) && copy.readOnly && copy.key == key
      ensures copy.Sets() == Sets()
    {
      copy := new PerSource.Unmodifiable(key, loadedStatements, loadedRoots, coveredStatements, coveredRoots);
    }

    /** Expands every section into the lines of its inclusive span, one line at
        a time, and unions the results: exactly the lines some section spans. */
    static method StatementsToLineNumbers(sourceSections: set<SourceSection>) returns (lines: set<int>)
      ensures lines == Lines(sourceSections)
      ensures forall line :: line in lines <==> exists s :: s in sourceSections && Spans(s, line)
    {
      lines := {};
      var todo := sourceSections;
      while todo != {}
        invariant todo <= sourceSections
        invariant lines == Lines(sourceSections - todo)
        decreases |todo|
      {
        var ss :| ss in todo;
        var i := ss.startLine;
        while i <= ss.endLine
          invariant ss.startLine <= i && (i <= ss.endLine + 1 || i == ss.startLine)
          invariant lines == Lines(sourceSections - todo) + Span(ss.startLine, i - 1)
        {
          SpanExtend(ss.startLine, i);
          lines := lines + {i};
          i := i + 1;
        }
        assert Span(ss.startLine, i - 1) == Span(ss.startLine, ss.endLine);
        LinesInsert(sourceSections - todo, ss);
        assert (sourceSections - todo) + {ss} == sourceSections - (todo - {ss});
        todo := todo - {ss};
      }
      assert sourceSections - todo == sourceSections;
      LinesMembership(sourceSections);
    }
  }

  /** The store: one `PerSource` per source, created on first reference. A
      read-only copy has an unmodifiable map whose entries are read-only. */
  class Coverage {
    var coverage: map<Source, PerSource>
    /** Set for a read-only copy, whose map is wrapped unmodifiable. */
    const readOnly: bool

    /** Every entry is filed under its own key, so distinct sources have
        distinct entries; every entry shares the store's read-only flag and
        holds only sections of its own source. */
    ghost predicate Valid()
      reads this, coverage.Values
    {
      forall src :: src in coverage ==>
        coverage[src].key == src && coverage[src].readOnly == readOnly && coverage[src].Sets().BelongTo(src)
    }

    /** The abstract value of the store: each source's four sets. */
    ghost function Contents(): map<Source, SectionSets>
      reads this, coverage.Values
    {
      map src | src in coverage :: coverage[src].Sets()
    }

    /** An empty, modifiable store. */
    constructor ()
      ensures Valid() && !readOnly
      ensures coverage == map[] && Contents() == map[]
    {
      coverage := map[];
      readOnly := false;
    }

    /** A read-only store over the given entries. */
    constructor Frozen(entries: map<Source, PerSource>)
      requires forall src :: src in entries ==>
                 entries[src].key == src && entries[src].readOnly && entries[src].Sets().BelongTo(src)
      ensures Valid() && readOnly
      ensures coverage == entries
    {
      coverage := entries;
      readOnly := true;
    }

    /** `computeIfAbsent` on the map: the entry for the section's source, created
        empty when absent. An unmodifiable map rejects the call, present key or not. */
    method EnsureEntryExists(section: SourceSection) returns (r: Result<PerSource>)
      requires Valid()
      modifies this
      ensures Valid()
      ensures readOnly ==> r == Failure(UnsupportedOperation) && coverage == old(coverage)
      ensures !readOnly ==> r.Success? && coverage == old(coverage)[section.source := r.value]
      ensures r.Success? ==> r.value.key == section.source && !r.value.readOnly
      ensures !readOnly && section.source in old(coverage) ==> r.value == old(coverage)[section.source]
      ensures !readOnly && section.source !in old(coverage) ==>
                fresh(r.value) && !r.value.readOnly && r.value.Sets() == NoSections
      ensures Contents() == if readOnly then old(Contents())
                            else old(Contents())[section.source := EntryOrEmpty(old(Contents()), section.source)]
    {
      if readOnly {
        return Failure(UnsupportedOperation);
      }
      var src := section.source;
      if src in coverage {
        r := Success(coverage[src]);
        assert Contents()[src := EntryOrEmpty(Contents(), src)] == Contents();
      } else {
        var entry := new PerSource(src);
        coverage := coverage[src := entry];
        r := Success(entry);
        assert Contents() == old(Contents())[src := NoSections];
      }
    }

    /** Find or create the entry for the section's source and insert the
        section into its set `kind`. */
    method Add(kind: Kind, section: SourceSection) returns (outcome: Outcome)
      requires Valid()
      modifies this, coverage.Values
      ensures Valid()
      ensures outcome == if readOnly then Fail(UnsupportedOperation) else Pass
      ensures readOnly ==> coverage == old(coverage)
      ensures forall src :: src in coverage ==>
                (src in old(coverage) && coverage[src] == old(coverage)[src]) || fresh(coverage[src])
      ensures Contents() == if readOnly then old(Contents()) else Record(old(Contents()), kind, section)
    {
      var entry := EnsureEntryExists(section);
      if entry.Failure? {
        return Fail(entry.error);
      }
      var target := entry.value;
      ghost var before := Contents();
      ghost var entries := coverage;
      assert target.key == section.source;
      outcome := target.Insert(kind, section);
      assert coverage == entries;
      InsertKeepsBelongTo(before[section.source], kind, section);
      forall src | src in coverage
        ensures Contents()[src] == before[section.source := before[section.source].Insert(kind, section)][src]
      {
        if src != section.source {
          assert coverage[src].key == src;
        }
      }
      RecordAfterEnsure(old(Contents()), kind, section);
    }

    /** Record that a statement was executed. */
    method AddCoveredStatement(section: SourceSection) returns (outcome: Outcome)
      requires Valid()
      modifies this, coverage.Values
      ensures Valid()
      ensures outcome == if readOnly then Fail(UnsupportedOperation) else Pass
      ensures readOnly ==> coverage == old(coverage)
      ensures forall src :: src in coverage ==>
                (src in old(coverage) && coverage[src] == old(coverage)[src]) || fresh(coverage[src])
      ensures Contents() == if readOnly then old(Contents()) else Record(old(Contents()), CoveredStatement, section)
    {
      outcome := Add(CoveredStatement, section);
    }

    /** Record that a root was executed. */
    method AddCoveredRoot(section: SourceSection) returns (outcome: Outcome)
      requires Valid()
      modifies this, coverage.Values
      ensures Valid()
      ensures outcome == if readOnly then Fail(UnsupportedOperation) else Pass
      ensures readOnly ==> coverage == old(coverage)
      ensures forall src :: src in coverage ==>
                (src in old(coverage) && coverage[src] == old(coverage)[src]) || fresh(coverage[src])
      ensures Contents() == if readOnly then old(Contents()) else Record(old(Contents()), CoveredRoot, section)
    {
      outcome := Add(CoveredRoot, section);
    }

    /** Record that a statement was loaded. */
    method AddLoadedStatement(section: SourceSection) returns (outcome: Outcome)
      requires Valid()
      modifies this, coverage.Values
      ensures Valid()
      ensures outcome == if readOnly then Fail(UnsupportedOperation) else Pass
      ensures readOnly ==> coverage == old(coverage)
      ensures forall src :: src in coverage ==>
                (src in old(coverage) && coverage[src] == old(coverage)[src]) || fresh(coverage[src])
      ensures Contents() == if readOnly then old(Contents()) else Record(old(Contents()), LoadedStatement, section)
    {
      outcome := Add(LoadedStatement, section);
    }

    /** Record that a root was loaded. */
    method AddLoadedRoot(section: SourceSection) returns (outcome: Outcome)
      requires Valid()
      modifies this, coverage.Values
      ensures Valid()
      ensures outcome == if readOnly then Fail(UnsupportedOperation) else Pass
      ensures readOnly ==> coverage == old(coverage)
      ensures forall src :: src in coverage ==>
                (src in old(coverage) && coverage[src] == old(coverage)[src]) || fresh(coverage[src])
      ensures Contents() == if readOnly then old(Contents()) else Record(old(Contents()), LoadedRoot, section)
    {
      outcome := Add(LoadedRoot, section);
    }

    /** A read-only store with the same sources and, for each, the same four
        sets; its map and every entry are new objects. */
    method ReadOnlyCopy() returns (copy: Coverage)
      requires Valid()
      ensures fresh(copy) && copy.Valid() && copy.readOnly
      ensures copy.coverage.Keys == coverage.Keys
      ensures forall src :: src in copy.coverage ==> fresh(copy.coverage[src])
      ensures copy.Contents() == Contents()
    {
      var coverageCopy := CopyEntries();
      copy := new Coverage.Frozen(coverageCopy);
      assert copy.Contents() == Contents() by {
        forall src | src in coverage
          ensures copy.Contents()[src] == Contents()[src]
        {
          assert copy.coverage[src] == coverageCopy[src];
        }
      }
    }

    /** The loop of `ReadOnlyCopy`: a new map holding a read-only copy of every entry. */
    method CopyEntries() returns (coverageCopy: map<Source, PerSource>)
      ensures coverageCopy.Keys == coverage.Keys
      ensures forall src :: src in coverageCopy ==>
                fresh(coverageCopy[src]) && coverageCopy[src].readOnly && coverageCopy[src].key == coverage[src].key &&
                coverageCopy[src].Sets() == coverage[src].Sets()
    {
      coverageCopy := map[];
      var remaining := coverage.Keys;
      while remaining != {}
        invariant remaining <= coverage.Keys
        invariant coverageCopy.Keys == coverage.Keys - remaining
        invariant forall src :: src in coverageCopy ==>
                    fresh(coverageCopy[src]) && coverageCopy[src].readOnly && coverageCopy[src].key == coverage[src].key &&
                    coverageCopy[src].Sets() == coverage[src].Sets()
        decreases |remaining|
      {
        var source :| source in remaining;
        var entry := coverage[source].ReadOnlyCopy();
        coverageCopy := coverageCopy[source := entry];
        remaining := remaining - {source};
      }
    }
  }

  /** Recording the same section twice in a row leaves the store as recording it
      once: a repeated event changes nothing. */
  method AddTwiceIsOnce(store: Coverage, kind: Kind, section: SourceSection)
      returns (first: Outcome, second: Outcome)
    requires store.Valid()
    modifies store, store.coverage.Values
    ensures store.Valid()
    ensures first == second
    ensures store.Contents() == if store.readOnly then old(store.Contents())
                                else Record(old(store.Contents()), kind, section)
  {
    first := store.Add(kind, section);
    second := store.Add(kind, section);
    if !store.readOnly {
      RecordIdempotent(old(store.Contents()), kind, section);
    }
  }

  /** Sources first recorded in the live store after a read-only copy was taken
      are absent from the copy: the copy's map was filled once, entry by entry,
      and nothing recorded later reaches it. */
  method CopyMissesLaterSources(store: Coverage, kind: Kind, section: SourceSection)
      returns (copy: Coverage, outcome: Outcome)
    requires store.Valid() && !store.readOnly
    modifies store, store.coverage.Values
    ensures copy.readOnly && copy.coverage.Keys == old(store.coverage.Keys)
    ensures outcome == Pass && section.source in store.coverage
    ensures section.source !in old(store.coverage) ==> section.source !in copy.coverage
  {
    copy := store.ReadOnlyCopy();
    outcome := store.Add(kind, section);
  }
}
