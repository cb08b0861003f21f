# Truffle coverage store, modelled in Dafny

This project models `Coverage.java` of the Truffle code-coverage tool. It is the
in-memory store that code-coverage bookkeeping writes to.

- `Coverage.PerSource` holds four sets of source sections for one source:
  loaded statements, loaded roots, covered statements and covered roots. It
  derives three ratios and six line-number projections from them.
- `Coverage` maps each source to its `PerSource`. It creates an entry the first
  time a section of that source is reported. Its read-only copy is what
  reporting reads.

Files:

- `sections.dfy`, module `Sections`:
  - the value types `Source` and `SourceSection`;
  - `Lines`, the reference definition of the line projection: every line that
    some section spans, with inclusive bounds;
  - lemmas about `Lines`: its size, union, monotonicity, inverted sections,
    the complement technique, and the overlap example.
- `coverage.dfy`, module `TruffleCoverage`:
  - class `PerSource`: four `set` fields and a `readOnly` flag. It has the
    nested-loop `StatementsToLineNumbers`, the six projections, the three
    ratios and `ReadOnlyCopy`.
  - class `Coverage`: a `map<Source, PerSource>` field and a `readOnly` flag.
    It has `EnsureEntryExists` (`computeIfAbsent`), the four `Add*` mutators
    and `ReadOnlyCopy`.
  - The abstract value of a store is `Contents()`, a map from each source to a
    `SectionSets` value. Every `Add*` is specified against the pure function
    `Record`; `EnsureEntryExists` against `EntryOrEmpty`, and `PerSource.Insert`
    against `SectionSets.Insert`.

Ratios are integer pairs. `Quotient(numerator, denominator)` is returned when
the denominator is non-zero, and `Undefined` where Java's `double` division
would give NaN or an infinity.

A mutation on a read-only store or entry returns `Fail(UnsupportedOperation)`
and changes nothing. This is the model of Java's `UnsupportedOperationException`.
The JDK's unmodifiable map rejects `computeIfAbsent` even for a key that is
present. So every `Add*` on a read-only copy fails.

Points where the code's behaviour is easy to misread:

- `readOnlyCopy` copies only the outer map. Each entry of the copy wraps the
  live sets of the original (Coverage.java:122-128), so sections later added
  to a source the copy already has show through it. The model's copy is a
  full snapshot instead (see "## Left out"). What the model does share with
  the code is that a source first recorded after the copy is absent from it
  (`CopyMissesLaterSources`).
- The code does not check that covered sections were loaded. Covered lines
  are within loaded lines only under that caller discipline
  (`CoveredLinesWithinLoaded`); `CoveredLinesCanEscapeLoaded` is a
  counterexample without it.
- The code accepts a section with `endLine < startLine` silently. Such a
  section adds no line (`InvertedSectionAddsNoLines`).

## Model

| member | source | states |
|---|---|---|
| `Sections.SpanSize` | tools/src/com.oracle.truffle.tools.coverage/src/com/oracle/truffle/tools/coverage/Coverage.java:133-135 | the inner loop's run `startLine..endLine` has `endLine - startLine + 1` lines, or none when inverted |
| `Sections.LinesInsert` | tools/src/com.oracle.truffle.tools.coverage/src/com/oracle/truffle/tools/coverage/Coverage.java:132-136 | one more section adds exactly its own span to the projection (one outer iteration) |
| `Sections.LinesMembership` | tools/src/com.oracle.truffle.tools.coverage/src/com/oracle/truffle/tools/coverage/Coverage.java:130-138 | a line is in the projection iff some section spans it |
| `Sections.SingleSectionLines` | tools/src/com.oracle.truffle.tools.coverage/src/com/oracle/truffle/tools/coverage/Coverage.java:133-135 | a single section projects onto its own span, of size `endLine - startLine + 1` or zero |
| `Sections.LinesEmpty` | tools/src/com.oracle.truffle.tools.coverage/src/com/oracle/truffle/tools/coverage/Coverage.java:130-138 | the projection of no section is empty: the outer loop never runs |
| `Sections.InvertedSectionAddsNoLines` | tools/src/com.oracle.truffle.tools.coverage/src/com/oracle/truffle/tools/coverage/Coverage.java:130-138 | a section with `endLine < startLine` adds no line |
| `Sections.LinesUnion` | tools/src/com.oracle.truffle.tools.coverage/src/com/oracle/truffle/tools/coverage/Coverage.java:130-138 | the projection of a union is the union of the projections |
| `Sections.LinesMonotone` | tools/src/com.oracle.truffle.tools.coverage/src/com/oracle/truffle/tools/coverage/Coverage.java:130-138 | more sections never span fewer lines |
| `Sections.NonCoveredBounds` | tools/src/com.oracle.truffle.tools.coverage/src/com/oracle/truffle/tools/coverage/Coverage.java:70-75 | non-covered lines are loaded lines, and every loaded line no covered section spans is non-covered |
| `Sections.ComplementCoveredLines` | tools/src/com.oracle.truffle.tools.coverage/src/com/oracle/truffle/tools/coverage/Coverage.java:48-52 | a line counts as covered by the complement technique iff it is loaded and every loaded section spanning it is covered |
| `Sections.CoveredLinesWithinLoaded` | tools/src/com.oracle.truffle.tools.coverage/src/com/oracle/truffle/tools/coverage/Coverage.java:77-83 | if covered sections are loaded, covered lines are loaded lines |
| `Sections.CoveredLinesCanEscapeLoaded` | tools/src/com.oracle.truffle.tools.coverage/src/com/oracle/truffle/tools/coverage/Coverage.java:77-83 | without that discipline, a covered line need not be loaded (a never-loaded covered section) |
| `Sections.OverlapNonCoveredLines` | tools/src/com.oracle.truffle.tools.coverage/src/com/oracle/truffle/tools/coverage/Coverage.java:70-75 | loaded {1-3, 3-5}, covered {1-3}: non-covered lines are {3, 4, 5}, while loaded minus covered lines is {4, 5} |
| `Sections.SameLineSectionsStayApart` | tools/src/com.oracle.truffle.tools.coverage/src/com/oracle/truffle/tools/coverage/Coverage.java:70-75 | two statements on one line with different character ranges are two sections; with only one covered, their line stays non-covered |
| `TruffleCoverage.PerSource.StatementsToLineNumbers` | tools/src/com.oracle.truffle.tools.coverage/src/com/oracle/truffle/tools/coverage/Coverage.java:130-138 | the nested loops return exactly the lines some section spans (`Lines`) |
| `TruffleCoverage.PerSource.NonCoveredLineNumbers` | tools/src/com.oracle.truffle.tools.coverage/src/com/oracle/truffle/tools/coverage/Coverage.java:70-75 | the lines of `loaded - covered` statements; within the loaded lines; containing every loaded line no covered statement spans |
| `TruffleCoverage.PerSource.CoveredLineNumbers` | tools/src/com.oracle.truffle.tools.coverage/src/com/oracle/truffle/tools/coverage/Coverage.java:77-79 | the lines of the covered statements; loaded lines when covered statements are loaded |
| `TruffleCoverage.PerSource.LoadedLineNumbers` | tools/src/com.oracle.truffle.tools.coverage/src/com/oracle/truffle/tools/coverage/Coverage.java:81-83 | the lines of the loaded statements |
| `TruffleCoverage.PerSource.CoveredRootLineNumbers` | tools/src/com.oracle.truffle.tools.coverage/src/com/oracle/truffle/tools/coverage/Coverage.java:85-87 | the lines of the covered roots; loaded root lines when covered roots are loaded |
| `TruffleCoverage.PerSource.LoadedRootLineNumbers` | tools/src/com.oracle.truffle.tools.coverage/src/com/oracle/truffle/tools/coverage/Coverage.java:89-91 | the lines of the loaded roots |
| `TruffleCoverage.PerSource.NonCoveredRootLineNumbers` | tools/src/com.oracle.truffle.tools.coverage/src/com/oracle/truffle/tools/coverage/Coverage.java:93-98 | the lines of `loaded - covered` roots, bounded as for statements |
| `TruffleCoverage.PerSource.RootCoverage` | tools/src/com.oracle.truffle.tools.coverage/src/com/oracle/truffle/tools/coverage/Coverage.java:40-42 | undefined iff no root is loaded; otherwise covered over loaded, and when covered roots are loaded it lies in [0, 1], is 1 iff all loaded roots are covered and 0 iff none is |
| `TruffleCoverage.PerSource.StatementCoverage` | tools/src/com.oracle.truffle.tools.coverage/src/com/oracle/truffle/tools/coverage/Coverage.java:44-46 | the same guarantees for statements |
| `TruffleCoverage.PerSource.LineCoverage` | tools/src/com.oracle.truffle.tools.coverage/src/com/oracle/truffle/tools/coverage/Coverage.java:48-52 | undefined iff no loaded line; the numerator `loaded - nonCovered` counts the loaded lines outside the non-covered ones, lies in [0, denominator] unconditionally, and equals it iff there is no non-covered line |
| `TruffleCoverage.PerSource.Insert` | tools/src/com.oracle.truffle.tools.coverage/src/com/oracle/truffle/tools/coverage/Coverage.java:155-169 | `add` on one of the four sets: fails on a read-only entry and changes nothing; otherwise inserts into that set only |
| `TruffleCoverage.PerSource.constructor` | tools/src/com.oracle.truffle.tools.coverage/src/com/oracle/truffle/tools/coverage/Coverage.java:108-113 | a new entry has four empty, modifiable sets |
| `TruffleCoverage.PerSource.Unmodifiable` | tools/src/com.oracle.truffle.tools.coverage/src/com/oracle/truffle/tools/coverage/Coverage.java:115-120 | an entry over the given sets, read-only |
| `TruffleCoverage.PerSource.ReadOnlyCopy` | tools/src/com.oracle.truffle.tools.coverage/src/com/oracle/truffle/tools/coverage/Coverage.java:122-128 | a new read-only entry with the same four sets |
| `TruffleCoverage.SectionSets.Insert` | tools/src/com.oracle.truffle.tools.coverage/src/com/oracle/truffle/tools/coverage/Coverage.java:155-169 | inserting puts the section into exactly one of the four sets and leaves the other three unchanged |
| `TruffleCoverage.Fraction` | tools/src/com.oracle.truffle.tools.coverage/src/com/oracle/truffle/tools/coverage/Coverage.java:40-46 | a ratio is defined iff its denominator is non-zero |
| `TruffleCoverage.Record` | tools/src/com.oracle.truffle.tools.coverage/src/com/oracle/truffle/tools/coverage/Coverage.java:155-173 | the key set becomes old keys plus the section's source; that entry (empty if new) gains the section in one set; every other entry is unchanged |
| `TruffleCoverage.RecordIdempotent` | tools/src/com.oracle.truffle.tools.coverage/src/com/oracle/truffle/tools/coverage/Coverage.java:155-169 | recording the same section twice equals recording it once |
| `TruffleCoverage.RecordKeepsOwned` | tools/src/com.oracle.truffle.tools.coverage/src/com/oracle/truffle/tools/coverage/Coverage.java:171-173 | every entry keeps holding only sections of its own source |
| `TruffleCoverage.Coverage.constructor` | tools/src/com.oracle.truffle.tools.coverage/src/com/oracle/truffle/tools/coverage/Coverage.java:147-149 | a new store is empty and modifiable |
| `TruffleCoverage.Coverage.Frozen` | tools/src/com.oracle.truffle.tools.coverage/src/com/oracle/truffle/tools/coverage/Coverage.java:151-153 | a read-only store over the given read-only entries |
| `TruffleCoverage.Coverage.EnsureEntryExists` | tools/src/com.oracle.truffle.tools.coverage/src/com/oracle/truffle/tools/coverage/Coverage.java:171-173 | fails on a read-only store; otherwise the key set becomes old keys plus the source, an existing entry is returned unchanged, and a missing one is created fresh with four empty sets |
| `TruffleCoverage.Coverage.Add` | tools/src/com.oracle.truffle.tools.coverage/src/com/oracle/truffle/tools/coverage/Coverage.java:155-173 | fails and changes nothing on a read-only store; otherwise the new contents are `Record` of the old; every entry afterwards is either the same object as before or a new one, so calls can follow one another |
| `TruffleCoverage.Coverage.AddCoveredStatement` | tools/src/com.oracle.truffle.tools.coverage/src/com/oracle/truffle/tools/coverage/Coverage.java:155-157 | as `Add`, into the covered statements: the contents become `Record` of the old, and each entry is the old object or a new one |
| `TruffleCoverage.Coverage.AddCoveredRoot` | tools/src/com.oracle.truffle.tools.coverage/src/com/oracle/truffle/tools/coverage/Coverage.java:159-161 | as `Add`, into the covered roots: the contents become `Record` of the old, and each entry is the old object or a new one |
| `TruffleCoverage.Coverage.AddLoadedStatement` | tools/src/com.oracle.truffle.tools.coverage/src/com/oracle/truffle/tools/coverage/Coverage.java:163-165 | as `Add`, into the loaded statements: the contents become `Record` of the old, and each entry is the old object or a new one |
| `TruffleCoverage.Coverage.AddLoadedRoot` | tools/src/com.oracle.truffle.tools.coverage/src/com/oracle/truffle/tools/coverage/Coverage.java:167-169 | as `Add`, into the loaded roots: the contents become `Record` of the old, and each entry is the old object or a new one |
| `TruffleCoverage.Coverage.ReadOnlyCopy` | tools/src/com.oracle.truffle.tools.coverage/src/com/oracle/truffle/tools/coverage/Coverage.java:175-181 | a new read-only store with the same key set and, per source, the same four sets at copy time; every `Add*` on it fails |
| `TruffleCoverage.Coverage.CopyEntries` | tools/src/com.oracle.truffle.tools.coverage/src/com/oracle/truffle/tools/coverage/Coverage.java:176-179 | the copy loop: a new map with the same keys, each entry a new read-only entry with the same sets |
| `TruffleCoverage.AddTwiceIsOnce` | tools/src/com.oracle.truffle.tools.coverage/src/com/oracle/truffle/tools/coverage/Coverage.java:155-173 | two identical `Add` calls in a row give the same outcome and leave the store as one call does (`RecordIdempotent` at the call level) |
| `TruffleCoverage.CopyMissesLaterSources` | tools/src/com.oracle.truffle.tools.coverage/src/com/oracle/truffle/tools/coverage/Coverage.java:176-180 | a source first recorded in the live store after the copy is in the live store and absent from the copy |

## Left out

- Floating-point division: ratios are integer pairs. NaN and the infinities are one `Undefined` result.
- `Source` and `SourceSection` internals: a source is an opaque id. A section is its source, its character index and length, and two integer lines. Columns and the text are not modelled.
- `PerSource.ReadOnlyCopy` and `Coverage.ReadOnlyCopy`: the model's copy is a full snapshot, which the code's copy is not. In the code each entry of the copy wraps the live sets of the original, so a section added later to a source the copy already has shows through the copy. In the model the copy's entries are fresh objects holding the set values of copy time, and `Add`'s frame lets a client prove that the copy's `Contents()` stays unchanged after any later `Add*` on the original.
- The getters `getLoadedStatements`, `getLoadedRoots`, `getCoveredStatements`, `getCoveredRoots` and `getCoverage`: the model's fields are public. Mutation through a returned live set is not modelled, beyond `PerSource.Insert` failing on a read-only entry.
- Integer width: line numbers are unbounded. The Java loop `i <= getEndLine()` would not stop for `endLine == Integer.MAX_VALUE`.
- Hash iteration order: the loops pick any remaining element. The results do not depend on the order.
- Concurrency: the code uses an unsynchronised `HashMap` and `HashSet`, so there is nothing concurrent to model.
- The instrumentation that calls the `Add*` methods and the report rendering are not part of this model.
