# MadReader in Dafny

A model of `MadReader`, the reader for the `unweighted_events.lhe` files that MadGraph
writes in the Les Houches Event File format. The reader works in three steps, each
guarded by the one before.

1. **Event block.** It cuts the event block out of the document. The block is the text
   between `</init>\n` and `\n</LesHouchesEvents>`.
2. **Event entries.** It splits the block into `<event>` entries.
3. **Momenta.** For every event, it reads the particle lines 1 to `multiplicity`, a
   13-column record each. It fills the table `momenta[slot][event] = [E, px, py, pz]`
   with the captured text. Given an output directory, it renders one CSV file per
   particle slot.

A separate static step, `extractCrossSections`, scans a MadGraph results page for
(cross section, uncertainty) pairs and renders them as a two-column CSV file.

## How the model is laid out

- **`MadRead.MadReader`** is a class with the reader's fields. The state changes just as
  in the source:
  - `eventBlock` and `eventEntries` are `Option` fields that start as `None`, which
    stands for Java's `null`.
  - `momenta` is a fresh `array3<string>`.
  - The loops are `while`/`for` loops proved against the specification functions below.
- **Regular expressions.** Each of the four patterns is written by hand as a matcher
  that follows Java's `find()` semantics:
  - the leftmost start position wins;
  - greedy and lazy quantifiers stop where the pattern forces them to;
  - a repeated `find()` resumes at the end of the previous match.
- **Files.** The document and the results page are string parameters. A written file
  is a `CsvFile(name, lines)` value that the method returns.
- **Failures.** Where the source throws, the model returns `Fail(...)` carrying a
  `Failure` that names the cause:
  - `group(1)` after a failed `find()` becomes `NoEventBlock`;
  - a step whose earlier step has not run becomes `BlockNotExtracted` or
    `EntriesNotIsolated`;
  - an out-of-bounds `lines[i]` becomes `LineIndexOutOfBounds(i, lines.length)`;
  - "Invalid kinematical entry of particle i" becomes `InvalidKinematicalEntry(i)`.

Modules:

| module | file | contents |
|---|---|---|
| `Wrappers` | wrappers.dfy | `Option`, `Result`, `Outcome` |
| `Text` | text.dfy | search, `String.split` and `String.join`, `trim`, decimal rendering |
| `Failures` | failures.dfy | the exceptions, as values |
| `Csv` | csv.dfy | files as lines, rows joined by commas |
| `EventBlock` | event_block.dfy | the `</init>\n(.*)\n</LesHouchesEvents>` match |
| `EventSplit` | event_split.dfy | the `<event>([^<>]+).*?</event>` matches and the entries |
| `ParticleLine` | particle_line.dfy | the 13-column particle-line pattern |
| `Kinematics` | kinematics.dfy | slot and event indexing of the momenta table |
| `MomentaExport` | momenta_export.dfy | the per-slot CSV files |
| `CrossSections` | cross_sections.dfy | the results-page pattern and the cross-section CSV |
| `MadRead` | mad_reader.dfy | the reader class and its loops |
| `EndToEnd` | end_to_end.dfy | the three steps chained on one laid-out document |

### Where the model follows the code rather than the format's description

- **Block end.** The block regex's `(.*)` is greedy, so the block ends at the *last*
  `\n</LesHouchesEvents>`, not the first (`EventBlock.BlockBounds`).
- **Entry content.** The event regex captures only `[^<>]+`, so an entry is the trimmed
  run right after `<event>`, up to the first `<` or `>`.
- **Particle lines.** They are matched with `find()`, not `matches()`:
  - a match may begin at any position of the line;
  - tokens after the thirteenth are ignored;
  - a line is accepted when the pattern matches anywhere in it.
- **Number class.** The cross-section number class `[-.e\d]` has no `+`.
  - A cross section written with a positive exponent, such as `1e+2`, is cut at the `+`,
    which is neither white space nor `<font`, so its link gives no row.
  - An uncertainty written so stops the tail at its `</font>`. The lazy `.*?` then runs
    on to the next link's `</font>`, so the cross section is paired with the next link's
    uncertainty and the next link is swallowed (see Findings).
  - The matcher and the `extractCrossSections` step take the class as a parameter:
    `AsWritten` is the reader's pattern, `WithPlus` the pattern with `+` in the class.
- **Unescaped dot.** The `.` in `results.html` is not escaped, so it stands for any
  character.

## Model

| member | source | states |
|---|---|---|
| Text.JavaSplit | src/madread/MadReader.java:131 | `split("\n")`: the pieces between the line breaks, without trailing empty pieces |
| Text.JavaSplitJoin | src/madread/MadReader.java:131 | splitting lines joined by `\n` gives the lines back, provided none holds a line break and the last is not empty |
| Text.SplitJoin | src/madread/MadReader.java:131 | splitting at a delimiter undoes joining with it when no part holds the delimiter |
| Text.JoinSplit | src/madread/MadReader.java:131 | joining the pieces of a split gives the text back |
| Text.Trim | src/madread/MadReader.java:105 | `trim()` leaves a text that neither starts nor ends with a character up to U+0020 |
| Text.TrimIsSlice | src/madread/MadReader.java:105 | the trimmed text is a contiguous slice of the original, with only such characters cut off on both sides |
| Text.TrimPadded | src/madread/MadReader.java:105 | trimming a non-empty trimmed text padded on both sides with characters up to U+0020 gives that text back |
| Text.TrimIdempotent | src/madread/MadReader.java:105 | trimming twice equals trimming once |
| Text.NatToString | src/madread/MadReader.java:156 | `%d`: a non-empty run of decimal digits without a leading zero |
| Text.DigitsValueOfNatToString | src/madread/MadReader.java:156 | the digits read back as the number written |
| Text.NatToStringInjective | src/madread/MadReader.java:156 | different numbers are written differently |
| Csv.RowDecodes | src/madread/MadReader.java:159 | a row joined by commas splits back into its cells when no cell holds a comma |
| EventBlock.BlockBounds | src/madread/MadReader.java:84-89 | there is a match exactly when a `</init>\n` ends before a `\n</LesHouchesEvents>` begins; it spans the first such start marker and the last such end marker |
| EventBlock.ExtractBlock | src/madread/MadReader.java:84-90 | group 1 is the text strictly between the two markers of the match, and is absent exactly when `find()` fails |
| EventBlock.BlockRoundTrip | src/madread/MadReader.java:84-90 | preamble, start marker, body, end marker and trailer give the body back whole, even a body holding further end markers, when the preamble has no start marker and the trailer no end marker |
| EventBlock.BlockDecomposes | src/madread/MadReader.java:84-90 | whenever a block is found, the document is such a preamble, marker, block, marker and trailer |
| EventBlock.StartMarkerInPreamble | src/madread/MadReader.java:84 | a `</init>\n` that starts inside the preamble lies wholly in the preamble, since the marker cannot straddle its own copy |
| EventBlock.EndMarkerInTrailer | src/madread/MadReader.java:84 | a `\n</LesHouchesEvents>` that starts after the end marker lies wholly in the trailer |
| EventSplit.MatchAtMeaning | src/madread/MadReader.java:98 | a match at `i`: `<event>`, a non-empty group free of `<` and `>` that stops right before one of them, then up to the first `</event>`; otherwise one of those parts is missing |
| EventSplit.MatchAt | src/madread/MadReader.java:98 | a match tried at `i` starts at `i` and its group and end lie within the text, in order |
| EventSplit.MatchAtEvent | src/madread/MadReader.java:98 | at an `<event>c</event>` with `c` non-empty and angle-free, the match captures exactly `c` and ends after `</event>` |
| EventSplit.FindEvent | src/madread/MadReader.java:98-103 | a match found from `from` starts at or after `from` and lies within the text |
| EventSplit.FindEventAt | src/madread/MadReader.java:98-103 | when `i` is the first position from `from` where the pattern matches, `find()` reports the match at `i` |
| EventSplit.NoEventWithoutAngle | src/madread/MadReader.java:98-103 | with no `<` left from `from` on, `find()` fails |
| EventSplit.FirstEventAfter | src/madread/MadReader.java:98-103 | the first `<event>c</event>` after a stretch free of `<` is the match `find()` reports |
| EventSplit.Matches | src/madread/MadReader.java:103-106 | each successive match starts at or after where the scan began, and lies within the text |
| EventSplit.Entry | src/madread/MadReader.java:105 | an entry neither starts nor ends with a blank character |
| EventSplit.Entries | src/madread/MadReader.java:103-106 | one entry per match |
| EventSplit.FindEventMeaning | src/madread/MadReader.java:98-103 | `find()` from a position reports the leftmost match from there on, and fails only when there is none |
| EventSplit.MatchesInOrder | src/madread/MadReader.java:103-106 | the successive matches come in document order and do not overlap |
| EventSplit.MatchesAreMatches | src/madread/MadReader.java:103-106 | every reported match is the match the pattern makes at its start position |
| EventSplit.Events | src/madread/MadReader.java:98-107 | one trimmed entry per match, in order |
| EventSplit.EventsAngleFree | src/madread/MadReader.java:98-107 | no entry holds `<` or `>` |
| EventSplit.NoEvents | src/madread/MadReader.java:102-107 | the entry list is empty exactly when the pattern matches nowhere, which is not a failure |
| EventSplit.WrappedEvents | src/madread/MadReader.java:98-107 | a block laid out as separators free of `<` around `<event>c x</event>` elements yields the trimmed contents `c` in order. Each `c` is non-empty and free of angle brackets. Each tail `x` is empty or opens with `<` (such as an `<mgrwt>` element) and holds no `</event>` |
| ParticleLine.MatchLineAt | src/madread/MadReader.java:122-124 | the pattern tried at one position: after optional blank characters, 13 words separated by blanks, whose classes are checked. A result is always a well-formed record. `MatchLineAtMeaning` states exactly when it matches and what it captures |
| ParticleLine.ReadWords | src/madread/MadReader.java:122-124 | reading `n` blank-separated words gives exactly `n` non-empty words free of blanks. `ReadWordsLaidOut` and `ReadInterleaved` tie them to the line's text in both directions |
| ParticleLine.ParseParticleLine | src/madread/MadReader.java:134-135 | an accepted line always yields a well-formed record. `ParseParticleLineLayout` states exactly which lines are accepted |
| ParticleLine.LeftmostMeaning | src/madread/MadReader.java:134-135 | the leftmost-position scan of `find()` reports the first position that matches, and none when nothing matches |
| ParticleLine.ParseParticleLineMeaning | src/madread/MadReader.java:134-135 | a line is accepted exactly when the pattern matches at some position, and the record captured is the one at the leftmost such position |
| ParticleLine.MatchLineAtMeaning | src/madread/MadReader.java:122-124 | the pattern matches at `p` and captures `r` exactly when `r` is a well-formed record whose 13 columns are the line's words from `p` on. The words come after blanks, are separated by runs of blanks of any length, and are followed by the end of the line or a blank |
| ParticleLine.MatchLaidOut | src/madread/MadReader.java:122-124 | what the pattern captures at a position is laid out there: blanks, the 13 columns separated by runs of blanks, then the end or a blank |
| ParticleLine.LaidOutMatches | src/madread/MadReader.java:122-124 | a well-formed record laid out at a position is exactly what the pattern captures there |
| ParticleLine.ReadWordsLaidOut | src/madread/MadReader.java:122-124 | the words read are consecutive slices of the line, separated by runs of blanks and followed by the end or a blank |
| ParticleLine.ReadInterleaved | src/madread/MadReader.java:122-124 | words interleaved with runs of blanks of any length, followed by the end or a blank, are read back as those words |
| ParticleLine.ParseParticleLineLayout | src/madread/MadReader.java:134-135 | a line is rejected exactly when no well-formed record is laid out anywhere in it; an accepted record is laid out at some position of the line |
| ParticleLine.AlignedLineParses | src/madread/MadReader.java:122-135 | a line with aligned columns, as MadGraph writes them, is accepted and read back unchanged. The line holds blanks, then a well-formed record's columns separated by runs of blanks of any length, then nothing or a blank and anything |
| ParticleLine.RenderedLineParses | src/madread/MadReader.java:122-124 | a well-formed record written as its 13 columns separated by single spaces, after blanks and before nothing or a blank, is accepted and read back unchanged |
| ParticleLine.FewWordsRejected | src/madread/MadReader.java:134-136 | a line with fewer than 13 words is rejected |
| Kinematics.SlotMomentum | src/madread/MadReader.java:134-143 | slot `i` succeeds exactly when line `i` exists and matches. It then gives the line's tenth, seventh, eighth and ninth columns as E, px, py and pz. A missing line is the out-of-bounds index with the line count, an unmatched line the invalid entry `i` |
| Kinematics.SlotsUpTo | src/madread/MadReader.java:132-143 | on success, one momentum per slot 1 to `n`, each read from the line with the slot's number |
| Kinematics.SlotsUpToMeaning | src/madread/MadReader.java:132-143 | the slots succeed together exactly when every slot does; otherwise the result is the first failing slot's error |
| Kinematics.SlotsUpToStops | src/madread/MadReader.java:132-136 | after the first failing slot, the later slots do not change the error |
| Kinematics.SlotsAgree | src/madread/MadReader.java:132-134 | two entries whose lines 1 to `n` read alike give the same result |
| Kinematics.RenderedLinesParse | src/madread/MadReader.java:122-134 | in an entry of a header and rendered records, line `k` reads back as record `k` |
| Kinematics.ParseLines | src/madread/MadReader.java:134 | one reading per line of the entry |
| Kinematics.ShortEntryFails | src/madread/MadReader.java:134 | an entry with no more lines than particles fails; when its particle lines all parse, the failure is the out-of-bounds index with the line count |
| Kinematics.HeaderNotParsed | src/madread/MadReader.java:132 | in any entry with at least one line, replacing line 0, the event header, never changes the result |
| Kinematics.LinesBeyondIgnored | src/madread/MadReader.java:132 | lines after line `multiplicity` never affect the result |
| Kinematics.RenderedEventParses | src/madread/MadReader.java:131-143 | an entry made of a header and one rendered line per record yields exactly the records' momenta, in order |
| Kinematics.EventMomenta | src/madread/MadReader.java:131-144 | on success, one momentum per particle, particle `k` read from line `k + 1` of the entry |
| Kinematics.EventMomentaMeaning | src/madread/MadReader.java:131-144 | an entry is read exactly when its lines 1 to `multiplicity` exist and the pattern matches each of them |
| Kinematics.SlotsOk | src/madread/MadReader.java:132-143 | the slots 1 to `n` succeed exactly when each of those lines exists and was matched |
| Kinematics.RowsUpToMeaning | src/madread/MadReader.java:129-147 | the events succeed together exactly when every event does; otherwise the result is the first failing event's error |
| Kinematics.RowsUpToStops | src/madread/MadReader.java:129-147 | after the first failing event, the later events do not change the error |
| Kinematics.RowsUpTo | src/madread/MadReader.java:129-147 | on success, one row per event so far, each the momenta of its event |
| Kinematics.MomentaRows | src/madread/MadReader.java:127-147 | on success, one row per entry, each with `multiplicity` momenta |
| Kinematics.MomentaRowsMeaning | src/madread/MadReader.java:127-147 | success exactly when every entry reads; row `e` is then entry `e`'s momenta; otherwise the error is that of the first failing entry |
| MomentaExport.FileName | src/madread/MadReader.java:156 | the name is the directory, `sim_momenta_`, the slot plus one in decimal digits without a leading zero, then `.csv` |
| MomentaExport.MomentaFiles | src/madread/MadReader.java:149-161 | no path means no file; otherwise one file per slot, named by `FileName` in the first path, with one line more than there are events |
| MomentaExport.SlotLines | src/madread/MadReader.java:157-159 | the header and one row per event |
| MomentaExport.MomentaFilesContents | src/madread/MadReader.java:149-161 | no path means no file. Otherwise there is one file per slot, named after the slot's number plus one. Each holds the header, then row `e` with the slot's E, px, py and pz in event `e` |
| MomentaExport.FileNamesDistinct | src/madread/MadReader.java:156 | different slots write to different files |
| MomentaExport.SlotRowsDecode | src/madread/MadReader.java:159 | a row splits back at its commas into E, px, py and pz when none holds a comma |
| CrossSections.NumberEnd | src/madread/MadReader.java:183 | the greedy `[-.e\d]+` run ends at the first character outside the class |
| CrossSections.FirstTail | src/madread/MadReader.java:183 | a stop of the lazy `.*?` ends after where it started and within the text, and the uncertainty it captures is a number. Where it stops is `FirstTailMeaning` |
| CrossSections.FirstTailMeaning | src/madread/MadReader.java:183 | the lazy `.*?` stops at the first position from where it starts at which the tail matches, and fails only when the tail matches nowhere from there on |
| CrossSections.TailAt | src/madread/MadReader.java:183 | the tail `</font>`, a number and `</a>` tried at a stop; its uncertainty is a number and it ends within the text |
| CrossSections.CsMatchAt | src/madread/MadReader.java:183 | a match at `i` starts at `i`, ends within the text, and both captured groups are numbers |
| CrossSections.FirstSomeMeaning | src/madread/MadReader.java:189 | the scan reports the first position that matches, and none when nothing matches |
| CrossSections.FindCsMeaning | src/madread/MadReader.java:189 | `find()` reports the match at the leftmost matching position from where it resumes, and fails only when nothing matches from there on |
| CrossSections.FindCs | src/madread/MadReader.java:189 | a match found from `from` starts at or after `from`, ends within the text, and captures two numbers |
| CrossSections.CrossSectionsFrom | src/madread/MadReader.java:189-192 | the pairs of the successive matches, both halves numbers |
| CrossSections.CollectMatches | src/madread/MadReader.java:187-192 | the two lists hold, index by index, the cross section and the uncertainty of each match under the given class, in document order, and so have the same length |
| CrossSections.ExtractCrossSections | src/madread/MadReader.java:182-205 | the file `storedir + fileName` holds the header and one `cs,dcs` row per match, in document order; with `AsWritten` this is the reader's pattern, with `WithPlus` the corrected one |
| CrossSections.CrossSectionLines | src/madread/MadReader.java:197-203 | one line more than there are matches |
| CrossSections.RowsDecode | src/madread/MadReader.java:202 | each row splits back at its comma into its pair |
| CrossSections.CrossSections | src/madread/MadReader.java:183-192 | every cross section and uncertainty captured is a number of the class, and a page in which `results` never occurs gives no pairs |
| CrossSections.PairRow | src/madread/MadReader.java:202 | the row `cs,dcs` splits back at its comma into the pair when neither holds a comma |
| CrossSections.ReportRoundTrip | src/madread/MadReader.java:183-192 | a page laid out from links gives back exactly the links' pairs, in order. The links' numbers are of the class, their white space is where the pattern has `\s*`, and their font text holds no `<`. The separators between links hold no `results` |
| CrossSections.PlusExponentMispairs | src/madread/MadReader.java:183 | with the class as written, the two-link page whose first uncertainty is `1e+2` gives the single pair (`1`, `3`) |
| CrossSections.PlusExponentPairs | src/madread/MadReader.java:183 | with `+` in the class, the same page gives (`1`, `1e+2`) and (`2`, `3`) |
| EndToEnd.DocumentRoundTrip | src/madread/MadReader.java:81-161 | a document laid out from event headers and particle records is read whole. The block is found, it has one entry per event, and the momenta table is the records' momenta. File `i` is named after slot `i + 1` and, after the header, holds in row `e` the E, px, py and pz of particle `i` of event `e` |
| EndToEnd.EntriesOfDocument | src/madread/MadReader.java:98-107 | the entries of the laid-out block are the events' texts, in order |
| EndToEnd.RowsOfEntries | src/madread/MadReader.java:127-147 | entries written from records give back the records' momenta as the table |
| EndToEnd.TableFiles | src/madread/MadReader.java:149-161 | the files written from the records' table hold, in row `e` of file `i`, particle `i` of event `e` |
| MadRead.CopyOf | src/madread/MadReader.java:60-61 | a fresh array with the same contents |
| MadRead.ReadEvent | src/madread/MadReader.java:132-144 | the inner loop fills column `e` with the entry's momenta or stops with the entry's error; other columns are untouched |
| MadRead.StoreMomentum | src/madread/MadReader.java:139-142 | the cells of one slot and event get E, px, py and pz, in that order; no other cell changes |
| MadRead.FillColumn | src/madread/MadReader.java:129-146 | one pass of the outer loop: entry `e` fills column `e` and its momenta become the next row, or its error is the error of the events read so far |
| MadRead.FillTable | src/madread/MadReader.java:127-147 | the outer loop ends with the table holding every entry's momenta, or with the first failing entry's error |
| MadRead.SplitEvents | src/madread/MadReader.java:102-106 | the `while (mat.find())` loop collects exactly the entries of the block |
| MadRead.WriteMomenta | src/madread/MadReader.java:149-161 | the export loops write exactly the files of `MomentaFiles` from the table |
| MadRead.MadReader.constructor | src/madread/MadReader.java:58-66 | the reagent and product codes are fresh copies of the arguments; `multiplicity` is their total count; nothing is extracted yet |
| MadRead.MadReader.GetReagents | src/madread/MadReader.java:165-168 | a fresh copy of the reagent codes |
| MadRead.MadReader.GetProducts | src/madread/MadReader.java:170-173 | a fresh copy of the product codes |
| MadRead.MadReader.ExtractEventBlock | src/madread/MadReader.java:81-91 | stores the block when the markers are found; otherwise fails and stores nothing |
| MadRead.MadReader.ExtractEvents | src/madread/MadReader.java:93-108 | without a block, fails and changes nothing; otherwise stores the block's entries |
| MadRead.MadReader.ExtractMomenta | src/madread/MadReader.java:116-163 | Without entries, it fails and changes nothing. Otherwise it allocates a `multiplicity` by entries by 4 table. Then it fails with the first failing entry's error and writes nothing, or every cell holds its captured text and the momenta files are written |
| MadRead.MadReader.Parse | src/madread/MadReader.java:73-79 | the three steps in turn, stopping at the first failure |

## Left out

- Reading the event file (`Files.readAllBytes`) and the results page: the constructor
  and `ExtractCrossSections` take the text itself. Decoding bytes as UTF-8 is not modelled.
- Creating directories (`mkdirs`), opening, writing and closing files, and
  `getAbsoluteFile`: a written file is the `CsvFile` value returned, with the name the
  source formats.
- The progress messages `println` prints in `extractEvents` and `extractMomenta`.
- `main`, which only runs the cross-section step on hard-coded paths.
- The `masses` field: the source declares it but never assigns or reads it.
- `multiplicity` is an unbounded `nat`, so the 32-bit `int` sum `reagents.length +
  products.length` is not modelled. It overflows only when the two arrays together hold
  2^31 or more codes, which a process with a handful of particles never does. It would
  then wrap to a negative `multiplicity`, and `extractMomenta` would fail when it
  allocates the table.
- The general Java regular-expression engine: only the four patterns the class uses are
  modelled.
- Numeric meaning of momenta and cross sections: they stay text, as in the source.
- MadRead.MadReader.ExtractMomenta: after a failure, the contents of the table's earlier
  columns are not stated. The source leaves the columns of the events read before the
  failing one filled, and the rest empty.
- EndToEnd.DocumentRoundTrip: the particle lines of the document are written with single
  spaces between columns. Lines with aligned columns are covered one at a time by
  `AlignedLineParses`, not chained through a whole document.
- CrossSections.ReportRoundTrip: a link's font text is free of `<`. A font element that
  nests further tags is covered only by the general `FirstTailMeaning`.
- Exceptions other than the ones the reader raises itself: Java's `NullPointerException`
  for a null argument, and `IOException`.
- src/madread/Print.java, a console pretty-printer, is not part of this model.
- src/madread/lpp/LeptonPairScript.java and src/madread/cases/LeptonPairScript.java
  write MadGraph scripts with floating-point beam energies; they are not part of this
  model.
- src/madread/utils/Utils.java, a floating-point Lorentz factor, is not part of this model.

## Findings

| source | as written | input that shows it | evidently intended | confidence | as-written member | corrected member |
|---|---|---|---|---|---|---|
| src/madread/MadReader.java:183 | the number class `[-.e\d]` has no `+` | `results.html">1<font></font>1e+2</a>results.html">2<font></font>3</a>` gives the one pair (`1`, `3`) | the class `[-+.e\d]`, giving (`1`, `1e+2`) and (`2`, `3`) | not executed | CrossSections.PlusExponentMispairs | CrossSections.PlusExponentPairs |
