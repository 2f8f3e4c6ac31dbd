# Z-DoTT core, modelled in Dafny

Z-DoTT is the analysis code behind a study of dsRNA that forms when
transcription runs past gene ends (downstream-of-gene transcription). Its
core finds and filters double-stranded RNA in RIP-seq data. RIP-seq peaks
are paired with predicted inverted repeats, where two arms of equal length
read each other in reverse. Each repeat is scored against the sample's
baselined signal. Fragments are chosen greedily and consumed from a signal
buffer. The choices of several samples are then merged into a consensus.
Around that engine sit the geometry and annotation stages it depends on:

- a sorted transcription-boundary index, and what is built on it:
  - gap-tiling RNA models;
  - RNA cores with their read-in, read-through and divergent regions;
  - boundary labels;
  - genome normalisation bins;
  - GENCODE biotype resolution with the UTR split;
- the peak features and the two peak filters;
- the A-to-I editing site rules: REAT candidates, the replication and rescue filter, and the site annotation;
- the HSV-1 annotation tracks: primers, miRNAs, ORFs, transcripts and the circos intervals;
- the small parsers and classifiers: dot-bracket stems, BED12 blocks, FASTQ names, DESeq2 identifiers, and the plot categories.

Each core source file is one Dafny module. A few modules are shared by all of them:

- `Common`: Option, a Result carrying the Python exception the code would raise, and strands.
- `Intervals`: half-open intervals with merge, overlap and subtraction.
- `Sorting`: an insertion sort over a total preorder, proved to return an ordered permutation.
- `Strs`: Python's split (on a separator, or on whitespace as `str.isspace` defines it), join and replace.
- `Decimal`: `str` and `int` on natural numbers.

Code that works step by step is modelled as methods with loops. Each such
method is proved against a function that states its result, or, where the
result depends on state the method creates itself (the score state of
`Optimization.Solve`), against predicates that state what the result
promises; "## Left out" names those. Values the source updates in place
are classes over arrays:

- the `ScoreState` signal buffer;
- the boundary index;
- the aberrant-transcription configuration.

Each Python `assert` that depends on data becomes an error result, as do
`raise` and a missing key. The properties the source promises are proved
as postconditions and lemmas: round trips, coverage, bounds, priorities,
and invariants that operations keep.

## Model

| member | source | states |
|---|---|---|
| A2ILoad.Orientation | stories/A2I/ld/utils/load.py:35 | a strand parses exactly when it is "+" or "-", to the orientation of that symbol; anything else is a ValueError |
| A2ILoad.GroupedSnoc | stories/A2I/ld/utils/load.py:15-35 | appending an item to the defaultdict extends its key's list only |
| A2ILoad.MergedGroupsKeys | stories/A2I/ld/utils/load.py:28-36 | the merged index has exactly the keys some item was filed under |
| A2ILoad.MergedGroupsCover | stories/A2I/ld/utils/load.py:28-36 | each key's merged intervals are separated and cover exactly the positions of the intervals filed under it |
| A2ILoad.JunctionsAt | stories/A2I/ld/utils/load.py:18-25 | junction j contributes the window of `offset` bases after the exon before and the window of `offset` bases before the exon after, whether or not the exons abut |
| A2ILoad.JunctionsCover | stories/A2I/ld/utils/load.py:18-25 | a position is in a transcript's windows exactly when it is near one of its junctions |
| A2ILoad.Keyed | stories/A2I/ld/utils/load.py:18-25 | a transcript's windows are filed under its contig and orientation, or its failure is passed on |
| A2ILoad.SpliceSitesErr | stories/A2I/ld/utils/load.py:14-29 | the splice sites fail exactly when some transcript with a junction is on neither strand or the offset is negative; with a non-negative offset that is the strand assertion of line 23 |
| A2ILoad.SpliceSitesKeys | stories/A2I/ld/utils/load.py:14-29 | the index has exactly the keys of the transcripts with at least two exons |
| A2ILoad.SpliceSitesCover | stories/A2I/ld/utils/load.py:14-29 | each key's windows are merged and cover exactly the positions near a junction of a transcript filed under it |
| A2ILoad.TranscriptWindows | stories/A2I/ld/utils/load.py:18-25 | the junction loop of one transcript appends its windows, or fails |
| A2ILoad.SpliceSitesLoop | stories/A2I/ld/utils/load.py:14-29 | the transcript loop computes the splice sites |
| A2ILoad.SiteItem | stories/A2I/ld/utils/load.py:35 | a site record is filed under its contig and parsed orientation, or fails on its strand (ValueError) or an inverted interval |
| A2ILoad.SitesErr | stories/A2I/ld/utils/load.py:32-37 | the site index fails exactly when some record does |
| A2ILoad.SitesKeys | stories/A2I/ld/utils/load.py:32-37 | the site index has exactly the keys some record is filed under |
| A2ILoad.SitesCover | stories/A2I/ld/utils/load.py:32-37 | each key's sites are merged and cover exactly the positions of its records |
| A2ILoad.SitesLoop | stories/A2I/ld/utils/load.py:32-37 | the record loop computes the site index |
| A2ILoad.ReatMembers | stories/A2I/ld/utils/load.py:40-50 | a row is kept, with its frequency, exactly when it has reads, its frequency lies in the band, its coverage reaches the minimum and it has enough edits |
| A2ILoad.ReatShorter | stories/A2I/ld/utils/load.py:40-50 | the filter never adds rows and keeps them all when all pass |
| A2IReat.BaseCommand | stories/A2I/ld/utils/reat.py:31-36 | the command starts `reat site -i` followed by the inputs, with the fixed options after them |
| A2IReat.PairedCommand | stories/A2I/ld/utils/reat.py:37-38 | paired input adds `--in-flags 3` after the base command and changes nothing else |
| A2IReat.Counted | stories/A2I/ld/utils/reat.py:53-54 | the counts are A and G on the forward strand, T and C otherwise |
| A2IReat.CandidateCovered | stories/A2I/ld/utils/reat.py:43-54 | every candidate has a positive reference count and so a positive coverage |
| A2IReat.FilterTwice | stories/A2I/ld/utils/reat.py:56-60 | two filters in a row are one filter by the conjunction |
| A2IReat.SelectedMembers | stories/A2I/ld/utils/reat.py:43-60 | a row is written exactly when it counts a forward A-to-G or reverse T-to-C candidate and passes the band, coverage and edit thresholds |
| A2IReat.SelectedReloads | stories/A2I/ld/utils/reat.py:56-62 | loading the written table with the same thresholds keeps every row |
| A2IReat.Run | stories/A2I/ld/utils/reat.py:23-65 | an output path that is not `.csv` fails the assertion; an existing `.csv.gz` skips the run; otherwise the tool runs with the built command and the selected rows are written to the `.csv.gz` path |
| A2IReat.ThresholdsInOrder | stories/A2I/ld/utils/reat.py:56-60 | the band, coverage and edit filters applied in turn are the loader's row filter |
| A2ICandidates.LoadedFrom | stories/A2I/candidates-filtering.py:14-28 | every loaded row passed the loader's thresholds in a sample that is not a merged table |
| A2ICandidates.LocOf | stories/A2I/candidates-filtering.py:30-31 | a row's strand must be "+" or "-" (otherwise a ValueError), and its position is filed under its contig and orientation |
| A2ICandidates.TallyKeys | stories/A2I/candidates-filtering.py:29-31 | the counts have exactly the (contig, orientation) keys of the rows |
| A2ICandidates.TallySpec | stories/A2I/candidates-filtering.py:29-31 | a position's count is the number of rows listing it under its key |
| A2ICandidates.ReplicationErr | stories/A2I/candidates-filtering.py:29-31 | counting fails with a ValueError exactly when some row's strand is neither "+" nor "-" |
| A2ICandidates.CountReplication | stories/A2I/candidates-filtering.py:28-31 | the loop computes the counts |
| A2ICandidates.SplitSpec | stories/A2I/candidates-filtering.py:44-50 | the positions are split into single bases: replicated exactly when their count reaches the minimum, unreplicated otherwise |
| A2ICandidates.RescuedSpec | stories/A2I/candidates-filtering.py:52-53 | the rescued sites are single bases covering exactly the replicated positions and the unreplicated ones inside a REDIportal site |
| A2ICandidates.KeyJobSpec | stories/A2I/candidates-filtering.py:39-61 | the outcome of a key keeps single bases covering exactly the rescued positions outside the splice windows, and counts at most as many ignored bases as were rescued |
| A2ICandidates.SplitLoop | stories/A2I/candidates-filtering.py:44-50 | the loop computes the split |
| A2ICandidates.RunKey | stories/A2I/candidates-filtering.py:39-61 | the method computes the outcome of one key, with the assertion of line 54 as an error path |
| A2ICandidates.PassedSetsSpec | stories/A2I/candidates-filtering.py:68-74 | the passed set of a key holds exactly the starts of the sites kept for it |
| A2ICandidates.CollectOne | stories/A2I/candidates-filtering.py:69-76 | a kept site longer than one base fails the assertion; otherwise its starts join its key's set and its BED lines are appended |
| A2ICandidates.CollectLoop | stories/A2I/candidates-filtering.py:68-76 | the loop over the outcomes computes the passed sets and the BED lines |
| A2ICandidates.CollectDone | stories/A2I/candidates-filtering.py:63-76 | with every outcome done, collecting never fails and each passed set is exactly the positions that pass |
| A2ICandidates.AssemblyJob | stories/A2I/candidates-filtering.py:13-76 | the assembly job fails on the first failing stage (counting, splice sites, REDIportal); otherwise the passed sets are exactly the positions that pass for every counted key |
| A2ICandidates.ScreenAll | stories/A2I/candidates-filtering.py:63-66 | every counted key gets its outcome, each keeping exactly the positions that pass |
| A2ICandidates.KeptSpec | stories/A2I/candidates-filtering.py:93-102 | a row is kept exactly when its position passed for its contig and orientation, and each kept row has its track line |
| A2ICandidates.FilterSampleLoop | stories/A2I/candidates-filtering.py:87-102 | the loop computes one sample's kept rows, track lines and count |
| A2ILoad.Append | stories/A2I/ld/utils/load.py:21-25 | appending a window to the defaultdict gives the grouping of the items with the window added |
| A2ICandidates.Enumerate | stories/A2I/candidates-filtering.py:44 | listing the counts gives each position exactly once with its count |
| A2ICandidates.ScreenKey | stories/A2I/candidates-filtering.py:39-66 | one counted key is screened under its own key, failing only on the assertion of line 54, and its outcome keeps exactly the positions that pass |
| Boundaries.BoundariesIndex.constructor | stories/annotation/ld/boundaries.py:9-18 | the boundaries and their data are the input pairs sorted, a permutation of them |
| Boundaries.BoundariesIndex.Closest | stories/annotation/ld/boundaries.py:20-35 | `closest`: the result of the nearest-neighbour specification, including the assertion and index errors |
| Boundaries.NearestLeft | stories/annotation/ld/boundaries.py:20-28 | for a position inside the index with a boundary before it, the left neighbour is the largest boundary strictly before the position |
| Boundaries.NearestRight | stories/annotation/ld/boundaries.py:20-33 | for a position with a boundary after it, the right neighbour is the smallest boundary strictly after the position |
| Boundaries.NearestLeftWraps | stories/annotation/ld/boundaries.py:25-28 | asking for the left neighbour of the first boundary wraps around to the last one (Python's index -1) |
| Boundaries.NearestEdges | stories/annotation/ld/boundaries.py:25-33 | the right neighbour of the last boundary is an index error, and so is the left neighbour when all boundaries are equal |
| Boundaries.LastBelow | stories/annotation/ld/boundaries.py:22-27 | the index of the last boundary below the position, or -1 |
| Boundaries.FirstAbove | stories/annotation/ld/boundaries.py:22-32 | the index of the first boundary above the position, or the length |
| Boundaries.BoundariesIndex.Window | stories/annotation/ld/boundaries.py:37-50 | `window`: the neighbour's data and an interval ending (left) or starting (right) at the position, at most `maxsize` long when given; the errors of `closest` pass through |
| Boundaries.WindowAtFirstFails | stories/annotation/ld/boundaries.py:37-43 | a left window at the first boundary fails: the wrapped neighbour lies after the position |
| Boundaries.WindowWithinNeighbours | stories/annotation/ld/boundaries.py:37-50 | a window never reaches past the nearest boundary on its side |
| Boundaries.ContainsSpec | stories/annotation/ld/boundaries.py:52-54 | membership fails with an index error exactly when every boundary is below the item, and otherwise answers whether the item is a boundary |
| RnaCore.Segments | stories/annotation/ld/rna_core.py:14 | donor, intronic pieces and acceptor sorted by start |
| RnaCore.MakeIntronCore | stories/annotation/ld/rna_core.py:13-16 | the core is built when its segments are non-empty and non-overlapping, otherwise the assertion fails |
| RnaCore.IntronCoreDisjoint | stories/annotation/ld/rna_core.py:13-16 | a built intron core has non-empty, pairwise non-overlapping segments |
| RnaCore.ChainDisjoint | stories/annotation/ld/rna_core.py:15-16 | the pairwise check on neighbours implies all segments are disjoint |
| RnaCore.Truncate | stories/annotation/ld/rna_core.py:37-56 | an unknown strand is a value error; otherwise only the read-through, read-in and divergent regions change |
| RnaCore.TruncateBounds | stories/annotation/ld/rna_core.py:37-56 | each truncated region lies inside the original one and is no longer than its limit |
| RnaCore.TruncateIdempotent | stories/annotation/ld/rna_core.py:37-56 | truncating twice with the same limits is truncating once |
| RnaCore.TruncateNegative | stories/annotation/ld/rna_core.py:37-51 | with zero read-in and divergent limits on a non-empty region the interval constructor fails |
| Filters.IsWellDefined | stories/annotation/ld/filters.py:6-30 | non-GENCODE records fail the assertion; the two verified transcripts are always accepted; automatic annotation (level above 2) is rejected unless verified |
| Filters.IsCanonical | stories/annotation/ld/filters.py:38-40 | canonical exactly when tagged "Ensembl canonical" or "MANE Select" |
| Filters.IsPrimary | stories/annotation/ld/filters.py:33-35 | every canonical transcript is primary |
| Filters.PrimaryTags | stories/annotation/ld/filters.py:33-35 | a primary transcript that is not canonical carries "GENCODE primary" or "MANE Plus Clinical" |
| Filters.IsTranscriptionBoundary | stories/annotation/ld/filters.py:43-65 | a record shorter than 100 is never a boundary; an accepted GENCODE record is well defined and not ribosomal; an accepted RefSeq record has no rejected biotype; any other record is accepted exactly when long enough |
| Filters.BoundaryAccepted | stories/annotation/ld/filters.py:43-65 | conversely, a long enough record acceptable to its catalogue is a boundary |
| RnaBoundaries.AddTo | stories/annotation/index-rna-boundaries.py:18-54 | adding labels to one (seqid, strand) key extends that key's set and leaves every other key as it was |
| RnaBoundaries.TranscriptLabels | stories/annotation/index-rna-boundaries.py:39-56 | an unknown strand is a value error; on the forward strand the start is a TSS and the end a TES, on the reverse strand the other way round |
| RnaBoundaries.IntronEdgesSpec | stories/annotation/index-rna-boundaries.py:44-54 | donor and acceptor labels are exactly the ends of consecutive exons that do not touch |
| RnaBoundaries.Selected | stories/annotation/index-rna-boundaries.py:24-36 | the selected records are exactly the GENCODE records and the curated RefSeq records (NR_/NM_) that are transcription boundaries |
| RnaBoundaries.SeqEndsSpec | stories/annotation/index-rna-boundaries.py:18-22 | every contig and strand starts with a "seq-start" at 0 and a "seq-end" at its size, and nothing else |
| RnaBoundaries.AddAllSpec | stories/annotation/index-rna-boundaries.py:39-56 | after all selected records, a key's set holds its initial entries plus exactly the labels of the records on that key |
| RnaBoundaries.AddAllErr | stories/annotation/index-rna-boundaries.py:55-56 | processing fails with a value error exactly when some selected record has an unknown strand |
| RnaBoundaries.AddAllPrefixErr | stories/annotation/index-rna-boundaries.py:55-56 | processing stops at the first record with an unknown strand |
| RnaBoundaries.IndexSpec | stories/annotation/index-rna-boundaries.py:13-62 | the final index of a key holds exactly the sequence ends and the labels of the selected records on that key |
| RnaBoundaries.AddTranscript | stories/annotation/index-rna-boundaries.py:40-56 | one record: its labels are added to its key, or the value error is returned |
| RnaBoundaries.Job | stories/annotation/index-rna-boundaries.py:13-62 | `job` computes the index of the sequence ends and all selected records |
| ResolveGencode.ResolutionShape | stories/annotation/resolve-gencode.py:41-90 | empty keys fail the assertion; a single key is returned as is; otherwise the result is non-empty, drawn from the mapped keys (or "mRNA") and never "intergenic" |
| ResolveGencode.SingletonsWin | stories/annotation/resolve-gencode.py:51-54 | "MT" wins over everything, then "7SK", then "7SL" |
| ResolveGencode.MrnaPriority | stories/annotation/resolve-gencode.py:71-81 | with "mRNA" present: "CDS", else "5'UTR", else "3'UTR", else "mRNA" |
| ResolveGencode.SuppressedKeeps | stories/annotation/resolve-gencode.py:56-69 | suppression only removes keys and never empties a non-empty set |
| ResolveGencode.SuppressedMonotone | stories/annotation/resolve-gencode.py:56-69 | each further suppression rule removes more |
| ResolveGencode.SuppressedKeepsKey | stories/annotation/resolve-gencode.py:56-69 | a key no rule suppresses survives |
| ResolveGencode.FirstIn | stories/annotation/resolve-gencode.py:52-86 | the first key of the priority list present in the set, or none when none is |
| ResolveGencode.FirstOf | stories/annotation/resolve-gencode.py:52-54 | the loop finds the first present key |
| ResolveGencode.ResolveInner | stories/annotation/resolve-gencode.py:41-90 | `resolve_inner` computes the resolution |
| ResolveGencode.Resolve | stories/annotation/resolve-gencode.py:93-95 | `resolve` fails on empty keys; otherwise one entry per resolved key with the given location |
| ResolveGencode.IntronsSpec | stories/annotation/resolve-gencode.py:118-120 | the introns are exactly the non-empty gaps between consecutive exons |
| ResolveGencode.IntronsOf | stories/annotation/resolve-gencode.py:118-120 | the loop collects the introns |
| ResolveGencode.Leading | stories/annotation/resolve-gencode.py:134-140 | the number of exons ending before the CDS start |
| ResolveGencode.Trailing | stories/annotation/resolve-gencode.py:144-150 | the number of exons, from the end, starting after the CDS end |
| ResolveGencode.Utr5Shape | stories/annotation/resolve-gencode.py:132-141 | the 5′ UTR is the leading exons plus the part of the straddling exon before the CDS |
| ResolveGencode.Utr3Shape | stories/annotation/resolve-gencode.py:143-151 | the 3′ UTR is the trailing exons in reverse order plus the part of the straddling exon after the CDS |
| ResolveGencode.Utr5Bounds | stories/annotation/resolve-gencode.py:132-141 | every 5′ UTR piece ends by the CDS start inside some exon; an exon ending exactly at the CDS start adds nothing |
| ResolveGencode.Utr3Bounds | stories/annotation/resolve-gencode.py:143-151 | every 3′ UTR piece starts at or after the CDS end inside some exon; an exon starting exactly at the CDS end adds nothing |
| ResolveGencode.SplitUtr5 | stories/annotation/resolve-gencode.py:132-140 | the loop computes the 5′ UTR |
| ResolveGencode.SplitUtr3 | stories/annotation/resolve-gencode.py:143-150 | the loop computes the 3′ UTR |
| ResolveGencode.CdsEntries | stories/annotation/resolve-gencode.py:126-151 | a missing CDS id is a key error and a CDS on another contig or strand an assertion error |
| ResolveGencode.CdsEntriesErr | stories/annotation/resolve-gencode.py:126-128 | the CDS entries fail exactly when some CDS id is missing or misplaced |
| ResolveGencode.CdsEntriesPrefixErr | stories/annotation/resolve-gencode.py:126-128 | the entries stop at the first failing CDS |
| ResolveGencode.CdsPartLabels | stories/annotation/resolve-gencode.py:129-151 | a CDS contributes its blocks as "CDS", and the leading and trailing UTRs labelled 5′/3′ by strand |
| ResolveGencode.OfTagged | stories/annotation/resolve-gencode.py:103-151 | entries tagged with a category are found under that category only |
| ResolveGencode.CdsJob | stories/annotation/resolve-gencode.py:126-151 | one CDS's loop body yields exactly the CDS's part: its blocks as "CDS", then the UTRs before and after it under the strand's labels |
| ResolveGencode.TranscriptJob | stories/annotation/resolve-gencode.py:106-151 | one transcript's entries: 7SL/7SK by name on the first exon, otherwise its exons by type, its introns and its CDS/UTR parts |
| A2IAnnotate.ResolutionFrom | stories/A2I/ld/utils/annotate.py:41-45 | the search from one category on returns a category among the keys at or after it, or intergenic |
| A2IAnnotate.ResolutionFromSpec | stories/A2I/ld/utils/annotate.py:41-45 | the search returns intergenic exactly when no category from there on is among the keys; otherwise no earlier category is among them |
| A2IAnnotate.ResolutionSpec | stories/A2I/ld/utils/annotate.py:41-45 | the resolution is intergenic exactly when no listed category is among the keys; otherwise it is the first category of MT, exon, intron, TES+1kb, TES+5kb, TES+10kb among the keys |
| A2IAnnotate.ResolutionPresent | stories/A2I/ld/utils/annotate.py:41-45 | a non-empty set of derived categories resolves to one of its own members |
| A2IAnnotate.Rank | stories/A2I/ld/utils/annotate.py:42 | every derived category has its place in the priority order |
| A2IAnnotate.ResolutionMT | stories/A2I/ld/utils/annotate.py:42-44 | a position with a mitochondrial region is MT whatever else covers it |
| A2IAnnotate.IntronsSpec | stories/A2I/ld/utils/annotate.py:18-20 | an intron is exactly the gap between consecutive exons that do not touch; it is never empty and there is at most one per junction |
| A2IAnnotate.ExonEntries | stories/A2I/ld/utils/annotate.py:16-17 | every exon is filed as exon under the transcript's contig and strand, in order |
| A2IAnnotate.IntronEntries | stories/A2I/ld/utils/annotate.py:18-20 | every intron is filed as intron under the transcript's contig and strand, in order |
| A2IAnnotate.TesEntriesSpec | stories/A2I/ld/utils/annotate.py:22-33 | a strand other than "+" or "-" is a ValueError; otherwise the three downstream windows of 1, 5 and 10 kb start at the TES on the forward strand and end at it on the reverse strand |
| A2IAnnotate.RnaEntriesErr | stories/A2I/ld/utils/annotate.py:14-33 | a transcript's regions fail, with a ValueError, exactly when its strand is bad |
| A2IAnnotate.RnasEntriesErr | stories/A2I/ld/utils/annotate.py:14-33 | deriving the regions fails, with a ValueError, exactly when some transcript's strand is bad |
| A2IAnnotate.RnasEntriesErrPrefix | stories/A2I/ld/utils/annotate.py:14-33 | the first transcript with a bad strand decides the error; later ones are never read |
| A2IAnnotate.ChrMIsMT | stories/A2I/ld/utils/annotate.py:36-45 | every position of chrM resolves to MT on both strands |
| A2IAnnotate.AddExons | stories/A2I/ld/utils/annotate.py:16-17 | the exon loop appends the transcript's exon entries |
| A2IAnnotate.AddIntrons | stories/A2I/ld/utils/annotate.py:18-20 | the intron loop appends the transcript's intron entries |
| A2IAnnotate.AddRna | stories/A2I/ld/utils/annotate.py:15-33 | one transcript appends its exon, intron and downstream entries, or fails on its strand |
| A2IAnnotate.DeriveRegions | stories/A2I/ld/utils/annotate.py:13-38 | the loop over the transcripts, then the two chrM entries, computes the regions |
| A2IAnnotate.TreesOfSpec | stories/A2I/ld/utils/annotate.py:49-54 | a tree holds exactly the stretches added under its contig and strand |
| A2IAnnotate.BuildTrees | stories/A2I/ld/utils/annotate.py:49-54 | the loop builds the trees of the resolved stretches |
| A2IAnnotate.AnnotateSite | stories/A2I/ld/utils/annotate.py:58-64 | a site that overlaps more than one stretch fails the assertion; otherwise its category (intergenic when it overlaps none) gets the site appended and the site's contig, strand and start map to it |
| A2IAnnotate.AnnotateSites | stories/A2I/ld/utils/annotate.py:57-64 | the site loop computes the categories and the mapping |
| A2IAnnotate.AnnotatedErrPrefix | stories/A2I/ld/utils/annotate.py:57-64 | the first site that fails the assertion ends the annotation |
| A2IAnnotate.AnnotatedErr | stories/A2I/ld/utils/annotate.py:57-64 | annotation fails, with an AssertionError, exactly when some site overlaps more than one stretch |
| A2IAnnotate.AnnotatedLists | stories/A2I/ld/utils/annotate.py:57-64 | each category lists exactly its sites, in file order |
| A2IAnnotate.AnnotatedMapped | stories/A2I/ld/utils/annotate.py:57-64 | every site's contig, strand and start is mapped |
| A2IAnnotate.MappingLast | stories/A2I/ld/utils/annotate.py:57-64 | a location maps to the category of the last site at it |
| A2IAnnotate.SiteLabel | stories/A2I/ld/utils/annotate.py:13-64 | over a correct resolution, a one-base site gets the resolved category of the regions over it, or intergenic when none covers it |
| A2IAnnotate.SitesNeverAssert | stories/A2I/ld/utils/annotate.py:47-64 | over a correct resolution, one-base sites never trip the assertion of line 60 |
| Bed.Group | utils/bed.py:17-25 | the keys are distinct, listed in first-appearance order and are exactly the keys of the items; each key's group holds the values of its items in input order |
| Bed.MembersSound | utils/bed.py:22-24 | every value in a key's group comes from an item with that key |
| Bed.MembersComplete | utils/bed.py:22-24 | every item's value is in the group of its own key |
| Bed.MembersAbsent | utils/bed.py:22-25 | a key no item has gets no group values |
| Bed.MakeBlocks | utils/bed.py:30-48 | fails with the assertion error exactly when there are no intervals or the start-sorted intervals are not non-empty and non-overlapping; otherwise one record with one block per interval |
| Bed.BlocksRoundTrip | utils/bed.py:33-48 | reading the blocks back from a built record gives the input intervals sorted by start |
| Bed.BlocksSpan | utils/bed.py:39-47 | the first block starts at offset 0, the last one ends at the record's end, the thick part is the whole span, and blocks are positive-sized and in order when there are two or more |
| Bed.SingleBlockUnchecked | utils/bed.py:35-37 | a single interval is never checked by the pairwise assertion, so even an empty interval builds a record with a zero-size block |
| Bed.FromIterable | utils/bed.py:50-63 | fails exactly when one record fails to build; otherwise the records in input order, or sorted by position and a permutation of them when `sort` is set |
| Bed.BuildAll | utils/bed.py:55-59 | the loop stops at the first failing input; on success one result per input, in order |
| Bed.Made | utils/bed.py:55-59 | one built record per input, in input order |
| Bed.BedLePreorder | utils/bed.py:61-62 | the order used by `sort` is a total preorder |
| Bed.ParseCoords | utils/bed.py:66-73 | malformed coordinates (wrong number of separators or fields, non-integer positions) fail with a value error |
| Bed.ParseCoordsRoundTrip | utils/bed.py:66-73 | formatting coordinates as "seqid:start-end" and parsing them gives the coordinates back |
| Bed.ParseIntOfNat | utils/bed.py:73 | `int` reads back the decimal text of any natural number |
| Bed.GroupedValue | utils/bed.py:73 | `int` on digits without underscores gives their plain decimal value |
| BinGenome.BetweenShape | stories/normalization/bin-genomes.py:62-68 | the gaps between separated annotated regions are separated and lie between the first region's end and the last region's start |
| BinGenome.BetweenCovered | stories/normalization/bin-genomes.py:62-68 | a position lies in a gap exactly when it falls between two consecutive annotated regions |
| BinGenome.IntergenicTiles | stories/normalization/bin-genomes.py:46-75 | the intergenic regions exist exactly when the annotated regions lie on the contig; then they are in order, and a position is intergenic exactly when it is on the contig and not annotated |
| BinGenome.Intergenic | stories/normalization/bin-genomes.py:50-75 | the method, with the assertion of line 64, computes the intergenic regions of one strand |
| BinGenome.Append | stories/normalization/bin-genomes.py:25-28 | appending an interval to a (category, gene) list keeps the parts well formed and adds the key if it was new |
| BinGenome.AppendAllSpec | stories/normalization/bin-genomes.py:20-28 | after appending entries, a key holds an interval exactly when it held it before or the interval was appended under it |
| BinGenome.GapsSpec | stories/normalization/bin-genomes.py:26-28 | the introns of a transcript fail (an inverted interval) exactly when a later exon starts before the previous one ends; otherwise they are exactly the non-empty gaps between consecutive exons |
| BinGenome.RnaEntriesSpec | stories/normalization/bin-genomes.py:21-28 | a transcript contributes to the exon list of its gene its exons and to the intron list its gaps, nothing on chrM and nothing to any other category |
| BinGenome.PartsErr | stories/normalization/bin-genomes.py:20-28 | collecting the parts fails exactly when some transcript's introns fail |
| BinGenome.PartsSpec | stories/normalization/bin-genomes.py:20-28 | a (category, gene) key holds an interval exactly when some transcript contributes it |
| BinGenome.AddEach | stories/normalization/bin-genomes.py:24-25 | the exon loop appends every exon under its key |
| BinGenome.AddGaps | stories/normalization/bin-genomes.py:26-28 | the intron loop appends every gap, or stops at an inverted interval |
| BinGenome.AddRna | stories/normalization/bin-genomes.py:22-28 | the method processes one transcript |
| BinGenome.CollectParts | stories/normalization/bin-genomes.py:20-28 | the transcript loop computes the parts |
| BinGenome.Push | stories/normalization/bin-genomes.py:37 | appending a bin to a (seqid, strand) list changes that list only |
| BinGenome.MergedPartsSpec | stories/normalization/bin-genomes.py:36 | each merged part is separated and covers exactly the positions of its intervals |
| BinGenome.GeneBinsErr | stories/normalization/bin-genomes.py:32-37 | binning the parts fails (a key error) exactly when some gene has no record |
| BinGenome.GeneBinsSpec | stories/normalization/bin-genomes.py:32-37 | the bins of a locus are exactly the merged parts of the genes recorded on that locus |
| BinGenome.CollectGeneBins | stories/normalization/bin-genomes.py:31-37 | the loop over the parts computes the gene bins |
| BinGenome.FlattenRegions | stories/normalization/bin-genomes.py:51-74 | the intervals of the intergenic bins are exactly the intergenic regions |
| BinGenome.StrandTiles | stories/normalization/bin-genomes.py:45-75 | after its intergenic bins, one strand keeps its earlier bins first, no other strand changes, and its bins cover exactly [0, seqlen) |
| BinGenome.WithIntergenicFrame | stories/normalization/bin-genomes.py:40-75 | the intergenic pass leaves chrM and contigs outside the size table unchanged |
| BinGenome.WithIntergenicTiles | stories/normalization/bin-genomes.py:40-75 | after the intergenic pass every contig other than chrM is covered on both strands exactly on [0, seqlen), its gene bins first |
| BinGenome.AddStrand | stories/normalization/bin-genomes.py:45-75 | the method adds one strand's intergenic bins |
| BinGenome.IntergenicPass | stories/normalization/bin-genomes.py:40-75 | the contig loop computes the intergenic pass |
| BinGenome.Lookup | stories/normalization/bin-genomes.py:87 | `seqsizes["chrM"]` is found exactly when chrM is in the size table, with its size |
| BinGenome.VirusBinsFrame | stories/normalization/bin-genomes.py:79-83 | viral bins change only the lists of the viral segments on that strand |
| BinGenome.VirusBinsHave | stories/normalization/bin-genomes.py:79-83 | every viral segment gets a whole-segment vRNA bin on the strand |
| BinGenome.ExtrasSpec | stories/normalization/bin-genomes.py:77-88 | an assembly without chrM is a key error; otherwise each strand of chrM ends with a whole-chrM MT bin and every viral segment gets its vRNA bins |
| BinGenome.AddVirusBins | stories/normalization/bin-genomes.py:79-83 | the virus loop computes the viral bins |
| BinGenome.AddExtras | stories/normalization/bin-genomes.py:77-88 | the strand loop computes the viral and MT bins |
| BinGenome.BinGenomeJob | stories/normalization/bin-genomes.py:16-99 | the method runs every stage of `bin_genome` and stops at the first error |
| BinGenome.BinnedTiles | stories/normalization/bin-genomes.py:16-99 | in the result, every host contig other than chrM that is no viral segment is tiled on both strands: its gene bins first, all bins covering exactly [0, seqlen) |
| Clustering.Touching | stories/RIP/clustering/clustering.py:40-52 | the curated regions returned are exactly those overlapping the query |
| Clustering.FullOverlap | stories/RIP/clustering/clustering.py:46-53 | the overlap covers the whole query exactly when the query is empty or lies inside the region |
| Clustering.KeepAnchored | stories/RIP/clustering/clustering.py:25-29 | keeps exactly the repeats whose bounding range and some block overlap a peak |
| Clustering.CuratePeakSpec | stories/RIP/clustering/clustering.py:39-47 | a peak with no curated overlap stays free; it is claimed exactly when one region overlaps it and contains it, and then by that region; otherwise an assertion error |
| Clustering.Holding | stories/RIP/clustering/clustering.py:51-54 | keeps exactly the regions that contain both bounding ranges of the arms |
| Clustering.CurateRepeatSpec | stories/RIP/clustering/clustering.py:48-61 | a repeat stays free exactly when no curated region contains both of its arms; the holding regions are exactly those that do |
| Clustering.RouteSpec | stories/RIP/clustering/clustering.py:36-63 | routing succeeds exactly when every item routes; free items stay in order and claimed items are filed under their region |
| Clustering.RoutePrefixErr | stories/RIP/clustering/clustering.py:44-59 | routing stops at the first failing item |
| Clustering.RouteLoop | stories/RIP/clustering/clustering.py:39-61 | the loop computes the routing |
| Clustering.CurateLoop | stories/RIP/clustering/clustering.py:36-64 | the curation step computes the curated split |
| Clustering.CurateSpec | stories/RIP/clustering/clustering.py:36-64 | curation succeeds exactly when every peak and repeat curates; the remaining peaks and repeats are exactly the free ones |
| Clustering.CuratedGroupsSpec | stories/RIP/clustering/clustering.py:64 | each curated group is non-empty, every claimed item is in its region's group, and groups hold only items claimed by that region |
| Clustering.Index | stories/RIP/clustering/clustering.py:67-76 | the index lists the peaks, then the repeats |
| Clustering.ElementsSpec | stories/RIP/clustering/clustering.py:67-76 | an element is a peak with its own index, or a block of a repeat with the repeat's index |
| Clustering.RepeatBlocksSpec | stories/RIP/clustering/clustering.py:73-76 | the repeat elements are exactly the blocks of each repeat, tagged by its index |
| Clustering.Enumerate | stories/RIP/clustering/clustering.py:66-76 | the loop builds the index and the element list |
| Clustering.AddBlocks | stories/RIP/clustering/clustering.py:74-75 | one repeat's blocks are appended with its index |
| Clustering.Sorted | stories/RIP/clustering/clustering.py:82 | the elements sorted by start, a permutation of them |
| Clustering.Insulators | stories/RIP/clustering/clustering.py:83 | the distinct insulator positions ascending, or none |
| Clustering.RankSpec | stories/RIP/clustering/clustering.py:84-87 | `bisect_left`: the rank counts exactly the insulators below the position |
| Clustering.SameRank | stories/RIP/clustering/clustering.py:93 | two positions get the same rank exactly when no insulator lies between them |
| Clustering.RankMonotone | stories/RIP/clustering/clustering.py:84-87 | the rank is monotone |
| Clustering.ScanSpec | stories/RIP/clustering/clustering.py:88-95 | the writes of one row are exactly those the scan makes before it breaks |
| Clustering.WritesSpec | stories/RIP/clustering/clustering.py:85-95 | the writes of all rows are exactly those of each row's scan |
| Clustering.ProximityCell | stories/RIP/clustering/clustering.py:85-95 | a cell is set exactly when its last write was true; a true write and no false write sets it |
| Clustering.ProximityOverwrite | stories/RIP/clustering/clustering.py:93 | a later write of false (a pair split by an insulator) clears a cell an earlier pair had set |
| Clustering.LatestSpec | stories/RIP/clustering/clustering.py:93-115 | the last write to a cell, present exactly when the cell was written |
| Clustering.ApplyCell | stories/RIP/clustering/clustering.py:93-115 | applying writes leaves each cell with its last write or its old value |
| Clustering.Proximity | stories/RIP/clustering/clustering.py:85-95 | the nested loop applies the proximity writes to a zero matrix |
| Clustering.ScanRow | stories/RIP/clustering/clustering.py:88-95 | one row's scan applies that row's writes |
| Clustering.HitsOf | stories/RIP/clustering/clustering.py:100-102 | an element is filed under every transcript that overlaps it |
| Clustering.HitsSpec | stories/RIP/clustering/clustering.py:99-102 | the transcript table holds exactly the elements overlapping each transcript |
| Clustering.MappedSpec | stories/RIP/clustering/clustering.py:105-110 | the mapped indices are exactly those of elements the transcript maps |
| Clustering.LinkAllAscending | stories/RIP/clustering/clustering.py:110-115 | the transcript links join exactly every pair of distinct mapped indices, the smaller first |
| Clustering.KeyNodesSpec | stories/RIP/clustering/clustering.py:104-110 | the mapped nodes of a transcript, ascending and exactly those on the transcript |
| Clustering.TranscriptWritesSpec | stories/RIP/clustering/clustering.py:98-115 | transcript writes link exactly the ordered pairs of elements mapped by a common transcript |
| Clustering.AddHits | stories/RIP/clustering/clustering.py:101-102 | one element's transcript hits are appended |
| Clustering.MappedLoop | stories/RIP/clustering/clustering.py:105-108 | the loop collects the mapped elements |
| Clustering.LinkRowLoop | stories/RIP/clustering/clustering.py:113-115 | one row of links is applied |
| Clustering.LinkPairs | stories/RIP/clustering/clustering.py:111-115 | all pairs of one transcript are linked |
| Clustering.TranscriptLinks | stories/RIP/clustering/clustering.py:98-115 | the transcript loop applies all transcript writes |
| Clustering.HitsLoop | stories/RIP/clustering/clustering.py:100-102 | the overlap loop lists every element's transcript hits in element order |
| Clustering.KeyLinks | stories/RIP/clustering/clustering.py:104-115 | given each transcript's overlaps, the loop applies the pairwise links of every transcript in insertion order |
| Clustering.ConnectionsCell | stories/RIP/clustering/clustering.py:79-115 | two elements are connected exactly when a common transcript maps both or their last proximity write was true |
| Clustering.GroupAll | stories/RIP/clustering/clustering.py:21-138 | `group_all`: an empty peak is a value error; curation errors pass through; otherwise the connection matrix of the curated elements and its connected components as groups |
| Clustering.PeaksOfSpec | stories/RIP/clustering/clustering.py:145-151 | the split gives exactly the peaks and exactly the repeats of the group |
| Clustering.EnvelopesSpec | stories/RIP/clustering/clustering.py:157-158 | a position is covered by the arm ranges exactly when some repeat's arm covers it |
| Clustering.TrimmedSpec | stories/RIP/clustering/clustering.py:155-162 | without peaks or repeats the peaks are kept; otherwise the remaining peaks are non-empty and cover exactly the peak positions no arm range covers |
| Clustering.TrimmedCell | stories/RIP/clustering/clustering.py:159-162 | the subtraction keeps exactly the peak positions outside every arm range |
| Clustering.PostProcess | stories/RIP/clustering/clustering.py:141-164 | `posprocess_groups`: the group's repeats, and its peaks minus the arm ranges |
| RipComposition.OrFree | stories/RIP/annotation/sequence-composition.py:68-99 | an empty annotation becomes the single Repeat-free annotation, so no step goes unscored |
| RipComposition.Raise | stories/RIP/annotation/sequence-composition.py:70-103 | raising a set of categories gives each of them the maximum of its score and the new one and leaves every other category as it was |
| RipComposition.RaiseSnoc | stories/RIP/annotation/sequence-composition.py:70-72 | raising one more category is the update of that category alone |
| RipComposition.FoldConcat | stories/RIP/annotation/sequence-composition.py:60-114 | applying two runs of score events in turn is applying their concatenation |
| RipComposition.FoldMax | stories/RIP/annotation/sequence-composition.py:62-103 | after a run of events a category is scored exactly when it was scored before or some event raises it; its score is at least its old score and every event's score that raised it, and it equals one of them |
| RipComposition.RaiseSingles | stories/RIP/annotation/sequence-composition.py:70-72 | the loop over one step's annotations raises each annotation's single category |
| RipComposition.RaisePairs | stories/RIP/annotation/sequence-composition.py:101-103 | the inner loop raises every pair of one left annotation with the right annotations |
| RipComposition.RaiseUnion | stories/RIP/annotation/sequence-composition.py:100-103 | raising two sets of categories in turn is raising their union |
| RipComposition.RaiseAllPairs | stories/RIP/annotation/sequence-composition.py:100-103 | the nested loops raise every left-right annotation pair |
| RipComposition.LeftOffsets | stories/RIP/annotation/sequence-composition.py:80-90 | the left arm's steps become offsets from the arm's start, in order |
| RipComposition.RightOffsets | stories/RIP/annotation/sequence-composition.py:84-91 | the right arm's steps are reversed and become offsets back from the arm's end |
| RipComposition.Annos | stories/RIP/annotation/sequence-composition.py:81-85 | the annotations are taken step by step alongside the boundaries |
| RipComposition.WalkEvents | stories/RIP/annotation/sequence-composition.py:88-113 | every step of the walk over the two arms raises the pairs of one left and one right annotation set by the arms' combined signal, and the walk takes at most as many steps as the two arms have segments |
| RipComposition.TilesEnd | stories/RIP/annotation/sequence-composition.py:90-91 | in steps that tile an arm, only the last ends at the arm's end |
| RipComposition.WalkTiled | stories/RIP/annotation/sequence-composition.py:88-114 | on two arms of equal length whose steps tile them, the walk never runs past either list and covers exactly the arm length, so the assertion of line 114 holds |
| RipComposition.OffsetsTile | stories/RIP/annotation/sequence-composition.py:80-91 | steps that tile an arm give offsets that tile the arm's length, for the left arm and for the flipped right arm |
| RipComposition.ArmEventsOk | stories/RIP/annotation/sequence-composition.py:87-114 | an arm pair of equal lengths whose steps tile both arms is walked without an index error or an assertion error |
| RipComposition.FoldSnoc | stories/RIP/annotation/sequence-composition.py:100-103 | applying one more event raises its categories by its score |
| RipComposition.WalkStep | stories/RIP/annotation/sequence-composition.py:88-113 | one iteration of the walk advances the index or indices whose segment ends first, and ends the walk exactly when both lists are used up |
| RipComposition.WalkArm | stories/RIP/annotation/sequence-composition.py:76-113 | the `while True` loop over one arm pair computes the walk and raises its events |
| RipComposition.StepEvents | stories/RIP/annotation/sequence-composition.py:66-72 | each step of a peak raises the single categories of its annotation by the peak's signal |
| RipComposition.PeakEventsFrom | stories/RIP/annotation/sequence-composition.py:65-72 | every peak event comes from a step of some peak |
| RipComposition.PeakEventsTo | stories/RIP/annotation/sequence-composition.py:65-72 | every step of every peak contributes its event |
| RipComposition.StepEventsHit | stories/RIP/annotation/sequence-composition.py:67-72 | a peak raises an annotation exactly when one of its steps carries it, always by the peak's own signal |
| RipComposition.PeakScoresKeys | stories/RIP/annotation/sequence-composition.py:62-72 | after the peaks an annotation is scored exactly when some peak overlaps it |
| RipComposition.PeakScoresBound | stories/RIP/annotation/sequence-composition.py:62-72 | an annotation's score is at least the signal of every peak that overlaps it |
| RipComposition.PeakScoresAttained | stories/RIP/annotation/sequence-composition.py:62-72 | an annotation's score is the signal of some peak that overlaps it, so it is the maximum over those peaks |
| RipComposition.ArmsScoresOk | stories/RIP/annotation/sequence-composition.py:75-114 | one inverted repeat whose arm pairs all fit is scored without an error |
| RipComposition.InvRepsScoresOk | stories/RIP/annotation/sequence-composition.py:74-114 | a partition whose arm pairs all fit is scored without an index or assertion error |
| RipComposition.ScorePeaks | stories/RIP/annotation/sequence-composition.py:65-72 | the peak loops apply every step event of every peak, in order |
| RipComposition.ScoreArms | stories/RIP/annotation/sequence-composition.py:75-114 | the arm loop walks every arm pair, failing on an index error or when the covered length is not the arm length |
| RipComposition.ScorePartition | stories/RIP/annotation/sequence-composition.py:60-114 | one partition is scored by its peaks and then its inverted repeats |
| RipComposition.Shifted | stories/RIP/annotation/sequence-composition.py:43-44 | every score is lowered by the same amount and keeps its category |
| RipComposition.Over | stories/RIP/annotation/sequence-composition.py:48-49 | every score is divided by the total and keeps its category |
| RipComposition.SumRealsPositive | stories/RIP/annotation/sequence-composition.py:46-47 | a non-empty sum of positive scores is positive, so the assertion of line 47 holds |
| RipComposition.SumOver | stories/RIP/annotation/sequence-composition.py:48-50 | dividing every score by the total divides their sum by it |
| RipComposition.ShiftedOf | stories/RIP/annotation/sequence-composition.py:43-44 | after subtracting the minimum less 1e-6 every score is at least 1e-6 |
| RipComposition.Total | stories/RIP/annotation/sequence-composition.py:46-47 | the total of the shifted scores is positive |
| RipComposition.ResolvedKeys | stories/RIP/annotation/sequence-composition.py:39-51 | no scores resolve to Undefined with fraction 1; otherwise every category keeps its place and gets a positive fraction |
| RipComposition.ResolvedSum | stories/RIP/annotation/sequence-composition.py:39-51 | the fractions sum to exactly 1, so the assertion of line 50 holds |
| RipComposition.ResolvedOrder | stories/RIP/annotation/sequence-composition.py:43-49 | the fractions are ordered as the scores are |
| RipComposition.EnumerateScores | stories/RIP/annotation/sequence-composition.py:44 | listing the scores gives each category exactly once with its score |
| RipComposition.Divide | stories/RIP/annotation/sequence-composition.py:48-49 | the loop divides each score by the total |
| RipComposition.ResolveSequence | stories/RIP/annotation/sequence-composition.py:39-51 | resolve_sequence never fails and returns the resolved fractions of the listed scores |
| RipComposition.ResolvesToSum | stories/RIP/annotation/sequence-composition.py:39-51 | resolved fractions always sum to 1 |
| RipComposition.ResolvesToKeys | stories/RIP/annotation/sequence-composition.py:39-51 | empty scores resolve to Undefined alone; otherwise the fractions have exactly the scored categories, each once and positive |
| RipComposition.EnumeratesCard | stories/RIP/annotation/sequence-composition.py:44 | the listing has as many entries as there are scored categories |
| RipComposition.ResolvePartition | stories/RIP/annotation/sequence-composition.py:60-116 | a partition resolves exactly when its scores are computed, and then to fractions of them |
| RipComposition.Job | stories/RIP/annotation/sequence-composition.py:54-117 | the job fails exactly when some partition's scoring fails, with that error; otherwise every partition in order gets its index and its resolved fractions |
| Consensus.Intersection | stories/RIP/clustering/ld/invrep_scoring.py:200 | `intersection`: a non-empty interval holding exactly the shared positions, or none when nothing is shared |
| Consensus.SortIntervalsOrdered | stories/RIP/clustering/ld/invrep_scoring.py:193-203 | the sorted intervals are a permutation of the input, ordered by (start, end) |
| Consensus.ProjectOneCovers | stories/RIP/clustering/ld/invrep_scoring.py:198-202 | an unrolled position is covered by a segment's projected solutions exactly when its genomic position lies in the segment's left arm and in some solution |
| Consensus.ProjectOneWithin | stories/RIP/clustering/ld/invrep_scoring.py:199-201 | every projected piece is non-empty and lies inside the segment's unrolled range |
| Consensus.ProjectedWithin | stories/RIP/clustering/ld/invrep_scoring.py:197-202 | all projected pieces lie inside the unrolled length of the segments walked so far |
| Consensus.Project | stories/RIP/clustering/ld/invrep_scoring.py:197-202 | the mapping loop computes the projection of the solutions onto the unrolled repeat |
| Consensus.Dedup | stories/RIP/clustering/ld/invrep_scoring.py:208 | the deduplicated list is strictly ascending and keeps the last element |
| Consensus.DedupMembers | stories/RIP/clustering/ld/invrep_scoring.py:208 | deduplication keeps exactly the elements of the input |
| Consensus.SortedSetMembers | stories/RIP/clustering/ld/invrep_scoring.py:208 | `sorted(set(...))` holds exactly the input's elements, strictly ascending |
| Consensus.EndpointMembers | stories/RIP/clustering/ld/invrep_scoring.py:208 | the boundaries are exactly the starts and ends of the mapped intervals |
| Consensus.Replicate | stories/RIP/clustering/ld/invrep_scoring.py:207-213 | every elementary piece between consecutive boundaries supported by at least `min_samples` mapped intervals is filed under its support count, and nothing else is; the table is empty exactly when no piece is replicated |
| Consensus.Flatten | stories/RIP/clustering/ld/invrep_scoring.py:228 | the flattened list holds exactly the intervals of all support counts |
| Consensus.FlattenCovers | stories/RIP/clustering/ld/invrep_scoring.py:207-228 | a position is covered by the flattened intervals exactly when it lies in a replicated elementary piece |
| Consensus.Crops | stories/RIP/clustering/ld/invrep_scoring.py:229 | one cropped repeat per merged range |
| Consensus.MinKey | stories/RIP/clustering/ld/invrep_scoring.py:233 | the least support count, which is a key of the table |
| Consensus.MinKeyLeast | stories/RIP/clustering/ld/invrep_scoring.py:233 | the least key is the least support count of any replicated piece |
| Consensus.FilterSegments | stories/RIP/clustering/ld/invrep_scoring.py:192-235 | `filter_segments` (the predicate `Filtered`): empty results exactly when no piece is replicated; otherwise one repeat made of the crops of the merged replicated ranges sorted by left start, and one tag "N>=k" with k the least support count |
| Consensus.MappedWithin | stories/RIP/clustering/ld/invrep_scoring.py:197-208 | every boundary lies inside the unrolled length of the repeat |
| Consensus.TableWithin | stories/RIP/clustering/ld/invrep_scoring.py:207-228 | every replicated interval lies inside the unrolled length |
| DsRnaFiltering.CacheDsRna | stories/RIP/clustering/dsRNA-filtering.py:46-55 | the unique repeats are exactly the predicted ones, each once, sorted by the start of their bounding range |
| DsRnaFiltering.UnitsOf | stories/RIP/clustering/dsRNA-filtering.py:85-88 | two units per repeat: its left and its right bounding range |
| DsRnaFiltering.Units | stories/RIP/clustering/dsRNA-filtering.py:89 | the units sorted by start, a permutation of them |
| DsRnaFiltering.Link | stories/RIP/clustering/dsRNA-filtering.py:83-99 | the connection matrix is square and a cell is set exactly when the scan from the first unit reaches the second within `max_distance` before it breaks |
| DsRnaFiltering.Overlapping | stories/RIP/clustering/dsRNA-filtering.py:124-132 | the peaks returned are exactly those that overlap the query |
| DsRnaFiltering.BlockHitSpec | stories/RIP/clustering/dsRNA-filtering.py:146 | a block of the chain maps at most one piece, present exactly when the block overlaps the query, inside the block's range in chain coordinates |
| DsRnaFiltering.ChainPiecesEmpty | stories/RIP/clustering/dsRNA-filtering.py:146 | nothing is mapped exactly when no block overlaps the query |
| DsRnaFiltering.ChainPiecesBounds | stories/RIP/clustering/dsRNA-filtering.py:146 | mapped pieces are non-empty, in order and inside the chain |
| DsRnaFiltering.MapIntervalSpec | stories/RIP/clustering/dsRNA-filtering.py:146-151 | `map_interval` gives none exactly when no block overlaps, otherwise an interval inside the chain's coordinates |
| DsRnaFiltering.PaddedOrdered | stories/RIP/clustering/dsRNA-filtering.py:158-162 | the padded and merged windows are ordered and lie inside the repeat |
| DsRnaFiltering.PaddedCover | stories/RIP/clustering/dsRNA-filtering.py:158-162 | a position is covered by the windows exactly when it lies in the repeat and within 128 of a mapped peak |
| DsRnaFiltering.WindowsSpec | stories/RIP/clustering/dsRNA-filtering.py:137-162 | the windows of one repeat are ordered and lie inside its unrolled length |
| DsRnaFiltering.WindowsCover | stories/RIP/clustering/dsRNA-filtering.py:137-162 | a position is in a window exactly when it is near a peak hit mapped from either arm |
| DsRnaFiltering.Chains | stories/RIP/clustering/dsRNA-filtering.py:137-141 | the left and right arms of every segment and the unrolled length |
| DsRnaFiltering.MapLeft | stories/RIP/clustering/dsRNA-filtering.py:144-147 | the left-arm peaks mapped into chain coordinates, unmappable ones dropped |
| DsRnaFiltering.MapRight | stories/RIP/clustering/dsRNA-filtering.py:149-152 | the right-arm peaks mapped and mirrored to the left arm's coordinates |
| DsRnaFiltering.Chop | stories/RIP/clustering/dsRNA-filtering.py:129-165 | the pieces of one repeat: none when either arm lacks a peak, otherwise its crops to the windows |
| DsRnaFiltering.Collect | stories/RIP/clustering/dsRNA-filtering.py:128-171 | the piece table is keyed by `seqranges` and holds every piece cut from the group, each with the ordered list of repeats it came from |
| DsRnaFiltering.AddPiece | stories/RIP/clustering/dsRNA-filtering.py:166-171 | one piece: a known key gets the repeat appended to its origins, a new key gets a fresh entry |
| DsRnaFiltering.AddPieces | stories/RIP/clustering/dsRNA-filtering.py:165-171 | all pieces of one repeat are filed |
| DsRnaFiltering.SeenNext | stories/RIP/clustering/dsRNA-filtering.py:167 | a piece is known after one more step exactly when it was known or is the piece just filed |
| DsRnaFiltering.OriginsNext | stories/RIP/clustering/dsRNA-filtering.py:169-171 | filing one piece appends the repeat to the origins of that piece only |
| Optimization.Span | stories/RIP/clustering/dsRNA-filtering.py:117-120 | the bounding range of a group contains every member's bounding range and is attained by a member on each side |
| Optimization.Hull | stories/RIP/clustering/dsRNA-filtering.py:117-120 | the loop computes the bounding range of the group |
| Optimization.KeySpan | stories/RIP/clustering/dsRNA-filtering.py:177-178 | the scoring window spans every piece's first and last block and is attained on each side |
| Optimization.Initial | stories/RIP/clustering/dsRNA-filtering.py:183 | each piece paired with its score |
| Optimization.MaxScore | stories/RIP/clustering/dsRNA-filtering.py:184 | the largest score, attained by some piece |
| Optimization.Prefilter | stories/RIP/clustering/dsRNA-filtering.py:185 | keeps exactly the pieces scoring at least 10% of the maximum |
| Optimization.Window | stories/RIP/clustering/dsRNA-filtering.py:177-179 | the scoring window is non-empty, fits the contig and holds every piece |
| Optimization.Solve | stories/RIP/clustering/dsRNA-filtering.py:183-234 | the kept pieces are distinct pieces of the group; they are the shortest prefix, best score first, of the greedy solution that carries 90% of its total score; every piece of the solution, drawn from the group's pieces, scored at least 1e-32 and a tenth of the best initial score when it was chosen; the solution is empty exactly when the best initial score is below 1e-32, and otherwise starts with that best score and trimming keeps something |
| Optimization.GreedyTrim | stories/RIP/clustering/dsRNA-filtering.py:188-234 | the solution is the rounds of the greedy loop over the candidates, drawn from them, trimmed as `Trim` states, and trimming keeps something of a non-empty solution |
| Optimization.BestChosen | stories/RIP/clustering/dsRNA-filtering.py:183-196 | the rounds over the prefiltered candidates choose nothing exactly when the best initial score is below 1e-32, and otherwise choose the best-scoring piece first |
| Optimization.KeptNonEmpty | stories/RIP/clustering/dsRNA-filtering.py:223-234 | trimming a non-empty solution of positive scores keeps at least one candidate |
| Optimization.OptimizeGroup | stories/RIP/clustering/dsRNA-filtering.py:115-239 | every result of a group is a piece cut from that group with its origins, no piece is reported twice, and the results are, in order, the pieces trimming keeps of the greedy solution, which is empty exactly when no piece scores at least 1e-32 and otherwise starts with the best score |
| Optimization.Select | stories/RIP/clustering/dsRNA-filtering.py:183-239 | the table's pieces are scored, selected and trimmed, and each kept piece is reported with the table's origins, in the order trimming keeps them; the solution is empty exactly when the best initial score is below 1e-32 and otherwise starts with it |
| Optimization.ReportFromGroup | stories/RIP/clustering/dsRNA-filtering.py:237-239 | each reported piece is in the table and reports the table's origins |
| Optimization.Optimize | stories/RIP/clustering/dsRNA-filtering.py:72-242 | `optimize`: the groups partition the repeats and are the connected components of the proximity graph (closed under its links, each one connected); every result belongs to one group and comes from it; no piece is reported twice within a group |
| Optimization.AddGroup | stories/RIP/clustering/dsRNA-filtering.py:115-239 | one group's results are appended with their owner |
| Optimization.ValuesDistinct | stories/RIP/clustering/dsRNA-filtering.py:183 | the pieces of the table are distinct |
| Aggregation.TallyAllSpec | stories/RIP/clustering/dsRNA-filtering.py:277-285 | each record holds its repeat and exactly the solutions that voted for it, in order |
| Aggregation.Aggregate | stories/RIP/clustering/dsRNA-filtering.py:276-285 | the loop over all runs builds the tally of all their votes |
| Aggregation.AggregateRun | stories/RIP/clustering/dsRNA-filtering.py:279-285 | one run's solution adds its votes to the tally |
| Aggregation.AggregateHit | stories/RIP/clustering/dsRNA-filtering.py:280-285 | one solution's origins each vote for it |
| Aggregation.Consolidate | stories/RIP/clustering/dsRNA-filtering.py:288-296 | every record gets a verdict, `after` counts the ones kept, each record's filing is what `filter_segments` returns on it, and each contig's entries are, in insertion order, the zipped repeats and tags of its kept records (one entry per kept record) |
| Aggregation.Judge | stories/RIP/clustering/dsRNA-filtering.py:290-293 | the next record's solution and tag are what `filter_segments` returns on it, and the verdict is whether the solution is non-empty |
| Aggregation.Keep | stories/RIP/clustering/dsRNA-filtering.py:290-292 | the solution and tag are what `filter_segments` returns on the record; the verdict is whether it keeps something, which happens exactly when some piece is replicated |
| Aggregation.File | stories/RIP/clustering/dsRNA-filtering.py:293-296 | a kept record appends its zipped repeats and tags to its own contig's entries, creating the contig's list, and counts in `after`; nothing else changes |
| Aggregation.FileNext | stories/RIP/clustering/dsRNA-filtering.py:289-296 | one more record of the insertion order is judged, filed and counted |
| Aggregation.FiledStep | stories/RIP/clustering/dsRNA-filtering.py:293-295 | filing a record extends its contig's entries by its zipped solution and tag, and no other contig's |
| Aggregation.FiledOnPrefix | stories/RIP/clustering/dsRNA-filtering.py:288-296 | the entries filed by the first records do not depend on the later ones |
| Aggregation.Filter | stories/RIP/clustering/dsRNA-filtering.py:276-296 | votes are tallied in full, every record is judged by `filter_segments`, `after` counts the kept records and never exceeds them, and each contig's entries are the zipped repeats and tags of its kept records in insertion order |
| DESeq2.MakeComparison | utils/deseq2/deseq2.py:37-38 | a comparison is built exactly when its target and reference levels differ, otherwise the assertion fails; the fields are kept |
| DESeq2.PutGet | utils/deseq2/deseq2.py:94-110 | after storing a key, looking it up gives the stored value and every other key is unchanged |
| DESeq2.PutDict | utils/deseq2/deseq2.py:94-110 | storing keeps the keys of the dictionary distinct |
| DESeq2.MaskedAll | utils/deseq2/deseq2.py:82-86 | replacing each symbol of the string that is neither alphanumeric nor '_' by '_', one symbol after another, sanitises the whole string |
| DESeq2.NormalizeString | utils/deseq2/deseq2.py:81-90 | the method computes the normalised string |
| DESeq2.NormalizedPlain | utils/deseq2/deseq2.py:81-90 | a normalised string holds only alphanumerics and '_' |
| DESeq2.NormalizedSeparated | utils/deseq2/deseq2.py:88-89 | a normalised string neither starts nor ends with '_' and never holds two '_' in a row |
| DESeq2.NormalizedIdempotent | utils/deseq2/deseq2.py:81-90 | normalising twice is normalising once |
| DESeq2.IdsDistinct | utils/deseq2/deseq2.py:94-110 | the identifiers `<normalised key>_<index>` of different indexes differ, whatever the keys |
| DESeq2.IdMapKeys | utils/deseq2/deseq2.py:94-110 | the identifier map holds exactly the listed keys |
| DESeq2.IdMapInjective | utils/deseq2/deseq2.py:94-110 | distinct keys get distinct identifiers |
| DESeq2.FeatureRoundTrip | utils/deseq2/deseq2.py:110-121 | mapping a feature to its identifier and back through the reversed map gives the feature |
| DESeq2.InvertItem | utils/deseq2/deseq2.py:120 | the reversed map sends each value back to its key when the values are distinct |
| DESeq2.RewriteCorrupts | utils/deseq2/deseq2.py:41-43 | the sequential substring replacement as written turns the design `ab` with attributes `a` and `ab` into `a_0b`, which names neither |
| DESeq2.RenameFormula | utils/deseq2/deseq2.py:41-43 | renaming whole words turns the design `~ w1 + w2 + ...` into the formula of the renamed attributes |
| DESeq2.Normalize | utils/deseq2/deseq2.py:40-50 | normalising fails with a KeyError exactly when a sample, the attribute or a level is missing from its map; otherwise every field is mapped and the design renamed word by word |
| DESeq2.Lookup | utils/deseq2/deseq2.py:44 | the sample tuple exists exactly when every sample is mapped, and holds their images in order |
| DESeq2.NewAnalysis | utils/deseq2/deseq2.py:61-79 | building an analysis fails with the first failing check: a ValueError when the sample index and the count columns differ as sets, an AssertionError when a comparison repeats an identifier, names an unknown sample, attribute or level, or has a threshold out of range |
| DESeq2.CheckedDistinct | utils/deseq2/deseq2.py:66-69 | an accepted analysis has pairwise distinct comparison identifiers |
| DESeq2.NormalizeAccepted | utils/deseq2/deseq2.py:92-117 | in an accepted analysis every comparison normalises with the maps `run` builds, and its target and reference still differ |
| DESeq2.ReplicatesCount | utils/deseq2/deseq2.py:134 | a row's replicate count is the number of its samples reaching the minimum count |
| DESeq2.ReplicatesMonotone | utils/deseq2/deseq2.py:134 | a stricter minimum count never lets more samples through |
| DESeq2.FilterRowsMembers | utils/deseq2/deseq2.py:134 | a row is kept exactly when it has enough samples reaching the minimum count |
| DESeq2.FilterRowsTooMany | utils/deseq2/deseq2.py:134 | requiring more replicates than there are samples keeps nothing |
| Mfe.Close | stories/HSV1/predict-mfe.py:23-42 | a ')' with a non-empty stack pops the '(' it matches; when the last stem's right arm ends just before the ')' and the popped '(' sits just before the last stem's left arm, that stem grows by one on both sides, otherwise a new one-pair stem is appended; the scan's invariant is kept |
| Mfe.Open | stories/HSV1/predict-mfe.py:21-23 | a '(' is pushed, any other character but ')' is skipped, and the scan's invariant is kept |
| Mfe.Step | stories/HSV1/predict-mfe.py:21-42 | one character is read without error exactly when the prefix read so far closes no more brackets than it opens, and then the scan's invariant is kept |
| Mfe.Scan | stories/HSV1/predict-mfe.py:20-42 | the loop finishes without popping an empty stack exactly when no prefix closes more brackets than it opens, and then ends in the scan's invariant |
| Mfe.ReadAll | stories/HSV1/predict-mfe.py:20-49 | at the end of the scan, the stack holds the brackets left open, the left arms add up to the ')' read, every stem has arms of equal length of '(' and of ')' whose k-th brackets from the outside match each other, no stem can be extended on either side by a matching pair, the right arms are in order, and every ')' lies in some right arm |
| Mfe.MatchedUnique | stories/HSV1/predict-mfe.py:21-42 | a ')' matches at most one '(' |
| Mfe.DeriveStems | stories/HSV1/predict-mfe.py:20-49 | popping an empty stack is an IndexError exactly when some prefix closes more brackets than it opens; the count assertion fails exactly when a '(' stays open; otherwise the brackets count twice the left-arm total, each stem has equal arms of '(' and of ')' whose brackets match pairwise from the outside in, no stem can be extended by a matching pair, the right arms are in order, and every ')' lies in some stem |
| Mfe.LeftTotalReplaceLast | stories/HSV1/predict-mfe.py:30-32 | growing the last stem changes the left-arm total by the growth only |
| Visual.GeneLePreorder | stories/HSV1/ld/visual.py:49 | the order by start, longer first, is a total preorder |
| Visual.Pass | stories/HSV1/ld/visual.py:59-71 | one pass over the remaining intervals places at least one of them on the current level and defers the rest, keeping the layout invariant: every placed interval was blocked, by a closer earlier interval, on every level below its own, and every deferred interval on every level so far |
| Visual.AssignLevels | stories/HSV1/ld/visual.py:52-71 | every interval of a contig gets exactly one level, levels 0 to count-1 are all used, intervals on one level are more than `offset` apart, and each interval is on the lowest level it fits: on every level below its own an earlier interval within `offset` blocks it (first fit) |
| Visual.FirstFitUnique | stories/HSV1/ld/visual.py:52-71 | first fit decides the levels: two level assignments that both keep one level's intervals apart and put each interval on the lowest free level are equal |
| Visual.FirstFitExample | stories/HSV1/ld/visual.py:52-71 | on [0,10), [5,25), [20,30) with offset 0 the only first-fit levels are 0, 1, 0 |
| Visual.DefaultStep | stories/HSV1/ld/visual.py:74-78 | the default step is 0 for a single level and otherwise spreads the distance between the limits over the top level |
| Visual.HeightWithinLimits | stories/HSV1/ld/visual.py:80-88 | with the default step every height lies between the two limits, level 0 at the first limit and the top level at the second |
| Visual.Pack | stories/HSV1/ld/visual.py:52-71 | genes sorted by start are paired, in order, with levels below the count; the top level is used, no genes give no levels, genes sharing a level are more than `offset` apart, and the levels are the first-fit levels of the genes' locations |
| Visual.LayContig | stories/HSV1/ld/visual.py:48-71 | a contig's genes are sorted by start, longer first, and laid out as a permutation of the contig's genes, each with a level below the count, the top level used, genes sharing a level more than `offset` apart, and the levels the first-fit levels of that order |
| Visual.ContigFirstFitUnique | stories/HSV1/ld/visual.py:52-71 | across contigs too, first fit decides the levels: two assignments that both keep same-contig genes on one level apart and put each gene on the lowest level free within its contig are equal |
| Visual.MembersCount | stories/HSV1/ld/visual.py:43-45 | the list of a contig holds each gene of that contig exactly as often as the input, and no gene of another contig |
| Visual.LayStep | stories/HSV1/ld/visual.py:48-73 | laying out one more, not yet seen, contig keeps the layout of all contigs so far: genes counted as in the input, same-contig genes on one level apart, each contig in start order, longer first, with first-fit levels, and the highest level tracked |
| Visual.LayAll | stories/HSV1/ld/visual.py:41-73 | all contigs laid out give a permutation of the genes, with the highest level over all contigs, same-contig genes on one level more than `offset` apart, each contig in start order, longer first, and every gene on the lowest level free within its contig |
| Visual.Assort | stories/HSV1/ld/visual.py:34-91 | no genes give nothing; the placed genes are a permutation of the input; every gene's height is `Height` of its level with the step used, which is the given one or the default step of the highest level; same-contig genes on one level are more than `offset` apart; each contig comes in start order, longer first, every gene on the lowest level free within its contig; with the default step every height lies between the limits |
| HSV1Features.Complemented | stories/HSV1/ld/features.py:150 | the complement replaces every base by its partner, in place, and keeps the length |
| HSV1Features.RevCompInvolution | stories/HSV1/ld/features.py:69 | taking the reverse complement twice gives the genome back |
| HSV1Features.RevCompWindow | stories/HSV1/ld/features.py:69-80 | a window of the reverse complement is the reverse complement of the mirrored window of the genome |
| HSV1Features.OccurrencesSound | stories/HSV1/ld/features.py:75-78 | every match `re.finditer` reports for a literal primer is an occurrence, and the matches do not overlap |
| HSV1Features.OccurrencesComplete | stories/HSV1/ld/features.py:75-78 | no occurrence is missed: each overlaps a reported match |
| HSV1Features.OccurrencesNone | stories/HSV1/ld/features.py:75-78 | the search finds nothing exactly when the primer does not occur |
| HSV1Features.ForwardHitsSound | stories/HSV1/ld/features.py:75-77 | every '+' hit keeps its coordinates and reads as the primer in the genome |
| HSV1Features.ReverseHitsSound | stories/HSV1/ld/features.py:78-81 | every '-' hit, mapped to (size - end, size - start), is a window of the genome whose reverse complement is the primer |
| HSV1Features.ReverseHitAt | stories/HSV1/ld/features.py:78-81 | a match in the reverse complement maps back to a window inside the genome that reads as the primer on '-' |
| HSV1Features.PrimerHitsSound | stories/HSV1/ld/features.py:74-81 | every hit of a primer reads as it on its own strand |
| HSV1Features.PrimerHitsNone | stories/HSV1/ld/features.py:74-83 | a primer has no hit exactly when it occurs on neither strand |
| HSV1Features.PrimersBedSound | stories/HSV1/ld/features.py:72-88 | every hit of the track belongs to one of the primers and reads as it |
| HSV1Features.UnmatchedSpec | stories/HSV1/ld/features.py:82-83 | a primer is reported as failing to match exactly when it occurs on neither strand |
| HSV1Features.UnmatchedAbsent | stories/HSV1/ld/features.py:82-83 | a name no primer carries is never reported |
| HSV1Features.PrimersSnoc | stories/HSV1/ld/features.py:72-83 | searching one more primer extends the track by its hits and the report by its name when it has none |
| HSV1Features.ProbesSnoc | stories/HSV1/ld/features.py:72-73 | the primers come pair by pair, forward before reverse |
| HSV1Features.Primers | stories/HSV1/ld/features.py:63-88 | a genome not made of exactly A, C, G and T fails the assertion; otherwise the track and the report are those of the primers in order |
| HSV1Features.ProbesNonEmpty | stories/HSV1/ld/features.py:18-61 | every primer searched is a non-empty pattern |
| HSV1Features.UpperAll | stories/HSV1/ld/features.py:146-149 | uppercasing keeps the length and uppercases each character |
| HSV1Features.AsDna | stories/HSV1/ld/features.py:146 | a miRNA written in DNA letters has no U and no lower-case letter; U becomes T and every DNA base is kept |
| HSV1Features.DnaProbes | stories/HSV1/ld/features.py:146 | every miRNA keeps its name and gets its DNA sequence |
| HSV1Features.Slice | stories/HSV1/ld/features.py:156-159 | Python slicing with bounds past the end is the slice when the bounds fit and is shorter than asked otherwise |
| HSV1Features.HitAtMeaning | stories/HSV1/ld/features.py:155-160 | a '+' hit is the exact window; a '-' hit is a window of the complement that read backwards is the miRNA, that is a window whose reverse complement is the miRNA; a window past the end never matches |
| HSV1Features.ScanMembers | stories/HSV1/ld/features.py:153-160 | the scan lists exactly the windows whose start is below the genome size and whose test succeeds |
| HSV1Features.ScanAscending | stories/HSV1/ld/features.py:153-160 | the windows of a scan come by strictly ascending start |
| HSV1Features.MirHits | stories/HSV1/ld/features.py:152-160 | every miRNA gets its '+' and '-' windows |
| HSV1Features.SpansMembers | stories/HSV1/ld/features.py:165-168 | an interval is written for a miRNA and strand exactly when it is one of its windows |
| HSV1Features.MiRNABedMembers | stories/HSV1/ld/features.py:162-168 | the track holds exactly the windows of each miRNA on its strand |
| HSV1Features.MiRNA | stories/HSV1/ld/features.py:146-168 | the nested scan loops and the writing loops compute the track |
| HSV1Features.ScanAt | stories/HSV1/ld/features.py:154-160 | one start position tests every miRNA on both strands, extending the scan to the next start |
| HSV1Features.TryAt | stories/HSV1/ld/features.py:155-160 | one miRNA at one start: each strand's list grows to the scan up to the next start, the window added exactly when that strand's test succeeds |
| HSV1Features.MiRNATrack | stories/HSV1/ld/features.py:146-168 | an interval is in the track exactly when some miRNA, in DNA letters, matches the uppercased genome there on its strand |
| HSV1Features.BlockRecordBlocks | stories/HSV1/ld/features.py:210-264 | a BED12 record holds one block per exon with sizes and relative starts, starting at 0 and ending at the record's end, and its blocks are exactly the exons |
| HSV1Features.OnStrandMembers | stories/HSV1/ld/features.py:216-277 | a record is in the list of a strand exactly when it is among the records and on that strand |
| HSV1Features.FirstErrOfPrefix | stories/HSV1/ld/features.py:204-242 | once a record fails, later records are never read |
| HSV1Features.ByStrandSpec | stories/HSV1/ld/features.py:203-285 | splitting by strand succeeds exactly when every record does; then each record is in its strand's list and every listed record is one of them |
| HSV1Features.ParseExon | stories/HSV1/ld/features.py:206-207 | an exon that is not two integers joined by '-' is a ValueError |
| HSV1Features.ParseLocation | stories/HSV1/ld/features.py:205-207 | a location that does not parse is an IndexError or ValueError; otherwise it has at least one exon and they are sorted |
| HSV1Features.ExonRoundTrip | stories/HSV1/ld/features.py:206-207 | an exon written as "s-e" parses back to itself |
| HSV1Features.LocationRoundTrip | stories/HSV1/ld/features.py:205-207 | a location written from sorted exons parses back to those exons |
| HSV1Features.TuplesOrderedVacuous | stories/HSV1/ld/features.py:207-208 | as written the assertion of line 208 holds on every location that parses |
| HSV1Features.ReversedExonAccepted | stories/HSV1/ld/features.py:205-212 | the location "c:10-5" passes the assertion as written but gives a block of negative size; the intended check rejects it |
| HSV1Features.OrfRecord | stories/HSV1/ld/features.py:205-219 | a record that is produced is on '+' or '-' |
| HSV1Features.OrfRecordBlocks | stories/HSV1/ld/features.py:205-219 | an ORF's record holds its parsed exons as blocks with non-negative sizes and starts, its type as the name and its strand |
| HSV1Features.Orfs | stories/HSV1/ld/features.py:203-219 | the row loop computes each ORF's record and splits them by strand, stopping at the first failing row |
| HSV1Features.ExonSpansMembers | stories/HSV1/ld/features.py:252 | the exon spans are exactly the locations of the sub-features of type exon |
| HSV1Features.SortedExons | stories/HSV1/ld/features.py:252 | the exons are sorted and are a permutation of the exon spans |
| HSV1Features.GeneRecord | stories/HSV1/ld/features.py:245-280 | a record that is produced is on '+' or '-' |
| HSV1Features.GeneRecordBlocks | stories/HSV1/ld/features.py:248-280 | a transcript's record spans the transcript, lies within its gene, holds its sorted exons as blocks and is on '+' exactly for strand 1 |
| HSV1Features.GeneRecordNonNegative | stories/HSV1/ld/features.py:256-259 | exons that end no earlier than they start give blocks of non-negative size and relative start |
| HSV1Features.OwnJobs | stories/HSV1/ld/features.py:245 | each transcript of a feature is visited with that feature, in order |
| HSV1Features.JobsSpec | stories/HSV1/ld/features.py:242-245 | with the skip intended by line 244, a transcript is visited exactly when its feature is a gene |
| HSV1Features.GeneResults | stories/HSV1/ld/features.py:245-280 | every visited transcript gets its record |
| HSV1Features.GeneResultsPrefix | stories/HSV1/ld/features.py:242-280 | the records of a prefix of the visits are a prefix of the records |
| HSV1Features.JobsPrefix | stories/HSV1/ld/features.py:242-245 | the visits of a prefix of the features are a prefix of the visits |
| HSV1Features.SkippedFeatureProcessed | stories/HSV1/ld/features.py:242-246 | a feature of type region with a transcript of type exon stops the run with an AssertionError as written, but gives empty tracks when skipped as announced |
| HSV1Features.FirstErrConcat | stories/HSV1/ld/features.py:242-280 | the outcome of two runs of records in a row is the first one's error, else the second's, else both lists |
| HSV1Features.OnStrandConcat | stories/HSV1/ld/features.py:277 | the records of a strand from two runs are those of each in turn |
| HSV1Features.GenesSnoc | stories/HSV1/ld/features.py:242-280 | one more feature adds its own transcripts' outcome to the run |
| HSV1Features.GenesFailed | stories/HSV1/ld/features.py:242-280 | once a feature's transcript fails, later features do not change the error |
| HSV1Features.GeneTranscripts | stories/HSV1/ld/features.py:245-280 | the transcript loop of one gene computes its records or the first error |
| HSV1Features.Genes | stories/HSV1/ld/features.py:241-285 | the feature loop computes the records of all genes' transcripts split by strand, stopping at the first failure |
| HSV1Circos.ParseBlock | stories/HSV1/ld/features.py:327-330 | a block with a size or start that is not an integer is a ValueError |
| HSV1Circos.Blocks | stories/HSV1/ld/features.py:322-327 | there are as many blocks as the shorter of the size and start columns |
| HSV1Circos.Zipped | stories/HSV1/ld/features.py:327 | zipping the columns gives as many blocks as the shorter column |
| HSV1Circos.ZippedOk | stories/HSV1/ld/features.py:327-330 | numeric columns give blocks of those sizes, starting at the gene's start plus those starts |
| HSV1Circos.ExonCoords | stories/HSV1/ld/features.py:326-330 | reading the blocks fails only with a ValueError; otherwise there is at least one exon |
| HSV1Circos.TaggedSnoc | stories/HSV1/ld/features.py:331-335 | tagging one more interval appends its track |
| HSV1Circos.TracksShape | stories/HSV1/ld/features.py:326-349 | a transcript gives one exon track per exon, one intron track between each two consecutive exons and one 5′ and one 3′ track, the first and last exon, swapped on '-' |
| HSV1Circos.IntronsBetween | stories/HSV1/ld/features.py:333-335 | between exons that do not overlap, each intron runs from the end of one exon to the start of the next |
| HSV1Circos.JoinedSplit | stories/HSV1/ld/features.py:263-327 | numbers joined by ',' split back into one piece per number, each parsing to it |
| HSV1Circos.RowBlocks | stories/HSV1/ld/features.py:263-330 | the blocks read from a written record are the record's blocks |
| HSV1Circos.ZippedBlocks | stories/HSV1/ld/features.py:322-330 | columns holding a record's sizes and starts give its blocks |
| HSV1Circos.ParseBlockOk | stories/HSV1/ld/features.py:328-329 | a block of integer size and start is the interval from the gene's start plus the start, of that size |
| HSV1Circos.BlockRowRoundTrip | stories/HSV1/ld/features.py:210-330 | the exons of a record written by `orfs` or `genes` and read back by `circos` are the exons it was built from |
| HSV1Circos.FirstErrOk | stories/HSV1/ld/features.py:321-349 | results that are all values give those values |
| HSV1Circos.GeneRecordEnds | stories/HSV1/ld/features.py:252-349 | a transcript record read back gives its sorted exons; its 5′ end starts at the transcript's start on '+' and ends at its end on '-', and its 3′ end the other way round |
| HSV1Circos.KeptMembers | stories/HSV1/ld/features.py:302 | a transcript is kept exactly when it is listed and its name is not in SKIP |
| HSV1Circos.Scores | stories/HSV1/ld/features.py:308 | the scores are read transcript by transcript |
| HSV1Circos.RenormalisedFails | stories/HSV1/ld/features.py:308-310 | rescaling fails exactly on no scores (ValueError from max) or on scores that are all equal (ZeroDivisionError) |
| HSV1Circos.Rescale | stories/HSV1/ld/features.py:309-310 | rescaling keeps the number of scores |
| HSV1Circos.RenormalisedRange | stories/HSV1/ld/features.py:308-310 | otherwise every score lands in [0, 1], their order is kept, the smallest becomes 0 and the largest 1 |
| HSV1Circos.RescaleRange | stories/HSV1/ld/features.py:309-310 | scores between their least and greatest land in [0, 1] in the same order, with 0 and 1 attained |
| HSV1Circos.Scaled | stories/HSV1/ld/features.py:310 | a score between the bounds rescales into [0, 1] |
| HSV1Circos.ScaledMonotone | stories/HSV1/ld/features.py:310 | rescaling keeps the order of two scores, both ways |
| HSV1Circos.TracksOwn | stories/HSV1/ld/features.py:331-349 | every track of a transcript carries its name and score |
| HSV1Circos.SourcedSnoc | stories/HSV1/ld/features.py:321-349 | tracks owned by earlier transcripts stay owned as transcripts are added |
| HSV1Circos.StrandTracksFromRows | stories/HSV1/ld/features.py:318-352 | every track of a strand carries the name and score of one of its transcripts |
| HSV1Circos.SourcedWithin | stories/HSV1/ld/features.py:318-352 | tracks owned by transcripts whose scores lie in a range have scores in that range |
| HSV1Circos.ScoresWithin | stories/HSV1/ld/features.py:318-352 | every score of a strand's tracks lies in a range when every transcript's score does |
| HSV1Circos.RenormalisedRowsSpec | stories/HSV1/ld/features.py:308-311 | rescaled rows keep their transcripts, in order, with scores in [0, 1] |
| HSV1Circos.CircosScores | stories/HSV1/ld/features.py:300-352 | every '+' track scores within [0, 1] and every '-' track within [-1, 0] |
| HSV1Circos.TranscriptTracks | stories/HSV1/ld/features.py:321-349 | the block loop computes one transcript's tracks |
| HSV1Circos.IntronTracks | stories/HSV1/ld/features.py:333-335 | the loop over consecutive exons computes the intron tracks |
| HSV1Circos.CollectTracks | stories/HSV1/ld/features.py:318-352 | the transcript loop computes a strand's tracks, stopping at the first failure |
| HSV1Circos.StrandTracksFailed | stories/HSV1/ld/features.py:321-349 | once a transcript fails, the strand fails with that error |
| HSV1Circos.Renormalise | stories/HSV1/ld/features.py:308-310 | the loop rescales the heights of one strand |
| HSV1Circos.Negate | stories/HSV1/ld/features.py:314-315 | the loop negates every '-' height |
| HSV1Circos.Circos | stories/HSV1/ld/features.py:288-356 | the circos tracks of both strands, after filtering, layout, rescaling and negation |
| InvRepeats.SeqRangesInjective | stories/RIP/clustering/dsRNA-filtering.py:49 | two repeats with the same `seqranges` are the same repeat, so the tuple of blocks is a faithful deduplication key |
| InvRepeats.OffsetMonotone | stories/RIP/clustering/ld/invrep_scoring.py:149-153 | the unrolled start of a segment grows strictly along the segments when left arms are non-empty |
| InvRepeats.CropLength | stories/RIP/clustering/ld/invrep_scoring.py:166-186 | the cropped repeat's left arms add up to the length of the unrolled range (the function's own assertion) |
| InvRepeats.CropPrefixLength | stories/RIP/clustering/ld/invrep_scoring.py:156-186 | the cropped left arms of the first `k` segments add up to the part of the range those segments cover |
| InvRepeats.CropAtLength | stories/RIP/clustering/ld/invrep_scoring.py:158-183 | cropping one segment keeps exactly the part of the range that falls on it |
| InvRepeats.CropAtWhole | stories/RIP/clustering/ld/invrep_scoring.py:171-176 | a segment lying wholly inside the range is kept unchanged |
| InvRepeats.CropPrefixEmptyBefore | stories/RIP/clustering/ld/invrep_scoring.py:151-154 | segments wholly before the range contribute nothing |
| InvRepeats.CropPrefixStableAfter | stories/RIP/clustering/ld/invrep_scoring.py:164-169 | segments wholly after the range contribute nothing |
| InvRepeats.CropValid | stories/RIP/clustering/ld/invrep_scoring.py:146-189 | cropping a well-formed repeat by a range inside it gives a well-formed repeat whose every segment is a symmetric crop of an original one |
| InvRepeats.CropPrefixFrom | stories/RIP/clustering/ld/invrep_scoring.py:158-183 | each cropped segment is valid and is a crop of one of the segments it came from |
| InvRepeats.CropPrefixNested | stories/RIP/clustering/ld/invrep_scoring.py:158-183 | the cropped segments stay nested: left arms ascend and right arms descend |
| InvRepeats.CropsNested | stories/RIP/clustering/ld/invrep_scoring.py:158-183 | crops of two nested segments are nested in the same order |
| InvRepeats.FromUnrolled | stories/RIP/clustering/ld/invrep_scoring.py:146-189 | `from_dsRNA_coordinates_to_global`: one repeat per sorted range, each the symmetric crop of the repeat to that range |
| InvRepeats.Seek | stories/RIP/clustering/ld/invrep_scoring.py:151-154 | the fast-forward stops on the segment that holds the range's start, having skipped only segments before the range |
| InvRepeats.CropNext | stories/RIP/clustering/ld/invrep_scoring.py:150-188 | one range of the loop: the repeat cropped to it, and the cursor still valid for the next (sorted) range |
| InvRepeats.TakeWhole | stories/RIP/clustering/ld/invrep_scoring.py:171-176 | the inner loop collects exactly the crops of the segments it walks past, stopping at the range's end or the last segment |
| InvRepeats.CropTail | stories/RIP/clustering/ld/invrep_scoring.py:178-183 | the optional last crop completes the crop of the whole repeat |
| InvRepeats.CropFirst | stories/RIP/clustering/ld/invrep_scoring.py:158-162 | the first crop cuts the segment by the range's offset on the left arm and mirrors the cut on the right arm |
| InvRepeats.CropLast | stories/RIP/clustering/ld/invrep_scoring.py:178-183 | the last crop trims the left arm's end and the right arm's start by the same amount |
| InvRepeats.CropFinish | stories/RIP/clustering/ld/invrep_scoring.py:178-183 | the last crop is added exactly when the range ends inside the current segment |
| Scoring.Explained | stories/RIP/clustering/ld/invrep_scoring.py:96-99 | `_score`: one value per position of the left arm |
| Scoring.ExplainedPair | stories/RIP/clustering/ld/invrep_scoring.py:96-99 | each explained value is the smaller of the left-arm value and the mirrored right-arm value |
| Scoring.OverlapSize | stories/RIP/clustering/ld/invrep_scoring.py:112-113 | the overlap size is non-negative and positive exactly when the intervals overlap |
| Scoring.PeakOverlapZero | stories/RIP/clustering/ld/invrep_scoring.py:110-114 | the total peak overlap of an arm is zero exactly when no peak overlaps it |
| Scoring.BisectLeftSpec | stories/RIP/clustering/ld/invrep_scoring.py:122-123 | `bisect_left` on a sorted list: everything before the index is smaller, everything from it on is not |
| Scoring.BisectLeftMonotone | stories/RIP/clustering/ld/invrep_scoring.py:122-124 | a larger key never bisects to an earlier index |
| Scoring.DistanceWeight | stories/RIP/clustering/ld/invrep_scoring.py:116-119 | the distance weight lies in (0, 1] and is 1 exactly when the arms are at most 1000 apart |
| Scoring.InsulatorWeight | stories/RIP/clustering/ld/invrep_scoring.py:121-125 | the insulator weight lies in (0, 1] and is 1 exactly when no insulator separates the arms |
| Scoring.Weight | stories/RIP/clustering/ld/invrep_scoring.py:106-127 | the combined weight is never negative |
| Scoring.WeightWithoutPeaks | stories/RIP/clustering/ld/invrep_scoring.py:110-114 | a repeat whose arms overlap no peak gets weight 0 |
| Scoring.WeightDownscaling | stories/RIP/clustering/ld/invrep_scoring.py:114-127 | the distance and insulator factors only lower the peak weight, and leave it unchanged exactly when the arms are within 1000 and no insulator lies between them |
| Scoring.Downscale | stories/RIP/clustering/ld/invrep_scoring.py:114-127 | multiplying by the two factors in (0, 1] keeps the weight at most the peak weight, equal only when both are 1 |
| Scoring.RawScoreNonNegative | stories/RIP/clustering/ld/invrep_scoring.py:101-104 | the raw score of non-negative scores is non-negative |
| Scoring.ExplainedNonNegative | stories/RIP/clustering/ld/invrep_scoring.py:96-99 | the explained signal of non-negative scores sums to a non-negative value |
| Scoring.ExplainedMonotone | stories/RIP/clustering/ld/invrep_scoring.py:96-99 | larger scores explain at least as much |
| Scoring.RawScoreMonotone | stories/RIP/clustering/ld/invrep_scoring.py:101-104 | the raw score is monotone in the scores |
| Scoring.ResolveSegmentByArms | stories/RIP/clustering/ld/invrep_scoring.py:133-142 | resolving one segment subtracts the explained signal from the left arm and its reverse from the right arm |
| Scoring.ResolveOnLeft | stories/RIP/clustering/ld/invrep_scoring.py:139-142 | on the left arm, the new score is the old one minus the explained value, floored at 0 |
| Scoring.ResolveOnRight | stories/RIP/clustering/ld/invrep_scoring.py:139-142 | on the right arm, the new score is the old one minus the mirrored explained value, floored at 0 |
| Scoring.ResolveOffArms | stories/RIP/clustering/ld/invrep_scoring.py:139-142 | positions off the arms keep their score |
| Scoring.ResolveSegmentBounds | stories/RIP/clustering/ld/invrep_scoring.py:131-143 | after resolving one segment every score lies between 0 and its old value, and scores off the arms are unchanged |
| Scoring.ResolveAllBounds | stories/RIP/clustering/ld/invrep_scoring.py:131-143 | after `resolve` every score lies between 0 and its old value, and scores off every arm are unchanged |
| Scoring.ResolveSegmentExhausts | stories/RIP/clustering/ld/invrep_scoring.py:131-143 | after resolving a segment it explains nothing more |
| Scoring.ValidArmsDisjoint | stories/RIP/clustering/ld/invrep_scoring.py:131-143 | the arms of a well-formed repeat never share a position, so the subtractions do not interfere |
| Scoring.ResolvedAmountIsRawScore | stories/RIP/clustering/ld/invrep_scoring.py:131-143 | the amount `resolve` returns equals the raw score of the repeat before resolving |
| Scoring.ResolveExhausts | stories/RIP/clustering/ld/invrep_scoring.py:131-143 | after `resolve` the repeat's raw score is 0 |
| Scoring.ResolveLowersScores | stories/RIP/clustering/ld/invrep_scoring.py:131-143 | `resolve` never raises the raw score of any other repeat |
| ScoreStates.ScoreState.constructor | stories/RIP/clustering/ld/invrep_scoring.py:83-94 | the state holds the window, scores, insulators and peaks it was given |
| ScoreStates.ScoreState.Score | stories/RIP/clustering/ld/invrep_scoring.py:101-129 | the weighted score of a repeat is non-negative when the scores are |
| ScoreStates.ScoreOn | stories/RIP/clustering/ld/invrep_scoring.py:101-129 | the weighted score of a repeat against a given signal is non-negative when the signal is |
| ScoreStates.ScoreOnMonotone | stories/RIP/clustering/ld/invrep_scoring.py:101-129 | less signal never raises a repeat's weighted score |
| ScoreStates.ScoreState.SubtractArm | stories/RIP/clustering/ld/invrep_scoring.py:139-142 | the scores become the old scores with the arm's slice lowered by `sub`, floored at 0 |
| ScoreStates.ScoreState.ResolveOne | stories/RIP/clustering/ld/invrep_scoring.py:133-142 | one segment: the scores become the resolved scores and the explained amount is returned |
| ScoreStates.ScoreState.Resolve | stories/RIP/clustering/ld/invrep_scoring.py:131-143 | `resolve`: the scores become the resolved scores of all segments and the returned amount is the resolved amount |
| ScoreStates.BaselineSpec | stories/RIP/clustering/ld/invrep_scoring.py:68-69 | the shifted difference is non-negative, has a zero, and keeps all pairwise differences |
| ScoreStates.WindowDiff | stories/RIP/clustering/ld/invrep_scoring.py:61-68 | the window of signal minus control, position by position |
| ScoreStates.Endpoints | stories/RIP/clustering/ld/invrep_scoring.py:71 | the insulators flattened to their start and end, in order |
| ScoreStates.ShiftDown | stories/RIP/clustering/ld/invrep_scoring.py:69 | every score is lowered by the minimum |
| ScoreStates.ExperimentTracks.constructor | stories/RIP/clustering/ld/invrep_scoring.py:18-39 | the tracks hold the given signal and control |
| ScoreStates.ExperimentTracks.Score | stories/RIP/clustering/ld/invrep_scoring.py:67-72 | an empty window fails with a value error (the minimum of nothing); otherwise a fresh state on the window whose scores are the baseline-shifted difference and whose insulators are the sorted endpoints |
| RnaModels.WalkSpec | stories/RIP/pcalling/make-rna-models.py:26-36 | the walk past TSS (or TES) boundaries only moves towards its side, stops in front of a boundary with another mark, and, when it moved, stops on a boundary carrying the mark |
| RnaModels.WindowStep | stories/RIP/pcalling/make-rna-models.py:28-29 | each step of the walk strictly reduces the number of boundaries left on its side, so the loop terminates |
| RnaModels.WalkLoop | stories/RIP/pcalling/make-rna-models.py:27-30 | the while loop computes the walk |
| RnaModels.NearestEntry | stories/RIP/pcalling/make-rna-models.py:57-64 | `closest` returns one of the stored boundaries with its data |
| RnaModels.NearestRightStep | stories/RIP/pcalling/make-rna-models.py:57-64 | the right neighbour lies strictly after the position and not past the last boundary |
| RnaModels.ExtendSpec | stories/RIP/pcalling/make-rna-models.py:21-40 | an extended model runs from the upstream walk's end to the downstream walk's end, contains the original span, keeps every exon position and adds exactly the stretches before the first exon and after the last |
| RnaModels.ExtendOne | stories/RIP/pcalling/make-rna-models.py:23-40 | the loop body computes the extension of one core, or the assertion error of line 39 |
| RnaModels.ExtensionsSpec | stories/RIP/pcalling/make-rna-models.py:22-43 | extending succeeds exactly when every core extends; then one chain per core, in order |
| RnaModels.MergedStretch | stories/RIP/pcalling/make-rna-models.py:40 | the merged stretched exons are separated, run from the new start to the new end and cover exactly the stretched blocks |
| RnaModels.StretchedCovers | stories/RIP/pcalling/make-rna-models.py:40 | the stretched blocks cover the new first exon, the middle exons and the new last exon |
| RnaModels.BlocksCovered | stories/RIP/pcalling/make-rna-models.py:43-46 | the collected blocks cover exactly what some chain covers |
| RnaModels.GapsSpec | stories/RIP/pcalling/make-rna-models.py:48-61 | the gap walk emits non-empty stretches in order that cover exactly the uncovered positions up to the last covered block, each ending at a boundary or at a covered block |
| RnaModels.TailSpec | stories/RIP/pcalling/make-rna-models.py:63-66 | the tail walk emits non-empty stretches in order, each ending at a boundary, covering exactly the positions up to the last boundary |
| RnaModels.GapLoop | stories/RIP/pcalling/make-rna-models.py:48-61 | the first while loop computes the gap stretches and ends where the covered blocks end |
| RnaModels.TailLoop | stories/RIP/pcalling/make-rna-models.py:63-66 | the second while loop computes the tail stretches |
| RnaModels.Tiling | stories/RIP/pcalling/make-rna-models.py:45-66 | the gaps and the tail together cover exactly the positions up to the last boundary that no model covers |
| RnaModels.Layout | stories/RIP/pcalling/make-rna-models.py:45-66 | single-block chains after the models are non-empty, in order and avoid every model |
| RnaModels.ModelsExtend | stories/RIP/pcalling/make-rna-models.py:22-43 | the first chains of a job are the extended cores, in order |
| RnaModels.ModelsSpec | stories/RIP/pcalling/make-rna-models.py:14-67 | `job`: the extended cores come first, then non-empty single-block chains in order that avoid every model, and all chains together cover exactly the positions from 0 to the last boundary |
| RnaModels.Job | stories/RIP/pcalling/make-rna-models.py:14-67 | the method computes the job's chains |
| RnaModels.Stored | stories/RIP/pcalling/make-rna-models.py:86-87 | the stored chains are a permutation of the job's chains sorted by first start; an empty chain is an index error |
| RnaCores.ReferencesSpec | stories/annotation/derive-rna-cores.py:36-40 | an unknown transcript id is a key error; otherwise the references are exactly the gene's transcripts that are transcription boundaries tagged "Ensembl canonical" |
| RnaCores.ReferencesPrefixErr | stories/annotation/derive-rna-cores.py:37-38 | the lookup stops at the first unknown id |
| RnaCores.ReferencesLoop | stories/annotation/derive-rna-cores.py:36-40 | the loop computes the references |
| RnaCores.SpanSpec | stories/annotation/derive-rna-cores.py:47-50 | the span holds the reference transcript; each end is the transcript's own end or the stored boundary next to the gene's end; only an empty reference fails the assertion |
| RnaCores.ClippedStep | stories/annotation/derive-rna-cores.py:72-111 | a window clipped to a positive size moves strictly towards its side |
| RnaCores.RefExonsSpec | stories/annotation/derive-rna-cores.py:63-80 | a single exon is kept; otherwise the first exon's window ends where it ends and the last exon's starts where it starts, neither longer than its exon, and the result covers exactly the two windows and the middle exons |
| RnaCores.RegionsSpec | stories/annotation/derive-rna-cores.py:82-98 | the read-in region reaches upstream from where the TSS walk stopped, the divergent region ends where the read-in does, and the read-through region reaches downstream from where the TES walk stopped |
| RnaCores.RegionsLoop | stories/annotation/derive-rna-cores.py:82-98 | the loops compute the three regions |
| RnaCores.PiecesSpec | stories/annotation/derive-rna-cores.py:109-112 | an intron's pieces are the two clipped windows, inside the intron, covering both of its edge positions |
| RnaCores.TwoWindows | stories/annotation/derive-rna-cores.py:112 | merging the two windows covers exactly the two windows |
| RnaCores.IntronAtSpec | stories/annotation/derive-rna-cores.py:104-118 | touching exons fail the assertion; otherwise the intron holds the pieces of the gap, and the donor is the upstream exon on the forward strand and the downstream one otherwise |
| RnaCores.PiecesStep | stories/annotation/derive-rna-cores.py:110-112 | the method computes the pieces |
| RnaCores.IntronStep | stories/annotation/derive-rna-cores.py:105-118 | the method computes one intron core |
| RnaCores.IntronsSpec | stories/annotation/derive-rna-cores.py:100-118 | a single exon has no introns; otherwise the introns succeed exactly when every intron does, one per gap, in order |
| RnaCores.IntronsLoop | stories/annotation/derive-rna-cores.py:100-118 | the loop computes the introns |
| RnaCores.AssembleSpec | stories/annotation/derive-rna-cores.py:47-122 | a core keeps the gene's id, contig and strand (an unknown strand is a value error), its exons are the reference exons, its regions lie upstream and downstream of the reference transcript, and it has introns exactly when it has more than one exon |
| RnaCores.DeriveNone | stories/annotation/derive-rna-cores.py:28-42 | a gene yields nothing exactly when it is mitochondrial or, with both indexes present, has no reference transcript |
| RnaCores.DeriveAmbiguous | stories/annotation/derive-rna-cores.py:44 | two reference transcripts fail the assertion |
| RnaCores.DeriveSome | stories/annotation/derive-rna-cores.py:32-122 | a core is built from the gene's single reference transcript with its own and its opposite strand's index |
| RnaCores.DeriveOne | stories/annotation/derive-rna-cores.py:28-122 | the loop body computes one gene's result |
| RnaCores.PresentSpec | stories/annotation/derive-rna-cores.py:27-122 | collecting succeeds exactly when every gene succeeds, and keeps exactly the cores built |
| RnaCores.CoresSpec | stories/annotation/derive-rna-cores.py:27-122 | the job succeeds exactly when every gene does; its cores are exactly those derived |
| RnaCores.GroupedSpec | stories/annotation/derive-rna-cores.py:15-122 | the cores are grouped by (contig, strand), each group holding exactly the cores with that key |
| RnaCores.GroupedSnoc | stories/annotation/derive-rna-cores.py:120-122 | appending a core extends its key's group only |
| RnaCores.AddCore | stories/annotation/derive-rna-cores.py:120-122 | the method appends one core to its group |
| RnaCores.JobLoop | stories/annotation/derive-rna-cores.py:14-122 | the gene loop computes the job |
| PeakFeatures.OverlapWithPeaks | stories/RIP/clustering/ld/features.py:65-72 | one comparison's counts hold, for each row key that hits its peaks, how many rows with that key overlap a peak of the same contig and orientation; keys that never hit are absent |
| PeakFeatures.TallyAbsent | stories/RIP/clustering/ld/features.py:65-70 | a key no row carries has count 0 |
| PeakFeatures.TallyOnce | stories/RIP/clustering/ld/features.py:65-70 | in a table of distinct rows, a row's count is 1 if it hits the comparison's peaks and 0 otherwise |
| PeakFeatures.ReplicationSpec | stories/RIP/clustering/ld/features.py:74-78 | in a table of distinct rows, a row's replication is the number of comparisons with a peak overlapping it |
| PeakFeatures.ReplicationDuplicate | stories/RIP/clustering/ld/features.py:65-78 | a repeated row counts once per copy: two copies hitting one comparison give replication 2 |
| PeakFeatures.ReplicationColumn | stories/RIP/clustering/ld/features.py:74-78 | the Replication column has one entry per row, the row key's summed counts |
| PeakFeatures.CountsOf | stories/RIP/clustering/ld/features.py:74 | the per-comparison counts are the tallies of the rows |
| PeakFeatures.SumCounts | stories/RIP/clustering/ld/features.py:76 | summing a key's counts over the comparisons gives its replication |
| PeakFeatures.Between | stories/RIP/clustering/ld/features.py:113-114 | one gap per consecutive pair of segments, from the end of one to the start of the next |
| PeakFeatures.GapsSpec | stories/RIP/clustering/ld/features.py:109-116 | the not-covered regions of one contig are separated; within the contig a position is not covered exactly when no covered segment holds it, and nothing not covered is covered |
| PeakFeatures.BetweenOf | stories/RIP/clustering/ld/features.py:113-114 | the pair loop computes the gaps between segments |
| PeakFeatures.GapsOf | stories/RIP/clustering/ld/features.py:111-116 | the method computes the not-covered regions of sorted segments |
| PeakFeatures.NotCovered | stories/RIP/clustering/ld/features.py:110-116 | the segments are sorted by start before the gaps are taken |
| PeakFeatures.NotCoveredAll | stories/RIP/clustering/ld/features.py:107-116 | a contig without a size is a key error; otherwise every covered (contig, strand) gets exactly the gaps of its sorted segments |
| PeakFeatures.SetWeightAt | stories/RIP/clustering/ld/features.py:179 | setting a weight changes that name's weight only and adds the name if it was new |
| PeakFeatures.SetWeightTotal | stories/RIP/clustering/ld/features.py:179 | setting a weight moves the total by the difference |
| PeakFeatures.WeighAt | stories/RIP/clustering/ld/features.py:174-178 | every repeat name weighs the summed overlaps of its entries with the row |
| PeakFeatures.WeighNames | stories/RIP/clustering/ld/features.py:174-178 | the weighed names are exactly the names of the overlapping entries |
| PeakFeatures.WeighDistinct | stories/RIP/clustering/ld/features.py:174-178 | each name appears once among the weights |
| PeakFeatures.WeighTotal | stories/RIP/clustering/ld/features.py:174-178 | the weights add up to the whole overlap |
| PeakFeatures.HitsOverlap | stories/RIP/clustering/ld/features.py:175-177 | every entry returned by the overlap query covers a positive length, so the assertion of line 177 holds |
| PeakFeatures.ArgMax | stories/RIP/clustering/ld/features.py:181 | `max` picks the first entry of greatest weight |
| PeakFeatures.ClassifiedAt | stories/RIP/clustering/ld/features.py:174-179 | repeat names weigh their overlap, "Repeat-free" weighs the rest of the row, and the names present are "Repeat-free" and the overlapping repeats |
| PeakFeatures.ClassifiedTotal | stories/RIP/clustering/ld/features.py:179 | all weights add up to the row's length, unless a repeat is itself named "Repeat-free" |
| PeakFeatures.RepeatClassSpec | stories/RIP/clustering/ld/features.py:161-181 | off-host contigs are "Not host"; a host contig without RepeatMasker records fails with a KeyError (the index is a plain dict), and only then; otherwise the class is a name of greatest weight, and a row no repeat overlaps is "Repeat-free" |
| PeakFeatures.WeighOf | stories/RIP/clustering/ld/features.py:174-178 | the loop accumulates the weights entry by entry |
| PeakFeatures.RepeatClassOf | stories/RIP/clustering/ld/features.py:161-181 | the method computes one row's class, or the KeyError of line 175 |
| PeakFeatures.RegionSpec | stories/RIP/clustering/ld/features.py:197-222 | off-host rows are "Not host", rows without annotation get nothing; otherwise cds iff a CDS overlaps, exon iff another genic name does, intron iff only introns and intergenic do, intergenic iff only intergenic does, and the assertion of line 221 fails exactly when nothing overlaps |
| PeakFeatures.CuratedSpec | stories/RIP/clustering/ld/features.py:236-241 | each flag is set exactly when a curated interval of its kind on the row's contig overlaps the row |
| PeakFeatures.RunsSpec | stories/RIP/clustering/ld/features.py:250-259 | the runs cut the sorted peaks into maximal stretches of touching peaks; read in order they give back the peaks |
| PeakFeatures.Labels | stories/RIP/clustering/ld/features.py:263-275 | every peak of a run gets the run's merged length and the distances to the runs before and after |
| PeakFeatures.TableSpec | stories/RIP/clustering/ld/features.py:262-275 | the dictionaries are built exactly when no peak is written twice (the assertion of line 273); then they hold every entry and nothing else |
| PeakFeatures.NeighbourErr | stories/RIP/clustering/ld/features.py:247-275 | one group's dictionaries fail exactly when a peak is listed twice |
| PeakFeatures.NeighbourKeys | stories/RIP/clustering/ld/features.py:247-275 | the dictionaries hold exactly the group's peaks |
| PeakFeatures.NeighbourAt | stories/RIP/clustering/ld/features.py:247-275 | each peak is mapped to the length of its touching run and the gaps to the neighbouring runs |
| PeakFeatures.MergeTouching | stories/RIP/clustering/ld/features.py:250-259 | the two parallel lists hold the runs of the sorted peaks |
| PeakFeatures.Distances | stories/RIP/clustering/ld/features.py:269-270 | the distances are -1, the gaps between consecutive merged spans, then -1 |
| PeakFeatures.DistancesGaps | stories/RIP/clustering/ld/features.py:269-275 | the distances at a run's index are its left and right gaps |
| PeakFeatures.WriteRun | stories/RIP/clustering/ld/features.py:271-275 | the inner loop writes the entries of one run, or fails on a peak already written |
| PeakFeatures.NeighbourJob | stories/RIP/clustering/ld/features.py:247-276 | the method computes one group's dictionaries |
| PeakFeatures.GroupDistinct | stories/RIP/clustering/ld/features.py:278-281 | a group lists a peak twice exactly when one of its rows is repeated |
| PeakFeatures.NeighbourColumnErr | stories/RIP/clustering/ld/features.py:278-290 | the three columns fail exactly when some row of the table is repeated |
| PeakFeatures.NeighbourColumnAt | stories/RIP/clustering/ld/features.py:284-293 | each row receives the merged length and neighbour distances of its peak's run in its own group |
| PeakFeatures.IndividualSpec | stories/RIP/clustering/ld/features.py:311-314 | a peak's value is the largest overlap with an overlapping repeat block: at least each of them, attained by one, 0 exactly when none overlaps, never more than the peak's length |
| PeakFeatures.IndividualOf | stories/RIP/clustering/ld/features.py:314 | the `max` over the overlapping blocks, one block at a time |
| PeakFeatures.DsRnaJob | stories/RIP/clustering/ld/features.py:302-315 | a record is kept exactly for the peaks some block overlaps, holding their largest overlap |
| PeakFeatures.DsRnaColumn | stories/RIP/clustering/ld/features.py:318-330 | each row gets a value between 0 and its length, positive exactly when dsRNAs exist for its contig and orientation and one of their blocks overlaps it |
| PeakFeatures.SiteHitsSpec | stories/RIP/clustering/ld/features.py:145-152 | a row counts no site exactly when no site of its contig and orientation overlaps it, and never more sites than records |
| PeakFeatures.SiteDuplicate | stories/RIP/clustering/ld/features.py:128-142 | two records of the same site count once |
| PeakFeatures.EditingSites | stories/RIP/clustering/ld/features.py:145-153 | one count per row, the number of distinct overlapping sites |
| PeakFeatures.MergeStep | stories/RIP/clustering/ld/features.py:254-259 | one peak extends the last merged span when it touches it, or starts a new run, and the parallel lists still hold the runs |
| PeakFeatures.JobStep | stories/RIP/clustering/ld/features.py:270-274 | one run writes its length and gaps for each of its peaks into the table |
| PeakFeatures.TableOf | stories/RIP/clustering/ld/features.py:268-275 | the run loop computes the neighbour table of the runs |
| Prefiltering.Assign | stories/RIP/clustering/peaks-prefiltering.py:53-71 | a masked column assignment sets the flag of the masked rows to the value and leaves the others as they were |
| Prefiltering.Homopolymers | stories/RIP/clustering/peaks-prefiltering.py:59-61 | after the four homopolymer assignments a row is flagged exactly when it is viral or off-host, rRNA-like, or a homopolymer of A, T, G or C |
| Prefiltering.Prefilter | stories/RIP/clustering/peaks-prefiltering.py:45-74 | a row curated both ways fails the assertion; otherwise a row is auto-excluded exactly when it is curated-excluded, or it has too few editing sites and is viral, rRNA-like, a homopolymer, weakly replicated or short |
| Prefiltering.LineLePreorder | stories/RIP/clustering/peaks-prefiltering.py:84 | the BED order, by contig then start, is a total preorder |
| Prefiltering.SortedLines | stories/RIP/clustering/peaks-prefiltering.py:79-84 | the written lines are sorted and are a permutation of the rows' BED lines named `N=<replication>` |
| Prefiltering.PassedMembers | stories/RIP/clustering/peaks-prefiltering.py:77 | a row passes exactly when some copy of it has its flag clear |
| Prefiltering.PassedCount | stories/RIP/clustering/peaks-prefiltering.py:77 | the passing rows are the rows less the flagged ones, counted with multiplicity |
| Prefiltering.PrefilterJob | stories/RIP/clustering/peaks-prefiltering.py:45-87 | the job fails exactly on a row curated both ways; otherwise it writes the universe and the passing rows, each sorted, the passing rows being those not auto-excluded |
| PeakFiltering.SurvivorsSpec | stories/RIP/clustering/peaks-filtering.py:24-26 | a row survives the first mask exactly when it was not excluded before and is not weak (no dsRNA overlap and replication under the strong minimum) |
| PeakFiltering.FilteredErr | stories/RIP/clustering/peaks-filtering.py:24-29 | the run lengths of the survivors fail exactly when a survivor's row is listed twice |
| PeakFiltering.FilteredAt | stories/RIP/clustering/peaks-filtering.py:28-29 | a survivor is kept exactly when its recomputed touching run reaches the minimum length or it overlaps a dsRNA |
| PeakFiltering.FilteredSurvive | stories/RIP/clustering/peaks-filtering.py:24-29 | every kept row survived the first mask |
| PeakFiltering.FilterJob | stories/RIP/clustering/peaks-filtering.py:22-37 | the job fails exactly when the filter does; otherwise it writes the kept rows, sorted |
| PeakFiltering.SortedLines | stories/RIP/clustering/peaks-filtering.py:32-37 | the written lines are sorted and are a permutation of the kept rows' BED lines |
| Repeto.MakeGroupSpec | utils/repeto.py:17-19 | a group is built exactly when its segment is the hull of its ROIs (min start, max end); no ROIs at all is a value error from `min` |
| Repeto.MinStartSpec | utils/repeto.py:18 | the smallest start, attained by some ROI |
| Repeto.MaxEndSpec | utils/repeto.py:18 | the largest end, attained by some ROI |
| Repeto.SeparatedSpans | utils/repeto.py:52-96 | the segment from the first start to the last end spans a separated list |
| Repeto.NearFromSpec | utils/repeto.py:23-25 | the pairs yielded for ROI `i` are exactly the later ROIs within `maxdist`, in order |
| Repeto.NearUpToSpec | utils/repeto.py:21-25 | `roi_pairs` yields exactly the close pairs (i < j), in lexicographic order |
| Repeto.NearInRange | utils/repeto.py:21-25 | every yielded pair indexes the ROIs |
| Repeto.RoiPairsOf | utils/repeto.py:21-25 | the nested loop yields the close pairs |
| Repeto.Advance | utils/repeto.py:91-94 | fast-forwarding the insulators changes only the pending insulators |
| Repeto.AdvanceInsulator | utils/repeto.py:91-94 | after fast-forwarding, the current insulator is the first one not yet passed |
| Repeto.ExtendGood | utils/repeto.py:83-89 | extending the cache keeps the scan's invariant |
| Repeto.RestartGood | utils/repeto.py:65-81 | closing the group and restarting at the ROI keeps the scan's invariant |
| Repeto.PlaceGood | utils/repeto.py:62-94 | placing one ROI and fast-forwarding keeps the invariant: the groups so far are well formed and cover the ROIs placed |
| Repeto.StartGood | utils/repeto.py:55-60 | the scan starts with the first ROI in the cache and the first insulator current |
| Repeto.RunGood | utils/repeto.py:62-94 | after any number of ROIs the scan's invariant holds |
| Repeto.WellFormedSnoc | utils/repeto.py:67-96 | appending a group keeps the list well formed exactly when the group is a chain within `maxdist` cut from the previous one by distance or an insulator |
| Repeto.ContigGroupsSpec | utils/repeto.py:55-96 | the groups of one contig (with the second `if` read as `elif`) list the ROIs exactly once in order, each group's segment spans its ROIs, and consecutive groups are split by distance or an insulator |
| Repeto.PlaceAsWrittenRepeats | utils/repeto.py:72-85 | as written, a ROI close to the cache whose insulator intersects it and is not between them is appended twice; the corrected step appends it once |
| Repeto.AsWrittenDuplicate | utils/repeto.py:72-85 | with ROIs [0,10) and [20,30) and insulator [5,25), the code as written lists [20,30) twice in one group |
| Repeto.PlaceAsWrittenListed | utils/repeto.py:72-85 | as written, placing one ROI adds it to the listed ROIs once or twice, never anything else |
| Repeto.RunAsWrittenStutters | utils/repeto.py:62-94 | as written, the scan lists the ROIs placed so far in order, each once or twice in a row |
| Repeto.ContigGroupsAsWrittenStutters | utils/repeto.py:55-96 | as written, one contig's groups list every ROI in order, each once or twice in a row and nothing else, so there are between one and two times as many listed as there are ROIs |
| Repeto.PlaceRoi | utils/repeto.py:62-94 | one ROI of the loop: the scan state after placing it and fast-forwarding |
| Repeto.ScanContig | utils/repeto.py:55-96 | the loop over one contig's ROIs computes its groups |
| Repeto.ResetSpec | utils/repeto.py:99-116 | a group with no overlapping connector is kept unchanged; otherwise its ROIs become the merged ROI pieces inside its segment, and it is dropped exactly when none remain |
| Repeto.DropConnectorsSpec | utils/repeto.py:99-118 | the result holds exactly what each group resets to, dropped groups excluded |
| Repeto.ScanAllSpec | utils/repeto.py:44-96 | scanning fails with an index error exactly when some contig's ROIs and connectors cover nothing; otherwise every group lies on a scanned contig and passes the group assertion |
| Repeto.ScanAllPrefixErr | utils/repeto.py:44-96 | scanning stops at the first failing contig |
| Repeto.Get | utils/repeto.py:45-46 | a missing key gives the empty list |
| Repeto.ScanKeys | utils/repeto.py:44-96 | the loop over contigs computes the scan |
| Repeto.DropLoop | utils/repeto.py:99-118 | the loop computes the groups without connectors |
| Repeto.GroupRois | utils/repeto.py:28-123 | `group`: scan every contig with ROIs in order of appearance, then drop connectors |
| Repeto.EnvelopeSpec | utils/repeto.py:135-141 | `envelope` fails exactly when there are no peaks and no blocks; otherwise it spans every peak and every block of every repeat |
| AberrantomeResolve.AssignWhere | stories/aberrantome/plot/ld/resolve.py:10-19 | a masked assignment writes the value where the mask holds and leaves the other rows as they were |
| AberrantomeResolve.Resolve | stories/aberrantome/plot/ld/resolve.py:4-20 | the category column has one entry per row, the category the ordered rules leave it with |
| AberrantomeResolve.StrongUpIff | stories/aberrantome/plot/ld/resolve.py:9-19 | a row ends "Strong up" exactly when it is significantly up with delta at least the threshold and not significantly down |
| AberrantomeResolve.SignificantUpIff | stories/aberrantome/plot/ld/resolve.py:9-19 | a row ends "Significant up" exactly when it is significantly up with delta under the threshold and not significantly down |
| AberrantomeResolve.DownIff | stories/aberrantome/plot/ld/resolve.py:15-19 | the down rules are applied last and win: "Strong down" exactly when significantly down with delta at most minus the threshold, "Significant down" when significantly down otherwise |
| AberrantomeResolve.NotSignificantIff | stories/aberrantome/plot/ld/resolve.py:7-19 | a row stays "Not significant" exactly when neither significance rule fires |
| AberrantomeResolve.UpDownExclusive | stories/aberrantome/plot/ld/resolve.py:9-15 | with a positive fold-change threshold no row is both significantly up and down |
| RipResolve.InvertedPair | stories/RIP/plots/ld/resolve.py:29-52 | two repeat arms of one class on opposite strands resolve without error, and the key is inverted exactly when their families agree after falling back to the class |
| RipResolve.FamilyWithoutClass | stories/RIP/plots/ld/resolve.py:44-49 | equal non-empty families with different classes fail the assertion |
| RipResolve.UpsertWeight | stories/RIP/plots/ld/resolve.py:54 | storing a weight keeps the maximum for that key and changes no other key |
| RipResolve.CollectErr | stories/RIP/plots/ld/resolve.py:15-54 | collecting fails exactly when some key fails to resolve |
| RipResolve.CollectSound | stories/RIP/plots/ld/resolve.py:15-54 | the collected keys are distinct, are exactly the resolved keys, and each holds the largest weight among the entries resolving to it |
| RipResolve.CollectKeys | stories/RIP/plots/ld/resolve.py:15-54 | the loop over the weights computes the collection |
| RipResolve.ItemLePreorder | stories/RIP/plots/ld/resolve.py:56 | the order by (weight, key) is a total preorder |
| RipResolve.FirstReplacement | stories/RIP/plots/ld/resolve.py:61-65 | the while loop finds the first inverted item within 1e-2 of the pick in descending order, or reports that there is none |
| RipResolve.Choose | stories/RIP/plots/ld/resolve.py:56-66 | the pick is the largest (weight, key) when it is inverted or nothing replaces it, and otherwise the highest-ranked inverted item within 1e-2 |
| RipResolve.Sequence | stories/RIP/plots/ld/resolve.py:8-66 | `sequence` fails its assertions exactly when a weight is not positive, the weights do not sum to 1 within 1e-3, or a key fails to resolve; otherwise it returns the chosen key of the collection |
| RipResolve.Induced | stories/RIP/plots/ld/resolve.py:94-100 | an unknown experiment is a key error; otherwise a row is induced exactly when some experiment of the group has fold change and adjusted p-value past the thresholds |
| RipResolve.Enrichment | stories/RIP/plots/ld/resolve.py:103-113 | the renames fail exactly when two new names share an old one or an old name is unknown; otherwise each new column flags the rows that pass the thresholds in its experiment |
| RipResolve.Find | stories/RIP/plots/ld/resolve.py:54 | the search of the resolved keys stops at the first entry with the key, or past the end when there is none |
| Graph.Label | stories/RIP/clustering/dsRNA-filtering.py:102-107 | the label sweep ends with every node's label witnessed by a path to the node it names and equal on the two ends of every edge |
| Graph.Sweep | stories/RIP/clustering/dsRNA-filtering.py:102-107 | one sweep keeps the labels witnessed; it either lowers the label sum or changes nothing and the labels are stable |
| Graph.SweepRow | stories/RIP/clustering/dsRNA-filtering.py:102-107 | one node's row: labels stay witnessed, a change lowers the label sum, no change means the node agrees with all its neighbours |
| Graph.Relabel | stories/RIP/clustering/dsRNA-filtering.py:102-107 | relabelling a node after a neighbour keeps every label witnessed by a path |
| Graph.PathKeepsLabel | stories/RIP/clustering/dsRNA-filtering.py:107 | stable labels are constant along a path |
| Graph.ReversedPath | stories/RIP/clustering/dsRNA-filtering.py:102-107 | the graph is undirected: a reversed path is a path |
| Graph.JoinedPath | stories/RIP/clustering/dsRNA-filtering.py:107 | two paths sharing an end join into one |
| Graph.SameLabelConnected | stories/RIP/clustering/dsRNA-filtering.py:107 | two nodes with the same witnessed label are connected |
| Graph.Members | stories/RIP/clustering/dsRNA-filtering.py:107 | the nodes with a given label, ascending |
| Graph.Components | stories/RIP/clustering/dsRNA-filtering.py:102-107 | `connected_components`: non-empty groups of node indices that cover every node exactly once, are closed under edges and hold only mutually connected nodes |
| Selection.Rescored | stories/RIP/clustering/dsRNA-filtering.py:191-196 | every kept candidate is one of the unresolved repeats with its score against the given signal, at least 1e-32 and at least 10% of the maximum score |
| Selection.RescoredSpec | stories/RIP/clustering/dsRNA-filtering.py:191-196 | the rescored list is a sub-multiset of the unresolved repeats and keeps every one whose new score passes the threshold |
| Selection.Rescore | stories/RIP/clustering/dsRNA-filtering.py:190-196 | the rescoring loop computes the rescored list |
| Selection.PickFrom | stories/RIP/clustering/dsRNA-filtering.py:205-214 | popping the best candidates first, a candidate is resolved unless one of its arms overlaps an arm already resolved in this round |
| Selection.PickPartition | stories/RIP/clustering/dsRNA-filtering.py:205-214 | every popped candidate goes either to `resolved` or to `left` |
| Selection.PickFirst | stories/RIP/clustering/dsRNA-filtering.py:205-214 | the first popped candidate is always resolved |
| Selection.PickApart | stories/RIP/clustering/dsRNA-filtering.py:205-214 | the repeats resolved in one round have pairwise non-overlapping arms |
| Selection.PickBlocked | stories/RIP/clustering/dsRNA-filtering.py:205-214 | every repeat left for the next round overlaps a repeat resolved in this round |
| Selection.ClashTaken | stories/RIP/clustering/dsRNA-filtering.py:209 | `Interval.overlap` with the cache is non-empty exactly when some resolved repeat's arms overlap the candidate's |
| Selection.Pick | stories/RIP/clustering/dsRNA-filtering.py:199-214 | the inner loop over the candidates sorted by score, popped from the end, gives the resolved and left lists |
| Selection.PopOne | stories/RIP/clustering/dsRNA-filtering.py:206-214 | one pop: the lists and the cache of resolved arms grow as the specification says |
| Selection.PickStep | stories/RIP/clustering/dsRNA-filtering.py:206-214 | one more candidate either clashes and is left or is resolved |
| Selection.ResolveManyConcat | stories/RIP/clustering/dsRNA-filtering.py:217-218 | resolving one list after another is resolving their concatenation |
| Selection.ResolveManyBounds | stories/RIP/clustering/dsRNA-filtering.py:217-218 | resolving repeats keeps every score between 0 and its old value |
| Selection.ResolveEach | stories/RIP/clustering/dsRNA-filtering.py:217-218 | the scores become the old ones with every resolved repeat's signal consumed |
| Selection.Step | stories/RIP/clustering/dsRNA-filtering.py:189-221 | one round: resolved and left are exactly `RoundOn` of the signal before the round (rescore, sort ascending, pop from the end, accept what does not clash), every resolved one passes the threshold, the list shrinks and the scores consume the resolved ones |
| Selection.RoundOn | stories/RIP/clustering/dsRNA-filtering.py:189-214 | a round on a given signal: the accepted and left candidates fit the window, are drawn from the unresolved ones, every accepted one is kept, and the list shrinks |
| Selection.BestFirst | stories/RIP/clustering/dsRNA-filtering.py:198-206 | the pop order of a round is a permutation of the rescored candidates with scores from best to worst |
| Selection.PickBestFirst | stories/RIP/clustering/dsRNA-filtering.py:198-214 | popping best first splits the candidates into accepted and left, the accepted have pairwise apart arms, each left one clashes with an accepted one, and the first accepted is the best-scoring candidate |
| Selection.PickBest | stories/RIP/clustering/dsRNA-filtering.py:198-214 | popping a best-first order accepts a best-scoring candidate first |
| Selection.RoundOnSpec | stories/RIP/clustering/dsRNA-filtering.py:189-214 | a round partitions the rescored candidates, accepts only pairwise apart arms, leaves only candidates that clash with an accepted one, and accepts the best-scoring candidate first whenever anything still scores |
| Selection.Rounds | stories/RIP/clustering/dsRNA-filtering.py:188-221 | the rounds of the `while unresolved` loop from a signal: the chosen candidates fit the window |
| Selection.RoundsDrawn | stories/RIP/clustering/dsRNA-filtering.py:188-221 | the rounds choose each candidate at most as often as it is listed, and only candidates that passed both thresholds |
| Selection.RoundsFirst | stories/RIP/clustering/dsRNA-filtering.py:188-221 | the rounds choose something exactly when something still scores, and the first chosen candidate is the best-scoring one |
| Selection.RoundsExhaust | stories/RIP/clustering/dsRNA-filtering.py:188-221 | the loop stops only when nothing scores: on a non-negative signal every candidate is chosen or falls below a threshold on the signal the rounds leave |
| Selection.SpentStep | stories/RIP/clustering/dsRNA-filtering.py:217-221 | the rounds from a list are the first round's choice followed by the rounds from the signal it leaves, and they leave the same signal |
| Selection.SpentBelow | stories/RIP/clustering/dsRNA-filtering.py:217-218 | on a non-negative signal the rounds leave a non-negative signal below it |
| Selection.ExhaustOne | stories/RIP/clustering/dsRNA-filtering.py:188-221 | one candidate of a round is chosen, left and later chosen, or stops scoring once signal is consumed |
| Selection.RoundsStep | stories/RIP/clustering/dsRNA-filtering.py:220-221 | `solution.extend(resolved)` and `unresolved = left` keep the account: the solution so far followed by the rounds from what is left is the whole run |
| Selection.NextRound | stories/RIP/clustering/dsRNA-filtering.py:188-221 | one pass of the outer loop keeps the account of the rounds and of the consumed signal, and the unresolved list shrinks |
| Selection.Advance | stories/RIP/clustering/dsRNA-filtering.py:188-221 | across one round the solution so far, extended by what the round resolves, still fits the window and still precedes the rest of the rounds in the whole run |
| Selection.Finished | stories/RIP/clustering/dsRNA-filtering.py:188-221 | when the loop ends, the solution fits, is drawn from the candidates and passed the thresholds, and every candidate not chosen no longer scores on the consumed signal |
| Selection.Chosen | stories/RIP/clustering/dsRNA-filtering.py:189-221 | the candidates resolved or left in one round are a sub-multiset of the unresolved ones, and the list strictly shrinks |
| Selection.Round | stories/RIP/clustering/dsRNA-filtering.py:203-214 | one round splits the rescored candidates into resolved and left without losing or adding any |
| Selection.Greedy | stories/RIP/clustering/dsRNA-filtering.py:188-221 | the greedy loop ends; its solution is exactly `Rounds` of the candidates on the signal it started from, is drawn from the candidates, passes the threshold and fits in the window; the scores have consumed exactly the solution's signal; and on a non-negative signal every candidate not chosen no longer passes the rescore |
| Selection.Descending | stories/RIP/clustering/dsRNA-filtering.py:224 | the solution sorted by decreasing score, a permutation of it |
| Selection.Trim | stories/RIP/clustering/dsRNA-filtering.py:223-234 | the trimmed solution is the shortest prefix of the descending solution whose score reaches 90% of the total (for positive scores) |
| Selection.TrimMinimal | stories/RIP/clustering/dsRNA-filtering.py:226-234 | every shorter prefix falls below 90% of the total |
| Selection.TotalPrefix | stories/RIP/clustering/dsRNA-filtering.py:226-234 | for positive scores a longer prefix has a strictly larger total |
| SeqProj.RelativeTo | utils/seqproj.py:24 | a path is relative to the root exactly when the root is a prefix of it (otherwise a ValueError), and the root joined with the result gives the path back |
| SeqProj.Rerooted | utils/seqproj.py:22-24 | without a root the paths are kept; with one, every path must lie under it (otherwise a ValueError) and re-joining each result with the root gives the original |
| SeqProj.ParseNameJoin | utils/seqproj.py:30-40 | a parsed name's fields joined with '_' give the name back |
| SeqProj.ParseNameOfJoin | utils/seqproj.py:30-40 | parsing the joined fields gives the fields back |
| SeqProj.PopFields | utils/seqproj.py:29-40 | the pops take the postfix, read mate, lane and sample from the end and the experiment and project from the front; fewer than six fields is an IndexError |
| SeqProj.TagsMembers | utils/seqproj.py:38-40 | the tags are the middle fields except "Feb2025" |
| SeqProj.TableSpec | utils/seqproj.py:28-43 | the table is built exactly when every file name parses (otherwise an IndexError), one row per file holding its parsed fields |
| SeqProj.Initialize | utils/seqproj.py:21-45 | the method computes the table of the given FASTQ files |
| SeqProj.RunKeyLePreorder | utils/seqproj.py:65 | the order of the (experiment, sample, lane) groups is a total preorder |
| SeqProj.RunOfSpec | utils/seqproj.py:71-77 | a run is named `<experiment>-<sample>-<lane>`, carries the machine, and pairs the group's R1 and R2 files |
| SeqProj.RunsForMembers | utils/seqproj.py:75-77 | the runs of an (experiment, sample) are exactly the runs of its lane groups |
| SeqProj.SortedGroups | utils/seqproj.py:60-81 | the groups of a key are its distinct values in sorted order, each holding exactly the rows with that value |
| SeqProj.RunsLoop | utils/seqproj.py:65-77 | the lane loop fails only on a group that is not one R1 and one R2 file; otherwise every group is a pair and every (experiment, sample) gets its runs |
| SeqProj.BuildRuns | utils/seqproj.py:64-77 | building the runs fails with a ValueError exactly when some lane group is not one R1 and one R2 file |
| SeqProj.ExperimentStep | utils/seqproj.py:82-91 | an experiment with more than one sample is a ValueError; otherwise it is built from its sample, library and runs |
| SeqProj.BuildExperiments | utils/seqproj.py:80-91 | building the experiments fails with a ValueError exactly when one has several samples; otherwise there is one per distinct experiment, in sorted order |
| SeqProj.BuildSamples | utils/seqproj.py:59-61 | every sample of the table is built from its own rows |
| SeqProj.Parse | utils/seqproj.py:48-94 | `parse` fails with a ValueError exactly when a lane group is not a read pair or an experiment mixes samples; otherwise it builds the project from the distinct projects, the experiments and the samples |
| AberrantomeConfig.EntryLePreorder | stories/aberrantome/config.py:31-32 | the order by (project, experiment id) is a total preorder |
| AberrantomeConfig.SortedEntries | stories/aberrantome/config.py:31-32 | a sorted side is a permutation of the given side, in key order |
| AberrantomeConfig.DisjointSorted | stories/aberrantome/config.py:31-36 | sorting does not change whether the two sides share a key |
| AberrantomeConfig.SidesSpec | stories/aberrantome/config.py:31-36 | the sides fail the assertion exactly when treatment and control share a key; otherwise both are sorted and disjoint |
| AberrantomeConfig.KeysOfSorted | stories/aberrantome/config.py:50-54 | the keys of a sorted side are already sorted, so sorting them again changes nothing |
| AberrantomeConfig.Config.constructor | stories/aberrantome/config.py:7-27 | the initialiser stores the given fields; the derived paths are not set yet |
| AberrantomeConfig.Config.SortSides | stories/aberrantome/config.py:31-36 | sorting the sides stores them sorted, or fails the assertion and changes nothing |
| AberrantomeConfig.Config.DerivePaths | stories/aberrantome/config.py:38-48 | the results folder becomes `results/<ind>` and the four tables are named under it; the other fields are kept |
| AberrantomeConfig.Config.PostInit | stories/aberrantome/config.py:29-48 | `__post_init__` fails exactly when the sides share a key and then changes nothing; otherwise the config is valid: sorted disjoint sides and the derived paths |
| AberrantomeConfig.Config.ValidKeys | stories/aberrantome/config.py:50-54 | of a valid config, the treatment and control keys are the keys of the sorted sides and share no key |
| SeqProj.AddRun | utils/seqproj.py:65-77 | one lane group adds its run to its (experiment, sample) and changes no other entry |
| SeqProj.BuildExperiment | utils/seqproj.py:84-91 | one experiment is built from its sample, its library and its runs |
| SeqProj.ExperimentLoop | utils/seqproj.py:80-91 | the experiment loop fails with a ValueError only when some experiment has several samples, and otherwise builds one experiment per key |
| SeqProj.SamplesLoop | utils/seqproj.py:59-61 | the sample loop builds every sample from its own rows and stores it under its key |

## Left out

- Reading and writing files is not modelled: bigWig signal, BED, CSV, FASTA, GFF3 and pickle files, `BedTool.sort().saveas`, `tbindex`, `mkdir`. The model takes the parsed records as inputs and returns the records that would be written.
- Printing and progress messages are not modelled. This covers the primers that fail to match (modelled as the returned list), the "Skipped" message of `genes`, and the percentage printed by the A-to-I `filter`.
- Parallel execution is modelled as one job after another: joblib `Parallel`, multiprocessing pools and joblib `Memory` caches.
- The signal averaging and the float32 arrays of `ExperimentTracks` are not modelled. The model takes the averaged signal and control as inputs (stories/RIP/clustering/ld/invrep_scoring.py:18-59,74-80).
- Floating-point numbers are modelled as exact reals. `1e-6`, `1e-32`, `0.1` and `0.9` are real literals, and rounding is not modelled.
- biobit `Interval.merge` is not part of this model. It is re-specified as coalescing intervals that overlap or touch, which matches the strict separation `utils/repeto.py` asserts after a merge.
- biobit `overlap`, `subtract`, `merge_within`, `ChainMap.map_interval` and the `InvRepeat` accessors are not part of this model. They are re-specified as functions on intervals; `map_interval` is the hull of the interval's overlap with the chain.
- intervaltree is not part of this model. A tree is modelled as the set or sequence of its intervals, and a query returns every stored interval that overlaps it.
- rustworkx is not part of this model. Connected components are re-specified over a boolean connectivity matrix.
- countit `resolve_annotation` is not part of this model. For the A-to-I annotation its expected output is stated as a predicate on the resolved stretches (`A2IAnnotate.SiteLabel` assumes it). For that reason `build_universe` in stories/RIP/clustering/ld/features.py is left out.
- `merge_within` inside `derive_covered_regions` is left out. The covered-region complement starts from the covered groups.
- The REAT binary (stories/A2I/ld/utils/reat.py:10-20) is not modelled. Its output table is an input to `A2IReat.Run`.
- ViennaRNA `RNA.fold` is not modelled. The dot-bracket string is the input of `Mfe.DeriveStems`.
- The DESeq2 R wrapper (`_run`, utils/deseq2/deseq2.py:143-160) is not modelled.
- pandas is modelled as sequences of typed rows. Column dtypes, NaN handling and index alignment are not modelled, except where a rule depends on them: the REAT loader drops rows with zero coverage, whose frequency would be NaN.
- Python dict and set iteration order is modelled as follows:
  - dicts keep insertion order where the code depends on it;
  - the `mapped` set in clustering.py is iterated in ascending order;
  - dict `items()` in `resolve_sequence` and in the A-to-I key jobs is any enumeration, and the stated properties hold for every order.
- `rna.map` in clustering.py is the `maps` parameter, because it calls into the annotation library.
- `visual.simplify` (stories/HSV1/ld/visual.py:9-31) is floating-point polygon simplification for drawing and is not modelled.
- `by_refexp` (stories/RIP/plots/ld/resolve.py:69-91) picks a pandas mode per group for plotting and is not modelled.
- `initialize_rnaseq` (utils/seqproj.py:10-18) only loads a project file and is not modelled.
- `filtered` and `annotated` in stories/A2I/ld/utils/load.py only read tables and are not modelled.
- A2ICandidates.RunKey: the assertion at stories/A2I/candidates-filtering.py:54 is kept as an error path. It is not proved never to fail, although it holds when the positions are distinct and the REDIportal sites are merged.
- A2ICandidates.KeptSpec: `int(freq * 1000)` is modelled as the floor of the exact product, so binary floating-point rounding is not modelled.
- Line 47 of stories/A2I/ld/utils/annotate.py (`resolve_annotation`) is a foreign call and is left out. `A2IAnnotate.BuildTrees` starts from its resolved stretches.
- RipComposition.Job: `GenomicIndex.overlap(...).to_steps()` is a foreign call. The model takes its step lists (boundaries with annotation sets) for every peak and arm as inputs, and the repeat index built by `index_repeats` is left out.
- FASTA and GFF3 parsing in stories/HSV1/ld/features.py is not modelled. The model starts from the genome string and from the features, transcripts and exons. `repeats` (lines 174-195) only copies GFF3 features to BED and is left out.
- HSV1Features.Primers: `re.finditer` is modelled for literal, non-empty patterns only, which is what every primer is.
- HSV1Features.Complemented: only the four bases are complemented. The IUPAC ambiguity codes that Biopython also maps are kept as they are.
- HSV1Features.UpperAll: only ASCII letters are uppercased.
- The palette, `classify`, the SKIP/NAGNAG name set and `assort_genes_by_height` are parameters of the HSV-1 and circos members (`color`, `skip`, `assort`). `assort_genes_by_height` itself is modelled in `Visual`.
- The whole-contig MT and intergenic entries, the RepeatMasker entries and the viral entries of `job` in stories/annotation/resolve-gencode.py are left out, because they copy records read from files.
- Repeto.PlaceRoi: models the evidently intended `elif` at utils/repeto.py:77, so an ROI next to an insulator joins its group once; the code as written appends it twice (see Findings, `Repeto.PlaceAsWritten`).
- Repeto.ScanContig: computes the corrected groups of `Repeto.ContigGroups`, not the duplicated ones of `Repeto.ContigGroupsAsWritten`.
- Repeto.ScanKeys: scans every contig with the corrected `elif`, for the same reason.
- Repeto.GroupRois: `group` is modelled with the corrected `elif`, so no group lists an ROI twice.
- Repeto.ContigGroupsSpec: states the evidently intended behaviour; `Repeto.AsWrittenDuplicate` exhibits an input on which the code as written differs, and `Repeto.ContigGroupsAsWrittenStutters` states what the code as written still guarantees: every ROI is listed once or twice in a row, in order.
- DESeq2.Normalize: renames the design formula word by word, as the code evidently intends; the sequential substring replacement at utils/deseq2/deseq2.py:41-43 is `DESeq2.Rewrite`, and `DESeq2.RewriteCorrupts` shows where the two differ.
- HSV1Features.OrfRecord: rejects an exon that ends before it starts, which the assertion at stories/HSV1/ld/features.py:208 is evidently meant to catch but lets through (see Findings, `HSV1Features.ReversedExonAccepted`).
- HSV1Features.Orfs: builds on the corrected `HSV1Features.OrfRecord`, for the same reason.
- HSV1Features.Genes: skips a feature that is not a gene, as the message at stories/HSV1/ld/features.py:244 says; the code as written goes on to process its transcripts (see Findings, `HSV1Features.SkippedFeatureProcessed`).
- Bed.ParseInt: reads ASCII digits only, with single underscores between them. Python's `int` also accepts other Unicode decimal digits, such as full-width ones; the model refuses them.
- Bed.ParseCoords: refuses coordinates written with non-ASCII digits, for the same reason.
- Optimization.Solve: the solution is tied to the rounds of `Selection.Greedy` inside the method only, because the score state is local to it. The contract states that the solution starts with the best initial score and is empty exactly when that score is below 1e-32, not the whole sequence of rounds.
- Optimization.Select: like `Optimization.Solve`, it states the first choice and when the solution is empty, not every round.
- Optimization.OptimizeGroup: like `Optimization.Solve`, it states the first choice and when the solution is empty, not every round.
- Visual.Assort: the contract states the order of the genes within each contig, not the order of the contigs. The source visits contigs in the order their first gene appears among the start-sorted genes, the insertion order of its dictionary.
- Optimization.Optimize: the selection of each group is stated by `Optimization.OptimizeGroup`. It is not restated for the concatenated results.
- Sorting.SortBy: Python's sort is stable. The model proves that the result is sorted and is a permutation of the input, but not that equal elements keep their order.

## Findings

| source | as written | input that shows it | evidently intended | confidence | as-written member | corrected member |
|---|---|---|---|---|---|---|
| utils/repeto.py:72-85 | when the insulator intersects the ROI or the current group, the first `if` appends the ROI, and the `else` of the second `if` appends it again | ROIs [0, 10) and [20, 30), insulator [5, 25), distance limit 100: the group lists [20, 30) twice | the second `if` is an `elif`, so each ROI joins its group once | not executed | Repeto.AsWrittenDuplicate | Repeto.ContigGroupsSpec |
| utils/deseq2/deseq2.py:41-43 | `normalize` renames attributes by plain substring replacement, one after another, so a name that occurs inside another name corrupts it | design "ab" with renames a → a_0 and ab → ab_1 becomes "a_0b" | names are replaced as whole words, so the design reads "ab_1" | not executed | DESeq2.RewriteCorrupts | DESeq2.RenameFormula |
| stories/HSV1/ld/features.py:208 | the assertion compares each sorted (start, end) tuple with the next one, which sorting already guarantees, so it never fails | location "c:10-5" passes and gives a block of size -5 | every exon ends no earlier than it starts and no later than the next exon starts | not executed | HSV1Features.ReversedExonAccepted | HSV1Features.OrfRecordBlocks |
| stories/HSV1/ld/features.py:243-245 | a feature that is not a gene is reported as skipped, but its transcripts are still processed | a "region" feature holding a transcript of type "exon" stops the run with an AssertionError | `continue` after the message, so only genes are processed | not executed | HSV1Features.SkippedFeatureProcessed | HSV1Features.Genes |
