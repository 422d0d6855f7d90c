# Verified model of rokuban's scheduling, chapter, catalog and naming cores

rokuban records broadcast television. This project models four of its algorithmic cores in
Dafny and proves what they are for.

* **Tuner capacity** (`Hall`, `HallCheck`, `Demands`, `Overages`, `Sweep`, `Capacity`,
  `CapacityTheorems`, `Preview`, `CapacityRows`). One event sweep per site turns broadcast demands
  into intervals in which there are too few tuners. The reported shortfall is proved to be the least
  number of live channels that any assignment of distinct usable tuners leaves unserved, by Hall's
  theorem with deficiency. The output is canonical and therefore determined by what it says at each
  instant. The preview shows exactly where a change makes the shortfall grow. `CapacityRows` says all
  this of the demand and tuner rows themselves.
* **Chapter timeline** (`Frames`, `Timeline`, `Layers`, `KeepRanges`, `KeepMap`, `VttTimes`,
  `VttReading`, `WebVtt`, `VttTheorems`, `VttAcceptance`, `VttText`, `VttHours`). Frame quantisation,
  the gapless timeline, the kept ranges (compacted in the buffer that is being read), the two maps
  between time axes, and the retiming of WebVTT files, from text to text: which timestamps and which
  files are accepted, and what the output says when it is read again.
* **Catalog generations** (`Manifest`, `GenerationNames`, `CatalogStore`, `CatalogTheorems`,
  `CatalogRuns`, `PublishProtocol`, `PublishInvariant`, `PublishTheorems`, `PublishKeep`,
  `PublishGrace`, `PublishPrune`, `PublishAlone`, `PublishSelection`, `PublishExample`,
  `PublishReuse`). A crash-safe publish protocol without rename: sequentially as a class, with whole runs of exports, and concurrently as a state machine
  over inodes in which any number of exports and prunes interleave and stop anywhere: what keeping
  `k` generations guarantees then, what the grace period adds, and what a selection finds that takes
  its own steps between the others. An export and a prune that nobody interrupts do in the concurrent
  model just what they do in the sequential one. `ExampleCodec` shows that the laws assumed of JSON and the hash
  can be met.
* **Names** (`ContentPath`, `EncodedPath`). The path sanitiser and the file names of encoded
  versions.

`Common`, `Text`, `Sorting` and `Names` hold what these share. `dafny verify dfyconfig.toml`
checks everything.

## How to read it

Code that works by changing things step by step is a method with loops; its `ensures` clause ties
it to a function or predicate of its inputs, and lemmas say what that function means. Times are
integers. Strings are sequences of code points. A sort that the program does not need to be stable
is a method that promises only a sorted permutation, so the results hold for any order of ties.

Where the code and its own documentation differ, or a tempting property fails, the model follows
the code:

* A length limit in the sanitiser cuts after trimming, so the result can end in white space and a
  second pass changes it. `ContentPath.LimitedIdempotence` gives the exact condition, and
  `ContentPath.LimitedExample` a title.
* `docs/storage/rescue.md` says that a generation name is never used again. The third export in one
  second with one generation kept takes the name of the first and is pruned at once
  (`CatalogRuns.ReuseExample`). In a run of exports in the order of time this happens exactly from the
  export on that has more than `keep` earlier ones in its second, fewer than 99 being kept
  (`CatalogRuns.NameIsReusedIff`, `CatalogRuns.ReusedNameIsLost`). Whatever the order of times,
  `CatalogTheorems.WrittenIsSelectedIff` and `CatalogTheorems.WrittenSurvivesIff` say when a new
  generation is selected and when it outlives its own prune. The protocol theorems allow names to be
  used again.
* What one look at the catalog selects is never older than what an earlier look selected. Selection
  does not look once: it lists the names and then verifies them while prunes run, and it can find
  nothing although a generation is complete all the time. If every prune keeps at least `k`
  generations, it finds something older than the newest generation at the time of the listing, or
  nothing, only if `k` newer names have been completed or chosen by a prune since
  (`PublishSelection.SelectionInSteps`), and for every `k` just `k` newly completed ones can do it
  (`PublishExample.SelectionCanFindNothing`). If nothing has been completed since, it finds exactly
  the newest.
* Retiming accepts a file exactly when every line after the header that a blank line separates from
  all lines with an arrow before it has, unless blank, an arrow line at or after it, and reads as a
  timing line if it has an arrow itself (`VttAcceptance.AcceptedIff`). So it refuses every file that
  ends in a block without a timing line, such as a comment, which section 4.1 of the W3C WebVTT
  specification allows (`VttAcceptance.TrailingBlockIsRefused`, with an example). Lines before a
  timing line belong to that cue, so a comment or style block goes when the cue after it goes.
* A timestamp is read until a part that is the same text as the last one, if that has a fraction, so
  `1.5:x:1.5` is a time (`VttReading.SkippedPartExample`). `VttReading.ReadTimeIff` says exactly which
  texts are times, and of how many milliseconds; signs are accepted, too.
* Carriage returns are dropped in front of line feeds only, one each. A line that keeps one is
  written with it and loses it when the output is read. `VttText.ReadsBackIff` says exactly when the
  output reads back as the retimed input, and `VttText.ReturnIsLost` gives a file where it does not.
* The subtraction of intervals needs no assumption about its inputs: it is right for overlapping,
  empty and inverted intervals too.
* 64-bit rounding to frames is right exactly up to MaxInt64 / 30000 ms.

## Model

| member | source | states |
|---|---|---|
| Hall.AssignmentExists | internal/capacity/capacity.go:158-179 | If no set of types has more than `k` channels above the tuners offering it, some assignment of distinct compatible tuners leaves at most `k` channels unserved |
| Hall.NoAssignmentDoesBetter | internal/capacity/capacity.go:158-179 | The excess demand of any set of types stays unserved under every assignment |
| HallCheck.TypeMask | internal/capacity/capacity.go:183-191 | The mask names exactly the known types listed; unknown names are ignored |
| HallCheck.Capacities | internal/capacity/capacity.go:162-179 | Entry `a` is the number of countable tuners supporting some type of `a`: a union, not a sum |
| HallCheck.TypeNamesInjective | internal/capacity/capacity.go:332-340 | The printed type list determines the mask |
| HallCheck.Evaluate | internal/capacity/capacity.go:307-329 | The largest excess over the 15 sets of types, at the set with fewest types and then the smallest mask; zero if none is positive |
| HallCheck.ShortfallIsLeastUnserved | internal/capacity/capacity.go:162-179 | The shortfall is attained by some assignment and beaten by none |
| HallCheck.NoShortfallIffAllServed | internal/capacity/capacity.go:307-329 | Shortfall 0 iff every channel can have a tuner of its own |
| Demands.CounterNeverNegative | internal/capacity/capacity.go:254-268 | No channel counter is negative after any prefix of the events, for any order of equal-time events |
| Demands.CounterShowsLive | internal/capacity/capacity.go:254-268 | Between batches a counter is positive iff the channel is live, with half-open demands |
| Sweep.ApplyEvent | internal/capacity/capacity.go:257-268 | The per-type counts stay the numbers of distinct channels in use; `changed` iff that set changed |
| Sweep.ApplyBatch | internal/capacity/capacity.go:255-268 | All events of one instant are applied, no other; without a transition the counts are unchanged |
| Sweep.ComputeSite | internal/capacity/capacity.go:223-300 | The sweep's output is canonical and reports, at every instant, the verdict of the pointwise definition |
| Sweep.NothingLeftOpen | internal/capacity/capacity.go:297-299 | After the last event no interval is open |
| Capacity.Compute | internal/capacity/capacity.go:119-154 | Over all sites the output is canonical and reports every site and instant; sites without tuner rows are not judged |
| CapacityRows.ResultTellsShortages | internal/capacity/capacity.go:119-154 | In terms of rows alone: a list is the output iff it is canonical and at every site and instant holds just the shortage there is: the least number of wanted (type, channel) pairs left over by any plan of distinct present, unbroken tuner rows of the site that list the type, at the fewest types whose wants alone exceed their rows by it; nothing for a site without rows |
| CapacityRows.SilentIffServed | internal/capacity/capacity.go:119-179 | Nothing is held iff the site has no rows or some plan of distinct rows serves every wanted pair |
| Overages.CanonicalUnique | internal/capacity/capacity.go:103-106 | Canonical lists that say the same are equal |
| CapacityTheorems.OverageIsLeastUnserved | internal/capacity/capacity.go:119-154 | Inside a reported interval the shortfall is the least number of unserved live channels over all assignments |
| CapacityTheorems.SilentIffAllServed | internal/capacity/capacity.go:119-154 | A judged site is silent at an instant iff every live channel can be served |
| CapacityTheorems.UnknownSiteIsSilent | internal/capacity/capacity.go:140-146 | No interval is reported for a site without tuner rows |
| CapacityTheorems.ResultIsUnique | internal/capacity/capacity.go:103-154 | The output is determined by the pointwise verdicts |
| CapacityTheorems.OrderDoesNotMatter | internal/capacity/capacity.go:119-154 | Permuting demands and tuner rows leaves the output unchanged |
| CapacityTheorems.DuplicateDoesNotMatter | internal/capacity/capacity.go:216-218 | A second demand for the same channel and time changes nothing |
| CapacityTheorems.SplitDoesNotMatter | internal/capacity/capacity.go:220-222 | Splitting a demand at an instant inside it changes nothing |
| CapacityTheorems.MoreDemandMoreShortfall | internal/capacity/capacity.go:119-154 | Adding demands never lowers a shortfall at any site and instant |
| CapacityTheorems.Intersecting | internal/capacity/capacity.go:342-356 | The loop keeps, in order, the intervals that meet the half-open window |
| CapacityTheorems.IntersectingIsExact | internal/capacity/capacity.go:342-356 | On a computed result and a non-empty window, an interval is kept iff it holds somewhere in the window |
| Preview.AppendSegment | internal/capacity/preview.go:121-138 | Appending or extending adds exactly the segment's instants and keeps a canonical list canonical |
| Preview.Subtract | internal/capacity/preview.go:89-117 | The pieces of one interval that no covering interval contains, despite overlap and the early exit |
| Preview.NewlyAdded | internal/capacity/preview.go:76-119 | For any two lists: shown iff `after` shows it and no interval of `before` with at least that shortfall holds; canonical input gives canonical output |
| Preview.NothingNewThanItself | internal/capacity/preview.go:73-76 | A list subtracted from itself leaves nothing |
| Preview.Preview | internal/capacity/preview.go:54-71 | At each site and instant the result is the verdict after the change if the shortfall grew, else nothing; the list is canonical |
| Preview.BusyCandidatesAddNothing | internal/capacity/preview.go:52-71 | Candidates on channels that are busy anyway give an empty preview |
| CapacityRows.PreviewTellsGrowth | internal/capacity/preview.go:54-71 | In terms of rows: the preview holds exactly the shortages after the change that are greater than those before it |
| CapacityRows.NeededCandidatesAddNothing | internal/capacity/preview.go:52-71 | Candidates whose (type, channel) is wanted anyway while they run give an empty preview |
| Frames.NearestFrame | internal/chapters/chapters.go:55-61 | `MsToFrame` gives the frame nearest in exact frame time, and no other is as near |
| Frames.FrameRoundTrip | internal/chapters/chapters.go:3-6 | Frame numbers survive the way through milliseconds |
| Frames.FrameToMsStrict | internal/chapters/chapters.go:64-69 | Different frames have different milliseconds, in order |
| Frames.QuantizeMonotone | internal/chapters/chapters.go:71-73 | Quantisation is monotone |
| Frames.QuantizeIdempotent | internal/chapters/chapters.go:71-73 | Quantising twice is quantising once |
| Frames.QuantizeNear | internal/chapters/chapters.go:71-73 | Quantisation moves a time by at most 17 ms; the bound is reached in both directions |
| Frames.MsToFrame64Exact | internal/chapters/chapters.go:56-61 | With 64-bit wrap-around the result is right iff `ms` is at most MaxInt64 / 30000 |
| Frames.Quantize64Exact | internal/chapters/chapters.go:56-73 | On that range quantisation does not overflow either |
| Timeline.QuantizedMembers | internal/chapters/chapters.go:269-282 | The quantised layer holds exactly the quantised spans that did not become empty |
| Timeline.QuantizedIsStable | internal/chapters/chapters.go:280-280 | Spans with the same start keep their order |
| Timeline.QuantizedFixpoint | internal/chapters/chapters.go:269-282 | A quantised, sorted layer is unchanged by quantising |
| Timeline.Derive | internal/chapters/chapters.go:119-150 | The pieces cover the programme and all known spans without gaps, and say at each instant what the given spans of the owned or automatic layer say there |
| Timeline.TimelineTiles | internal/chapters/chapters.go:119-150 | The timeline covers [0, max(0, duration, greatest span end)) without gap or overlap, for overlapping spans too |
| Timeline.TimelineShows | internal/chapters/chapters.go:119-150 | Every instant carries the mark of the first span, by start, that contains it, or main content |
| Timeline.DisjointMark | internal/chapters/chapters.go:119-150 | For disjoint spans that is the only span containing the instant |
| Timeline.TimelineTells | internal/chapters/chapters.go:119-150 | At each instant the text and cut mark are those of the given span that reaches it in frames with the least start, the first in the list on a tie; main content where no span does |
| Layers.AutoSpans | internal/chapters/chapters.go:85-108 | The detected spans, or none if they claim more than half of the longer of programme and detection |
| Layers.AutoSpansAre | internal/chapters/chapters.go:85-108 | A believed detection gives exactly its ranges, on frames, cut and labelled; one that claims more than half gives none |
| Layers.AutomaticMark | internal/chapters/chapters.go:75-150 | The automatic timeline shows a commercial exactly where a believed detection has one |
| Layers.ClaimsAddUp | internal/chapters/chapters.go:88-92 | Claims add up: each range claims its length, and one without length nothing |
| Layers.LongestEndIs | internal/chapters/chapters.go:87-95 | The claim is measured against the greatest of the programme length and the ends |
| Layers.Validate | internal/chapters/chapters.go:290-308 | Accepts iff every span says something, keeps some length and overlaps no other; a rejection names the first offender or an overlapping pair |
| Layers.MeaninglessIsMain | internal/chapters/chapters.go:284-294 | A span is refused as saying nothing iff, alone, it leaves only main content |
| Layers.AscendingIsAcceptable | internal/chapters/chapters.go:299-306 | Comparing sorted neighbours finds every overlap |
| Layers.ValidationIgnoresOrder | internal/chapters/chapters.go:290-308 | Acceptance and result do not depend on the order of the input |
| Layers.ValidatedIsFixpoint | internal/chapters/chapters.go:284-308 | An accepted result is accepted again, unchanged |
| Layers.AutomaticCutIsBounded | internal/chapters/chapters.go:75-108 | For any detected ranges the automatic timeline cuts at most half of the recording plus 34 ms for each of its spans, or nothing |
| Layers.AdoptingChangesNothing | internal/chapters/chapters.go:75-108 | The automatic layer of disjoint ranges is a valid user layer and leaves the timeline as it was |
| KeepRanges.KeepRanges | internal/chapters/chapters.go:164-186 | Joining runs and dropping sub-frame runs over the front of the same buffer gives the filtered runs |
| KeepRanges.DropSubFrames | internal/chapters/chapters.go:176-181 | The in-place filter reads what it has not overwritten |
| KeepRanges.KeepRangesExact | internal/chapters/chapters.go:152-186 | On a derived timeline the kept ranges are separated and cover exactly the uncut time, but for one trailing run of at most 17 ms that ends at an off-frame programme length; the lengths add up |
| KeepRanges.UncutIsMark | internal/chapters/chapters.go:119-186 | Uncut time is the timeline's time whose first covering span is not cut |
| KeepRanges.KeptTime | internal/chapters/chapters.go:119-186 | What is kept is the time of the timeline at which that span is not cut, but for at most 17 ms in front of an off-frame programme length |
| KeepMap.KeptBeforeCounts | internal/chapters/chapters.go:213-228 | The mapped time is the number of kept milliseconds before it |
| KeepMap.MapMs | internal/chapters/chapters.go:215-228 | On any list, the ranges that `t` has passed count in full and the next one up to `t`; on ordered ranges this is the kept time before `t` |
| KeepMap.KeptBeforeMonotone | internal/chapters/chapters.go:215-228 | The map is monotone and stays within [0, total] |
| KeepMap.UnmapMs | internal/chapters/chapters.go:230-257 | On any list, an instant of the first range whose sum of lengths exceeds `t`; on ordered ranges it maps back to `t` clamped to [0, total], and is a kept instant or the last end |
| KeepMap.UnmappedIsUnique | internal/chapters/chapters.go:230-257 | There is only one such instant |
| KeepMap.UnmapAfterMapKept | internal/chapters/chapters.go:213-257 | A kept instant returns to itself |
| KeepMap.UnmapAfterMapGap | internal/chapters/chapters.go:213-257 | An instant in a gap returns as the start of the next range |
| KeepMap.UnmapAfterMapEnd | internal/chapters/chapters.go:213-257 | An instant after the last range returns as its end |
| KeepMap.KeptRangesAreOrdered | internal/chapters/chapters.go:152-186 | The ranges kept from a derived timeline are ordered, so the maps count kept time |
| VttTimes.FormatVTCTime | internal/chapters/vtt.go:168-178 | Step by step subtraction prints hours, minutes, seconds and milliseconds |
| VttTimes.ParseVTCTime | internal/chapters/vtt.go:125-156 | The loop over the parts reads the time, signs, short fractions, 64-bit wrap-around and errors included |
| VttTimes.TimeRoundTrip | internal/chapters/vtt.go:125-178 | Every printed time is read back, with any number of hour digits |
| VttTimes.TimingRoundTrip | internal/chapters/vtt.go:103-165 | Every printed timing line with trimmed settings is read back |
| VttReading.ReadTimeIff | internal/chapters/vtt.go:124-156 | A text is read as `v` iff it has two or three parts, the parts read are whole numbers up to 64 bits, the last perhaps with a fraction whose first three digits count, and `v` is their time in 64 bits; else the error names the text |
| VttReading.SkippedPartExample | internal/chapters/vtt.go:135-153 | A part between two equal ones is not looked at |
| VttReading.MinutesRead | internal/chapters/vtt.go:124-156 | Digits for minutes and seconds, with or without a fraction, are read as their values |
| VttReading.HoursRead | internal/chapters/vtt.go:124-156 | The same with hours in front |
| VttReading.HoursMayBeMissing | internal/chapters/vtt.go:124-156 | `00:` in front of a two-part text changes nothing, whatever its parts are |
| VttReading.WrittenTimingLine | internal/chapters/vtt.go:158-178 | What is written is a timing line as section 4.1 of the W3C WebVTT specification has it |
| VttHours.TimingTextIsRead | internal/chapters/vtt.go:101-123 | A line of two words around an arrow, in any white space, is read as its two times and the settings |
| WebVtt.MapCueTimes | internal/chapters/vtt.go:76-99 | On any list, the cue clipped to the ranges it meets, moved; on ordered ranges nothing iff the cue has no kept time, else exactly the kept time before its start and end |
| WebVtt.RetimeLines | internal/chapters/vtt.go:23-72 | The index loop writes the header and the kept cues, moved, and fails as reading fails |
| VttTheorems.DroppedIffOutside | internal/chapters/vtt.go:76-99 | A cue is dropped iff it contains no kept instant |
| VttTheorems.KeptCue | internal/chapters/vtt.go:60-67 | A kept cue keeps identifier, settings and body and lasts as long as the kept time inside it |
| VttTheorems.RetimedFileReadsBack | internal/chapters/vtt.go:23-72 | Reading the lines written gives the header, up to blank lines at its end, and exactly the kept cues in order |
| VttAcceptance.AcceptedIff | internal/chapters/vtt.go:33-59 | Retiming succeeds, whatever is kept, iff every detached non-blank line after the header has an arrow line at or after it and reads if it has an arrow |
| VttAcceptance.FilesConcatenate | internal/chapters/vtt.go:23-72 | Lines appended behind a blank one are read after the file before them: its cues first, then theirs, or their error |
| VttAcceptance.TrailingBlockIsRefused | internal/chapters/vtt.go:40-46 | Any file with a block at its end that holds no arrow is an error, which names the first line of the block if the file was readable before |
| VttAcceptance.TrailingCommentExample | internal/chapters/vtt.go:40-46 | A header and a comment are refused |
| VttHours.HoursChangeNothing | internal/chapters/vtt.go:23-156 | Files whose timing lines differ only in hours that are nought are accepted alike and give the same output |
| VttText.RetimeVTT | internal/chapters/vtt.go:14-74 | There is an output iff the input is acceptable, else the error of reading it; reading the output gives the header and exactly the kept cues, moved, less one carriage return at the end of each line |
| VttHours.HoursChangeNoText | internal/chapters/vtt.go:14-156 | The same for whole texts |
| VttText.RetimedTextReadsBack | internal/chapters/vtt.go:14-74 | For every readable text, reading the retimed text gives the header, up to blank lines at its end, and the kept cues in order, less one carriage return at the end of each line |
| VttText.ReadsBackIff | internal/chapters/vtt.go:21-74 | Nothing at all is lost iff no kept line ends in a carriage return once those in front of line feeds are dropped |
| VttText.CleanTextReadsBack | internal/chapters/vtt.go:21-74 | In particular if no line of the input ends in one |
| VttText.ReturnIsLost | internal/chapters/vtt.go:21-22 | A header line with two carriage returns is written with one and read back with none |
| Manifest.CompleteWhileWriting | internal/catalog/manifest.go:93-134 | Next to its whole document a partly written manifest makes the generation complete iff it parses |
| Manifest.CompleteStays | internal/catalog/write.go:47-60 | Once complete, writing the rest of the manifest keeps it complete |
| Manifest.CompleteIsWhole | internal/catalog/manifest.go:136-169 | A complete generation holds the very document whose hash the manifest states |
| Manifest.CompleteIff | internal/catalog/manifest.go:93-169 | Complete iff the manifest parses, has versions that are understood, names this generation and the document file, and states the size and hash of the document that is there |
| GenerationNames.NameOrder | internal/catalog/write.go:146-152 | Names are ordered by time and, within a second, by sequence number |
| CatalogStore.Store.CreateUniqueGenerationDir | internal/catalog/write.go:153-170 | Reserves the first free of 99 names and changes nothing else, or fails iff all are taken |
| CatalogStore.Store.ScanSnapshots | internal/catalog/write.go:175-199 | The generation names newest first, and the leftovers |
| CatalogStore.Store.Prune | internal/catalog/write.go:214-268 | Removes exactly the leftovers and the doomed generations |
| CatalogStore.Store.Write | internal/catalog/write.go:63-110 | Publishes a whole generation under the first free name, then prunes; a missing version or a lack of names changes nothing, and a fault in writing leaves what was written |
| CatalogStore.Store.WriteFiles | internal/catalog/write.go:86-137 | Document first, manifest last; a fault leaves the files up to it and cleans nothing up |
| CatalogStore.Store.ListSnapshots | internal/catalog/write.go:313-332 | Every generation with its verdict, newest first |
| CatalogStore.Store.SelectLatest | internal/catalog/write.go:342-370 | The newest complete generation, with exactly the newer ones as rejected; none iff none is complete |
| CatalogTheorems.NewestSurvive | internal/catalog/write.go:201-208 | The complete generations left by a prune are the `keep` newest |
| CatalogTheorems.SurvivingIncomplete | internal/catalog/write.go:232-250 | A surviving incomplete generation is within its grace period or older than no complete one |
| CatalogTheorems.SurvivesIff | internal/catalog/write.go:214-268 | An entry survives iff it is a complete generation with fewer than `keep` (by default seven) complete ones after it, an incomplete one changed within seven days or after all complete ones, a file that is no leftover, or has not the prefix |
| CatalogTheorems.OthersUntouched | internal/catalog/write.go:214-268 | An entry that is neither a generation nor a leftover of the prefix survives a prune unchanged |
| CatalogTheorems.SelectionSurvivesPrune | internal/catalog/write.go:201-208 | A prune does not change what is selected |
| CatalogTheorems.PruneIdempotent | internal/catalog/write.go:214-268 | A second prune at the same time removes nothing |
| CatalogTheorems.WriteKeepsStamped | internal/catalog/write.go:63-110 | Every complete generation has a name of the second it was exported in, and an export keeps it so |
| CatalogTheorems.WrittenIsSelectedIff | internal/catalog/write.go:63-110 | A new generation is selected iff no complete one was exported later, nor in its second under an index above the first free one |
| CatalogTheorems.WrittenSurvivesIff | internal/catalog/write.go:63-110 | It outlives its own prune iff fewer than `keep` of those are there |
| CatalogTheorems.TornIsCompleteIff | internal/catalog/write.go:47-60 | What a failed export leaves is complete iff what it wrote of the manifest parses, next to the whole document |
| CatalogTheorems.FailedExportIsInvisible | internal/catalog/write.go:47-60 | Otherwise the complete generations are as before |
| CatalogRuns.NameIsReusedIff | internal/catalog/write.go:146-170 | In a run in the order of time an export takes a used name iff more than `keep` exports of its second came before it and `keep` is below 99; for 99 and more it fails iff 99 came before it |
| CatalogRuns.ReusedNameIsLost | internal/catalog/write.go:63-110 | An export whose name was used is removed by its own prune and was announced by a gap in the names of its second; every other one is selected after it |
| CatalogRuns.ReuseExample | internal/catalog/write.go:63-170 | Three exports in one second, one generation kept: the third has the name of the first and is gone |
| PublishInvariant.WritePreserves | internal/catalog/write.go:113-137 | Writing a chunk of either file keeps the invariant; a generation that verified goes on verifying |
| PublishInvariant.ManifestSeenVerifies | internal/catalog/write.go:231-252 | A prune that reads a good manifest and later its document relies on a name that verified at that moment or is doomed |
| PublishInvariant.NextPreserves | internal/catalog/write.go:63-268 | Every step of every process keeps the invariant |
| PublishTheorems.VerifiedIsHistory | internal/catalog/manifest.go:93-134 | The recorded names are those that verified in some state of the run |
| PublishTheorems.BestStillVerifies | internal/catalog/write.go:214-268 | After every run the greatest name that ever verified still verifies; every name a prune chose is older |
| PublishTheorems.RemovedWasDoomed | internal/catalog/write.go:257-266 | Over every run, a directory or file that is gone belonged to a name that a prune had chosen |
| PublishTheorems.SelectionNeverMovesBack | internal/catalog/write.go:342-370 | Over every run, what one look at the catalog selects later is never older |
| PublishTheorems.SelectedIsWhole | internal/catalog/write.go:47-60 | The selected generation is one export's document and manifest, whole |
| PublishTheorems.FinishedExportVerifies | internal/catalog/write.go:93-104 | A readable export that wrote its whole manifest verifies, unless its name was doomed |
| PublishKeep.WhyDoomed | internal/catalog/write.go:231-257 | A prune chooses a name only if it judged it outdated or it had verified |
| PublishKeep.ChosenNeedsKeep | internal/catalog/write.go:231-257 | If every prune keeps at least `k`, a generation that had verified is chosen only after `k` greater names have verified or been chosen, however many prunes and exports interleave |
| PublishKeep.NewestStillVerify | internal/catalog/write.go:201-208 | If besides no prune has chosen a name before it verified, the `k` greatest names that ever verified all still verify |
| PublishGrace.TimedIsRun | internal/catalog/write.go:232-247 | With a clock and directory times judging, a run is still a run of the protocol |
| PublishGrace.FinishedInGraceHasVerified | internal/catalog/write.go:232-247 | Within the grace period of its reservation a name is chosen or gone only after it has verified, and an export that wrote its whole readable manifest by then has verified |
| PublishGrace.NewestStillVerifyInTime | internal/catalog/write.go:201-247 | If no export takes longer than the grace period and every prune keeps at least `k`, the `k` greatest names that ever verified all still verify |
| PublishPrune.PruneAlone | internal/catalog/write.go:214-268 | A prune whose steps nobody interrupts leaves exactly what the sequential prune leaves, contents and times included, and touches no other process |
| PublishPrune.PruneAloneInAnyRun | internal/catalog/write.go:214-268 | So it does after any run of exports and prunes, wherever those stand |
| PublishAlone.ExportAlone | internal/catalog/write.go:63-137 | An export whose steps nobody interrupts adds exactly the generation of the sequential export |
| PublishAlone.WriteAlone | internal/catalog/write.go:63-110 | After any run, an export and its prune alone leave what the sequential export leaves |
| PublishSelection.SelectionInSteps | internal/catalog/write.go:313-370 | Selection between the steps of others finds only what verified once, whole unless chosen since; with prunes that keep at least `k` it falls behind the listing only if `k` newer names were completed or chosen meanwhile, and if nothing was completed it finds exactly the newest |
| PublishExample.SelectionCanFindNothing | internal/catalog/write.go:313-370 | For every `k` a run with a prune that keeps `k` and just `k` newly completed generations in which it finds nothing |
| PublishReuse.NameComesBack | internal/catalog/write.go:153-170 | A run in which a generation is complete, is pruned, and its name is reserved by a later export |
| ContentPath.SanitizeContentPath | internal/contentpath/contentpath.go:62-70 | The loop over the parts gives the sanitised path |
| ContentPath.ComponentCleaned | internal/contentpath/contentpath.go:31-47 | Without a limit the result is clean, and equals the input iff that is clean |
| ContentPath.SanitizedCharacters | internal/contentpath/contentpath.go:28-47 | Without double dots or white space around it, a component is kept but for its unsafe characters, which become underscores |
| ContentPath.LimitedIsPrefix | internal/contentpath/contentpath.go:35-47 | A limit keeps the beginning of what there is without it, unless that is a single point |
| ContentPath.LimitedComponent | internal/contentpath/contentpath.go:35-47 | With a limit the result fits and is safe; it is trimmed iff the cut did not fall after white space |
| ContentPath.LimitedIdempotence | internal/contentpath/contentpath.go:35-47 | With a limit a second pass changes nothing iff the cut did not fall after white space |
| ContentPath.LimitedExample | internal/contentpath/contentpath.go:35-47 | A title that is cut after white space at 80 and changed by a second pass |
| ContentPath.PathIsSafe | internal/contentpath/contentpath.go:59-70 | As many components as before, all clean; never an absolute path |
| ContentPath.PathUnchangedIff | internal/contentpath/contentpath.go:59-70 | A path is left alone iff all its components are clean |
| ContentPath.PathIdempotent | internal/contentpath/contentpath.go:59-70 | Sanitising twice is sanitising once |
| EncodedPath.SuffixReadBack | internal/config/encode.go:27-58 | A generation suffix that was written is split off again |
| EncodedPath.AcceptedIff | internal/config/encode.go:85-100 | A name is accepted iff it has no unsafe character, no double dots, no white space around it, no point at its end, does not begin with `rescue-`, and is not some text, `.g` or `.u` and a positive number |
| EncodedPath.AcceptedIsClean | internal/config/encode.go:85-100 | An accepted name is a clean component and splits off no suffix |
| EncodedPath.EncodedRelPath | internal/worker/encode.go:1060-1092 | There is a path iff the original is not empty, the container is mp4 or mkv and the name is accepted |
| EncodedPath.PathInDirectory | internal/worker/encode.go:1080-1120 | The path lies in the directory of the original, made safe, under the stem of the original up to its last point, the name, the version and the container |
| EncodedPath.TailIsClean | internal/config/encode.go:63-79 | Name, suffix and container come through the sanitiser unchanged |
| EncodedPath.TailInjective | internal/config/encode.go:63-79 | The tail is injective in name, version and container |
| EncodedPath.PathsDiffer | internal/worker/encode.go:1060-1092 | From one original two paths are equal iff name, container and version are |
| EncodedPath.GenerationReadBack | internal/worker/encode.go:1096-1103 | The cut generation is read back from the path, and no other version of the profile shows one |
| EncodedPath.GenerationShown | internal/worker/encode.go:1096-1103 | Exactly which profiles a path shows a generation for: those whose name, behind an underscore, ends that of a cut |

## Left out

- Loading: `demandsFromRows`, `EffectiveOptions` and the store interfaces; the capacity model starts from demands and tuners, and the preview from the three demand lists.
- AutoSpans: sums of range lengths are unbounded integers, here and in the two time maps; frame arithmetic and timestamps are also evaluated in 64 bits.
- RetimeLines: lines are sequences of code points; invalid UTF-8 is not modelled.
- SanitizeContentPath: invalid UTF-8 is not modelled.
- SelectionNeverMovesBack: takes selection as one look at a state; for selection in steps it is false, and `PublishSelection.SelectionInSteps` says what holds.
- FinishedExportVerifies: says nothing of an export that stalls beyond the grace period until a prune dooms its name; such an export can fail or leave an incomplete generation.
- JSON, SHA-256 and file I/O: a codec is a parameter with the laws `Manifest.Lawful`, which `ExampleCodec.ExampleIsLawful` meets; in the concurrent model reading one file is one step, and the directory time is read in the step of the check that failed.
- A power failure that loses bytes already written but not yet synced: a stop in the model is a stop of the process.
- Write: a directory that cannot be made for another reason than its name, and a prune that fails half-way, are not modelled in the sequential class; in the concurrent model a prune can stop anywhere.
- Store markers (`check` in `Write` and `Prune`).
- Directories that something other than exports and prunes writes to.
- Rescue, HTTP handlers, job queues, database, ffmpeg, templates for file names, configuration loading.
