# Hatchdoor, modelled and proved

This project models the parts of Hatchdoor that keep state, count, rewrite or
race, and proves what their code and comments promise. Each Dafny module stands
for one component:

| component | modules |
|---|---|
| the manual's wikilinks, pages and fences | `Utf8`, `ManualLinks`, `Wikilinks`, `ManualPages`, `ManualStructure`, `ManualAddresses`, `ManualRewriting` |
| the manual's search and excerpts | `QueryWords`, `QueryRuns`, `ManualSearch`, `ManualRanking`, `Excerpts` |
| the first-run indexing pass | `Saturating`, `Counting`, `FirstRun`, `StartupTracking`, `FirstRunLaws`, `FirstRunEstimates` |
| live settings | `DurableFile`, `Settings`, `SettingsLaws`, `SettingsRuns`, `SettingsReaders` |
| folder listing and creation | `FolderPaths`, `FolderTree`, `FolderListing`, `FolderCreation`, `FolderLaws`, `FolderRelisting` |
| lazily loaded frontend chunks | `ChunkGraph` |
| the shared instance-state file | `InstanceState`, `AgentNames` |
| versions and the two rate limiters | `Versions`, `RateLimits` |
| the model-setup claim | `ModelSelection`, `ModelClaim`, `ModelSettling` |

An object whose methods change its fields is a class; `Model()` is its state as a
value, and each method's postcondition ties the new value to a function of the
old one. The laws are lemmas about those functions and about whole runs of them.
Loops of the source are loops here. Where threads interleave, a world holds the
shared state and where each thread stands, and the laws hold over every sequence
of actions.

`dafny verify dfyconfig.toml` checks all of it.

## What does not hold as documented

In each case the code is modelled as it is and the exact condition under which it
does what is expected is proved; for the failures that take several steps a
concrete run is given.

- The percent of a first-run pass "never decreases within one pass"
  (`src/startup.rs:486-488`). A reading is a floor for the rest of its pass
  exactly if the pass knows two or more Vaults, or the one Vault's own percent is
  not above the high-water mark: the one-Vault branch (`src/startup.rs:94-99`)
  does not raise it. `ReadingIsFloorIff`; `ReadingCanFall` reads 50, then 25.
- With all Vaults settled the percent computed is 100 only while the total is at
  most (2^64-1)/100; beyond it the multiplication by 100 saturates:
  `AllSettledReadsHundredIff`, `AllSettledShowsHundredIff`,
  `AllSettledCanReadOne`.
- The average of the note counts is an ordinary sum, which wraps in a release
  build; the other totals saturate. `FirstRun.AverageNotes` wraps too;
  `AverageIs` says what the average is when the sum does not, and the laws about
  percent and mark hold all the same.
- After a failed save `settings.json` need not hold the published map or the one
  last tried: a save can fail after its rename (`src/runtime_config.rs:245`), and
  a second one before its own leaves the first one's map:
  `TwoFailuresLeaveAnOlderAttempt`, `PublishedOrAttemptedIff`. What always holds
  is that the file is whole and its map was published last, or tried or replaced
  since: `RunValid`.
- A successful removal of keys that are not stored writes nothing, so a map that
  an earlier failure left stays on disk and a restart resolves it:
  `RemovalLeavesCleanIff`, `RemovalLeavesAFailedSaveBehind`.
- A listed folder whose path starts with a backslash is refused when that path is
  sent back: `ReparseIff`, `ListedPathCanBeRefused`.
- "The tracker refuses the latch then, and the claim stays with that setup"
  (`src/vault_executor.rs:445-446`). Progress that an Index turn reports while
  model setup is pending moves the phase to `Indexing`, from where settling does
  latch, and then releases a claim that another lifecycle holds:
  `ReportIsHarmlessIff`, `DisturbanceIsReachable`.
- A failed load gives its claim back before it reports the failure. If another
  lifecycle has loaded its model by then and left the claim to indexing, the late
  report strands the instance: the claim is held with nobody to release it, and
  every request is refused (`LateFailureStrandsIff`, `InstanceCanBeStranded`).
  Exactly two things end that: a restart, or an Index turn that reports progress,
  after which settling latches startup and frees the claim (`StrandedIff`,
  `StrandedUntilReport`, `ReportFreesStranded`). A load that succeeds requests an
  Index turn for every active Vault, and a turn that is running when its Vault
  leaves still reports; an instance where no turn reports any more stays stranded.
- A retry reads the selection before it claims, so it can load a model that a
  choice persisted in between has replaced: `RetryMayLoadAnOlderChoice`.
  `OneLifecycleOnItsChoice` says exactly when a lifecycle's model is the selected
  one.
- A page may be shown with links to private pages reduced to their text
  (`src/docs_bundle.rs:440-444`). Such a link can be written so that its text
  opens a code fence: `NoAddressBreaks`; `LinkingKeepsLinesIff` says exactly which
  linking keeps every page that could be written. A given page keeps its lines and
  fences whenever its own private links stand after, or leave a text beginning
  with, something no fence starts with: `PublicPageKeepsStructure`, from
  `StructureKept`.
- A choice that fails to persist can still change what `selected` answers:
  `FailedChoiceKeepsSelectionIff`, `FailedChoicesChangeTheAnswer`.

## Model

| member | source | states |
|---|---|---|
| Wikilinks.RewriteLine | src/docs_bundle.rs:808-855 | the byte scanner, with its code-span state and lazy copying, produces for every line the rendering of the line's one segmentation, appended to what was there; its unresolved list is the wikilinks left as written, in order; every slice is on a char boundary and the output is valid UTF-8 |
| Wikilinks.ParseIsParse | src/docs_bundle.rs:808-855 | every line has a segmentation by the local grammar: code spans closed by the first run of equally many backticks or reaching to the end of the line, wikilinks closed by the first `]]`, other bytes |
| Wikilinks.ParseUnique | src/docs_bundle.rs:808-855 | no line has two segmentations, so "exactly the wikilinks outside inline code" is well defined |
| Wikilinks.ParseFlatten | src/docs_bundle.rs:808-855 | the segments put together are the line: every byte once and in order |
| Wikilinks.NoCloseNoLinks | src/docs_bundle.rs:832-834 | with no `]]` left the rest of the line is copied as it is and adds nothing unresolved, which is why the scanner may stop there |
| Wikilinks.LinkBoundaries | src/docs_bundle.rs:829-840 | every index the scanner slices at around a link is a UTF-8 char boundary |
| ManualLinks.WrittenLinkReadsBack | src/docs_bundle.rs:859-890 | a link written as page, heading and alias is taken apart into just those, without the white space around each, with the pipe written as in a table row or not |
| ManualLinks.LinkMarkdownIsValid | src/docs_bundle.rs:859-896 | the Markdown made of a valid link text is valid: no slice of `link_markdown` splits a char |
| ManualLinks.TextIsNewlineFree | src/docs_bundle.rs:859-896 | a link's text brings no newline the link did not have |
| ManualPages.RewriteWikilinks | src/docs_bundle.rs:781-803 | the page loop with its fence state copies fenced lines, rewrites the others each on its own, and collects the unresolved links in page order |
| ManualPages.FlagsSnoc | src/docs_bundle.rs:692-706 | the fence state carried from line to line is the one the flags of all earlier lines define |
| ManualStructure.PageIsFill | src/docs_bundle.rs:781-803 | for any destination the output is one and the same skeleton, built without the destination, filled in: two destinations differ only inside resolved links |
| ManualStructure.StructureKept | src/docs_bundle.rs:692-706 | for any page: where each resolved link on its own prose lines has an address without a newline, or has none and stands after, or leaves a text beginning with, graphic ASCII that is no fence marker, splitting the output gives each line's own rewriting, as many lines, with the same code flags |
| ManualStructure.RewriteKeepsLine | src/docs_bundle.rs:808-855 | such a line keeps its fence marker, stays one line, and ends as it did |
| ManualAddresses.LinkIsWritable | src/docs_bundle.rs:831-836 | what stands between `[[` and the first `]]` of a line, written so again, is read back as just that |
| ManualAddresses.SiteFitsPages | src/docs_bundle.rs:859-896 | addresses for every link that can be written and resolves fit every page |
| ManualAddresses.StructureKeptIff | src/docs_bundle.rs:692-706 | all pages keep their lines and code flags if and only if every link that can be written and resolves has an address without a newline |
| ManualAddresses.NoAddressBreaks | src/docs_bundle.rs:891-895 | any link without an address, given three backticks for its text, turns a line of prose into code |
| ManualAddresses.NewlineBreaks | src/docs_bundle.rs:891-895 | any link whose address holds a newline gives a page whose lines are not kept |
| ManualAddresses.PartsAreTargets | src/docs_bundle.rs:859-890 | what a link on a line asks an address for is a page of the site, with a heading's slug as anchor if any |
| ManualAddresses.BundledPagesKeepStructure | src/docs_bundle.rs:768-776 | every page rewritten with page names as addresses, as the bundled pages are, keeps its lines and its code flags |
| ManualAddresses.LinkingKeepsLinesIff | src/docs_bundle.rs:451-461 | all pages linked by a given `link` keep theirs if and only if every link that can be written and resolves names a page for which `link` has an address without a newline |
| ManualAddresses.PublicPageKeepsStructure | src/docs_bundle.rs:440-444 | a page shown in public keeps its lines and code flags whenever what is left of each of its own links to private pages cannot be taken for a fence; a page without such links always does |
| ManualStructure.SplitJoin | src/docs_bundle.rs:696-697 | splitting undoes joining for every list of lines |
| ManualStructure.MarkerStopsAtSolid | src/cache/parse.rs:354-371 | a line's fence marker is settled before its first graphic ASCII byte that is no marker |
| ManualRewriting.LinkBecomes | src/docs_bundle.rs:859-896 | a link to a page of the site, with or without slashes before it and `.md` behind it, becomes `[label](address)`, or the label alone where there is no address; the label is the non-empty alias, else the heading, behind the page and ` > ` if a page is named, else the page |
| ManualRewriting.LinkIsRewritten | src/docs_bundle.rs:808-855 | anywhere after plain text such a link becomes just that, the text is copied, and the rest of the line is rewritten as it would be |
| ManualRewriting.LoneLinkIsRewritten | src/docs_bundle.rs:808-855 | a line that is nothing but such a link becomes nothing but that |
| ManualRewriting.LinkIsLeft | src/docs_bundle.rs:838-853 | a link to no page of the site, or behind `!`, stays as it is and is the next in the unresolved list |
| ManualRewriting.NamedIsResolved | src/docs_bundle.rs:750-754 | a page is found by its lowercased key exactly if the site has it, whatever slashes come before the key, with `.md` behind it or not |
| ManualRewriting.TrimIs | src/docs_bundle.rs:751 | trimming takes white space off both ends, all there is and nothing else |
| ManualRewriting.FenceIsMarker | src/cache/parse.rs:354-371 | white space and then n backticks or tildes are a fence marker of length n exactly if n is three or more |
| ManualRewriting.OtherIsNoMarker | src/cache/parse.rs:354-371 | a line whose first char that is not white is neither has none |
| ManualRewriting.BlockIsCode | src/docs_bundle.rs:692-706 | a fenced block is code from its opening line to the first with as many of the same markers or more, both included; the page then goes on as if from its start |
| ManualRewriting.OpenBlockIsCode | src/docs_bundle.rs:692-706 | a block that nothing closes is code to the end of the page |
| ManualRewriting.ProseIsProse | src/docs_bundle.rs:692-706 | a line outside every block that opens none is prose |
| QueryWords.CollectTerms | src/docs_bundle.rs:538-560 | the loop over the pieces of a query yields the distinct normalized words that are no stop words, or all of them when none is left |
| QueryWords.CollectPunctuated | src/docs_bundle.rs:566-579 | the loop over the fields yields the distinct punctuated words |
| QueryWords.DistinctKeepsWords | src/docs_bundle.rs:546-551 | no word is lost or repeated, and words keep the order in which they first appear |
| QueryWords.WordsOfHolds | src/docs_bundle.rs:538-552 | a word is among the terms exactly if some non-empty piece, not a stop word where those are dropped, normalizes to it |
| QueryWords.CoreOfPunctuated | src/docs_bundle.rs:560-574 | a punctuated word has a letter or digit at both ends and something that is neither in between |
| QueryWords.PluralIsFolded | src/docs_bundle.rs:519-533 | a word and its plural in s are one word |
| QueryWords.MeaninglessTailIsIgnored | src/docs_bundle.rs:538-579 | text after white space that adds neither a meaningful nor a punctuated word leaves the terms and punctuated words of a meaningful query as they were |
| QueryWords.StopWordsChangeNothing | src/docs_bundle.rs:538-579 | any number of stop words, in whatever case, typed after a query that means something change neither its terms nor its punctuated words |
| ManualSearch.Search | src/docs_bundle.rs:392-421 | search shows nothing for a query without words, and otherwise exactly the pages that may be seen, match, and are outranked by fewer than five such pages |
| ManualSearch.ShowsTheFirstFive | src/docs_bundle.rs:384-421 | a page is shown exactly when it may be seen, matches, and is outranked by fewer than five such pages; the page at place k is outranked by exactly k |
| ManualSearch.NothingOmittedOutranks | src/docs_bundle.rs:410-420 | every page shown outranks every matching page left out |
| ManualSearch.OutranksIsStrictOrder | src/docs_bundle.rs:410-416 | exact words, then title, heading and body relevance, then page order is a strict total order on the pages |
| ManualSearch.RankingPlaces | src/docs_bundle.rs:401-416 | the whole ranking holds each eligible page once, at the place given by how many outrank it |
| ManualSearch.StopWordsShowTheSame | src/docs_bundle.rs:392-421 | appending stop words, in whatever case, to a query that has a meaningful word changes nothing about what is shown |
| QueryRuns.PieceIff | src/docs_bundle.rs:538-552 | the pieces of a text are exactly its runs between separators |
| QueryRuns.TermIff | src/docs_bundle.rs:538-560 | a word is searched for exactly if some run of letters and digits in the query normalizes to it that is no stop word, or any such run where all are stop words |
| QueryRuns.NormalizedIs | src/docs_bundle.rs:525-533 | a word ending in `s` but not `ss` is cut to its stem if that has three letters or more, any other only lowercased |
| QueryRuns.CoreIs | src/docs_bundle.rs:566-579 | what is left of a field is what stands between the punctuation at its ends |
| QueryRuns.PunctuatedIff | src/docs_bundle.rs:566-579 | a punctuated word is exactly the lowercased core, not all letters and digits, of a run without white space |
| ManualRanking.RankIsScore | src/docs_bundle.rs:499-513 | the four numbers a page is ranked by: how many of the words typed with punctuation stand in its text, how many terms in its title, how many in its headings, and how often all of them stand in its body |
| ManualRanking.BetterIsShownFirst | src/docs_bundle.rs:401-420 | of two matching pages the one whose score is higher in the first number that differs is shown first, and the other not without it; pages that score alike keep the manual's order |
| ManualRanking.MoreTitleWordsComeFirst | src/docs_bundle.rs:261-268 | with as many words as typed, more title words come first, whatever the headings and the body hold |
| ManualRanking.EligibleIff | src/docs_bundle.rs:401-409 | a page matches exactly if it may be seen and one of the four numbers is not zero |
| ManualRanking.PublicSearchSeesPublicText | src/docs_bundle.rs:229-246 | a public search shows the same pages with the same numbers whatever is in private pages and in what a page does not show the public, and shows no private page |
| Excerpts.ClipIsShort | src/docs_bundle.rs:655-676 | an excerpt is a valid string of at most 242 chars wherever it is cut, and a line of at most 240 is shown as it is |
| Excerpts.MatchSurvives | src/docs_bundle.rs:653-676 | a matched word of at most 160 chars, not beginning or ending in white space, is shown whole wherever in the line it stands |
| Excerpts.StartsAreChars | src/docs_bundle.rs:656 | the byte offsets counted are those of the line's chars: each is followed by exactly one whole char |
| Excerpts.WordIsInCut | src/docs_bundle.rs:660-665 | the 240 chars cut out take in all of the matched word |
| Excerpts.ContextComesFirst | src/docs_bundle.rs:653-676 | of a line of more than 240 chars 240 are shown: 80 before the match, or all if it has fewer, or more where fewer than 160 are left from the match on; with an ellipsis on each side that was cut |
| FirstRun.Progress.Percent | src/startup.rs:22-27 | one Vault's percent is at most 100 whatever its counters say |
| FirstRun.FirstRunPass.constructor | src/startup.rs:56-73 | a new pass: generation 0, nothing reported, mark 0 |
| FirstRun.FirstRunPass.Reset | src/startup.rs:75-80 | a reset leaves a fresh pass whose generation is one further, wrapping at 2^64 |
| FirstRun.FirstRunPass.Reading | src/startup.rs:84-177 | the loop that accumulates saturating totals returns the reading of the abstract pass and leaves exactly its high-water mark |
| FirstRun.Shares | src/startup.rs:100-153 | no Vault's share of the job has more done than its weight |
| FirstRunLaws.DoneWithinTotal | src/startup.rs:100-162 | done never exceeds total, however far both saturate |
| FirstRunLaws.HundredIffDone | src/startup.rs:155-162 | the computed percent is 100 exactly when done equals total and 0 < total <= (2^64-1)/100 |
| FirstRunLaws.PercentMonotone | src/startup.rs:155-162 | more done of a job that is no larger never computes a lower percent |
| FirstRunLaws.SettlingNeverLowers | src/startup.rs:100-162 | settling Vaults, all else unchanged, never lowers the computed percent and never makes it unknown, also when the total falls to zero |
| FirstRunLaws.AllSettledReadsHundredIff | src/startup.rs:100-162 | with every known Vault settled the computed percent is 100 exactly when 0 < total <= (2^64-1)/100 |
| FirstRunLaws.AllSettledShowsHundredIff | src/startup.rs:155-163 | the reading shown is then 100 exactly if that holds or the pass has read 100 before |
| FirstRunLaws.AllSettledCanReadOne | src/startup.rs:155-163 | a pass of two settled Vaults whose total is too large to multiply, and that reads 1 |
| FirstRunLaws.EstimateIsProportional | src/startup.rs:103-153 | where every reported Vault has the same tokens a note, a queued Vault is weighed at that rate for each of its notes, or of the average if they are not counted, and nothing of it is done |
| FirstRunEstimates.AverageIs | src/startup.rs:107-115 | the average times the number of known counts is the largest multiple of that number within their sum, and lies between two of them, as long as the sum does not wrap |
| FirstRunEstimates.NoAverage | src/startup.rs:113-115 | without a count there is none |
| FirstRunEstimates.AlikeWeighAlike | src/startup.rs:100-153 | where all reports have the same notes and tokens, and every other Vault is queued with as many notes or none counted, the job is as many times one report as there are Vaults: a queued Vault weighs what a reported one does |
| FirstRunEstimates.ShareIs | src/startup.rs:125-153 | a queued Vault weighs its notes, or the average, times the tokens a note of the reports, rounded down, and is unknown exactly without a count or without reported notes; a settled one without a report weighs nothing; a reported one its own tokens |
| FirstRunEstimates.SettledIff | src/startup.rs:101-106 | a Vault is settled exactly if its first entry says so or it has none |
| FirstRunEstimates.SamplesAre | src/startup.rs:116-124 | the sample is the tokens of the reports that know their notes and the notes of all |
| FirstRunEstimates.PercentIs | src/startup.rs:155-162 | the percent is the share of the job that is done, rounded down, where a hundred times it does not saturate |
| FirstRunEstimates.EtaIsProportional | src/startup.rs:165-176 | the time left is to the rest of the job as the time spent to what it embedded, rounded down; there is none exactly before the first token and with the job done |
| FirstRunEstimates.SpentIs | src/startup.rs:165-173 | time and tokens are summed over all reports |
| FirstRunEstimates.OwnPercentIs | src/startup.rs:22-27 | so is one Vault's own percent |
| FirstRunEstimates.OwnEtaIsProportional | src/startup.rs:30-36 | and its own time left |
| FirstRunEstimates.LatestReportCounts | src/startup.rs:285-308 | a report counts for its Vault until that Vault's next or the next pass, and the Vaults it lists until they are listed again |
| FirstRunEstimates.LatestListCounts | src/startup.rs:300-308 | a refreshed list of Vaults counts until the next |
| FirstRunEstimates.LatestCountCounts | src/startup.rs:337-342 | a note count that lands counts until the next for its Vault or the next pass |
| FirstRunLaws.MarkWasRead | src/startup.rs:157-163 | a pass's mark is a percent that some reading of that pass over two or more Vaults computed |
| FirstRunLaws.HundredMeansDone | src/startup.rs:157-163 | a mark of 100 means some reading of the pass found done equal to a non-empty total |
| FirstRunLaws.AdvanceValid | src/startup.rs:315-342 | every step keeps claims in step with passes; in particular a pass grants at most one |
| FirstRunLaws.PlayValid | src/startup.rs:315-342 | so does every run |
| FirstRunLaws.TicketLandsIff | src/startup.rs:337-342 | a claimed count lands exactly if a multiple of 2^64 passes has gone by since its claim |
| FirstRunLaws.OnlyCurrentTicketsLand | src/startup.rs:75-80 | in any run from startup with fewer than 2^64 resets, the counts that land are those claimed in the current pass, and no two claims belong to one pass |
| FirstRunLaws.NothingStaleLands | src/startup.rs:285-342 | a stale count changes nothing, and once the collection is ready neither progress nor a claim is accepted |
| StartupTracking.StartupTracker.constructor | src/startup.rs:203-208 | a tracker starts with a fresh pass |
| StartupTracking.StartupTracker.Restart | src/startup.rs:240-262 | each phase that starts the collection over resets the pass and then sets its phase |
| StartupTracking.StartupTracker.ReportIndexingProgress | src/startup.rs:285-303 | progress is recorded and moves the phase to indexing, unless ready |
| StartupTracking.StartupTracker.RefreshIndexingParticipants | src/startup.rs:305-310 | participants are replaced only once a report has set them |
| StartupTracking.StartupTracker.ClaimNoteCounts | src/startup.rs:315-325 | the claim is granted once a pass and never while ready |
| StartupTracking.StartupTracker.RecordNoteCount | src/startup.rs:337-342 | a count is recorded only under the pass's own generation |
| StartupTracking.StartupTracker.SetReady | src/startup.rs:344-346 | ready clears the progress shown |
| StartupTracking.StartupTracker.SettleReady | src/vault_runtime.rs:333-352 | ready is latched from validating, scanning and indexing only |
| StartupTracking.StartupTracker.Status | src/startup.rs:414-480 | a status request shows the pass's reading while indexing, and leaves its mark |
| StartupTracking.StepConsistent | src/startup.rs:84-177 | no event but a restart lowers the mark |
| StartupTracking.RunConsistent | src/startup.rs:84-177 | nor does any run within one pass |
| StartupTracking.NoReadingBelowMark | src/startup.rs:84-177 | no reading of a pass is below the mark as it stood at any earlier moment |
| StartupTracking.ManyVaultsReadingIsMark | src/startup.rs:155-177 | with two or more Vaults known the reading shown is the mark it leaves |
| StartupTracking.ReadingIsFloorIff | src/startup.rs:486-488 | a reading is a floor for the rest of its pass exactly when two or more Vaults are known or the current Vault's own percent is not above the mark |
| StartupTracking.ReadingCanFall | src/startup.rs:94-99 | from a fresh tracker: one Vault half done reads 50, then a second one joins and the reading is 25 |
| DurableFile.ReplacedFile.constructor | src/runtime_config.rs:177-207 | a file and what a power loss may leave of it start out the same |
| DurableFile.ReplacedFile.RenameTemp | src/runtime_config.rs:237-244 | renaming an unsynced file may leave a torn one; until the directory is synced the old file may come back |
| DurableFile.ReplacedFile.Persist | src/runtime_config.rs:209-253 | whichever step fails or is the last one, the file is the old map or all of the new one, and only success makes the new one sure to survive |
| DurableFile.ReplacedFile.Replace | src/instance_state.rs:401-440 | the same without the directory sync |
| Settings.RuntimeConfig.constructor | src/runtime_config.rs:352-371 | loading publishes the resolution of environment over stored over defaults, with all revisions at zero |
| Settings.RuntimeConfig.Publish | src/runtime_config.rs:393-405 | publishing bumps the revisions of exactly the keys whose resolved value changes |
| Settings.RuntimeConfig.ValidateAndSaveThen | src/runtime_config.rs:483-514 | a save locks, decides, persists, runs its setup, then publishes or restores; every outcome of every step gives the state and reply stated |
| Settings.RuntimeConfig.RemoveStored | src/runtime_config.rs:429-461 | a removal of keys that are not stored writes nothing; any other persists and publishes |
| Settings.ProspectiveViewIff | src/runtime_config.rs:119-137 | the view a save is validated against agrees with what the save resolves to exactly when no update gives a pinned key another value |
| SettingsLaws.ExtendedIs | src/runtime_config.rs:500 | a setting is stored after a save exactly if it was before or some update names it, with the value of the last update that does, or else the one it had |
| SettingsLaws.SavedTakesEffect | src/runtime_config.rs:483-514 | a save replies saved exactly if nothing goes wrong on its way; then every setting not pinned has its last update's value in the reply, the live snapshot, memory and the file, and a pinned one the environment's |
| SettingsLaws.FailedSetupRestores | src/runtime_config.rs:502-509 | any other reply leaves the settings as they are seen, and a failed setup puts the stored values back |
| SettingsLaws.RemovalTakesEffect | src/runtime_config.rs:429-461 | a removal leaves none of its keys stored and every other one as it was, in memory and file; a removed setting falls back to its default unless it is pinned |
| SettingsLaws.LastChangeCounts | src/runtime_config.rs:429-514 | after any saves and removals a setting has the value the last one that touched it gave it, and is not stored if that one removed it |
| SettingsLaws.UntouchedStays | src/runtime_config.rs:429-514 | a setting that none of them touched is as it was |
| SettingsRuns.RunValid | src/runtime_config.rs:177-253 | over any run of saves and removals, with failures, crashes and power losses anywhere, the file decodes to a whole map that was published last or tried or replaced since, the live snapshot is the resolution of the stored map, and each key's revision is the number of published changes to its value |
| SettingsRuns.FirstStartValid | src/runtime_config.rs:352-371 | that holds from the first start |
| SettingsRuns.StepValid | src/runtime_config.rs:483-561 | and every step keeps it |
| SettingsRuns.PublishedOrAttemptedIff | src/runtime_config.rs:215-253 | after a call that tries to save a map the file holds the published map or that one exactly if the call reached its rename or the file already held one of the two |
| SettingsRuns.TwoFailuresLeaveAnOlderAttempt | src/runtime_config.rs:243-252 | it can fail: one save failing after its rename and one before leave a map on disk that is neither |
| SettingsRuns.SuccessIsDurable | src/runtime_config.rs:495-514 | every published value was durable first, and a successful save leaves file, memory and anything a power loss leaves in agreement |
| SettingsRuns.RemovalLeavesCleanIff | src/runtime_config.rs:429-461 | a successful removal leaves them in agreement exactly if it had something to remove or they agreed before |
| SettingsRuns.RemovalLeavesAFailedSaveBehind | src/runtime_config.rs:429-454 | a save that fails after its rename, then a successful removal of a key that is not stored, then a restart that resolves another snapshot than the live one |
| SettingsRuns.CleanRestarts | src/runtime_config.rs:352-371 | from there a restart, with or without a power loss, resolves to exactly the live snapshot |
| SettingsRuns.StoredIsFoldOfSuccesses | src/runtime_config.rs:483-514 | the stored map is the fold of the successful changes in lock order, and the next decision sees the resolution of them all |
| SettingsRuns.EqualRevisionsMeanSameValue | src/runtime_config.rs:376-391 | a key whose revision reads the same at two moments of a process, with fewer than 2^64 publications between, had the same value at every publication between and has it still |
| SettingsRuns.HistoryGrows | src/runtime_config.rs:393-405 | within a process publications are only added to the history |
| SettingsReaders.ActConsistent | src/runtime_config.rs:381-405 | every step of a publication or of a reader keeps the revisions the counts of changes, and what readers have read in step with them |
| SettingsReaders.RevisionIsNeverAheadOfValue | src/runtime_config.rs:373-405 | over any interleaving, a consumer that reads a revision and then the value never pairs a new revision with an old value |
| SettingsReaders.SameRevisionAfterwardsMeansItsValue | src/runtime_config.rs:376-391 | if it then finds the revision the same, the value it read is the one that goes with it |
| SettingsRuns.PinnedStaysAtZero | src/runtime_config.rs:376-391 | an environment-pinned key stays at revision zero |
| FolderTree.CountTree | src/folder_listing.rs:544-589 | the capped stack walk returns at most the cap and at most the true number of visible notes; an uncut result is exact; one cut only by the cap equals it; "no subfolders" is never said of a readable folder that has a visible one; enough time and a high enough cap give an exact result |
| FolderPaths.ParseRelative | src/folder_listing.rs:439-453 | the loop over the parts keeps them in order, and the first offending part decides the error |
| FolderPaths.ParsedAreComponents | src/folder_listing.rs:439-453 | what is accepted are plain components: no accepted path climbs out of the root |
| FolderPaths.ReparseIff | src/folder_listing.rs:439-453 | parsing joined components gives them back, except exactly when the first starts with a backslash, which is refused |
| FolderListing.ListedPathCanBeRefused | src/folder_listing.rs:439-453 | a folder that is listed under a path which is refused when it is sent back |
| FolderPaths.PlainNameIsComponent | src/folder_listing.rs:277-286 | a name that may be created is a component and never that exception |
| FolderListing.ShownFolder | src/folder_listing.rs:405-425 | descending one component at a time gives the folder at the path, or the error of the first component that is hidden, missing, no directory or unreadable |
| FolderListing.CountChildren | src/folder_listing.rs:334-365 | the children counted one after another against one deadline are each right about everything but a cut count, and the total is cut exactly if one of them is |
| FolderListing.ListFolders | src/folder_listing.rs:290-374 | a listing is the exact one or, where a count was cut, right about everything else and never above it; with time and cap enough it is exact |
| FolderListing.CountedFits | src/folder_listing.rs:334-374 | a listing put together from the children's counts is the exact one wherever no count was cut, and never above it |
| FolderLaws.EntryPathReparses | src/folder_listing.rs:345-365 | the path a child is listed under parses back to its folder's components and its own name, unless the whole begins with a backslash |
| FolderLaws.ListedPathOpensChild | src/folder_listing.rs:405-425 | a child that is listed can be listed in its turn: its path leads to just that folder |
| FolderLaws.ChildIsListedIff | src/folder_listing.rs:312-333 | the children listed are exactly the folders with a valid name that does not begin with a dot and that may be Vaults |
| FolderLaws.DirectAre | src/folder_listing.rs:312-329 | a folder's own notes are its files whose names end in `.md`, and the names skipped those of its folders that are not valid |
| FolderLaws.NotesAre | src/folder_listing.rs:544-589 | the notes under a folder are its own and those under its visible folders, none if it cannot be read |
| FolderLaws.SubfoldersAreListed | src/folder_listing.rs:544-589 | a child has subfolders exactly if it can be read and has a folder with a valid name that does not begin with a dot |
| FolderLaws.VaultAtIs | src/folder_listing.rs:529-534 | a folder is shown as a Vault exactly if one of those found has its path; the first of them is named |
| FolderLaws.VaultIsFoundIff | src/folder_listing.rs:486-505 | the Vaults found are those registered whose folder is there |
| FolderLaws.PartsAreTaken | src/folder_listing.rs:439-453 | of a path's parts the first that is `..` or has a NUL byte decides the error, empty ones and `.` are passed over, the others kept in order |
| FolderLaws.ParsedAreNames | src/folder_listing.rs:439-453 | nothing a path is read as is empty, `.`, `..`, or holds a slash or a NUL byte |
| FolderLaws.DescendStep | src/folder_listing.rs:405-425 | one component further down: an earlier error stays, a hidden name is not found, a folder that cannot be searched is unreadable, and else the entry of that name is entered if it is a folder and not found if not |
| FolderLaws.NameLessIff | src/folder_listing.rs:330-333 | names are ordered byte by byte, the shorter first where one begins the other |
| FolderLaws.PlainNameIff | src/folder_listing.rs:277-286 | a name may be created exactly if it has 1 to 255 bytes, no white space at its ends, no dot in front, no slash of either kind and no control character |
| FolderLaws.CreationSucceedsIff | src/folder_listing.rs:208-264 | a folder is made exactly if its parent is shown, can be entered and written and has no entry of that name, and name, registry and system allow it |
| FolderLaws.TakenNameIsTold | src/folder_listing.rs:236-262 | a name in use is told before a parent that cannot be written |
| FolderLaws.FirstReasonIsTold | src/folder_listing.rs:208-248 | the first reason against a creation is the one told: the path of the parent, the name, the mount, the parent, the registry, a Vault around it, instance state |
| FolderLaws.NewFolderIsUsable | src/folder_listing.rs:236-262 | the path of a folder just made leads to an empty one that can be read, searched and written |
| FolderCreation.Mount.constructor | src/folder_listing.rs:208-215 | the mount as it is found |
| FolderCreation.Mount.CreateFolder | src/folder_listing.rs:208-264 | a creation is refused, leaving the tree as it was, for the first reason that applies, or adds one empty folder and returns its entry |
| FolderCreation.OnlyOnePathIsNew | src/folder_listing.rs:236-262 | after a creation the paths that exist are those that did and the new one |
| FolderCreation.DescendAfter | src/folder_listing.rs:236-262 | its parent is the same folder with the new entry in it |
| FolderCreation.CreationIsContained | src/folder_listing.rs:222-262 | a success makes exactly one path that was not there, below the root and inside no registered Vault, and the registered Vaults found are the same |
| FolderRelisting.SortIsSorted | src/folder_listing.rs:330-333 | children are listed in name order, none lost or added |
| FolderRelisting.SortInserted | src/folder_listing.rs:330-333 | sorting with one more child, wherever it was read, is putting it in its place among the sorted others |
| FolderRelisting.RelistingShowsTheEntry | src/folder_listing.rs:208-374 | the exact listing of the parent after a creation is the earlier one with the returned entry in its sorted place and nothing else changed |
| FolderRelisting.UncutRelistingShowsTheEntry | src/folder_listing.rs:208-374 | two uncut listings of the parent, one before a creation and one after: the second is the first with the returned entry in its sorted place |
| ChunkGraph.Reach | frontend/vite.config.ts:33-50 | the stack walk returns exactly the chunks reachable by walks that stay in the bundle and off `stopAt` |
| ChunkGraph.NamesWhere | frontend/vite.config.ts:51-63 | filtering and mapping the chunks gives the names of those kept |
| ChunkGraph.FindLazyChunks | frontend/vite.config.ts:28-69 | the result is what the lazy roots reach by paths that avoid the eager chunks |
| ChunkGraph.ReachableIsLeastClosed | frontend/vite.config.ts:33-50 | reachability is the least set closed under the followed imports, and holds nothing of `stopAt` |
| ChunkGraph.EagerIsStaticClosure | frontend/vite.config.ts:52-55 | the eager chunks are the least static-import closure of the entries |
| ChunkGraph.LazyChunksAreSelfContained | frontend/vite.config.ts:56-68 | no chunk is lazy and eager, and every import of a lazy chunk that the bundle has is lazy or eager |
| ChunkGraph.LazyIsLeast | frontend/vite.config.ts:56-68 | the lazy chunks are the least set that has the dynamic entries whose module lies in Mermaid's or PDF.js's package and all they import in any way, leaving out the eager ones |
| ChunkGraph.LastOfNameCounts | frontend/vite.config.ts:29-32 | of the chunks with one name the last is kept |
| ChunkGraph.SameGraphSameLazy | frontend/vite.config.ts:28-69 | the order inside import lists does not matter |
| ChunkGraph.InputOrderIsIrrelevant | frontend/vite.config.ts:28-69 | with distinct file names neither does the order of the chunks |
| InstanceState.InstanceStateStore.constructor | src/instance_state.rs:282-289 | a store over one file |
| InstanceState.InstanceStateStore.Execute | src/instance_state.rs:335-376 | a write or removal under the lock refuses a whole file whose schema is newer, naming it and leaving it as it is; otherwise it does nothing when there is nothing to remove, and else replaces the file whole, with its schema and every other section, or not at all; until the directory is synced the old file may come back |
| InstanceState.OpTouchesItsOwnSection | src/instance_state.rs:335-376 | an operation changes its own section and no other, leaves the schema, and a file whose schema is newer not at all |
| InstanceState.SectionsAre | src/instance_state.rs:322-331 | a reader sees the sections of a whole file that is no newer, and none of any other |
| InstanceState.FoldKeepsSchema | src/instance_state.rs:335-400 | no operations change a file of a newer schema, and none makes a file newer |
| InstanceState.ActConsistent | src/instance_state.rs:379-440 | every step of any thread keeps the file the fold of the operations done, with plans made from the file as it still is, and whatever may survive a power loss the fold of some first few of them |
| InstanceState.InterleavingsSerialise | src/instance_state.rs:335-440 | for any interleaving of threads, with failed writes, crashes and power losses anywhere, the file is the operations done applied one after another in lock order, and every file that may survive is what some first few of them made |
| InstanceState.PowerLossKeepsAPrefix | src/instance_state.rs:401-440 | after any run, whatever comes back after a power loss is what some first few of the operations done had made |
| InstanceState.FoldSections | src/instance_state.rs:335-376 | a section holds the last completed write to it, if no removal came after |
| InstanceState.SectionsAreIndependent | src/instance_state.rs:268-440 | after any such run every section is the last completed write to it whatever happened to the others, and a file of a newer schema is the one it was |
| AgentNames.CleaningIsExact | src/instance_state.rs:147-176 | every name kept is one visible line of at most 100 chars without white space at its ends, the names left alone are exactly those, and cleaning twice is cleaning once |
| AgentNames.CleaningIs | src/instance_state.rs:147-176 | any name, without its hidden chars, is white space around a core; without a core there is no name, a core of up to 100 chars is the name, and of a longer one its first 100 but for the white space they end with |
| AgentNames.KeptChars | src/instance_state.rs:155-176 | printable ASCII is kept; control, zero-width, direction, embedding and tag chars are not |
| AgentNames.FilteredJoin | src/instance_state.rs:147-160 | hidden chars are taken out one by one: exactly the control and the invisible format ones |
| Versions.FormatParses | src/update_check.rs:119-138 | a version written out parses back, for all 64-bit parts |
| Versions.ReleaseVersionRoundTrips | src/update_check.rs:119-122 | the version recorded for a tag reads back as the version the tag named |
| Versions.LaterIsStrictOrder | src/update_check.rs:141-146 | of two readable versions exactly one is later or they are the same, and later is transitive |
| Versions.LaterIsNumeric | src/update_check.rs:141-146 | later is greater for the number whose three 64-bit digits the parts are |
| Versions.VersionIsThreeNumbers | src/update_check.rs:124-135 | what is read as a version is three groups of digits with points between, each a number of at most 64 bits |
| Versions.ThreeNumbersAreAVersion | src/update_check.rs:124-135 | and every three such groups are read as those numbers |
| Versions.TagNamesVersion | src/update_check.rs:119-122 | a tag names the version it spells, with a `v` before it or without |
| Versions.BaseIs | src/instance_state.rs:125-130 | the base of a version is what stands before its first ` (dev`, or all of it, trimmed |
| Versions.DevBuildComparesAsRelease | src/update_check.rs:137-146 | a development build is offered exactly the releases later than its own release |
| Versions.RecordFollowsStarts | src/instance_state.rs:80-105 | over any starts, from any record or none, on a fresh or an existing install, the record names the release running, the last different one before it, and for a fresh install only the first one ever |
| RateLimits.AgentConnectionLog.constructor | src/instance_state.rs:210-219 | a log starts with the stored agent and no save remembered |
| RateLimits.AgentConnectionLog.Observe | src/instance_state.rs:229-248 | a call is remembered always and due for saving on the first call, on a change of name and a minute after the last save |
| RateLimits.DueIff | src/instance_state.rs:229-248 | a call is due for saving exactly if there is a store and it is the first, from another client, or 60 s or more after the last one saved |
| RateLimits.DueCallsBounded | src/instance_state.rs:229-248 | for every non-decreasing sequence of calls the saves due are at most 1 + name changes + floor(span / 60 s), and the client remembered is the last one seen |
| RateLimits.DueCallsCounted | src/instance_state.rs:229-248 | each save beyond the first and the name changes has used up a minute of its own; every change of name is saved, and what is saved names the last client and is less than a minute behind |
| RateLimits.UpdateChecker.constructor | src/update_check.rs:184-197 | a process starts with no attempt of its own and whatever record the file holds |
| RateLimits.UpdateChecker.RunTick | src/update_check.rs:200-256 | a tick asks exactly when the setting is on and the day, or after a switch the minute, has passed; it remembers the attempt and records the outcome if it can |
| RateLimits.AsksIff | src/update_check.rs:200-229 | nothing is asked with the setting off; just switched on, a tick asks exactly unless this process asked less than 60 s ago; otherwise exactly unless this process or the record has an attempt less than 24 h old; times in the future do not hold it off |
| RateLimits.SwitchingOnAsks | src/update_check.rs:205-221 | in any run of a process the tick that finds the setting switched on asks exactly if no request of it is less than 60 s old, however fresh the record |
| RateLimits.TickRecords | src/update_check.rs:230-256 | a tick that asks records the time to the second and the version of the tag, or that there was none, if it can write; any other leaves the record |
| RateLimits.FetchesBounded | src/update_check.rs:200-256 | with a clock that does not go back one process asks at most 1 + off-to-on switches + floor(span / 24 h) times |
| RateLimits.FetchesCounted | src/update_check.rs:200-256 | each request beyond the first and the switches has used up a day of its own |
| RateLimits.EnabledTickIsFresh | src/update_check.rs:211-229 | after any tick with the setting on, the last attempt is less than a day old |
| RateLimits.NeverTwiceAMinute | src/update_check.rs:200-256 | two requests of one process are never within 60 s, whatever is switched |
| RateLimits.RestartsKeepTheDay | src/update_check.rs:149-170 | across any restarts, with working writes and no switch, two requests are more than 24 h - 1 s apart |
| ModelSelection.ModelSetup.constructor | src/model_setup.rs:83-85 | the files as they are found |
| ModelSelection.ModelSetup.WriteSelection | src/model_setup.rs:305-315 | the selection is replaced whole or left |
| ModelSelection.ModelSetup.AcceptGemma | src/model_setup.rs:124-139 | accepting makes the directory, writes the receipt, then the selection; a failing step leaves what the earlier ones did |
| ModelSelection.ModelSetup.DeclineGemma | src/model_setup.rs:141-148 | declining removes Gemma's directory if there is one, then writes the selection |
| ModelSelection.PersistedIsSelected | src/model_setup.rs:110-148 | a choice that was persisted is the choice read back |
| ModelSelection.SelectedIff | src/model_setup.rs:110-122 | Gemma is selected exactly with its name and a current receipt, Nomic exactly with its name; what cannot be decoded is an error, and in every other case the terms are asked for |
| ModelSelection.PersistedLeaves | src/model_setup.rs:110-148 | an accepted choice leaves the directory, a current receipt and Gemma selected, a decline neither directory nor receipt and Nomic selected; nothing else counts as persisted |
| ModelSelection.FailureKeepsSelection | src/model_setup.rs:110-148 | a failed choice leaves the selection file as it was |
| ModelSelection.FailedChoiceKeepsSelectionIff | src/model_setup.rs:110-148 | a failed choice leaves the answer of `selected` alone except exactly when "gemma" was selected and the failure came after a receipt was first written, or after one was removed |
| ModelSelection.FailedChoicesChangeTheAnswer | src/model_setup.rs:110-148 | both happen: a failed decline takes an acceptance back, and a failed acceptance then brings Gemma back |
| ModelClaim.PhasesAreTheTrackers | src/vault_runtime.rs:260-371 | the phases move here as the startup tracker's own methods move them |
| ModelClaim.SoundKept | src/server.rs:772-961 | every step of any request, load, settling or collection change keeps the claim with one owner at most and every lifecycle on the disk's choice; of progress reports those that come when model setup is not pending, or the instance is stranded |
| ModelClaim.OneLifecycleOnItsChoice | src/server.rs:815-841 | over all interleavings in which every progress report is harmless at most one lifecycle exists, it holds the claim, and it runs on the model the selection names exactly if the selection named it at the claim, as it does for every choice |
| ModelClaim.OnlyTheHolderWrites | src/server.rs:815-841 | the saved choice changes only by the one lifecycle holding the claim, and a refused request changes nothing |
| ModelClaim.FailureFreesTheClaim | src/server.rs:834-837 | a failed persist or load gives the claim back, and the next request gets it |
| ModelClaim.ReportIsHarmlessIff | src/vault_executor.rs:424-452 | indexing progress is harmless exactly when model setup is not pending, or the instance is stranded; otherwise, once the Vaults have settled, settling releases a claim that is not its own and two lifecycles run at once |
| ModelClaim.DisturbanceIsReachable | src/server.rs:922-933 | the first load passes through such a state, between installing its model and its end |
| ModelClaim.LateFailureStrandsIff | src/server.rs:949-958 | a failure reported after its claim was given back strands the instance exactly when it finds startup in a phase it could settle from, or stranded already |
| ModelClaim.StrandedIff | src/vault_runtime.rs:308-323 | exactly two actions end a stranding: an Index turn's progress report and a restart |
| ModelClaim.StrandedUntilReport | src/server.rs:845-850 | until one of them a stranded instance refuses every request |
| ModelClaim.ReportFreesStranded | src/vault_executor.rs:424-452 | in every stranded state such a report can come, from any Index turn that is running, and settling then latches startup and frees the claim without a restart |
| ModelClaim.InstanceCanBeStranded | src/server.rs:949-958 | one failed load and one successful retry reach that state |
| ModelClaim.RetryMayLoadAnOlderChoice | src/server.rs:772-789 | a retry reads the selection before it claims: a run in which it loads a model that a choice has since replaced |
| ModelSettling.SettlingNeedsTheCollection | src/vault_executor.rs:424-452 | asking the collection leads on to settling exactly if every active Vault has its first index, or, with none active, the registry loads |
| ModelSettling.SettlingNeedsTheModel | src/vault_executor.rs:424-452 | the collection is asked exactly if startup is not ready and model setup is neither waiting for terms, downloading nor failed; and the latch takes from validating, scanning and indexing alone |
| ModelSettling.UnsettledIsNeverReady | src/vault_executor.rs:424-452 | over all interleavings, failures and restarts included, startup is not ready as long as the collection is unsettled |
| ModelSettling.StartsUnready | src/vault_executor.rs:424-452 | in particular from the start of a process |
| ModelClaim.RunSound | src/server.rs:772-961 | what every step keeps, every run keeps |

## Left out

- HTTP routing, authentication, configuration from the environment and logging: wiring, each settled by one branch or by a library.
- Model download, free space and integrity digests (`src/model_setup.rs:154-289`): a load here installs its model or fails.
- The network request of the update check: what it returned is a parameter of the tick.
- Threads and timers: a run lists the steps in the order they took effect.
- JSON: a file holds a whole value, a torn one or nothing, and a value written reads back as itself. Schema errors of `settings.json` at startup and section names equal to `schema_version` are not modelled; a file of a newer schema has sections here, whatever its shape.
- Temporary file names, file modes and their clean-up on failure: no reader sees a temporary file.
- Unicode case mapping, the letters and digits of a query and the note slug rule: functions of the input, with only the laws the proofs need.
- `usize` is taken as 64 bits wide, and sums of a listing's counts or of body hits as not overflowing.
- FirstRunEstimates.AverageIs: says nothing of counts whose sum wraps; the sum does wrap in a release build, and no relation to the counts is left then.
- FirstRunEstimates.ShareIs: says nothing of the weight of a queued Vault where notes times tokens saturates.
- StartupTracking.StartupTracker.ReportIndexingProgress: the phase and the pass are behind two locks and change in one step here, as in all of the tracker's methods.
- StartupTracking.StartupTracker.ClaimNoteCounts: the ready test and the claim are one step here; in the source startup may be latched between them.
- StartupTracking.StartupTracker.Status: the phase and the reading are taken in one step here; in the source the pass may be reset between them.
- Settings.RuntimeConfig.Publish: the method is one step; the readers that come between its own are in `SettingsReaders`.
- FirstRunEstimates.EtaIsProportional: says nothing of the time left where a sum or product saturates; what is computed then is in the contract of `FirstRunPass.Reading`.
- FolderCreation.Mount.CreateFolder: the checks and the making of the directory are one step, so a folder swapped for a link in between (`src/folder_listing.rs:222-228`) is not modelled.
- FolderTree.CountTree: the clock is a number of looks at it that remain before the deadline; the order in which entries are read is a parameter.
- FolderListing.ListFolders: the mount's configured path, echoed in every listing, is not part of one here; instance-state protection is a predicate on paths, and Vault roots are compared as resolved paths.
- ManualSearch.Search: the excerpt of each page shown is not part of the result; which line an excerpt is cut from is not modelled, only the cut.
- Excerpts.MatchSurvives: that a match starts a word of the line comes from its caller (`src/docs_bundle.rs:636-652`).
- Building the manual's pages, titles and word tables (`src/docs_bundle.rs:302-360, 478-499`): the search takes them as given.
- ModelClaim.SoundKept: says nothing of a progress report that is not harmless, because the code keeps nothing then: `ReportIsHarmlessIff`.
- ModelClaim.RunSound: the same, for runs.
- ModelClaim.OneLifecycleOnItsChoice: the same; and the demo's own fallback model (`src/server.rs:231-240`) is not modelled.
- ModelClaim.ReportFreesStranded: which Index turns run is not modelled; any may report once a model is installed.
- ModelClaim.ReportIsHarmlessIff: how Vaults settle their indexes is not modelled: the collection may change at any step, and settling asks it as the source does.
- Vault work, git, the cache and the write layer: not part of this model.
