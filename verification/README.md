# Verified model of Sigy's algorithms

Sigy is a radio and recording tool. This project models the parts of it whose
correctness rests on an algorithm or on a state machine, and proves what they
promise for every input and every run:

- **Which job runs next** (`Fairness`, `FairnessRuns`, `FairScheduler`,
  `FairStarvation`). The chooser behind the one local slot, its rotation memory, and whole
  runs of arrivals and claims. Bounded waits hold for unbounded runs with adversarial
  arrivals, and the live bound is shown to fail at every turn it is not proved for.
- **Money** (`Decimal`, `Money`, `Copy`, `Pricing`, `ReportedCost`, `Budget`, `Billing`,
  `Providers`). Decimal texts are read and printed exactly over 64-bit and 128-bit
  amounts, a price snapshot bounds every bill, and the ledger stays safe over every
  run. `Billing` joins the files: a reserved liability settles without a breach.
- **Typo hints** (`EditDistance`, `Hints`). The two-row program computes the length of
  a shortest edit script, and the one-pass search finds the only closest name.
- **Chunked recognition** (`Recognizer`, `RecognizerWalk`, `RecognizerVerdict`). An executor that is not
  trusted decides how far each window reaches; the published coverages still tile
  every segment, no containment account is lost, and how a job ends is decided exactly.
- **Text transforms** (`DoctorView`, `Translation`, `Archive`). Line wrapping, canonical
  language lists, and the continuation token of archive pages.

`Prelude` holds the integer ranges and shared datatypes, `Text` the order of strings,
the stable sort and white space.

## How the model is built

- Code that changes state is a method or a class here (`FairCursor`, `Scheduler`,
  `Gathered`, the row arrays of the distance, the slots of the named rates); its
  `ensures` ties it to a specification that does not mention its loop. Pure code is
  functions. The lemmas are about the specifications.
- Rust's ranges are written out: `U64`, `U128`, `I64` and `U32` are subset types, and
  saturating, checked and shifting arithmetic appears as the code has it.
- The executor, the cancellation signal and the page-size test of the recognition walk
  are arbitrary functions (`World`), so the results hold for every behaviour of them.
  A window carries its ordinal, so no two windows of a walk are equal and each call may
  be answered in its own way.
- Strings are sequences of Unicode scalar values. Their order is the order of the UTF-8
  bytes, and length limits that the code takes in bytes are taken in UTF-8 bytes.

## Where the code differs from its description or a reader's expectation

Each of these is kept as the code has it, with the exact condition under which it happens.

- The description of the chooser (`crates/sigy-service/src/fairness.rs:1-7`) reserves
  every fourth claim. The turn saturates, and the largest 64-bit value is itself a
  reserved turn, so from there on every claim is reserved: the batch bound survives,
  and live work is claimed exactly when no batch job waits (`FairnessRuns.SaturatedRun`).
  The live bound holds exactly at the turns that leave the counter room for it; at every
  other turn a live job can starve (`FairStarvation.LiveBoundIsExact`).
- Wrapping splits only at U+0020, while it trims and so separates words at any white space.
  A word that would fit its line is broken exactly when the line has no space behind its
  first character and ends inside that word (`DoctorView.BrokenIffStuck`). Where the space
  is the only white space that happens in one case: one space in front of a word as long
  as the room of the first line (`DoctorView.WordsAreKept`). A tab in front of a short word
  is another (`DoctorView.TabBreaksAWord`).
- A word that would end exactly where the room does still goes to the next line, since the
  scan does not look at the character behind the room (`DoctorView.FilledToTheLastBreak`,
  `DoctorView.ExactFitIsLeft`).
- A lead of 100 characters or more still gets one character of text on its line. A line is
  wider than the page exactly when its lead is longer than 100, or is 100 and the line
  shows any text (`DoctorView.WideExactly`).
- A cursor token with leading zeros is accepted (`Archive.PaddedTokenAccepted`). It is the
  token its cursor prints exactly when no number is padded (`Archive.PrintedIffUnpadded`).

## Model

| member | source | states |
|---|---|---|
| Fairness.Choose | crates/sigy-service/src/fairness.rs:60-76 | The chooser meets the whole claim rule `IsChoice`, which is stated without the winners list: on a reserved turn with batch work waiting the first oldest batch job, otherwise the rotation of live work, otherwise the rotation of batch work; nothing is chosen exactly when nothing waits |
| Fairness.Rotate | crates/sigy-service/src/fairness.rs:93-123 | The overwrite-and-sort loop over `winners` gives the minimum of the next source after the last one, wrapping; with no last source, the overall minimum with ties broken by source name |
| Fairness.SeenStep | crates/sigy-service/src/fairness.rs:95-106 | After every scanned prefix the list holds exactly one job per source seen, the minimum of that source, whether the new job replaces its slot or not |
| Fairness.Oldest | crates/sigy-service/src/fairness.rs:85-91 | The answer is the first minimum of the class in list order, and there is none exactly when no job of the class waits |
| Fairness.NextIsRotation | crates/sigy-service/src/fairness.rs:110-122 | Reading the sorted winners at the first source above the last one, or at the front, is the next source around the circle of all waiting jobs |
| Fairness.FirstIsRotation | crates/sigy-service/src/fairness.rs:110-116 | Reading them at their first minimum gives the start of the rotation |
| Fairness.BeforeIsStrict | crates/sigy-service/src/fairness.rs:125-138 | The order of a class is a strict order that is total up to equal keys |
| Fairness.FairCursor.Advance | crates/sigy-service/src/fairness.rs:48-58 | The whole new rotation memory: the turn saturates at the largest 64-bit value and only the slot of the claimed class changes |
| FairnessRuns.ClassOfClaim | crates/sigy-service/src/fairness.rs:60-76 | Batch work is claimed exactly on every fourth turn on which any waits, and when nothing live waits |
| FairnessRuns.ClaimedLiveIsDueFirst | crates/sigy-service/src/fairness.rs:125-138 | A claimed live job has the least deadline of its source, then the least readiness, then the least ID |
| FairnessRuns.ReservedClaimWasReadyFirst | crates/sigy-service/src/fairness.rs:85-138 | A batch job claimed on a reserved turn has the least readiness of all batch jobs, then the least deadline, then the least ID |
| FairnessRuns.ClaimedBatchWasReadyFirst | crates/sigy-service/src/fairness.rs:93-138 | A batch job claimed on any turn is first in that order within its source, and off the reserved turns nothing live waits |
| FairnessRuns.ClaimedSourceIsNext | crates/sigy-service/src/fairness.rs:110-122 | A live claim takes the least source name above the last one, or the least of all when none is above |
| FairnessRuns.FirstLiveClaim | crates/sigy-service/src/fairness.rs:110-116 | With no last source the live claim is due first of all live jobs |
| FairnessRuns.AheadByFields | crates/sigy-service/src/fairness.rs:125-138 | The jobs that the wait bounds count as ahead are those with the earlier deadline or readiness, by the fields of the jobs |
| Text.LessByFirstDifference | crates/sigy-service/src/fairness.rs:110-122 | Names are compared by the character at their first difference, and a proper prefix comes first |
| FairnessRuns.ChoiceUnique | crates/sigy-service/src/fairness.rs:60-123 | The claim rule has at most one answer, even when job IDs repeat |
| FairnessRuns.ChoiceExists | crates/sigy-service/src/fairness.rs:60-123 | The claim rule has an answer whenever something waits, proved by a scan of its own and not by the chooser |
| FairnessRuns.ChoiceIgnoresOrder | crates/sigy-service/src/fairness.rs:60-138 | With distinct IDs every permutation of the candidates gives the same claim |
| FairnessRuns.SaturatedRun | crates/sigy-service/src/fairness.rs:50-76 | From the saturated turn on, a claim takes live work exactly when no batch job waits |
| FairnessRuns.LiveBoundByRounds | crates/sigy-service/src/fairness.rs:50-123 | The live bound n(d+1) + ceil(n(d+1)/3) is never more than (d+1)(n + ceil(n/3)) |
| FairnessRuns.LiveWait | crates/sigy-service/src/fairness.rs:50-138 | In any run in which a live job stays waiting until taken, it is taken within the sharper bound counted from the cyclic distance of its source, the jobs ahead of it and the phase of the turn |
| FairnessRuns.BatchWait | crates/sigy-service/src/fairness.rs:50-91 | In any such run a batch job with k older ones is taken within 4k plus the delay to the next reserved turn plus one claims |
| FairScheduler.Scheduler.Take | crates/sigy-service/src/fairness.rs:162-168 | One claim: the unique choice, the advanced memory, and the waiting list without that job; nothing changes when nothing waits |
| FairScheduler.Scheduler.Serve | crates/sigy-service/src/fairness.rs:162-168 | Any pattern of arrivals and claims on the object yields exactly the claims of the specification run `Play` |
| FairScheduler.BatchBoundedWait | crates/sigy-service/src/fairness.rs:50-91 | From every memory, the saturated one included, and whatever live and later batch work arrives, a batch job with k older ones waiting is taken within 4(k+1) claims |
| FairScheduler.LiveBoundedWait | crates/sigy-service/src/fairness.rs:50-138 | Among at most n live source names, a live job with d earlier ones in its source is taken within n(d+1) + ceil(n(d+1)/3) claims, under any arrivals that do not order before it there, while the turn has room to count them |
| FairScheduler.SaturatedStarvation | crates/sigy-service/src/fairness.rs:50-76 | At the saturated turn, with one batch job arriving a round, a live job is not taken in any number of claims |
| FairStarvation.LiveBoundIsExact | crates/sigy-service/src/fairness.rs:50-138 | For every nonempty set of live sources, every number d of jobs ahead and every turn: the live bound holds for all waiting lists, memories and harmless arrivals exactly when turn + n(d+1) + ceil(n(d+1)/3) is at most 2^64, and otherwise some live job can be kept waiting through any number of claims |
| FairStarvation.NoRoomStarves | crates/sigy-service/src/fairness.rs:50-138 | At every turn without that room there are a waiting list with exactly d jobs ahead and a last source, from which harmless arrivals of any length, each requeueing the job claimed last, keep the job waiting, with a claim made every time and all waiting IDs distinct |
| FairStarvation.RoundPassesOver | crates/sigy-service/src/fairness.rs:50-123 | While every source has live work and a batch job waits, one claim passes the job over and again leaves fewer free turns than steps: a reserved turn takes the batch job, a free one uses up no more than one step |
| FairStarvation.DistanceFallsByOne | crates/sigy-service/src/fairness.rs:110-122 | Serving the next source around the circle brings another source one step nearer and no more |
| FairScheduler.DrainTakesEachOnce | crates/sigy-service/src/fairness.rs:162-168 | Without arrivals, and with distinct IDs, the claims are a permutation of the waiting list, from any memory |
| FairScheduler.DrainIsOrdered | crates/sigy-service/src/fairness.rs:50-138 | Without arrivals, and with distinct IDs, the jobs of each class and source come out in the order of that class, from any memory |
| FairScheduler.DrainedByFields | crates/sigy-service/src/fairness.rs:50-138 | Of two drained jobs of one class and source the first is strictly less in deadline, readiness and ID for live work, in readiness, deadline and ID for batch work |
| Hints.EditCount | crates/sigy/src/hints.rs:79-99 | The two swapped rows, filled in place, end with the edit distance of the two words |
| Hints.FillRow | crates/sigy/src/hints.rs:88-95 | The inner loop turns row i of the distance table into row i+1 and leaves the row before it alone |
| Hints.TableIsDistance | crates/sigy/src/hints.rs:85-98 | Table entry (i, k) is the distance of the prefixes of length i and k |
| EditDistance.DistanceIsShortestScript | crates/sigy/src/hints.rs:79-99 | The distance is the length of some script of single inserts, deletes and replacements at any positions that turns one word into the other, and no script is shorter |
| EditDistance.ScriptIsLongEnough | crates/sigy/src/hints.rs:79-99 | Every script that turns one word into another has at least that many edits |
| EditDistance.DistanceZero | crates/sigy/src/hints.rs:79-99 | The distance is zero exactly for equal words |
| EditDistance.DistanceSymmetric | crates/sigy/src/hints.rs:79-99 | The distance is symmetric |
| EditDistance.DistanceTriangle | crates/sigy/src/hints.rs:79-99 | The distance satisfies the triangle inequality |
| Hints.UniqueClose | crates/sigy/src/hints.rs:52-77 | A name is given exactly when the word is not listed and exactly one list entry attains the smallest distance among those at distance one or two; it is that entry |
| Hints.OnlyClosestByDistance | crates/sigy/src/hints.rs:56-76 | An entry alone is closest exactly when it is one or two edits away and every other entry is the word itself or strictly further away |
| Hints.ScanCloser | crates/sigy/src/hints.rs:66-69 | A strictly closer name becomes the best, alone and untied |
| Hints.ScanTie | crates/sigy/src/hints.rs:63-65 | An equally close name sets the tie flag, which after every prefix is right |
| Hints.ScanPast | crates/sigy/src/hints.rs:59-64 | A name that is not close, or is further away than the best, changes nothing |
| Money.FromStr | crates/sigy-core/src/money.rs:67-94 | A text is an amount exactly when it is digits, optionally with a point and one to six more digits, whose exact value in micro-units is in range; every other text is refused with the error the code gives |
| Money.FractionMicros | crates/sigy-core/src/money.rs:79-90 | The two fraction loops give the digits filled up to six places |
| Money.DisplayRoundTrip | crates/sigy-core/src/money.rs:70-105 | Parsing the display of any amount gives it back |
| Copy.CompactUsd | crates/sigy/src/copy.rs:42-55 | A text that means an amount becomes its compact form, any other text is returned unchanged |
| Copy.CompactShows | crates/sigy/src/copy.rs:37-54 | The compact form is the dollars without leading zeros, a point and two to six decimals, the last of more than two not a zero |
| Copy.CompactIsExact | crates/sigy/src/copy.rs:42-55 | The compact form without the dollar sign still parses to exactly the amount |
| Copy.CompactIsShortest | crates/sigy/src/copy.rs:39-55 | No text with at least two decimals that means the amount is shorter |
| Copy.Grouped | crates/sigy/src/copy.rs:5-17 | Deleting the commas gives the decimal of the number, and the commas stand exactly before each group of three from the right |
| Pricing.AccumulateValue | crates/sigy-core/src/pricing.rs:517-524 | Checking each step of the fold is one range check on the value of all digits |
| Pricing.ParseRate | crates/sigy-core/src/pricing.rs:101-129 | A rate text is accepted exactly when it is a decimal with a canonical whole part and at most 18 fraction digits, within the text limit, whose exact value in attodollars fits 128 bits; otherwise the error of the branch that refuses it |
| Pricing.TextLimits | crates/sigy-core/src/pricing.rs:497-507 | A price text passes the length check exactly when it has 1 to 64 bytes and no minus sign in front |
| Pricing.FromDigits | crates/sigy-core/src/pricing.rs:114-128 | Whole dollars and the fraction filled up to 18 places, refused exactly beyond 128 bits |
| Pricing.RateRoundTrip | crates/sigy-core/src/pricing.rs:101-161 | Parsing the display of any 128-bit rate gives it back |
| Pricing.DisplayOfParsed | crates/sigy-core/src/pricing.rs:101-161 | Displaying a parsed rate gives the text without its trailing fraction zeros |
| Pricing.PerMillionIsExact | crates/sigy-core/src/pricing.rs:131-141 | The per-million decimal exists exactly when the product fits 128 bits, and then parses to exactly a million times the rate |
| Pricing.WorstCaseCovers | crates/sigy-core/src/pricing.rs:278-368 | Every split of at most the bounded tokens over the billing classes costs at most the liability, and the reserve is its ceiling in micro-units |
| Pricing.WorstCaseIsAttained | crates/sigy-core/src/pricing.rs:278-368 | Some such split costs exactly the liability |
| Pricing.WorstCaseExists | crates/sigy-core/src/pricing.rs:290-368 | A liability is computed exactly when no unbounded or unrecognized dimension is priced and the dearest bill rounds to an amount in range: no intermediate overflow check refuses anything else |
| Pricing.RefusedExactly | crates/sigy-core/src/pricing.rs:290-303 | Each price that nothing bounds refuses the request under its own name, in the order image, audio, web search, unrecognized |
| Pricing.ChargeIsSum | crates/sigy-core/src/pricing.rs:204-218 | The bill that the liability covers is one request fee and the price of each class times its units |
| Pricing.DivCeilIsCeiling | crates/sigy-core/src/pricing.rs:526-531 | The rounding is the ceiling of the quotient |
| ReportedCosts.ParseCost | crates/sigy-core/src/pricing.rs:399-439 | The parser computes exactly `CostMeaning`, which is stated over the number grammar of RFC 8259 section 6 (unsigned): a text outside the limits or the grammar is refused with its error, and a number gives the ceiling of v times 10^18, the flag for a remainder, and the ceiling of v times 10^6 |
| ReportedCosts.AcceptsExactly | crates/sigy-core/src/pricing.rs:399-439 | A text is accepted exactly when it passes the length check, is an unsigned JSON number with at most six exponent digits and 36 significant digits, and its value rounded up in micro-units is in range |
| ReportedCosts.CostOf | crates/sigy-core/src/pricing.rs:415-439 | Trimming zeros, counting the scale and scaling gives the exact cost of mantissa and exponent |
| ReportedCosts.ScaleIsExact | crates/sigy-core/src/pricing.rs:459-479 | Scaling is the exact ceiling with an exact remainder flag, in both directions; the shortcuts for powers above 38 lose nothing |
| ReportedCosts.MicrosOfAtto | crates/sigy-core/src/pricing.rs:526-531 | Rounding up to attodollars and then to micro-units is rounding up once |
| ReportedCosts.ExponentRead | crates/sigy-core/src/pricing.rs:481-495 | An exponent is read as its sign and digits say, and refused as out of range exactly above six digits |
| ReportedCosts.ScientificCost | crates/sigy-core/src/pricing.rs:399-495 | For a mantissa with digits n and f decimals and exponent digits of value k, the text costs the fraction n / 10^(f+k) with a minus sign and n 10^k / 10^f with a plus or none, rounded up once in each unit with the remainder flagged, or is too precise beyond 36 significant digits |
| ReportedCosts.SmallScientificCost | crates/sigy-core/src/pricing.rs:391-400 | The text 1.5e-5 costs 15 micro-units exactly |
| ReportedCosts.NumberUnique | crates/sigy-core/src/pricing.rs:399-414 | A text is written by at most one number, so its meaning does not depend on how it is split |
| ReportedCosts.CostMeaningOf | crates/sigy-core/src/pricing.rs:399-439 | The meaning of the text of any well-formed number is its exact cost, or out of range when its exponent has more than six digits |
| ReportedCosts.WholeValueFits | crates/sigy-core/src/pricing.rs:399-439 | A number worth a whole count of attodollars in ledger range has at most 36 significant digits and fits the ledger in micro-units |
| ReportedCosts.DisplayedAmountCosts | crates/sigy-core/src/money.rs:96-105 | A displayed ledger amount, read as a reported cost, is that amount in attodollars without a remainder and the same amount in micro-units |
| Budget.LedgerSafety | crates/sigy-core/src/budget.rs:52-158 | After any requests from a new ledger: the reserved total is the sum of the open maxima, the settled total is the sum of all that was charged, both together exceed the limit by at most the overruns so far and not at all while unfrozen, it is frozen exactly when some settlement overran, and it passes `restore` unchanged |
| Budget.RunIsSafe | crates/sigy-core/src/budget.rs:108-158 | Every run keeps all that from any safe ledger, and freezing is permanent |
| Budget.RequestsAreRecorded | crates/sigy-core/src/budget.rs:108-158 | On a reachable ledger: a reservation joins the open maxima exactly when charges, open maxima and itself fit the limit; a release always drops its maximum; a settlement drops it and adds the actual amount to the charges exactly when the totals stay in 64 bits, and leaves the limit; a new limit holds exactly when it covers charges and open maxima |
| Budget.RestoreExactly | crates/sigy-core/src/budget.rs:61-79 | A stored balance is taken back, as it is, exactly when its total is in range and within the limit or frozen |
| Budget.RefusalsExactly | crates/sigy-core/src/budget.rs:129-158 | Release, settlement, limit change and restore are refused with each error exactly under its condition |
| Budget.FreezesExactlyOnOverrun | crates/sigy-core/src/budget.rs:139-149 | A reachable unfrozen ledger is frozen by a step exactly when it is a representable settlement above its maximum |
| Budget.ReserveExactlyAffordable | crates/sigy-core/src/budget.rs:99-125 | For every balance a reservation is admitted exactly when the ledger is not frozen and the amount is positive and affordable; it is refused for lack of funds exactly when the limit is positive and the sum is above it, and never for arithmetic |
| Budget.OpenCanBeReleased | crates/sigy-core/src/budget.rs:129-134 | Every open reservation of a reachable ledger can be released |
| Budget.ReleaseUndoesReserve | crates/sigy-core/src/budget.rs:108-134 | Releasing what was just reserved gives the balance back |
| Budget.BoundedRunNeverFreezes | crates/sigy-core/src/budget.rs:108-158 | A run whose settlements stay within their maxima never freezes and never commits more than the limit |
| Billing.CostWithinReserve | crates/sigy-core/src/pricing.rs:354-454 | A reported cost text of at most the liability in attodollars is, in micro-units, at most the reserve |
| Billing.ExactReportIsAccepted | crates/sigy-core/src/pricing.rs:278-454 | A text whose number equals the exact price of a usage within the bounds is accepted exactly when it passes the length check and its exponent has at most six digits: the limits on digits and range never refuse it |
| Billing.ExactReportIsCovered | crates/sigy-core/src/pricing.rs:278-454 | A text whose number equals the exact price of a usage within the bounds, within the length limits, is accepted, read as exactly that price without a remainder, and settles within the reserve |
| Billing.ReservedRequestNeverBreaches | crates/sigy-core/src/budget.rs:108-149 | In any reachable unfrozen ledger, settling a reserved liability with any reported cost up to it succeeds, does not freeze, and stays within the limit, whatever happened in between |
| Billing.DisplayedChargeSettles | crates/sigy-core/src/budget.rs:108-149 | A new ledger admits any affordable liability, and an amount up to it, displayed and reported back as text, leaves exactly that amount settled and nothing reserved |
| Providers.FromNamed | crates/sigy-service/src/providers.rs:195-235 | The slots filled in a loop read each name once into its own dimension; the first unknown, unreadable or repeated name is the error, then a missing required one |
| Providers.FieldsByName | crates/sigy-service/src/providers.rs:182-234 | Each of the ten names fills the dimension it is the name of, with the rate of its text, or zero where it is absent |
| Providers.AcceptedByName | crates/sigy-service/src/providers.rs:182-235 | A list is accepted exactly when its names are among the ten and differ, its texts are all rates, and it names the prompt and the completion price |
| Providers.SlotsLand | crates/sigy-service/src/providers.rs:215-251 | Each slot comes out of `values` at its own position, absent ones as zero |
| Providers.OrderDoesNotMatter | crates/sigy-service/src/providers.rs:195-235 | An accepted list of names reads the same in every order |
| Providers.ReadingUnique | crates/sigy-service/src/providers.rs:195-235 | A list has at most one reading |
| Providers.RatesRoundTrip | crates/sigy-service/src/providers.rs:180-251 | The ten values printed under their names and read in any order give the same rates, and nothing else can be read |
| Providers.PrintedByName | crates/sigy-service/src/providers.rs:180-251 | The stored list is the ten names, each with the display of its own dimension |
| Recognizer.Run | crates/sigy-service/src/recognizer.rs:239-262 | The walk ends for every executor and gives exactly the outcome of the specification walk, with the windows that ran |
| RecognizerVerdict.EndsByVerdict | crates/sigy-service/src/recognizer.rs:239-490 | With distinct ordinals every job ends as its answers decide: it succeeds exactly when the profile matches, something is planned and, window after window, nothing is cancelled, the page fits and the answer is good; otherwise with the failure of the first window that is not so, and without completion exactly when an envelope breaks or cue ordinals leave 32 bits |
| RecognizerVerdict.AnswerDecides | crates/sigy-service/src/recognizer.rs:308-473 | A formed window is accepted exactly when the executor gave one coverage of that segment from the start of the window to behind it and within it, cues inside, and at most one language, with a code where there are cues |
| RecognizerVerdict.OutsideNeverRuns | crates/sigy-service/src/recognizer.rs:197-209 | A window outside the first segment with its ordinal is refused and never runs |
| Recognizer.AdvanceSegment | crates/sigy-service/src/recognizer.rs:264-306 | One segment: the cursor loop stops, fails or appends exactly as the specification walk does, and terminates because an accepted window moves the cursor |
| Recognizer.Gathered.Push | crates/sigy-service/src/recognizer.rs:353-369 | A piece appends one coverage, its cues renumbered on from the last, its language, hash and accounts; it fails exactly when a cue ordinal leaves 32 bits |
| RecognizerWalk.SuccessTilesExactly | crates/sigy-service/src/recognizer.rs:239-369 | On success, whatever the executor answered, the coverages of each segment partition it from start to end in steps of at most the chunk length, coverages and cues are numbered from zero without a gap, every cue lies in the coverage that owns it, and languages belong to coverages with cues |
| RecognizerWalk.SuccessCoversEachMomentOnce | crates/sigy-service/src/recognizer.rs:239-329 | On success every moment of every segment is held by exactly one coverage of that segment |
| RecognizerWalk.SegmentTiles | crates/sigy-service/src/recognizer.rs:264-306 | A segment walked to its end appended a tiling of what was left of it |
| RecognizerWalk.PushKeepsSound | crates/sigy-service/src/recognizer.rs:308-369 | Pushing an accepted piece keeps the numbering, cue ownership and language rows in order |
| RecognizerWalk.LanguageNeedsCues | crates/sigy-service/src/recognizer.rs:437-473 | A language is only ever attached to a piece with cues |
| RecognizerWalk.SuccessPublishesTheRuns | crates/sigy-service/src/recognizer.rs:264-306 | A successful job published, for the windows that ran and in order, what the executor answered: its coverage, all of its cues with nothing but their numbers changed, and its language code exactly where it gave cues and a language |
| RecognizerWalk.SegmentHears | crates/sigy-service/src/recognizer.rs:264-369 | A segment walked to its end appended the cues and languages of its windows to what was gathered, dropping, altering and reordering none |
| RecognizerWalk.AccountsConserved | crates/sigy-service/src/recognizer.rs:371-435 | Success, executor failure, cancellation or a rejected window: the final accounts are those of every window that ran, in execution order |
| RecognizerWalk.HaltedNeverSucceeds | crates/sigy-service/src/recognizer.rs:241-306 | A walk that halts early never reports success |
| RecognizerWalk.CancelledHasCause | crates/sigy-service/src/recognizer.rs:264-306 | A job ends as cancelled only when the cancellation signal stood at the very window where it stopped, after as many windows as ran, or the last window that ran was answered as cancelled |
| RecognizerWalk.TrimReconstructs | crates/sigy-service/src/recognizer.rs:197-209 | The offset and slice of a trim give the window back, and there is no slice exactly for the whole segment |
| RecognizerWalk.FormedWindowPasses | crates/sigy-service/src/recognizer.rs:282-299 | Every window the walk forms finds its segment by its ordinal, passes the trim, and is at most one chunk long |
| DoctorView.PushWrapped | crates/sigy/src/doctor_view.rs:263-298 | The loop ends and appends exactly the wrapped form of the text |
| DoctorView.FindSplit | crates/sigy/src/doctor_view.rs:274-285 | The scan finds the last space in the room, or the end of the room |
| DoctorView.FilledToTheLastBreak | crates/sigy/src/doctor_view.rs:272-286 | A split line ends at the last space behind its first character and within its room, but for a space right behind the room, which is not seen; without one it ends where the room does |
| DoctorView.RoomOfLines | crates/sigy/src/doctor_view.rs:263-269 | The room of a line is what its lead leaves of 100 characters, and at least one |
| DoctorView.ExactFitIsLeft | crates/sigy/src/doctor_view.rs:274-286 | With room for five, the text "ab cd ef" starts with the line "ab" |
| DoctorView.LinesFitThePage | crates/sigy/src/doctor_view.rs:263-298 | With both leads shorter than 100 characters every line is at most 100 |
| DoctorView.WidthIsKept | crates/sigy/src/doctor_view.rs:263-298 | For any leads a line is at most 100 characters, or one more than its lead |
| DoctorView.WideExactly | crates/sigy/src/doctor_view.rs:263-298 | A line is wider than 100 characters exactly when its lead is, or its lead is exactly 100 and the line shows any text; a line shows none only when it is the first of an empty text, or of a text of more than one character that begins with white space |
| DoctorView.NothingVisibleIsLost | crates/sigy/src/doctor_view.rs:263-298 | Every line is its lead and a part of the text, and the parts keep every character that is not white space, in order |
| DoctorView.PartsCover | crates/sigy/src/doctor_view.rs:286-297 | The parts lie in order in the text with nothing but white space between and behind them |
| DoctorView.WordsAreKept | crates/sigy/src/doctor_view.rs:263-298 | In a text whose only white space is the space, a word (a longest run without white space) that would fit its line is broken exactly when the text is one space in front of a word as long as the room of the first line; so never in a text with no leading space |
| DoctorView.BrokenIffStuck | crates/sigy/src/doctor_view.rs:263-298 | In every text, a part breaks a word that would fit exactly when its line has no space behind its first character and its room ends inside such a word |
| DoctorView.TabBreaksAWord | crates/sigy/src/doctor_view.rs:279-285 | With a tab, a text that begins with a word has a three-letter word broken in a room of ten |
| Translation.CanonicalLanguages | crates/sigy-service/src/translation.rs:124-140 | The result is the valid list of exactly the trimmed lowercase nonempty codes, when those are acceptable, and there is none otherwise |
| Translation.AcceptedExactly | crates/sigy-service/src/translation.rs:112-140 | There is a canonical list exactly when the value names 1 to 64 codes, each of two or three lowercase letters once trimmed and lowered |
| Translation.NamesExactly | crates/sigy-service/src/translation.rs:127-133 | A piece names a code exactly when it is the letters of the code in either case with nothing but white space around them |
| Translation.CutAtComma | crates/sigy-service/src/translation.rs:128-130 | A list is cut at its commas and nowhere else |
| Translation.ValidIffCanonical | crates/sigy-service/src/translation.rs:112-140 | A list is valid exactly when it is its own canonical form |
| Translation.CanonicalDependsOnCodes | crates/sigy-service/src/translation.rs:124-140 | The result depends only on the set of codes named |
| Translation.CanonicalTwice | crates/sigy-service/src/translation.rs:124-140 | Canonicalizing twice changes nothing |
| Translation.DeclaresIsMembership | crates/sigy-service/src/translation.rs:61-65 | On a canonical list `declares` is membership in the set of codes named |
| Translation.SplitJoin | crates/sigy-service/src/translation.rs:114-137 | Splitting the joined codes gives them back |
| Archive.Parse | crates/sigy-service/src/archive.rs:108-132 | A cursor is given exactly when the token writes a valid one: three numbers within their digit limits behind the last three slashes and an ID in front |
| Archive.ParsesExactly | crates/sigy-service/src/archive.rs:90-132 | ID/REVISION/PASS/ORDINAL is a cursor exactly when the ID has 1 to 128 letters, digits or marks of the four allowed, the revision is 1 to 65, the pass at most 64 and the ordinal at most 256, and then it is the cursor of those parts |
| Archive.TokenRoundTrip | crates/sigy-service/src/archive.rs:98-132 | Parsing the token of any valid cursor gives the cursor back |
| Archive.TokenUnique | crates/sigy-service/src/archive.rs:108-132 | A token writes at most one cursor |
| Archive.AcceptedUpToZeros | crates/sigy-service/src/archive.rs:98-132 | An accepted token differs from the token of its cursor by leading zeros only |
| Archive.PrintedIffUnpadded | crates/sigy-service/src/archive.rs:98-132 | An accepted token is the one its cursor prints exactly when none of its three numbers has a leading zero in front of other digits |
| Archive.PaddedTokenAccepted | crates/sigy-service/src/archive.rs:108-132 | A token with a padded revision is accepted for a cursor that prints another token |

## Left out

- Batch rotation: reserved claims overwrite the last batch source, so batch sources
  are not visited in turn and nothing of the kind is stated.
- Reclassification of a waiting job between claims: the caller decides the class at
  claim time, and a run of `Play` keeps the class a job arrived with. `FairnessRuns.BatchWait`
  and `FairnessRuns.LiveWait` only ask that the job stays waiting as it is.
- Sorting, deduplicating and retaining in place: the library calls `sort`, `sort_by`,
  `dedup` and `retain` are functions here that return the new list.
- Recognizer.Run: hashes, sealing of task descriptions, file staging and the async
  runtime are not modelled; an executor call is one opaque answer, and a result that
  cannot be sealed or read back is its `Unsealed` or `Broken` case.
- RecognizerWalk.SuccessCoversEachMomentOnce: asks that segment ordinals be distinct.
  The walk does not test it, and where the segments come from is not part of this model.
- RecognizerVerdict.EndsByVerdict: asks for distinct segment ordinals too; what happens to a window
  of a repeated ordinal is `OutsideNeverRuns`.
- The page-size test of a list of coverages: an arbitrary predicate of the count beside
  the limit of 1024 chunks that the code checks with it.
- `language_evidence`, `language_spans` and `plan_chunks`: they restate published rows for
  other callers and take no part in the walk.
- Ranges of string and list lengths: a text of more than 2^63 bytes is not excluded
  separately, and the counts of the distance are unbounded naturals.
- Error values: an amount or rate outside its range is one error (`OutOfRange` for the
  overflow error of `pricing.rs`), and the single error of the archive cursor and of the
  language lists is the absence of a result.
- Two exits of the wrapping loop that cannot be taken (a split at zero, a tail that did
  not shrink) are assertions in `DoctorView.PushWrapped`.
- Unit bounds: the constructor's refusal of a zero completion bound is left out, and the
  liability lemmas hold for every pair of bounds.
- Hint suggestions: the walk through the command tree and its positional arguments is
  argument parsing, and the names come from the command-line library.
- Ledger storage: transactions, request rows and crash recovery around `budget.rs`.
- Provider routes, origins, models, secrets and price freshness in `providers.rs`: single
  checks of one value.
- Archive queries other than the cursor, translation jobs and profiles, the other doctor
  lines, counts and cache spans in `copy.rs`: formatting and range checks.
- Geography, schedules, capture, monitoring, backup, library layout, processing,
  delegation, local streams: floating point, the time-zone library, the file system,
  locks, processes and the network.
- JSON, command-line, panel and protocol rendering.
