# Verified models of the PLHR firmware's analysis code

The repository holds the firmware of a ground station together with the statistics that evaluate
its measurements. This project models the parts that compute something difficult and proves what
they guarantee, for inputs of any size:

- **Independence tests on equiprobable cells** (`EqualPartition`, `PartitionTheorems`, `RowOrder`,
  `Contingency`, `SampleCounts`, `L1Test`, `LikelihoodRatio`, `StatisticForms`). Samples are sorted and
  cut column by column, counted in pairs of cells, and compared with the uniform table.
- **Bootstrap of the L1 test** (`Relabelling`, `Bootstrap`, `Reshuffles`, `ThresholdRank`,
  `NullDistribution`). One sample is shuffled, and the threshold is kept in a file named after the shape
  of the data.
- **HSIC tests** (`RbfDot`, `Hsic`, `HsicSign`, `HsicTest`, `HsicFiles`). A kernel dependence measure in
  two algebraic forms, its sign, and its bootstrap with the threshold file.
- **Ionosphere intervals** (`IonosIntervals`, `CircularRuns`, `IonosTotals`, `SignificantHours`). Runs of
  significant hours on the circle of a day and the figure printed about them.
- **Monthly series** (`MonthlyBuckets`, `MonthlyMeans`, `MonthlySeries`, `DateJoin`). Bucketing by
  calendar month and the comparison of two series on their common dates.
- **UART terminal** (`LineEditor`, `TrimSpace`, `Report`). The line editor with its echo, the string
  trimmer and the formatted output that doubles its buffer.

`Sums`, `Permutations` and `StableSort` hold the mathematics that these share, `Ascii` the control
characters. Loops of the source are methods with loops, each proved equal to a function of its inputs;
the theorems are lemmas about those functions. `dafny verify dfyconfig.toml` checks the whole project.

## Conventions

- Doubles are `real`; indices, hours, rows and bins count from zero where MATLAB counts from one.
- `sort` is the stable sort that returns its permutation; `StableSortUnique` shows that this fixes it.
- `randperm` and `sort(rand(m,1))` are parameters: a run of the bootstrap is the list of permutations
  drawn. `exp` and `log` are parameters with the facts named in `ExpFacts`, `Increasing`,
  `LogBound` and `LogStrict`.
- NaN is a constructor of `Reading`. Threshold files, the UART and the heap are objects with fields.
- Keys, the answers of `malloc` and `realloc` and the results of `vsnprintf` are parameters of a call.

## Where the code differs from what its comments or layout suggest

- The offset line `[cumsum(block)-block(1) sum(block)]` is not the list of bin starts. It still tiles
  the samples, with the sizes rotated by one place; it gives the bins exactly when the number of
  samples is a multiple of the number of bins (`RebasedOffsets`, `CellsAreBinsExactlyWhen`).
- When every hour is significant the scan finds one run, joins it to itself and reports nothing
  (`TotalLengthExactlyWhen`).
- A direct change of sign does not end a run, so a maximal run can be missing; on a day without an
  insignificant hour the run around the whole circle is missing. The intervals are the maximal runs
  exactly when some hour is insignificant and there is no such change (`MaximalRunsExactlyWhen`,
  `FlipExample`, `FullDayHidesRun`).
- Hours after a direct change of sign are added to the open run with the opposite sign, and a run joined
  across midnight keeps the mean of its last part only. Hours and absolute correlations are both totalled
  rightly exactly when some hour is insignificant, there is no such change, and no run crosses midnight
  unless its two parts have the same mean (`TotalsExactlyWhen`, `FlipTotalsExample`, `WrapExample`).
- The echo of a backspace on an empty line moves the cursor when the line starts at the left margin
  (`EchoAgreesExactlyWhen`). Otherwise it blanks the last character of the prompt
  (`PromptSurvivesExactlyWhen`).
- `Report` returns -1 after a failed `realloc` but still sends the text that had fitted
  (`NonNegativeIsLength`).
- The file of the L1 bootstrap is named after L, dx and q. What shuffling can give is fixed by these and
  by the columns of Y and the level, which the name does not carry; a loaded threshold belongs to the
  columns and level of the last computation (`L1TestBoot`).
- The file of the HSIC bootstrap is named after m and dx, although its content depends on the samples. It
  fits the same rows in any order, but not all samples of its name (`FitsSameRows`, `MisfitExample`).
- `select_same_time` does not assign its output when there is no common date, and cannot store the
  values of a date that occurs twice (`SelectSameTime`).

## Model

| member | source | states |
|---|---|---|
| `StableSort.SortIndexIsStableSort` | Core/releaseCode/GreGyoL1Test.m:97 | the index output is a permutation in ascending key order, ties in original order |
| `StableSort.StableSortUnique` | Core/releaseCode/GreGyoL1Test.m:97 | that description leaves exactly one index vector, so any `sort` that meets it gives the same result |
| `StableSort.SameRanksSameSort` | Core/releaseCode/GreGyoL1Test.m:97 | `sort` depends on the order of the keys only |
| `EqualPartition.SortInPlace` | Core/releaseCode/GreGyoL1Test.m:96-106 | one segment of the index vector is sorted by column h in place, everything else is untouched |
| `EqualPartition.Round` | Core/releaseCode/GreGyoL1Test.m:90-108 | a round sorts and cuts every segment, and fails exactly when some part would have fewer than two rows |
| `EqualPartition.EqualPartition` | Core/releaseCode/GreGyoL1Test.m:83-111 | the nested in-place loops compute the round-by-round specification; which of the two errors occurs, and when |
| `EqualPartition.SplitSum` | Core/releaseCode/GreGyoL1Test.m:99-104 | the parts of a segment add up to the segment |
| `EqualPartition.SplitExactlyWhen` | Core/releaseCode/GreGyoL1Test.m:99-104 | the parts are the one list of K sizes in ascending order that differ by at most one and add up to the segment |
| `EqualPartition.SplitFirstPrefix` | Core/releaseCode/GreGyoL1Test.m:92-105 | cutting keeps every boundary that was already there |
| `PartitionTheorems.BlocksAsEqualAsPossible` | Core/releaseCode/GreGyoL1Test.m:88-111 | after every d there are K^d blocks with N rows in all, each of floor(N/K^d) rows or one more, the first of the smaller size, and exactly N mod K^d larger ones |
| `PartitionTheorems.FailsExactlyWhen` | Core/releaseCode/GreGyoL1Test.m:89-110 | the error is raised exactly when N < 2*K^dim, whatever the data |
| `PartitionTheorems.IdxIsPerm` | Core/releaseCode/GreGyoL1Test.m:86-111 | the index vector stays a permutation through every round |
| `PartitionTheorems.HierarchicalOrder` | Core/releaseCode/GreGyoL1Test.m:86-111 | order made in round h survives all later rounds: bins that first differ at base-K digit h are ordered by column h |
| `PartitionTheorems.BinsOrdered` | Core/releaseCode/GreGyoL1Test.m:86-111 | any two bins have such a first digit, and every row of the lower bin is at most every row of the higher one in that column |
| `RowOrder.RowsInOrder` | Core/releaseCode/GreGyoL1Test.m:86-111 | the whole order after every round: rows sorted together in the first n rounds stand by the column of the n-th round, ties by the column before it and so on, then by row number; the digits of their bins give n |
| `RowOrder.LabelInOrder` | Core/releaseCode/GreGyoL1Test.m:29-33 | any two positions of the index vector that the cells are cut from have such an n |
| `PartitionTheorems.RankInvariance` | Core/releaseCode/GreGyoL1Test.m:95-106 | two matrices with the same ranks in every column give the same index vector in every round |
| `PartitionTheorems.MonotoneMapKeepsRanks` | Core/releaseCode/GreGyoL1Test.m:95-106 | strictly increasing functions, one per column, keep all ranks |
| `Contingency.RebasedOffsets` | Core/releaseCode/GreGyoL1Test.m:32-33 | the offsets tile the rows into non-empty cells whose sizes are the block sizes rotated by one, each starting 0 or 1 past its bin |
| `Contingency.CellsAreBinsExactlyWhen` | Core/releaseCode/GreGyoL1Test.m:32-33 | the cells are the bins exactly when K^dim divides N |
| `Contingency.LabelTiles` | Core/releaseCode/GreGyoL1Test.m:29-33 | the index vector and offsets of any sample cut all rows into K^dim non-empty cells, with the rotated bin sizes and 0 or 1 past the bin starts |
| `Contingency.CountsConserveCell` | Core/releaseCode/GreGyoL1Test.m:38-46 | the counts of a cell over all cells of the other sample add up to its size |
| `Contingency.CountsConserveAll` | Core/releaseCode/GreGyoL1Test.m:38-46 | all counts add up to the number of samples |
| `SampleCounts.ExactlyOneCell` | Core/releaseCode/GreGyoL1Test.m:38-43 | every sample lies in exactly one cell, the one that holds its position in the index vector |
| `SampleCounts.CountIsShared` | Core/releaseCode/GreGyoL1Test.m:41-43 | entry (i, j) is the number of samples r, counted one by one, that lie in X cell i and in Y cell j |
| `SampleCounts.ZeroExactlyWhenEven` | Core/releaseCode/GreGyoL1Test.m:38-49 | the L1 statistic is zero exactly when every pair of cells shares L/(q^dx*q^dy) samples |
| `StatisticForms.L1IsTwiceSurplus` | Core/releaseCode/GreGyoL1Test.m:38-49 | the L1 statistic is twice what the overfilled pairs have above their equal share |
| `L1Test.Accumulate` | Core/releaseCode/GreGyoL1Test.m:35-49 | the double loop computes the sum of the deviations |
| `L1Test.LabelSamples` | Core/releaseCode/GreGyoL1Test.m:29-33 | partition followed by the offset line, with the condition for success |
| `L1Test.L1Test` | Core/releaseCode/GreGyoL1Test.m:20-49 | a statistic in [0, 2) is computed exactly when both partitions succeed |
| `L1Test.StatisticBounds` | Core/releaseCode/GreGyoL1Test.m:38-49 | the statistic is at least 0 and strictly below 2 for any two labellings |
| `L1Test.L1Symmetric` | Core/releaseCode/GreGyoL1Test.m:29-49 | exchanging X and Y leaves the statistic unchanged |
| `L1Test.L1RankInvariant` | Core/releaseCode/GreGyoL1Test.m:29-49 | strictly increasing changes of scale in any column of X or Y leave the statistic unchanged |
| `LikelihoodRatio.Accumulate` | Core/releaseCode/likeRatioTest.m:39-61 | the double loop that skips empty cells computes the sum of the terms |
| `LikelihoodRatio.LikeRatioTest` | Core/releaseCode/likeRatioTest.m:21-61 | a non-negative statistic is computed exactly when both partitions succeed |
| `LikelihoodRatio.StatisticNonNegative` | Core/releaseCode/likeRatioTest.m:33-61 | never negative, from log t >= 1 - 1/t and conservation of counts alone |
| `LikelihoodRatio.StatisticZeroExactlyWhen` | Core/releaseCode/likeRatioTest.m:41-61 | zero exactly when every cell has its equal share, from the strict form of the same fact |
| `StatisticForms.RatioIsSampleMean` | Core/releaseCode/likeRatioTest.m:39-61 | the statistic is twice the mean over the samples of the log of how much their own pair of cells is filled above its share; empty cells add nothing, whatever log does at 0 |
| `Relabelling.StatisticRelabelled` | Core/releaseCode/GreGyoL1TestBoot.m:78-86 | renaming the samples of both labellings changes no count and not the statistic |
| `Bootstrap.RoundIsNearest` | Core/releaseCode/GreGyoL1TestBoot.m:95 | the rank is rounded to the nearest integer, halves away from zero |
| `Bootstrap.ThresholdIsOrderStatistic` | Core/releaseCode/GreGyoL1TestBoot.m:94-95 | the threshold is the order statistic of rank round((1-alpha)*shuff) |
| `ThresholdRank.ThresholdExactlyWhen` | Core/releaseCode/GreGyoL1TestBoot.m:94-95 | for the cut (1-alpha)*shuff - 1/2: there is a threshold exactly when the cut lies in [0, shuff), and it is the one statistic with at most that many smaller and more than that many no larger |
| `Bootstrap.ThresholdFiles.Shuffle` | Core/releaseCode/GreGyoL1TestBoot.m:70-92 | the loop, which shuffles cumulatively, fills the array with the statistics of the run |
| `Reshuffles.ExactlyOneRun` | Core/releaseCode/GreGyoL1TestBoot.m:72-76 | for every list of orders there is exactly one run of draws that makes idxY take them one after the other |
| `Reshuffles.ReachableExactlyWhen` | Core/releaseCode/GreGyoL1TestBoot.m:70-92 | an array is reachable exactly when each entry, on its own, is the statistic of some order of the samples in the Y cells |
| `Bootstrap.ThresholdFiles.GetBootThresh` | Core/releaseCode/GreGyoL1TestBoot.m:53-101 | load when the file exists and is not forced, else compute and store; an index out of range stores nothing |
| `Bootstrap.NullStatsBounded` | Core/releaseCode/GreGyoL1TestBoot.m:72-95 | every reachable null statistic and every threshold lies in [0, 2) |
| `Bootstrap.TransferBijective` | Core/releaseCode/GreGyoL1TestBoot.m:72-92 | the map between the runs of two data sets is a bijection with an explicit inverse |
| `Bootstrap.SameNullStats` | Core/releaseCode/GreGyoL1TestBoot.m:53-95 | a run and its transferred run give the same array of statistics |
| `Bootstrap.ReachableByShape` | Core/releaseCode/GreGyoL1TestBoot.m:53-101 | two data sets of the same L, dx, dy and q reach exactly the same arrays of null statistics |
| `Bootstrap.FitsOneFitsAll` | Core/releaseCode/GreGyoL1TestBoot.m:62-101 | a file that fits one data set fits every data set of its shape |
| `NullDistribution.NullDistributionByShape` | Core/releaseCode/GreGyoL1TestBoot.m:53-101 | for any number of shuffles and any property of the array of null statistics, equally many runs have it on any two data sets of the same L, dx, dy and q: the distribution depends on the shape alone |
| `Bootstrap.L1TestBoot` | Core/releaseCode/GreGyoL1TestBoot.m:21-49 | over any history of the files, at any levels and with any numbers of Y columns, the threshold used is the one of the file; it is one that shuffling this very data can give when the last computation under that name had this level and number of Y columns, as a fresh one has; the outcome is an error exactly in the stated cases |
| `RbfDot.VectorisedEqualsPairwise` | Core/releaseCode/rbf_dot.m:17-35 | the vectorised squared distance equals the older pairwise one in every dimension |
| `RbfDot.DistanceFacts` | Core/releaseCode/rbf_dot.m:32-37 | the distance is non-negative, symmetric, and zero exactly for equal patterns |
| `RbfDot.KernelFacts` | Core/releaseCode/rbf_dot.m:17-26 | kernel entries lie in (0, 1], are symmetric, and are 1 exactly for equal patterns |
| `RbfDot.KernelCalibrated` | Core/releaseCode/rbf_dot.m:26 | at a distance of one kernel size the entry is exp(-1/2) |
| `RbfDot.KernelScaleInvariant` | Core/releaseCode/rbf_dot.m:17-26 | multiplying both patterns and the kernel size by one number changes no entry |
| `RbfDot.KernelGrowsWithSize` | Core/releaseCode/rbf_dot.m:26 | a larger kernel size gives a larger entry for different patterns |
| `RbfDot.PairwiseLoop` | Core/releaseCode/rbf_dot.m:32-37 | the double loop fills the matrix of the vectorised distances |
| `Hsic.CentredSumsToZero` | Core/releaseCode/hsicTestBoot.m:86-88 | every row and every column of H*K*H sums to zero, for any square K |
| `Hsic.FormsAgree` | Core/releaseCode/hsicTestGamma.m:70-80 | the statistic with both matrices centred is exactly m times the one with one centred, for any K and L |
| `Hsic.StatisticRelabelled` | Core/releaseCode/hsicTestBoot.m:86-89 | permuting rows and columns of both matrices alike leaves the statistic unchanged |
| `HsicSign.CentreOfOuter` | Core/releaseCode/hsicTestBoot.m:86-88 | H*K*H of a sum of outer products is the sum of the outer products of the centred vectors |
| `HsicSign.StatisticIsSumOfSquares` | Core/releaseCode/hsicTestBoot.m:86-89 | for K and L that are sums of outer products the statistic is 1/m^2 times the sum of the squared inner products of the centred vectors of K with the vectors of L |
| `HsicSign.StatisticNonNegative` | Core/releaseCode/hsicTestBoot.m:86-89 | so it is never negative, and zero exactly when all those inner products are |
| `HsicTest.GramReordered` | Core/releaseCode/hsicTestBoot.m:104-105 | L(indL,indL) is the Gram matrix of the reordered rows |
| `HsicTest.StatOfRelabelled` | Core/releaseCode/hsicTestBoot.m:80-89 | reordering X and Y by one permutation leaves the statistic unchanged |
| `HsicTest.SampleFormsAgree` | Core/releaseCode/hsicTestGamma.m:73-80 | the two files' statistics on any samples differ by the factor m |
| `HsicTest.StatScaleInvariant` | Core/releaseCode/hsicTestBoot.m:79-89 | a change of unit of X or of Y together with its kernel size leaves the statistic unchanged |
| `HsicFiles.TwoRowCalibrated` | Core/releaseCode/hsicTestBoot.m:79-89 | two rows of X and of Y, each one kernel size apart, give (1-exp(-1/2))^2/4 |
| `HsicFiles.ThresholdFiles.Shuffle` | Core/releaseCode/hsicTestBoot.m:101-107 | entry t of the array is the statistic of X against Y in the t-th drawn order |
| `HsicFiles.ReachesExactlyWhen` | Core/releaseCode/hsicTestBoot.m:101-107 | an array can be left by the loop exactly when each entry, on its own, is the statistic of X against some order of Y |
| `HsicFiles.ThresholdFiles.HsicTestBoot` | Core/releaseCode/hsicTestBoot.m:79-116 | over any history of the files: load when the file exists and is not forced, else compute the order statistic and store; an index out of range stores nothing; the threshold is one that shuffling the samples behind the file gives, and so one for this data when it has the same rows in any order |
| `HsicFiles.ReachesInAnyOrder` | Core/releaseCode/hsicTestBoot.m:101-107 | reordering the rows of X and the rows of Y, each in its own way, keeps the arrays of null statistics that can be reached |
| `HsicFiles.FitsSameRows` | Core/releaseCode/hsicTestBoot.m:94-116 | a stored file is as good for the same rows in any other order |
| `HsicFiles.FitsExactlyWhen` | Core/releaseCode/hsicTestBoot.m:94-116 | a file left by two rows fits other samples of two rows exactly when (1-k)(1-l) is the same for their kernel values k and l |
| `HsicFiles.MisfitExample` | Core/releaseCode/hsicTestBoot.m:94-116 | two samples with one file name such that a file left by the first is none that the second could leave |
| `HsicTest.NullMeanBounds` | Core/releaseCode/hsicTestGamma.m:90-96 | the mean under H0 lies in [0, 1/m) and is zero exactly when all kernel values of one sample are 1 |
| `HsicTest.NullMeanIsProduct` | Core/releaseCode/hsicTestGamma.m:90-96 | m times the mean under H0 is the product of the mean off-diagonal values of 1-K and 1-L, for any K and L |
| `HsicTest.NullMeanOfSamples` | Core/releaseCode/hsicTestGamma.m:73-96 | on samples of m >= 2 rows: in [0, 1/m), and zero exactly when one sample is a single point |
| `SignificantHours.GetIntervals` | Core/SR_ionos.m:101-149 | for any correlations and p-values, the reported intervals cover exactly the hours with a nonzero correlation and a p-value up to the threshold exactly when some hour is not such and none turns to the opposite sign; then each mean is the mean of the correlations over the hours up to midnight; the loop computes the specified intervals |
| `SignificantHours.CoverageExactlyWhen` | Core/SR_ionos.m:108-148 | the same after the discarding, for every day: no more hours are covered than the lengths add up to |
| `IonosIntervals.ScanCounts` | Core/SR_ionos.m:105-132 | at every hour the lengths so far are the significant hours less the direct changes of sign |
| `IonosIntervals.TotalLengthExactlyWhen` | Core/SR_ionos.m:105-150 | the lengths add up to that number exactly when some hour is insignificant; otherwise nothing is reported |
| `CircularRuns.LinearRunsAreRuns` | Core/SR_ionos.m:112-138 | without direct changes of sign the list before joining is exactly the runs of the day with their means |
| `CircularRuns.JoinsExactlyWhenWraps` | Core/SR_ionos.m:140-148 | the join happens exactly when the last and first hour are significant with one sign |
| `CircularRuns.IntervalsAreMaximalRuns` | Core/SR_ionos.m:101-150 | the reported intervals are exactly the maximal one-sign runs on the circle |
| `CircularRuns.IntervalsDisjoint` | Core/SR_ionos.m:101-150 | no two reported intervals share an hour of the circle |
| `CircularRuns.IntervalsStartAfterZero` | Core/SR_ionos.m:112-148 | whatever the signs, an interval starts at midnight or after an insignificant hour |
| `CircularRuns.MaximalRunsExactlyWhen` | Core/SR_ionos.m:101-150 | for every day, the intervals are the maximal runs exactly when some hour is insignificant and no hour follows directly on the opposite sign |
| `CircularRuns.FlipExample` | Core/SR_ionos.m:114-118 | three hours for which a maximal run is not reported |
| `CircularRuns.FullDayHidesRun` | Core/SR_ionos.m:140-148 | on every day without an insignificant hour some maximal run, possibly the whole circle, is not reported |
| `IonosTotals.AccumulateTotals` | Core/SR_ionos.m:324-332 | the loop sums the lengths and the absolute weighted means |
| `IonosTotals.TotalsExactlyWhen` | Core/SR_ionos.m:101-150 | for every day, the lengths add up to the significant hours and the values to the absolute correlations exactly when some hour is insignificant, no hour follows directly on the opposite sign, and no run crosses midnight unless its parts have equal means |
| `IonosTotals.FigureExactlyWhen` | Core/SR_ionos.m:324-333 | on days without a direct change of sign, the figure is 100 times the mean absolute correlation over significant hours exactly when no run crosses midnight or its parts have equal means |
| `IonosTotals.FlipTotalsExample` | Core/SR_ionos.m:114-118 | four hours without a run across midnight for which a change of sign makes both totals wrong |
| `IonosTotals.WrapExample` | Core/SR_ionos.m:140-148 | three hours for which the figure differs from it |
| `MonthlyBuckets.BucketPassesGuard` | Core/RelevantParameters.m:27-34 | a month's bucket never trips the same-month guard and is summarised by its date and mean |
| `MonthlyBuckets.AcceptsExactlyOneMonth` | Core/RelevantParameters.m:27-31 | the constructor accepts a vector exactly when it is not empty and all of one month and year |
| `MonthlyBuckets.KeyIsCalendarOrder` | Core/RelevantParameters.m:32 | the keys of the months are in calendar order, one per month |
| `MonthlyMeans.MeanExactlyWhen` | Core/RelevantParameters.m:34 | the mean is the one number from which the readings deviate by zero in all |
| `MonthlyMeans.MeanBetween` | Core/RelevantParameters.m:34 | it lies between any bounds of the readings |
| `MonthlyMeans.MeanReordered` | Core/RelevantParameters.m:34 | it does not depend on the order of the readings |
| `MonthlyMeans.MeansConserveReadings` | Core/ArrayRelevantParameters.m:312-335 | the means, each weighed with the number of its samples, add up to all readings |
| `MonthlyMeans.SeriesExactlyWhen` | Core/ArrayRelevantParameters.m:312-335 | being the monthly series is a property of the time and data vectors alone: one entry for each month with a reading that is not NaN, and zero total deviation of its readings from its mean |
| `MonthlySeries.AppendYear` | Core/ArrayRelevantParameters.m:323-335 | the month loop extends the series by exactly the months of one year |
| `MonthlySeries.CreateArrayDay` | Core/ArrayRelevantParameters.m:302-335 | ascending unique months, one for each month with a reading that is not NaN, each with the number from which its readings deviate by zero in all; an error exactly for vectors of different size |
| `MonthlyBuckets.MonthlyUnique` | Core/ArrayRelevantParameters.m:312-335 | there is only one such series |
| `MonthlyBuckets.BucketsConserveSamples` | Core/ArrayRelevantParameters.m:312-335 | every sample is in exactly one bucket |
| `MonthlySeries.CreateArrayHour` | Core/ArrayRelevantParameters.m:352-368 | for each of the 24 hours, that series of the readings of the hour |
| `DateJoin.IntersectFacts` | Core/ArrayRelevantParameters.m:380 | the common dates, ascending and without repetition |
| `DateJoin.SelectSameTime` | Core/ArrayRelevantParameters.m:373-388 | for any two series: the errors, exactly when they occur, and the right pair of means for every common date |
| `DateJoin.OutputIsMergeJoin` | Core/ArrayRelevantParameters.m:373-388 | on series with ascending dates the output is the merge join |
| `DateJoin.JoinMonthly` | Core/ArrayRelevantParameters.m:373-388 | two bucketed series give their date-ordered inner join whenever they share a date |
| `LineEditor.HandleKey` | Core/uart_term.c:225-260 | one key is one step of the stack editor and writes exactly its echo |
| `LineEditor.GetCmd` | Core/uart_term.c:199-268 | the buffer holds the edited text through every key; where the call ends, what it returns, what it has read and echoed, and the closing NUL |
| `LineEditor.OverflowExactlyWhen` | Core/uart_term.c:217-220 | -1 is returned exactly when the edited length reaches the buffer size before a terminator |
| `LineEditor.ReturnsExactlyWhen` | Core/uart_term.c:217-228 | the first carriage return or newline ends the line, with the edited length as the result and the later keys unread, unless the buffer filled up before it |
| `LineEditor.WaitsForLineEnd` | Core/uart_term.c:210-228 | without either key the call waits or gives up on a full buffer |
| `LineEditor.EchoAgreesExactlyWhen` | Core/uart_term.c:225-260 | the terminal shows the edited text with the cursor behind it exactly when the line started past the margin or no backspace met an empty line |
| `LineEditor.PromptSurvivesExactlyWhen` | Core/uart_term.c:225-260 | what stood left of the line stays exactly when no backspace met an empty line or its last character was blank |
| `TrimSpace.TrimFacts` | Core/uart_term.c:171-183 | only outer blanks (code 32) go, and all of them |
| `TrimSpace.TrimIdempotent` | Core/uart_term.c:157-186 | trimming twice is trimming once |
| `TrimSpace.TrimSpace` | Core/uart_term.c:157-186 | the string in the buffer becomes its trimmed form, its length is returned, bytes behind the string stay |
| `Report.Report` | Core/uart_term.c:104-146 | result and output are those of the specified run, and the heap is left as it was found |
| `Report.EndsByEighthDoubling` | Core/uart_term.c:118-141 | whatever `vsnprintf` and `realloc` do, at most eight doublings, with a size of at most 65536 |
| `Report.NonNegativeIsLength` | Core/uart_term.c:121-145 | with a C99 `vsnprintf` a non-negative result is the length of the text, all of it sent; otherwise the message is sent and then one character less than the size of the last buffer |
| `Report.SentExactlyWhen` | Core/uart_term.c:110-141 | whatever the allocator does, the text is sent exactly when it has fewer than 32768 characters and every doubling that its length calls for is granted |

## Left out

- Floating-point rounding, overflow and NaN ordering inside `sort`: numbers are exact reals.
- The `icdf` thresholds of the L1, likelihood-ratio and Gamma tests: a library function that is not part of the repository.
- The variance under H0 and the Gamma parameters of hsicTestGamma: they only feed `icdf`.
- The median heuristic for kernel sizes: the kernel size is a parameter, and it is not zero, as for a zero size the source divides by zero.
- StatisticNonNegative: the matrices are given as finite sums of outer products; that a Gaussian Gram matrix is one is a fact about `exp` that is not modelled.
- FitsExactlyWhen: the exact condition is for samples of two rows; for more rows only `FitsSameRows` is proved.
- FigureExactlyWhen: the quotient is for days without a direct change of sign; with one, `TotalsExactlyWhen` says that a total in it is wrong, though the quotient can still be right.
- EqualPartition: K is at least 1; the source has no meaning for fewer parts.
- Core/releaseCode/likeRatioTestBoot.m: the same shuffle and store code around the likelihood-ratio statistic.
- The loops over variables and modes in `get_table_interval` and the text layout of `print_table`: one column of correlations is modelled.
- The daily timetable of `create_array_day`, whose upper day is read from the data values, and the moments of RelevantParameters other than the mean.
- CreateArrayDay: times are given by their calendar fields with a month from 1 to 12; the calendar itself is not modelled.
- GetCmd: a missing key is the outcome `Waiting`; the source keeps polling.
- EchoAgreesExactlyWhen: keys are backspace and printable ASCII, on a line of unlimited width; what a terminal does with other control characters is not modelled.
- Report: the format string and its arguments appear only through what `vsnprintf` makes of them.
- Start-up, Wi-Fi, plotting, file import and project settings: glue without further logic.
