# Gapcoin mining page: a verified model of its logic

The mining page of the Gapcoin wallet (`src/qt/miningpage.cpp`) is mostly widget
wiring. Three parts of it hold real logic, and this project models them in Dafny
and proves properties about them:

- **The duration formatter** `formatTimeInterval`. It turns the expected seconds to
  the next block into text such as `2 minutes 10 seconds `. A count above the 32-bit
  unsigned range is printed as whole years. A smaller count is split greedily into
  years, months, days, hours, minutes and seconds, using the average Gregorian year
  (31556952 s) and month (a twelfth of it). Then up to three consecutive
  units are printed, starting at the first non-zero one: min(3, 6 - first) of them,
  and none when the count is zero.
- **The mining controller** `restartMining`, called by `changeNumberOfCores` (slider)
  and `switchMining` (button). It sets the mining flag and takes the requested thread
  count only if it is within `-genproclimit`. It asks the wallet to unlock before
  starting (except on Linux builds), gives up if the unlock is declined, starts or
  stops the external miner, and releases the unlock when stopping.
- **The chart refresh** `updatePlot`. It is rate-limited to once a minute. It walks
  back from the chain tip over at most 4032 blocks and fills two pairs of 4032-slot
  buffers (height and difficulty, height and network hash rate) from the last slot
  towards the first. It sets
  the horizontal range from the tip height.

It also models the integer side of `updateUI`: the next-block time
`2^256 / (target * hashrate)`, and the thousand-power scale of a hash-rate label.

Files, one module each:

| file | module | models |
|---|---|---|
| options.dfy | `Options` | the optional-value type |
| decimal.dfy | `Decimal` | decimal text of non-negative integers and its reading |
| duration.dfy | `Duration` | `formatTimeInterval` |
| duration_text.dfy | `DurationText` | the reader that inverts the formatter's entry text |
| stats.dfy | `Stats` | `formatHashrate` scale and the next-block time of `updateUI` |
| mining_control.dfy | `MiningControl` | constructor state, `restartMining`, `changeNumberOfCores`, `switchMining` |
| chain_plot.dfy | `ChainPlot` | `updatePlot` |

Modelling choices:

- Collaborators whose bodies are not part of this model become inputs or recorded
  calls:
  - The unlock dialog's answer is a `granted` parameter.
  - Whether the unlock code is compiled in (it is not on Linux) is a `guarded` parameter.
  - `clientModel->setMining`, `GenerateGapcoins` and the redraw by `updateUI` are
    recorded in order, as `Call` values.
  - The compact target after `SetCompact` is a number.
  - `GetDifficulty` and `GetNetworkHashPS(120, height)` are values that each `Block` carries.
  - The clock reads of `updatePlot` are parameters.
- The chain is a sequence of blocks, genesis first. The predecessor of `chain[k]` is
  `chain[k - 1]`, and genesis has none. The tip is looked up before anything else,
  so the chain is never empty.
- The static `lastUpdate` of `updatePlot` is a field of the plot state.

Behaviour of the code that a reader might not expect, all modelled as written:

- A declined unlock leaves `isMining` true although the miner was never started:
  the flag is set before the dialog is shown, so the next click only stops the miner
  (`MiningControl.DeclinedStartStillFlagsMining`).
- Up to three consecutive units are printed from the first non-zero one, zeros
  included: min(3, 6 - first) of them, none when the count is zero. 130 seconds
  give `2 minutes 10 seconds ` and 3600 seconds give `1 hour 0 minutes 0 seconds ` (`DurationText.FormatExample3600`).
- Each `restartMining` that reaches the miner makes one `GenerateGapcoins(fGenerate,
  pwalletMain, nUseThreads)` call with the accepted thread count, also when mining
  is off. A slider move that is not accepted leaves the old count, and `updateUI`
  then moves the slider back, which restarts a second time; that re-entrant
  restart is not modelled (see "Re-entrant signals" below).
- The thread count stays within `-genproclimit` only when the option is given. Its
  default is -1, and then no slider position is ever taken
  (`MiningControl.NegativeLimitFreezesThreads`).
- The horizontal range starts at `max(tip - 4032, 0) + 1`, so on a chain with fewer
  than 4032 blocks after genesis it starts at height 1 and the genesis sample lies
  left of it (`ChainPlot.ShortChainLeavesStaleSlots`).

The per-unit bound `Values[i] * SecondsPerUnit[i] < SecondsPerUnit[i-1]` holds of
the split, but it does not single the split out. For example, 30 days, 10 hours,
29 minutes and 6 seconds also make one average month
(`Duration.PerUnitBoundNotUnique`). Uniqueness is proved under the stronger bound
that all lower units together stay below one of the unit above (`Duration.Normalized`).

## Model

| member | source | states |
|---|---|---|
| Decimal.ToDecimal | src/qt/miningpage.cpp:51 | the printed number is canonical decimal text: digits only, non-empty, no leading zero, and it starts with '0' exactly when the number is zero |
| Decimal.ValueOfDecimal | src/qt/miningpage.cpp:72 | reading the printed decimal text of a number gives that number back |
| Decimal.DecimalOfValue | src/qt/miningpage.cpp:72 | every canonical digit text is the printed form of the number it denotes, so printing is a bijection onto canonical digit texts |
| Duration.TailIsRemainder | src/qt/miningpage.cpp:57-62 | before the loop handles unit i, the magnitudes of unit i and the units below it account for exactly the seconds left in t32 |
| Duration.DecomposeReconstructs | src/qt/miningpage.cpp:28-36 | the split into year/month/day/hour/minute/second adds back up to t; each unit below the first holds less than one of the unit above it; and all lower units together stay below one of the unit above |
| Duration.DecomposeUnique | src/qt/miningpage.cpp:57-62 | any split that adds up to t and keeps every group of lower units below one of the unit above is the one the loop computes |
| Duration.PerUnitBoundNotUnique | src/qt/miningpage.cpp:28-36 | the per-unit bound alone admits a second split of one average month (30 days 10 h 29 min 6 s), so it does not characterise the loop's result |
| Duration.Decompose | src/qt/miningpage.cpp:57-62 | the greedy loop gives one magnitude per unit, six in all; `Duration.DecomposeReconstructs` and `Duration.DecomposeUnique` state that they add back up to t and are the only normalized split |
| Duration.FirstNonZero | src/qt/miningpage.cpp:64-66 | the scan stops at the first non-zero magnitude, or after the last unit if there is none; every magnitude it skips is zero |
| Duration.EntriesAreConsecutive | src/qt/miningpage.cpp:64-73 | at most three entries are printed, min(3, 6 - first) of them; they are consecutive units starting at the first non-zero one, each with its magnitude; every earlier unit is zero; the first printed magnitude is non-zero |
| Duration.EntriesEmptyIffZero | src/qt/miningpage.cpp:64-74 | nothing is printed exactly when the count is zero, so a zero count gives the empty string |
| Duration.EntriesRoundDown | src/qt/miningpage.cpp:69-74 | the printed entries never exceed the count, and fall short of it by less than one of the last printed unit |
| Duration.Shown | src/qt/miningpage.cpp:64-73 | at most three entries; none exactly when every magnitude is zero; each entry carries its unit's magnitude; the units are consecutive; the first is the first non-zero unit, and as many follow as there are units left, up to three |
| Duration.Entries | src/qt/miningpage.cpp:57-73 | at most three entries, each carrying the magnitude of its unit in the greedy split; `Duration.EntriesEmptyIffZero` and `Duration.EntriesRoundDown` state when it is empty and how close it comes to t |
| Duration.RenderEntry | src/qt/miningpage.cpp:72 | an entry prints as its canonical decimal value, a space, the unit word and a final space, and the letter before that space is an "s" exactly when the value is not one; `DurationText.ParseRenderedEntry` and `DurationText.ParsedEntryIsRendered` make the printing invertible |
| Duration.FormatTimeInterval | src/qt/miningpage.cpp:24-76 | above 0xFFFFFFFF the text is the decimal year count followed by " years"; otherwise it is empty exactly when t is zero; `DurationText.FormatReadsBack` and `DurationText.FormatYearsOnly` state what it reads back as |
| DurationText.LookupUnitName | src/qt/miningpage.cpp:38-46 | every unit name, singular or with the plural "s", is recognised as that unit and that form, so no two printed unit words collide |
| DurationText.ParseRenderedEntry | src/qt/miningpage.cpp:71-72 | one printed entry "<value> <unit>[s] " reads back as that entry, with an "s" exactly when the value is not one and a single trailing space, leaving the following text untouched |
| DurationText.ParsedEntryIsRendered | src/qt/miningpage.cpp:71-72 | whatever the entry reader accepts is exactly the printed form of the entry it returns, followed by the rest |
| DurationText.ParseRendered | src/qt/miningpage.cpp:68-74 | the concatenated entry text reads back as exactly the list of printed entries |
| DurationText.ParsedIsRendered | src/qt/miningpage.cpp:68-74 | any text the reader accepts is the concatenated printed form of the entries it returns |
| DurationText.FormatReadsBack | src/qt/miningpage.cpp:53-75 | for counts up to 0xFFFFFFFF the formatted text reads back as exactly the entries chosen from the greedy split |
| DurationText.FormatYearsOnly | src/qt/miningpage.cpp:48-52 | above 0xFFFFFFFF the text is canonical decimal digits denoting t / 31556952 followed by " years", with no other units |
| DurationText.FormatExample130 | src/qt/miningpage.cpp:53-75 | 130 seconds format as "2 minutes 10 seconds " |
| DurationText.FormatExample3600 | src/qt/miningpage.cpp:64-74 | 3600 seconds format as "1 hour 0 minutes 0 seconds ": the zero units after the first non-zero one are still printed |
| Stats.ScaleExponent | src/qt/miningpage.cpp:83 | the scale is the floor of the base-1000 logarithm: 1000^e <= n < 1000^(e+1) |
| Stats.FormatHashrate | src/qt/miningpage.cpp:78-90 | a zero rate, and only a zero rate, gives "0 Primes/s"; any other rate is shown at the thousand-power scale that brackets it, with prefix " kMGTPEZY"[e] for scales 1 to 8 and none otherwise, before "Primes/s" |
| Stats.ExpectedSeconds | src/qt/miningpage.cpp:227-229 | the expected time is the integer quotient of 2^256 by target times hash rate: that many seconds' worth of work is at most 2^256, one more second's worth is above it |
| Stats.NextBlockTime | src/qt/miningpage.cpp:222-232 | a zero hash rate, and only that, shows the infinity sign; a zero target with a positive rate is the big-number division fault; otherwise the label is the formatted expected time |
| Stats.ExpectedSecondsAntitone | src/qt/miningpage.cpp:229 | more local hash power never lengthens the expected time to the next block |
| MiningControl.Init | src/qt/miningpage.cpp:96-112 | the page starts with the -gen flag as its mining flag, the thread count from -genproclimit when it is non-negative and the hardware count otherwise, no mining key and no unlock held; so it satisfies the unlock invariant, and with a non-negative limit the thread count is within it |
| MiningControl.RestartMining | src/qt/miningpage.cpp:241-272 | the flag becomes fGenerate. The request replaces the thread count only if it is at most maxGenProc. The unlock dialog is shown exactly when the guard is on, the page is starting, there is no mining key and no unlock is held. A declined unlock makes no further calls and holds nothing. Otherwise the calls are exactly the unlock dialog when it was needed, then the client model, the miner (with the accepted count) and the view, once each, in that order. Stopping without a key releases the unlock. A guarded start without a key reaches the miner only with an unlock held |
| MiningControl.ChangeNumberOfCores | src/qt/miningpage.cpp:274-277 | a slider move keeps the mining flag and restarts with the slider's count, which is taken under the same limit rule |
| MiningControl.SwitchMining | src/qt/miningpage.cpp:279-282 | a button click negates the mining flag and restarts with the slider's count |
| MiningControl.RestartKeepsInvariant | src/qt/miningpage.cpp:249-269 | an unlock is held only while the flag says mining and there is no mining key, and one restart keeps it so |
| MiningControl.RunKeepsInvariant | src/qt/miningpage.cpp:241-282 | any sequence of slider moves and button clicks keeps that unlock invariant and never changes the mining key or the thread limit |
| MiningControl.UnguardedNeverUnlocks | src/qt/miningpage.cpp:249-259 | where the unlock code is compiled out, no sequence of actions ever shows the unlock dialog or holds an unlock |
| MiningControl.StartThenStopReleases | src/qt/miningpage.cpp:267-269 | starting and then stopping, without a mining key, leaves no unlock held, whatever the dialog answered |
| MiningControl.DeclinedStartStillFlagsMining | src/qt/miningpage.cpp:243-257 | declining the unlock on a start leaves the flag saying mining although the miner was never called; the next click then only stops the miner |
| MiningControl.RunKeepsThreadLimit | src/qt/miningpage.cpp:244-245 | once the thread count is within a non-negative limit, no sequence of actions takes it beyond the limit |
| MiningControl.NegativeLimitFreezesThreads | src/qt/miningpage.cpp:101-105 | with the default limit of -1, no non-negative slider value is ever taken, so the thread count stays what the constructor chose |
| ChainPlot.Resize | src/qt/miningpage.cpp:314-315 | a resized buffer has the requested length, keeps its old elements where they still fit, and fills new slots with zero |
| ChainPlot.WalkBack | src/qt/miningpage.cpp:317-328 | starting at slot i and block k, each slot j <= i takes block k - i + j while that block exists; every other slot is left unchanged; and the running maximum ends at the larger of its start value and every value walked over |
| ChainPlot.Redraw | src/qt/miningpage.cpp:310-328 | after resizing to 4032 slots, slot j holds block  \|chain\| - 4032 + j whenever that block exists, and keeps the resized contents otherwise; the maximum is the largest walked value, or zero |
| ChainPlot.HeightRange | src/qt/miningpage.cpp:305-307 | the range ends at the tip height, and starts at tip - 4031 for tips of at least 4032 and at 1 for lower tips |
| ChainPlot.UpdatePlot | src/qt/miningpage.cpp:292-374 | with charts disabled, or less than 60 seconds since the last redraw, nothing changes. Otherwise both buffer pairs are refilled from the tip as above, both graphs get the height range and their window maximum, the value axis top `max + max/10` is at least zero and reaches over every value written, and the redraw time is stored |
| ChainPlot.RedrawAtMostOncePerMinute | src/qt/miningpage.cpp:299 | a refresh less than a minute after a redraw leaves the state exactly as that redraw left it |
| ChainPlot.RefreshedHeightsDescend | src/qt/miningpage.cpp:319-327 | on a chain whose heights count from genesis, the last slot holds the tip height and each slot to the left one less; exactly the rightmost min(\|chain\|, 4032) slots are written |
| ChainPlot.LongChainFillsRange | src/qt/miningpage.cpp:306-328 | for a tip of at least 4032 every slot is written and slot j holds xStart + j, so the buffer covers the horizontal range exactly |
| ChainPlot.ShortChainLeavesStaleSlots | src/qt/miningpage.cpp:314-328 | on a chain shorter than the window the slots left of the walked ones keep their previous contents, and the genesis sample at height 0 lies left of the range, which starts at 1 |

## Left out

- Widget setup, plot styling, signal and slot connections, the 8-second timer and the input validators (src/qt/miningpage.cpp:93-192): these are display wiring with no logic to state.
- Re-entrant signals: `sliderCores->setValue` inside `updateUI` (line 212) may fire `changeNumberOfCores` again (lines 274-277), so a slider move that is not accepted calls `restartMining`, and with it `GenerateGapcoins`, a second time. Qt's signal dispatch is not modelled.
- `updateSievePrimes` and the reading of the shift, sieve size and sieve primes from text fields (lines 261-263, 284-290): these use double `pow` and Qt text parsing, and their results only go to the external miner.
- The status line of `updateUI` (lines 234-238): it formats the double `dTestsPerSec` and the sieve parameters. The shown hash-rate labels are modelled only through `Stats.FormatHashrate`.
- `CBigNum::SetCompact`, `GetDifficulty`, `GetNetworkHashPS`, `GenerateGapcoins`, `requestUnlock` and `clientModel->setMining` are outside this model. They are inputs or recorded calls, as described above.
- `setModel`, `setClientModel`, the destructor and `timerEvent`: each only stores a pointer or calls `updateUI`.
- `src/qt/notarypage.h`: it declares the notary page, whose bodies are not part of this model.
- Stats.FormatHashrate: the mantissa `n * 1000^-i`, printed as a float with two decimals, is not modelled. Only the zero case, the scale and the unit text are.
- Stats.ScaleExponent: this is the exact integer floor of the base-1000 logarithm. The source computes `floor(log(n)/log(1000))` in double precision, which can differ from it by one just below a power of 1000: for n = 10^15 - 1 it gives 5 where the exact floor is 4, and for 10^18 - 1 it gives 6.
- Stats.NextBlockTime: negative hash rates and negative compact targets are not modelled (the inputs are `nat`), since the miner's rate counter is never negative.
- ChainPlot.Redraw: difficulty and network hash rate are `real`, not `double`. The value-axis top, `max + max/10`, is computed in exact real arithmetic, without double rounding; `ChainPlot.UpdatePlot` states that it covers every value written.
- ChainPlot.UpdatePlot: the buffers hold heights as `int`, whereas the source stores them as `double`. The two agree for every height below 2^53. The unused `count` parameter is dropped.
- Integer widths: thread counts, heights and times are unbounded integers. The source's `int` and `int64_t` cannot overflow for the values involved. The count passed to `formatTimeInterval` is converted to 32 bits only when it fits, so the conversion is exact.
