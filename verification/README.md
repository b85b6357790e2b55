# Verified model of the two jitter buffers

This project models, in Dafny, the two jitter buffers of the video-call system and the signal and
arithmetic kernels under them, and proves what they promise over every input and every run.

- **NetEq** (`neteq`), the audio jitter buffer: an ordered packet buffer, a Q30 delay histogram, a
  delay manager, a level filter, two time stretchers, a concealer, and the 10 ms tick that ties them
  together.
- **The video jitter buffer** (`videocall-codecs`): a sorted buffer of frames that hands the decoder
  only frames it can decode, whatever is reordered, lost, repeated or restarted.

Objects whose methods update fields are classes; each method is proved against a pure step function
or relation of the old state, and the theorems over whole runs are proved about those. Times and
noise are parameters, samples and levels are `real`, the histogram is exact integer arithmetic.

| file | what it holds |
|---|---|
| `Signal.dfy` | correlation search and crossfade |
| `LowEnergy.dfy` | the peak-stack search for the longest low-energy region |
| `TimeStretch.dfy`, `PreemptiveExpand.dfy`, `Expand.dfy` | accelerate, preemptive expand, concealment |
| `JitterEstimator.dfy`, `VideoJitterBuffer.dfy` | jitter estimate; step functions and class of the video buffer |
| `VideoRuns.dfy`, `VideoReordering.dfy` | runs of the video buffer; independence of arrival order |
| `Histogram.dfy`, `DelayManager.dfy`, `DelayRuns.dfy`, `BufferLevelFilter.dfy` | target delay, its runs, and level |
| `PacketBuffer.dfy`, `PacketRuns.dfy` | packet buffer; its runs |
| `NetEqModel.dfy`, `NetEqRuns.dfy`, `NetEq.dfy`, `NetEqFeeding.dfy` | one tick as a transition; runs of ticks; the class that refines them; runs of inserts, ticks and flushes |
| `Options.dfy`, `Numbers.dfy` | shared types and arithmetic |

Results worth reading first: `LowEnergy.LongestLowEnergyRegion`, `VideoRuns.DecodedFramesHaveTheirReferences`,
`VideoReordering.OrderDoesNotMatter`, `Histograms.RunsKeepMass`, `Histograms.NewestWeighsMostIff`,
`NetEqRuns.StretchBlocksAreExact`, `NetEqFeeding.GuaranteedStreamIsAccounted`, `PacketRuns.RunsConservePackets`,
`DelayRuns.RunsAreLogged`.

Where the code and its comments or expectations part ways, the model follows the code:

- A keyframe that triggers the stream-restart flush is itself not inserted
  (`videocall-codecs/src/jitter_buffer.rs:101-119`), although the comment there speaks of decoding from it;
  nothing is decoded until another keyframe arrives (`VideoRuns.RestartWaitsForKeyframe`).
- The duplicate test of the packet buffer looks only next to the insert position; a duplicate hidden
  behind another packet of the same timestamp is missed (`PacketBuffers.HiddenDuplicateIsMissed`). It is
  exact for every packet if and only if packets of the buffer with equal timestamps have equal headers
  (`PacketBuffers.DuplicateTestExactIff`).
- `FastAccelerate` can be decided with one and a half frames of audio although it asks for two; the
  missing part is filled with silence, some of which may go back into the queue
  (`NetEqRuns.FastAccelerateCanFallShort`, exact condition in `NetEqRuns.DecidedOnlyWithEnough`).
- With several channels an accelerate compares its request per channel with the audio of all channels
  but then asks for that much of every channel. In stereo it has its audio only from 9 frames on (12 for
  fast accelerate); below that silence is stretched in and put back into the queue
  (`NetEqRuns.ManyChannelsEnoughIff`, `NetEqRuns.StereoNeeds`, `NetEqRuns.StereoQueueTurnsSilent`).
- The assertion that the newest histogram sample weighs at least as much as older ones fails for small
  start weights (`Histograms.SmallStartWeightFails`). It always holds if and only if the base factor is at
  most one half, or the weight exceeds 1 - 2^-16, or it exceeds 1 - 2^-15 and the base is at most 21845
  (`Histograms.NewestWeighsMostIff`); the default 2.0 is fine.
- After an arrival the resample instant is less than one interval old if and only if it was less than
  2^32 ms old before, because the elapsed time is cast to 32 bits (`DelayManagement.CloseAfterIff`, over
  runs `DelayManagement.GridIsCloseIff`, on the arrival times alone `DelayManagement.AlwaysCloseIff`, a
  failing input `DelayManagement.LongGapIsNotClose`).
- Until the first delay is registered the histogram is all zero, so every update sets the target to 2000 ms,
  clamped to the bounds, and not to the 80 ms of the start (`DelayManagement.UntrainedTargetIsLongest`).
- Below 1100 Hz a preemptive expand subtracts the overlap from a shorter length; the model ticks on at every
  rate and reports exactly that operation as failed (`NetEqs.NetEq.GetAudio`).
- A flush of NetEq restarts the level filter from the stretched samples that were still waiting, although
  it drops them (`NetEqs.NetEq.Flush`).
- A reset histogram sums to exactly 2^30 if and only if it has at least 14 buckets
  (`Histograms.ResetIsFullIff`).

## Model

| member | source | states |
|---|---|---|
| `Signal.BestNormalizedCorrelation` | neteq/src/signal.rs:21-56 | The sliding-window search returns what a brute-force search over all windows returns: the first window whose correlation over energy is greatest, and that value |
| `Signal.CorrelationRange` | neteq/src/signal.rs:21-56 | Correlation over energy of any two windows lies in [-1, 1] and is 1 exactly when the windows are equal sample for sample |
| `Signal.LouderCopyCorrelation` | neteq/src/signal.rs:21-56 | A copy g times as loud correlates as exactly 1 / g: loudness differences count against a match |
| `Signal.BestRange` | neteq/src/signal.rs:21-56 | The best value lies in [-1, 1]; it is 1 exactly when some pair of aligned windows is equal, and then the returned pair is |
| `Signal.FadeIsConvex` | neteq/src/signal.rs:60-71 | Every faded sample lies between its two sources, and the first equals the old signal |
| `Signal.FadeIsLinear` | neteq/src/signal.rs:60-71 | Each sample moves exactly 1 / length of the way further, and the last is that far from the new signal |
| `Signal.FadeSelf` | neteq/src/signal.rs:60-71 | Fading a window into itself is the identity |
| `Signal.Crossfade` | neteq/src/signal.rs:60-71 | Writes head and fade into the output slice and leaves the rest of the output alone |
| `LowEnergy.LongestLowEnergyRegion` | neteq/src/time_stretch.rs:237-299 | For a validator closed under moving the start earlier: a valid region of mean energy at most the threshold, no valid such region is longer (nor as long and later), length 0 only if there is none; for any validator: the best among regions that start at a peak |
| `LowEnergy.PeaksSuffice` | neteq/src/time_stretch.rs:258-267 | The argument of the stack: with a start-closed validator every low region is covered by one at least as long that starts at a peak of the rolling sum |
| `LowEnergy.PeakStack` | neteq/src/time_stretch.rs:258-267 | The stack lists exactly the indices whose rolling sum exceeds all earlier ones, in increasing order |
| `LowEnergy.ScanEnd` | neteq/src/time_stretch.rs:280-295 | For one end, walking and cutting the stack accounts for every peak start, and no cut peak can start a longer region that ends earlier |
| `LowEnergy.ReverseScan` | neteq/src/time_stretch.rs:269-298 | The reverse scan with its early exits accounts for every peak start and every end |
| `LowEnergy.LongestIsUnique` | neteq/src/time_stretch.rs:237-299 | The specification has one answer, so it fixes the result completely |
| `LowEnergy.LongestIff` | neteq/src/time_stretch.rs:258-299 | For any validator the result is the longest region if and only if every valid low region is matched by one at a peak that is not worse |
| `LowEnergy.OpenValidatorMisses` | neteq/src/time_stretch.rs:237-299 | Without closure the search can return nothing although a valid region exists |
| `TimeStretch.FitsOutputIsStartClosed` | neteq/src/time_stretch.rs:184-190 | The validator that accelerate really passes has the closure the optimality proof needs |
| `TimeStretch.Accelerate.constructor` | neteq/src/time_stretch.rs:56-70 | Overlap of 3 ms but at least 32 samples, energy threshold 0.0001 |
| `TimeStretch.OverlapIsThreeMilliseconds` | neteq/src/time_stretch.rs:67-70 | The overlap is 3 ms of whole samples, 32 samples at low rates |
| `TimeStretch.Accelerate.FindLowEnergyToRemove` | neteq/src/time_stretch.rs:176-207 | The removal comes from the longest low-energy region, shorter by one overlap and capped; 0 if less than one overlap; the threshold moves down when regions are long and up when they are short |
| `TimeStretch.FindBestRemovalPoint` | neteq/src/time_stretch.rs:214-235 | The first quietest of the scan positions, or a third into the input if all are too loud to count |
| `TimeStretch.ScanVisits` | neteq/src/time_stretch.rs:219-224 | The scan visits exactly every half overlap from one overlap on |
| `TimeStretch.MeanTimesLength` | neteq/src/time_stretch.rs:209-212 | The energy of a stretch is its mean energy times its length |
| `TimeStretch.LoudInputIsCutAtAThird` | neteq/src/time_stretch.rs:215-216 | If every stretch is too loud to count the removal starts a third into the input |
| `TimeStretch.Accelerate.ChooseRemoval` | neteq/src/time_stretch.rs:93-126 | Which removal is taken in normal and fast mode, with overlap <= s <= output / 2 and everything inside the input |
| `TimeStretch.Accelerate.Process` | neteq/src/time_stretch.rs:73-162 | Never out of range; the output is a verbatim prefix, or input[..p], one crossfade of overlap length and input[p+s+overlap..output+s], and output + s samples are used |
| `TimeStretch.CutSamples` | neteq/src/time_stretch.rs:140-153 | A cut sample by sample: the input before the seam, the input s samples later after it, the blend of the two in it |
| `TimeStretch.PeriodicCutIsExact` | neteq/src/time_stretch.rs:140-153 | When the audio repeats after s samples the seam vanishes and exactly those samples are gone |
| `TimeStretch.SilentInputIsCut` | neteq/src/time_stretch.rs:93-115 | Silence always loses a fifth of the output, two fifths in fast mode, within the spare input and an overlap at least |
| `TimeStretch.FastModeAlwaysCuts` | neteq/src/time_stretch.rs:98-126 | Fast mode always removes a quarter of the output, within the spare input and an overlap at least, or more if it is quiet |
| `TimeStretch.ThresholdAdapts` | neteq/src/time_stretch.rs:192-198 | The threshold falls by 0.5 percent when the longest region exceeds the limit, rises by 0.2 when it is under half, else stays |
| `TimeStretch.NormalModeCutsIff` | neteq/src/time_stretch.rs:105-115 | Normal mode cuts if and only if a valid low-energy region of at least two overlaps exists |
| `TimeStretch.HalfMoreInputIsInRange` | neteq/src/time_stretch.rs:164-174 | Input of one and a half times the output is always in range |
| `PreemptiveStretch.FindBestLag` | neteq/src/time_stretch.rs:376-391 | The first lag and window with the greatest correlation over all lags and windows |
| `PreemptiveStretch.LagsAre` | neteq/src/time_stretch.rs:364-385 | Which lags and windows are searched, in sizes |
| `PreemptiveStretch.PreemptiveExpand.Process` | neteq/src/time_stretch.rs:347-428 | Never out of range; the output is a verbatim prefix, or one lag repeated with a blended seam and output minus lag samples used; the correlation threshold stays in (0, 0.99] |
| `PreemptiveStretch.StretchesIff` | neteq/src/time_stretch.rs:393-402 | A lag is repeated if and only if some window pair reaches the threshold |
| `PreemptiveStretch.PerfectLagWindows` | neteq/src/time_stretch.rs:380-385 | Correlation 1 at a lag means exactly that the two windows are equal |
| `PreemptiveStretch.PerfectLagIsExactRepeat` | neteq/src/time_stretch.rs:404-421 | With correlation 1 the crossfade changes nothing: the output is an exact repeat splice |
| `PreemptiveStretch.RepeatSamples` | neteq/src/time_stretch.rs:406-419 | A repeat sample by sample: the input before the seam, the input one lag earlier after it, the blend of the two in it |
| `PreemptiveStretch.ThresholdStep` | neteq/src/time_stretch.rs:393-402 | A miss lowers the threshold by 2 percent, a hit raises it to 95 percent of the correlation if that is more |
| `PreemptiveStretch.MissesLowerTheThreshold` | neteq/src/time_stretch.rs:393-402 | After n misses in a row it is 0.98^n of what it was |
| `Expansion.Expander.Process` | neteq/src/expand.rs:69-114 | Success exactly when input and output cover the overlap; then noise with the fade of the phase and exactly the required samples used, else a copied prefix |
| `Expansion.ConcealmentIsContinuous` | neteq/src/expand.rs:88-109 | A start begins on the audio's own sample and an end begins its fade from the noise |
| `Expansion.ConcealedSamples` | neteq/src/expand.rs:83-109 | Concealment sample by sample: noise outside the seam, a blend from the audio or into it inside |
| `Expansion.EndMeetsTheAudio` | neteq/src/expand.rs:98-109 | The last sample of an end is one overlap-th of the way from the audio that follows |
| `JitterEstimation.JitterEstimator.UpdateEstimate` | videocall-codecs/src/jitter_estimator.rs:53-81 | Refines the update of section 6.4.1 of RFC 3550; late and repeated frames change nothing |
| `JitterEstimation.JitterStaysBounded` | videocall-codecs/src/jitter_estimator.rs:53-81 | Over every run the jitter stays in [0, M] if every transit difference taken in is at most M |
| `JitterEstimation.JitterConverges` | videocall-codecs/src/jitter_estimator.rs:62-80 | A constant transit difference D against 30 frames a second is approached by exactly 15/16 per frame; frames on time let the jitter decay |
| `JitterEstimation.LateFramesAreIgnored` | videocall-codecs/src/jitter_estimator.rs:62-66 | A late or repeated frame changes nothing |
| `JitterEstimation.FirstFrameStarts` | videocall-codecs/src/jitter_estimator.rs:54-59 | The first frame only sets the reference for the next |
| `VideoJitterBuffer.FirstKeyframe` | videocall-codecs/src/jitter_buffer.rs:187-215 | The lowest buffered keyframe from a given number on, none exactly if there is none |
| `VideoJitterBuffer.JitterBuffer.FindKeyframe` | videocall-codecs/src/jitter_buffer.rs:187-215 | The search over the buffered frames finds that keyframe |
| `VideoJitterBuffer.JitterBuffer.InsertFrame` | videocall-codecs/src/jitter_buffer.rs:90-147 | Whole new state and frames decoded: old frames, restart flush, old-frame limit, full buffer, acceptance |
| `VideoRuns.FlushesIff` | videocall-codecs/src/jitter_buffer.rs:96-121 | An insert flushes if and only if the frame is old and either a keyframe over 30 numbers back or the 301st old one in a row |
| `VideoRuns.AcceptsIff` | videocall-codecs/src/jitter_buffer.rs:96-136 | It accepts if and only if the frame is beyond the last decoded one and not a delta frame meeting 200 frames |
| `VideoRuns.FlushLeaves` | videocall-codecs/src/jitter_buffer.rs:302-308 | A flush leaves nothing but the playout delay and the count of dropped frames |
| `VideoJitterBuffer.JitterBuffer.FindAndMoveContinuousFrames` | videocall-codecs/src/jitter_buffer.rs:165-263 | The release loop ends and does what the recursive definition of a poll says; what that is, the next rows and those on runs say |
| `VideoRuns.SeeksTheStart` | videocall-codecs/src/jitter_buffer.rs:178-215 | The buffer seeks the next frame in sequence, or past a gap (or at the start) the lowest keyframe |
| `VideoRuns.ReadyFrameIsDecoded` | videocall-codecs/src/jitter_buffer.rs:178-246 | A frame that may start and has waited long enough is decoded at once: a lost frame does not stop the stream |
| `VideoRuns.NothingIsLeftReady` | videocall-codecs/src/jitter_buffer.rs:175-258 | After any poll no frame that may start has waited long enough |
| `VideoJitterBuffer.JitterBuffer.UpdateTargetPlayoutDelay` | videocall-codecs/src/jitter_buffer.rs:150-162 | The new delay is the smoothed, clamped multiple of the jitter |
| `VideoRuns.DelayFollowsJitter` | videocall-codecs/src/jitter_buffer.rs:150-162 | After k updates at constant jitter exactly 0.99^k of the distance to three times the jitter, limited to [10, 500] ms, is left |
| `VideoRuns.AcceptedFrameMovesDelay` | videocall-codecs/src/jitter_buffer.rs:140-162 | Every accepted frame moves the delay one percent of the way to the goal for the jitter it has just updated |
| `VideoJitterBuffer.JitterBuffer.DropFramesBefore` | videocall-codecs/src/jitter_buffer.rs:278-291 | Exactly the lower-numbered frames go, each counted |
| `VideoJitterBuffer.JitterBuffer.DropAllFrames` | videocall-codecs/src/jitter_buffer.rs:294-299 | Everything goes and is counted; the rest of the state stays |
| `VideoJitterBuffer.JitterBuffer.Flush` | videocall-codecs/src/jitter_buffer.rs:302-308 | Empty, waiting for a keyframe, estimate and old-frame count restarted, delay kept |
| `VideoRuns.RunsAreDecodable` | videocall-codecs/src/jitter_buffer.rs:90-263 | Over every run of inserts, polls, drops and flushes, the frames decoded between two flushes strictly increase and every delta frame directly follows its predecessor; all buffered keys exceed the last decoded number |
| `VideoRuns.ChainToKeyframe` | videocall-codecs/src/jitter_buffer.rs:178-246 | In such an epoch every frame has an unbroken consecutive chain back to a decoded keyframe |
| `VideoRuns.DecodedFramesHaveTheirReferences` | videocall-codecs/src/jitter_buffer.rs:90-263 | Every frame decoded in any run: its epoch starts with a keyframe and it has its chain |
| `VideoRuns.PollIsFixpoint` | videocall-codecs/src/jitter_buffer.rs:175-258 | Polling again at the same time decodes nothing and changes nothing |
| `VideoRuns.PollCounts` | videocall-codecs/src/jitter_buffer.rs:175-258 | A poll only moves frames out: each is decoded or counted as dropped, the remaining ones are untouched |
| `VideoRuns.FramesAreConserved` | videocall-codecs/src/jitter_buffer.rs:96-308 | Over every run accepted = decoded + dropped count + buffered + overwritten, at most 200 frames are buffered, the delay stays in [10, 500] ms, the old-frame count within 300 |
| `VideoRuns.NothingIsInvented` | videocall-codecs/src/jitter_buffer.rs:143-146 | Every buffered or decoded frame was inserted, with its own arrival time |
| `VideoRuns.OldFramesAreCounted` | videocall-codecs/src/jitter_buffer.rs:96-121 | Without a flush the counter equals the number of old inserts and stays within its limit |
| `VideoRuns.OldFramesForceFlush` | videocall-codecs/src/jitter_buffer.rs:96-121 | Any 301 old inserts in a row, with or without polls between them, force a flush |
| `VideoRuns.SmoothedDelayInRange` | videocall-codecs/src/jitter_buffer.rs:150-162 | The playout delay stays in [10, 500] ms for every jitter |
| `VideoRuns.RunJitterIsBounded` | videocall-codecs/src/jitter_buffer.rs:140-141 | Over every run of the buffer, flushes included, the jitter stays in [0, M] if the transit differences of accepted frames are at most M |
| `VideoRuns.DarkUntilKeyframe` | videocall-codecs/src/jitter_buffer.rs:202-215 | A buffer that has decoded nothing and holds no keyframe decodes nothing, whatever else happens, until a keyframe arrives |
| `VideoRuns.RestartWaitsForKeyframe` | videocall-codecs/src/jitter_buffer.rs:98-107 | After the flush of a stream restart nothing is decoded until another keyframe arrives |
| `VideoReordering.StepClock` | videocall-codecs/src/jitter_buffer.rs:90-308 | Every call, flush and drop included, keeps all stored times at or before the clock |
| `VideoReordering.ClockNeverUnderflows` | videocall-codecs/src/jitter_buffer.rs:219 | At every insert and poll of every run with nondecreasing times, no unsigned time difference underflows |
| `VideoReordering.FreshAndFlushedAreIdle` | videocall-codecs/src/jitter_buffer.rs:302-308 | A fresh buffer and any flushed buffer are the starting points of the next result |
| `VideoReordering.DrainsInOrder` | videocall-codecs/src/jitter_buffer.rs:175-258 | A poll of a complete, ready stretch of frames sends exactly that stretch in sequence order and empties the buffer |
| `VideoReordering.OrderDoesNotMatter` | videocall-codecs/src/jitter_buffer.rs:123-258 | From a fresh or flushed buffer, a burst of frames of a consecutive stream that starts with a keyframe, in any order with any repeats, within less than 10 ms and polled 500 ms later, decodes to exactly the stream in sequence order if and only if as many different frames wait at the end as the stream has (a fold over the arrivals: a full buffer rejects delta frames and is cleared by a keyframe) |
| `VideoReordering.AnyOrderDecodes` | videocall-codecs/src/jitter_buffer.rs:123-258 | In particular any permutation of at most 200 frames, and any burst with repeats of fewer |
| `VideoReordering.CompleteBurstsWait` | videocall-codecs/src/jitter_buffer.rs:126-144 | Those bursts all wait completely |
| `VideoReordering.KeyframeClearsFullBuffer` | videocall-codecs/src/jitter_buffer.rs:126-136 | A keyframe that meets a full buffer drops all 200 waiting frames and is stored alone |
| `Histograms.Histogram.constructor` | neteq/src/histogram.rs:36-58 | All buckets zero, forget factor 0, base factor rounded to Q15 |
| `Histograms.Histogram.Add` | neteq/src/histogram.rs:61-124 | Refines forget, add, correct and ramp, and keeps the class invariant: nonnegative, each at most 2^30, sum exactly 2^30 from the first observation on |
| `Histograms.DeficitIsSmall` | neteq/src/histogram.rs:63-80 | Before the correction the sum is short of 2^30 by at least 0 and less than the bucket count |
| `Histograms.CorrectionSuffices` | neteq/src/histogram.rs:82-94 | For up to 2^25 buckets the one-sixteenth correction always absorbs such a deficit completely, raising each bucket by less than the bucket count |
| `Histograms.MassIsExact` | neteq/src/histogram.rs:61-94 | One observation yields nonnegative buckets within i32 that sum to exactly 2^30 |
| `Histograms.TruncationIsSmall` | neteq/src/histogram.rs:66-80 | Each bucket before the correction is the rounding-free value truncated by less than one unit |
| `Histograms.CorrectionIsSmall` | neteq/src/histogram.rs:82-94 | The correction never lowers a bucket and raises it by less than the bucket count |
| `Histograms.RunsKeepMass` | neteq/src/histogram.rs:61-94 | Over every run of observations, with any start weight or none, the sum is exactly 2^30 |
| `Histograms.ForgetNeverDecreases` | neteq/src/histogram.rs:98-123 | Between resets the forget factor never decreases and never exceeds its base, for every start weight or none |
| `Histograms.ForgetApproachesBase` | neteq/src/histogram.rs:119-123 | Without a start weight it strictly grows until it is the base, then stays |
| `Histograms.ForgetLeavesThreeQuarters` | neteq/src/histogram.rs:119-123 | Each observation leaves exactly three quarters of the distance to the base, rounded down |
| `Histograms.ForgetReachesBase` | neteq/src/histogram.rs:119-123 | After n observations it is at most base - n away, so it is the base after at most `base` observations |
| `Histograms.NewestWeighsMostIff` | neteq/src/histogram.rs:97-118 | Exactly when the Q15 inequality "newest weighs at least as much as older" holds after every observation, despite rounding, clamping and a saturating counter: base at most one half, or start weight above 1 - 2^-16, or above 1 - 2^-15 with a base of at most 21845 |
| `Histograms.RampBounds` | neteq/src/histogram.rs:105-108 | The new sample's weight after n observations is the start weight over n + 1, rounded to the nearest 2^-15 |
| `Histograms.NewestAlwaysWeighsMost` | neteq/src/histogram.rs:97-118 | In particular for every base with the default start weight 2.0 and any above 1 - 2^-16 |
| `Histograms.SmallBaseIsSafe` | neteq/src/histogram.rs:97-118 | With a base of at most one half it holds for every start weight |
| `Histograms.BandIsSafe` | neteq/src/histogram.rs:97-118 | Between 1 - 2^-15 and 1 - 2^-16 a base of at most 21845 stops the ramp just in time |
| `Histograms.SmallStartWeightFails` | neteq/src/histogram.rs:114-117 | With start weight 0.5 the inequality fails on the first observation, with 1 - 2^-16 on the second |
| `Histograms.FirstObservationIff` | neteq/src/histogram.rs:100-118 | On the first observation it holds if and only if the base is at most one half or the weight exceeds 1 - 2^-15 |
| `Histograms.Histogram.Quantile` | neteq/src/histogram.rs:128-152 | The smallest index whose cumulative mass reaches the probability in Q30, or the last bucket; reached for certain after an observation |
| `Histograms.ToQ30IsNearest` | neteq/src/histogram.rs:175-178 | The probability in Q30 is the nearest one |
| `Histograms.RoundIsNearest` | neteq/src/histogram.rs:175-178 | Rounding is to the nearest integer, halves away from zero |
| `Histograms.QuantileIsReached` | neteq/src/histogram.rs:128-152 | With full mass the probability is always reached |
| `Histograms.QuantileIsMonotone` | neteq/src/histogram.rs:128-152 | The quantile is unique and monotone in the probability |
| `Histograms.Histogram.Reset` | neteq/src/histogram.rs:156-167 | Halving distribution, forget factor and counter restarted |
| `Histograms.HalvedIsPower` | neteq/src/histogram.rs:156-167 | From the second bucket on each holds an exact power of one half, down to nothing |
| `Histograms.ResetIsFullIff` | neteq/src/histogram.rs:156-167 | The reset distribution sums to exactly 2^30 if and only if there are at least 14 buckets |
| `PacketBuffers.FindInsertPosition` | neteq/src/buffer.rs:322-337 | The binary search returns the upper bound: at or below before it, strictly above from it on |
| `PacketBuffers.ProbesSeeOnePacket` | neteq/src/buffer.rs:339-361 | The three probes amount to looking at the packet just before the insert position |
| `PacketBuffers.DuplicateTestExactIff` | neteq/src/buffer.rs:339-361 | For a sorted buffer the probes agree with a full search for every packet if and only if equal timestamps in the buffer mean equal headers |
| `PacketBuffers.DuplicateTestIsFullSearch` | neteq/src/buffer.rs:339-361 | When equal timestamps imply equal headers the test is a full search, and finds every equal timestamp |
| `PacketBuffers.HiddenDuplicateIsMissed` | neteq/src/buffer.rs:339-361 | A concrete family of missed duplicates |
| `PacketBuffers.KeepCountIsShortest` | neteq/src/buffer.rs:131-144 | A partial flush keeps the shortest nonempty suffix that reaches the target duration, or everything |
| `PacketBuffers.NewestIsSuffix` | neteq/src/buffer.rs:131-144 | The duration counted backwards is the total duration of that suffix |
| `PacketBuffers.PacketBuffer.PartialFlush` | neteq/src/buffer.rs:120-159 | The loop keeps exactly that suffix and counts each removed packet |
| `PacketBuffers.PacketBuffer.Flush` | neteq/src/buffer.rs:109-117 | Empties the buffer without counting discards |
| `PacketBuffers.InsertConserves` | neteq/src/buffer.rs:162-232 | An insert loses and invents nothing: old packets + new one = held + discarded + flushed, as multisets |
| `PacketBuffers.InsertKeepsOrder` | neteq/src/buffer.rs:162-232 | An insert keeps the buffer sorted and within capacity, and strictly sorted under consistent headers |
| `PacketBuffers.NewestIsAppended` | neteq/src/buffer.rs:162-232 | A packet newer than all held ones, with nothing stale and room left, goes to the end and changes nothing else |
| `PacketBuffers.PacketBuffer.InsertPacket` | neteq/src/buffer.rs:162-232 | Refines stale removal, smart flush, overflow flush, duplicate test and insertion; the discard counter grows by exactly the discarded packets |
| `PacketBuffers.ReorderedPacketIsKept` | neteq/src/buffer.rs:162-232 | A packet that is no duplicate is kept wherever it belongs, reordered or not, and nothing else changes, while no packet is too old, the span within limits and room left |
| `PacketBuffers.YoungPacketsStay` | neteq/src/buffer.rs:388-403 | Exactly the packets past the maximum age go; the others stay, with the new one |
| `PacketBuffers.StalePacketsGo` | neteq/src/buffer.rs:388-403 | No packet past the maximum age survives any insert |
| `PacketBuffers.DuplicateIsDiscarded` | neteq/src/buffer.rs:180-190 | With agreeing headers a duplicate is itself discarded and the buffer unchanged |
| `PacketBuffers.SmartFlushIff` | neteq/src/buffer.rs:373-386 | A smart flush happens if and only if the timestamps span more milliseconds than the multiple of the threshold and of the target |
| `PacketBuffers.SmartFlushKeeps` | neteq/src/buffer.rs:171-174 | It leaves exactly the newest packets that reach the target |
| `PacketBuffers.FullBufferMakesRoom` | neteq/src/buffer.rs:176-187 | So does an insert at capacity; if those packets alone fill the buffer everything is flushed |
| `PacketBuffers.ExpectedSamplesAre` | neteq/src/packet.rs:122-124 | Expected samples of all channels at rates of whole samples per millisecond |
| `PacketBuffers.PacketBuffer.DiscardOldPackets` | neteq/src/buffer.rs:388-403 | Exactly the packets past the maximum age go, in place, each counted |
| `PacketBuffers.PacketBuffer.DiscardOldPacketsByTimestamp` | neteq/src/buffer.rs:265-284 | Exactly the packets below the timestamp go, each counted |
| `PacketBuffers.PacketBuffer.DiscardNextPacket` | neteq/src/buffer.rs:252-262 | The oldest packet goes and is counted; nothing happens on an empty buffer |
| `PacketBuffers.PacketBuffer.GetNextPacket` | neteq/src/buffer.rs:247-249 | Hands out the oldest packet, if any, and keeps the rest |
| `PacketRuns.RunsConservePackets` | neteq/src/buffer.rs:109-403 | Over every run: sorted, within capacity, and every offered packet is held, handed out, discarded or fully flushed, each exactly once |
| `PacketRuns.RunsStayStrict` | neteq/src/buffer.rs:162-361 | Over every run with consistent headers no timestamp occurs twice in the buffer |
| `PacketRuns.ArrivalOrderDoesNotMatter` | neteq/src/buffer.rs:162-232 | Any arrival order of packets with distinct timestamps, undisturbed, leaves the same buffer: all of them, strictly sorted |
| `LevelFilters.BufferLevelFilter.Update` | neteq/src/buffer_level_filter.rs:58-90 | Refines the two-speed smoothing with time-stretch compensation; the level stays nonnegative |
| `LevelFilters.BufferLevelFilter.SetTargetBufferLevel` | neteq/src/buffer_level_filter.rs:115-126 | Coefficient by target delay |
| `LevelFilters.OneUpdate` | neteq/src/buffer_level_filter.rs:58-90 | One update moves toward the buffer size without overshooting and shrinks the error to at most 254/256 |
| `LevelFilters.UpdateIsExact` | neteq/src/buffer_level_filter.rs:58-126 | An update leaves exactly 0.7 of the distance to the buffer size after a big jump, and 251 to 254 parts of 256 by target delay otherwise |
| `LevelFilters.StretchingShifts` | neteq/src/buffer_level_filter.rs:84-89 | Stretched samples shift the level one for one, never below zero |
| `LevelFilters.LevelConverges` | neteq/src/buffer_level_filter.rs:58-126 | k updates against a constant buffer approach it from one side with error at most the start error shrunk k times, across any coefficient switching |
| `Numbers.ShrunkIsPow` | neteq/src/buffer_level_filter.rs:58-126 | Shrinking k times by a factor is multiplying by its k-th power |
| `DelayManagement.SortFacts` | neteq/src/delay_manager.rs:177-198 | The percentile is read from an ascending permutation of the delays |
| `DelayManagement.RelativeArrivalDelayTracker.Update` | neteq/src/delay_manager.rs:115-174 | The history becomes exactly the recent entries and the new one; the delay returned has the configured rank among the late arrivals: at most that many are smaller, more are not greater |
| `DelayManagement.LatenessIsRecorded` | neteq/src/delay_manager.rs:115-146 | A packet that arrives a number of milliseconds behind its timestamp is recorded as exactly that late |
| `DelayManagement.FirstPacketIsOnTime` | neteq/src/delay_manager.rs:115-131 | The first packet counts as on time |
| `DelayManagement.RecentInMilliseconds` | neteq/src/delay_manager.rs:164-173 | An entry is kept exactly while its age in milliseconds is within the history length |
| `DelayManagement.LatenessBoundsTheDelay` | neteq/src/delay_manager.rs:177-198 | The delay returned lies between the least and the greatest lateness in the history |
| `DelayManagement.DelayFollowsLateness` | neteq/src/delay_manager.rs:115-198 | Over every run in which no packet is more than D ms late, no update returns more than D |
| `DelayManagement.RecentCounts` | neteq/src/delay_manager.rs:155-174 | No recent entry is lost or repeated and every old one goes |
| `DelayManagement.SortedRankIsPercentile` | neteq/src/delay_manager.rs:177-198 | The entry read from the sorted delays has that rank |
| `DelayManagement.PercentileIsUnique` | neteq/src/delay_manager.rs:177-198 | The rank determines the value |
| `DelayManagement.GridKept` | neteq/src/delay_manager.rs:253-268 | The resample instant stays on the grid of whole intervals from the first arrival and, modulo 2^32 ms, less than one interval behind, whatever the gaps |
| `DelayManagement.CloseAfterIff` | neteq/src/delay_manager.rs:253-268 | After a call the instant is less than one interval old if and only if it was less than 2^32 ms old before |
| `DelayManagement.GridIsCloseIff` | neteq/src/delay_manager.rs:253-268 | The same over every run, for the instant the run has reached |
| `DelayManagement.AlwaysCloseIff` | neteq/src/delay_manager.rs:253-268 | Throughout a run, if and only if each arrival comes less than 2^32 ms after the last grid point before its predecessor |
| `DelayManagement.LongGapIsNotClose` | neteq/src/delay_manager.rs:254 | A gap of exactly 2^32 ms leaves the instant behind, for every interval |
| `DelayManagement.LogKept` | neteq/src/delay_manager.rs:251-275 | Each observation keeps grid, running maximum and tiling |
| `DelayManagement.LogAfter` | neteq/src/delay_manager.rs:251-275 | Over every run of observations the registrations tile them without gap or overlap, each registering the maximum relative delay since the previous one |
| `DelayRuns.RunsAreLogged` | neteq/src/delay_manager.rs:240-326 | Over every mix of updates, resets and setters: grid, running maximum and tiling hold for the observations since the last reset |
| `DelayRuns.HistogramGetsTheLog` | neteq/src/delay_manager.rs:251-279 | Over every mix the values handed to the histogram since the last reset are exactly the values of that log |
| `DelayRuns.RunLimits` | neteq/src/delay_manager.rs:240-381 | Over every mix the effective bounds are the ones computed from the current limits from the first setter on, and the configured ones before |
| `DelayRuns.RunBoundsIff` | neteq/src/delay_manager.rs:291-381 | Over every mix effective minimum <= effective maximum <= base maximum with every clamped target between them, if and only if a setter was called or the configured base bounds are ordered |
| `DelayManagement.DelayManager.Update` | neteq/src/delay_manager.rs:240-279 | Tracker, resampler, bounds, histogram with its observation count, and target after an update, with and without reset and resampling; 2000 ms clamped until the first registration |
| `DelayManagement.DelayManager.UpdateTargetDelay` | neteq/src/delay_manager.rs:341-359 | The target is 20 ms times one more than the quantile index, clamped to the effective bounds |
| `DelayManagement.TargetIsMonotone` | neteq/src/delay_manager.rs:341-359 | The target is determined by the histogram and grows with the quantile |
| `DelayManagement.UntrainedTargetIsLongest` | neteq/src/delay_manager.rs:341-351 | With an all-zero histogram the target is the longest delay it can express, clamped (2000 ms with 100 buckets) |
| `DelayManagement.FirstDelaySetsTheTarget` | neteq/src/delay_manager.rs:333-351 | The first registered delay sets the target to the multiple of 20 ms just above it, clamped |
| `DelayManagement.DelayManager.Reset` | neteq/src/delay_manager.rs:282-288 | Tracker and resampler restarted, target back at the start delay; histogram and bounds kept |
| `DelayManagement.NewManagerIsBlank` | neteq/src/delay_manager.rs:218-236 | A new manager has seen nothing, has no user limits and takes the base bounds as they are |
| `DelayManagement.BoundsAreOrdered` | neteq/src/delay_manager.rs:361-381 | For every combination of limits effective minimum <= effective maximum <= base maximum, the clamped target lies between them, and each limit is honoured when it can be |
| `DelayManagement.DelayManager.SetMinimumDelay` | neteq/src/delay_manager.rs:298-302 | Bounds recomputed; minimum <= target delay <= maximum <= base maximum |
| `DelayManagement.DelayManager.SetMaximumDelay` | neteq/src/delay_manager.rs:305-309 | Bounds recomputed; minimum <= target delay <= maximum <= base maximum |
| `DelayManagement.DelayManager.SetBaseMinimumDelay` | neteq/src/delay_manager.rs:312-315 | Bounds recomputed; minimum <= target delay <= maximum <= base maximum |
| `DelayManagement.DelayManager.SetBaseMaximumDelay` | neteq/src/delay_manager.rs:323-326 | Bounds recomputed; minimum <= target delay <= maximum <= base maximum |
| `NetEqRuns.TickFacts` | neteq/src/neteq.rs:507-829 | What one tick can do to the stretched audio and the expand count, for every operation |
| `NetEqRuns.ExpandEndFollowsExpand` | neteq/src/neteq.rs:538-569 | In every run ExpandEnd comes only directly after Expand or ExpandStart, ExpandStart never does, and after either only Expand or ExpandEnd follows |
| `NetEqRuns.OnlyExpandBetween` | neteq/src/neteq.rs:538-569 | From an expand start to the first ExpandEnd there is nothing but Expand |
| `NetEqRuns.LeftoversMeanNoExpand` | neteq/src/neteq.rs:534-569 | In every run pending stretched audio implies that no expansion is under way, and forces TimeStretchBuffer |
| `NetEqRuns.StretchBlocksAreExact` | neteq/src/neteq.rs:682-829 | An operation that keeps c frames is followed by exactly c TimeStretchBuffer ticks, which play exactly the samples it kept; preemptive expand keeps 2 (rates from 100 Hz on, where a frame has samples) |
| `NetEqRuns.MonoAccelerateKeeps` | neteq/src/neteq.rs:682-736 | In mono an accelerate of i frames keeps i - 1 |
| `NetEqRuns.TickTakesFront` | neteq/src/neteq.rs:592-878 | When the queue holds what is requested, a tick reads its head and leaves exactly the queue minus the used samples |
| `NetEqRuns.ShortTickAddsSilence` | neteq/src/neteq.rs:653-659 | Otherwise the same holds of the queue extended with silence |
| `NetEqRuns.NormalPlaysTheQueue` | neteq/src/neteq.rs:592-680 | A normal tick with a frame of audio plays exactly the head of the queue |
| `NetEqRuns.DecidedOnlyWithEnough` | neteq/src/neteq.rs:538-586 | Mono, even frame, from 6400 Hz: the audio the decided operation asks for is there if and only if not (stretching on, nothing stretched, not expanding, level at least four times the high limit, and between one and a half and two frames held) |
| `NetEqRuns.MeasuredTickHasEnoughIff` | neteq/src/neteq.rs:538-705 | For any number of channels, with packets of their expected length, a tick has its audio if and only if its decision does not fall short |
| `NetEqRuns.FastAccelerateCanFallShort` | neteq/src/neteq.rs:571-576 | For every target delay, at a level the filter yields, fast accelerate is decided with less audio than it asks for |
| `NetEqRuns.ManyChannelsEnoughIff` | neteq/src/neteq.rs:538-705 | Two channels or more: the audio asked for is there if and only if it is not an accelerate with less than three frames' request for every channel |
| `NetEqRuns.StereoNeeds` | neteq/src/neteq.rs:682-705 | In stereo an accelerate has its audio if and only if 9 frames are held, a fast one 12 |
| `NetEqRuns.StereoCanFallShort` | neteq/src/neteq.rs:577-580 | In every stereo setup, for every target delay, three frames held at a level the filter yields fall short |
| `NetEqRuns.StereoLevelFallsShort` | neteq/src/neteq.rs:577-580 | The same at any rate from 1000 Hz on, with the level given |
| `NetEqRuns.StereoQueueTurnsSilent` | neteq/src/neteq.rs:707-725 | Such an accelerate uses everything held and leaves a queue of silence, up to two frames of it |
| `NetEqRuns.SilenceGoesBack` | neteq/src/neteq.rs:653-725 | Whenever all held audio is used, what is put back is the unused padding |
| `NetEqFeeding.Play` | neteq/src/neteq.rs:341-438 | Every call of get_audio that does not fail is a step of the runs of inserts, ticks and flushes |
| `NetEqFeeding.Receive` | neteq/src/neteq.rs:312-338 | So is every insert, whatever it reorders, discards or flushes |
| `NetEqFeeding.Clear` | neteq/src/neteq.rs:484-488 | So is every flush |
| `NetEqFeeding.PacketsAreAccounted` | neteq/src/neteq.rs:285-438 | Over every such run the packets held stay sorted and every packet offered since the last flush was handed out, lost or is still held, each exactly once |
| `NetEqFeeding.StreamIsAccounted` | neteq/src/neteq.rs:592-878 | Over every such run, while every tick finds the audio it asks for, the leftover samples are exactly the audio of the packets handed out, in that order, without its first used samples: nothing lost, repeated or reordered by the put-back |
| `NetEqFeeding.EnoughIffNeverShort` | neteq/src/neteq.rs:538-705 | With packets of their expected length every tick finds its audio if and only if no decision falls short |
| `NetEqFeeding.GuaranteedStreamIsAccounted` | neteq/src/neteq.rs:285-878 | End to end, for any number of channels, even frames from 6400 Hz: the stream is accounted for as long as no decision falls short |
| `NetEqFeeding.InOrderPacketsStayInSequence` | neteq/src/neteq.rs:285-438 | While all packets also arrive in order and undisturbed, handed out followed by held is exactly what was offered, in its order |
| `NetEqFeeding.NormalTicksPlayTheStream` | neteq/src/neteq.rs:592-680 | Over every run of normal ticks with enough audio, what was played is exactly the audio of the packets handed out, in order |
| `NetEqModel.UsualRatesCanExpand` | neteq/src/neteq.rs:754-772 | From 1100 Hz on three frames cover the overlap, so the expander's subtraction cannot underflow |
| `NetEqs.NewNetEq` | neteq/src/neteq.rs:216-223 | Creation fails exactly for a zero rate or, with a rate, zero channels, each with its error |
| `NetEqs.InitialLimitsAre` | neteq/src/neteq.rs:235-246 | Base minimum 20 ms and base maximum as they are without limits; with a limit the computed bounds |
| `NetEqs.NetEq.constructor` | neteq/src/neteq.rs:216-282 | Empty queue, no expansion, base minimum 20 ms, base maximum from the capacity, limits applied, filter at its defaults |
| `NetEqs.NetEq.InsertPacket` | neteq/src/neteq.rs:312-338 | The delay manager takes the arrival in, the packet buffer and the discard counter change as the insert says for the new target delay; stretched audio and expand count stay |
| `NetEqs.InOrderPacketIsFed` | neteq/src/neteq.rs:317-321 | A packet that arrives in order extends the pending queue by exactly its audio |
| `NetEqs.NetEq.Flush` | neteq/src/neteq.rs:484-488 | Nothing held, no expansion, delay tracking and filter restarted: a new run starts |
| `NetEqs.NetEq.Reset` | neteq/src/neteq.rs:493-505 | Filter set to the audio held with its default coefficient, delay tracking and target restarted, packets and leftover kept |
| `NetEqs.NetEq.GetDecision` | neteq/src/neteq.rs:507-590 | The operation, the new expand count, the level the filter keeps, and the recalibration after more than 600 expands |
| `NetEqRuns.LevelDecides` | neteq/src/neteq.rs:521-586 | In samples of the target: audio is taken out if and only if the level is at least the target and 20 ms over three quarters of it (fast from four times that), added if and only if it is under three quarters of the target or over 85 ms short and three frames are held, else left alone |
| `NetEqRuns.ShortAudioExpands` | neteq/src/neteq.rs:544-556 | With less than one and a half frames: an expand start from half a frame on, else an expand |
| `NetEqRuns.ExpansionEnds` | neteq/src/neteq.rs:538-569 | An expansion goes on if and only if a frame is missing or the audio held is low, and recalibrates after 600 ticks |
| `NetEqRuns.StretchingMovesTheLevel` | neteq/src/neteq.rs:682-813 | Accelerate uses at least as much audio as it plays, preemptive expand at most as much |
| `NetEqRuns.AccelerateFramesIsLargest` | neteq/src/neteq.rs:684-699 | Accelerate plays the largest of three, two or one frames whose input is there |
| `NetEqRuns.RequestsAre` | neteq/src/neteq.rs:592-860 | How much audio each operation asks for |
| `NetEqRuns.PlainRequestsAre` | neteq/src/neteq.rs:747-812 | Without stretching an operation that would stretch takes one frame |
| `NetEqRuns.AccelerateTickPlays` | neteq/src/neteq.rs:682-736 | An accelerate tick plays the head of its input, or its input with one stretch of at least an overlap and at most half the output cut out, sample for sample outside the seam, and uses exactly that much more |
| `NetEqRuns.PreemptiveTickPlays` | neteq/src/neteq.rs:754-797 | A preemptive tick plays its input, or its input with one lag repeated, sample for sample outside the seam, and uses exactly that much less |
| `NetEqRuns.ExpandTickPlays` | neteq/src/neteq.rs:831-857 | An expand plays noise and uses nothing; a start and an end use one overlap and blend over it |
| `NetEqs.DeltaIsSamplesAdded` | neteq/src/neteq.rs:738-742 | What is booked for the level filter is the number of samples added, or minus the number removed, divided by the channels |
| `NetEqs.TruncationIsPerChannel` | neteq/src/neteq.rs:738-742 | That quotient is exact in mono and rounded toward zero otherwise |
| `NetEqs.OthersBookNothing` | neteq/src/neteq.rs:682-813 | Operations that do not stretch book nothing |
| `NetEqs.NetEq.DecodeNormal` | neteq/src/neteq.rs:592-680 | The frame is the head of the queue, padded with silence; the rest of the queue is unchanged |
| `NetEqs.NetEq.DecodeAccelerate` | neteq/src/neteq.rs:682-752 | One cut or a verbatim copy of the queue's head; unused samples are back in front; removed samples are booked per channel |
| `NetEqs.NetEq.DecodePreemptiveExpand` | neteq/src/neteq.rs:754-813 | One repeat or a verbatim copy of three frames; unused samples are back in front; added samples are booked per channel |
| `NetEqs.NetEq.ReturnTimeStretchBuffer` | neteq/src/neteq.rs:815-829 | The frame is the head of the stretched audio, the rest is kept |
| `NetEqs.NetEq.DecodeExpand` | neteq/src/neteq.rs:831-878 | Concealment from the queue's head; unused samples are back in front |
| `NetEqs.NetEq.GetAudio` | neteq/src/neteq.rs:341-438 | At every rate a call fails exactly when it decides a preemptive expand whose subtraction underflows; otherwise it is a tick of the model with the thresholds and level of the moment, takes packets only from the front and keeps the run invariant |
| `NetEqs.ExpectedIsActual` | neteq/src/neteq.rs:904-908 | If packets decode to their expected length, the measured buffer size is the real one |

## Left out

- Rounding, NaN and overflow of `f32` and `f64`: samples, levels, jitter and delays are reals (`f32::MAX` is kept as a constant where the code compares with it).
- Wrap-around of `u16`, `u32` and `u64`: sequence numbers, video frame numbers, the target-delay sums and the timestamp products (`neteq/src/buffer.rs:305`, `neteq/src/delay_manager.rs:118`) are unbounded, and so are the casts of the inter-arrival delay to `i32` (`neteq/src/delay_manager.rs:125`, `neteq/src/delay_manager.rs:131`); only the elapsed-time cast of the resampler and the saturating counters are modelled.
- Decoders: a packet carries the samples its decoder yields (none on an error), so decoder state and payload formats do not appear; packets have a nonzero sample rate, without which the code divides by zero.
- Several clock reads inside one delay-manager update: one instant per update is used.
- DelayManagement.RelativeArrivalDelayTracker.Update: the library sort is a function on sequences, not a loop.
- NetEqs.NetEq.GetAudio: what a failed call leaves behind (the code panics there) is not stated; the operations Merge, ComfortNoise, Dtmf and Undefined are never decided; bypass mode, speech type, voice activity and frame timestamps.
- Statistics other than the discard counter, the late flag of a discard, the flush counter, return codes and logging.
- Comfort noise and the random generators: the noise is a parameter.
- Codec, timestamp and payload handling of video frames; the decoder thread behind `push_to_decoder` is the sequence of decoded frames.
- `WebNetEq`, packet-rate snapshots, meeting service, authentication, transport, user interface, bots, command line, metrics and diagnostics.
