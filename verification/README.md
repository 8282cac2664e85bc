# Verified model of the planetarium face detector

The repository detects faces in a video stream, groups them into tracks, and saves each finished
track as pictures and as a video while the stream goes on. This project models that program, and
some self-contained algorithms shipped with it, and proves what they promise.

## What is modelled

**The tracker** (`planetariumfd/Detector/FaceProcessor.cpp`).

- `Tracks.dfy` – a track, its counters, and what they mean over its whole life.
- `Matching.dfy` – how the detections of a frame choose tracks and compete for them.
- `Frames.dfy` – what one frame does to the whole state, as a function, and the proof that it is a
  run of main in the protocol below.
- `FaceProcessor.dfy` – the same as the program runs it, on lists of records changed in place.
- `PruneProtocol.dfy` – main, one history pruner and any number of savers as a transition system over
  the frame history, the live tracks and the tracks being saved. Each region under a lock is one
  step.
- `PruneInvariants.dfy`, `PruneSafety.dfy`, `PruneTightness.dfy` – what every step keeps, the safety of
  pruning over all runs, and the proof that its timing assumption is the weakest possible.
- `TrackFaces.dfy` – which faces a track holds, box by box, over all runs.
- `Locking.dfy` – the two critical sections, mutual exclusion, and freedom from deadlock.
- `SaverWalk.dfy` – the two-cursor walk that pairs faces with history frames, as a loop.
- `SaverRuns.dfy` – the same walk in runs of the protocol, while everybody else goes on.

**The post-processing of a track**: `Rounding.dfy`, `Convolution.dfy`, `FaceSeries.dfy` (gap filling
and smoothing) and `SmoothedEdges.dfy` (what smoothing does to the right edge of a face). Floating point
is modelled by `real`.

**Shipped algorithms**: `TrieLanguage.dfy`, `AhoCorasick.dfy` and `TrieExample.dfy` (the multi-word scan of `my_trie.h`),
`UrlStream.dfy` (the buffered URL stream of `fopen.c`), `AtomicOps.dfy` (the compare-and-swap loops of
`my_atomic.h`), `TrailingSpace.dfy` (the word-at-a-time `skip_trailing_space`),
`TransferScheduler.dfy` (the capped scheduler of `10-at-a-time.c`) and `DumpLines.dfy` (`dump` of
`debug.c`). `Basics.dfy` holds what several of them need.

`dafny verify dfyconfig.toml` checks the whole project.

## Results that differ from what the source says

- **Pruning** (FaceProcessor.cpp:812 and 553-557). The comments say that the pruner cannot pass a frame
  a saver needs, and that the minimum list size helps with "boundary cases". For a pass that read a
  real minimum the claim holds in every interleaving. For a pass that found no track it holds if and
  only if fewer than `MIN_LIST_SIZE` frames arrive during the pass
  (`PruneTightness.SafeIffFewerFramesThanMinimum`).
- **Choice of a track** (FaceProcessor.cpp:351). The comment asks for the best matching track. The code
  chooses the earliest nearest of the first track in range and the later ones that may take over from
  it (`Matching.ChoiceIsDeclared`). That is a nearest track in range if and only if some nearest one is
  among these (`Matching.NearestIsChosenIff`); `Matching.NearestIsNotAlwaysChosen` is a case where none is.
- **The winning face** (FaceProcessor.cpp:444-449). A held face at exactly the very-close distance is
  never displaced. `Matching.IntendedWinnerIff` says exactly when the intended winner is kept;
  `Matching.WinnerIsDeclared` says in full which face wins.
- **The scan** (my_trie.h:75-79). It reports a word only when the longest suffix path is itself a word, so
  a shorter word that ends at the same place can be missed (`TrieLanguage.ScanCanMissAWord`);
  `TrieLanguage.ScanIsCompleteIff` gives the exact condition on the words.
- **fgets of size 1** (fopen.c:373-424). Its answer depends on how the stream is cut into deliveries; from
  size 2 on no answer does (`UrlStream.FgetsIsIndependentIff`).
- **Smoothing** (FaceProcessor.cpp:1035-1074). A smoothed right edge can exceed the largest original one,
  and then by one pixel. It does so exactly at a face in whose window every face reaches that largest edge
  and the sum of x is an odd multiple of half the number of faces (`SmoothedEdges.RightEdgeGrowsIff`, and
  for the whole series `SmoothedEdges.SeriesKeepsEdgeIff`). A window with an odd number of faces, in
  particular a full one of seven, never grows, so it can happen only at the first three and the last three
  faces (`SmoothedEdges.RightEdgeIsKeptInside`); `SmoothedEdges.RightEdgeCanGrowByOne` is a case.

## Assumptions

Interval and size parameters are at least 1, miss limits are not negative, frame ids stay below
INT_MAX. The two distance thresholds are independent. The square root of the vision library is a
parameter. Memory is sequentially consistent, and a list operation is atomic. What the network, the
operating system and the encoders do is given as a schedule, and the theorems hold for every schedule.
No buffer given to `dump` reaches into the last 64 bytes of the range of size_t; none that large can exist.

## Model

| member | source | states |
|---|---|---|
| Tracks.NewTrackIsValid | planetariumfd/Detector/FaceProcessor.cpp:298-305 | a track made from one face means what its counters say |
| Tracks.WorstSuffixStep | planetariumfd/Detector/FaceProcessor.cpp:466-476 | adding 1 for a miss and taking 1, not below 0, for a hit keeps missedCount the maximum over all suffixes of misses minus hits |
| Tracks.HitKeepsMeaning | planetariumfd/Detector/FaceProcessor.cpp:466-472 | after a hit the counters are still the worst suffix, the trailing misses, the hits and the length of the life, and the faces the latest frames seen |
| Tracks.MissKeepsMeaning | planetariumfd/Detector/FaceProcessor.cpp:473-476 | the same after a miss |
| Tracks.TrimKeepsMeaning | planetariumfd/Detector/FaceProcessor.cpp:1216-1220 | pruning leaves exactly min(faces, limit) faces, the newest ones, a track still means what it should, and the first id only moves up |
| Tracks.TrimLeavesNewest | planetariumfd/Detector/FaceProcessor.cpp:1216-1220 | what is left is the last min(faces, limit) faces, boxes included, and nothing else of the track changes |
| Tracks.IdsAreOrdered | planetariumfd/Detector/FaceProcessor.cpp:462-477 | face ids inside a track are strictly increasing |
| Tracks.LastFaceAndMisses | planetariumfd/Detector/FaceProcessor.cpp:462-477 | last face id + consecutiveMissedCount = current frame |
| Tracks.DeathIsBeingOutsideLimits | planetariumfd/Detector/FaceProcessor.cpp:484-485 | a track is deleted exactly when some suffix of its life, or its trailing miss run, breaks a limit |
| Tracks.SurvivalStep | planetariumfd/Detector/FaceProcessor.cpp:479-490 | a track within the limits in every past frame and in this one stays so |
| Tracks.EveryWindowIsHealthy | planetariumfd/Detector/FaceProcessor.cpp:479-490 | in a live track no window of frames has misses exceeding hits by more than the limit, and no miss run is longer than its limit |
| Tracks.SeenGaps | planetariumfd/Detector/FaceProcessor.cpp:479-490 | two neighbouring faces of a track lie at most the consecutive-miss limit plus 1 apart |
| Tracks.SpanOfTrack | planetariumfd/Detector/FaceProcessor.cpp:479-490 | the frames from first face to now are at most (limit + 1) per face |
| Matching.LeftOverIffNobodyNear | planetariumfd/Detector/FaceProcessor.cpp:420-441 | a detection is left over iff the centre of no track's last face is within DIST_THRESH of its own centre; otherwise the choice is within it, at the distance of the centres |
| Matching.DistanceIsBetweenCentres | planetariumfd/Detector/FaceProcessor.cpp:132-143 | the distance is the root of the sum of the squared differences of the centres, for any boxes; a half pixel goes towards zero |
| Matching.TakeOverComparesAreas | planetariumfd/Detector/FaceProcessor.cpp:168-179 | the test of two size quotients compares width times height of the last face with that of the held face, or with 1 when nothing is held, for all boxes |
| Matching.ChoiceByCentresAndAreas | planetariumfd/Detector/FaceProcessor.cpp:416-438 | the choice by distances of centres and products of sizes alone: the earliest nearest of the first track within the threshold and those that may take over |
| Matching.ChoiceIsDeclared | planetariumfd/Detector/FaceProcessor.cpp:416-438 | with f the first track in range, the chosen track is the earliest nearest of f and those later tracks in range that pass the test of sizes when f is very close |
| Matching.NearestIsChosenIff | planetariumfd/Detector/FaceProcessor.cpp:416-438 | a nearest track in range is chosen iff some nearest one is f or passes those guards |
| Matching.NearestIsNotAlwaysChosen | planetariumfd/Detector/FaceProcessor.cpp:349-358 | for every square root with the true values at the two distances: the farther of two tracks in range is chosen when it comes first |
| Matching.AssignIsConsistent | planetariumfd/Detector/FaceProcessor.cpp:413-456 | what a track holds is a detection that chose it, with its distance; a chosen track holds something |
| Matching.EveryDetectionHasOneFate | planetariumfd/Detector/FaceProcessor.cpp:413-456 | each detection is kept by one track, or displaced by a rival for it, or left over, never two of these |
| Matching.DetectionsAreConserved | planetariumfd/Detector/FaceProcessor.cpp:413-456 | kept + displaced + left over = all detections of the frame |
| Matching.LeftOverAreFar | planetariumfd/Detector/FaceProcessor.cpp:435-441 | the detections left over are exactly those within the threshold of no track's centre, in their order |
| Matching.SizeDiffComparesAreas | planetariumfd/Detector/FaceProcessor.cpp:174-179 | for positive areas the quotient test means: width times height of the new face is larger |
| Matching.WinnerIsDeclared | planetariumfd/Detector/FaceProcessor.cpp:440-456 | which detection a track keeps, as a choice over all that selected it, for every distance |
| Matching.IntendedWinnerIff | planetariumfd/Detector/FaceProcessor.cpp:440-456 | the winner is the earliest largest close one, or the earliest nearest, iff no detection at exactly the very-close distance comes first with a close one in the frame |
| Matching.IntendedWinnerIsNotAlwaysKept | planetariumfd/Detector/FaceProcessor.cpp:444-449 | for every square root with the true values at the two distances: a face at exactly the very-close distance keeps a larger and nearer one out, against the intended rule |
| Frames.BuryOne | planetariumfd/Detector/FaceProcessor.cpp:481-489 | handing over a dead track and going on leaves what the whole delete loop leaves |
| Frames.KeepOne | planetariumfd/Detector/FaceProcessor.cpp:481-489 | the same for a track that is kept |
| Frames.FrameIsARun | planetariumfd/Detector/FaceProcessor.cpp:239-281 | processing a frame is a run of main's steps in the protocol, from idle to idle |
| Frames.FrameConservesDetections | planetariumfd/Detector/FaceProcessor.cpp:368-497 | a track gains one face iff a detection chose it, the winner; kept, displaced and new tracks' first faces add up to the input |
| FaceProcessor.FaceThread.Update | planetariumfd/Detector/FaceProcessor.cpp:464-476 | each counter of a record after a frame, and its faces with the matched face behind them |
| FaceProcessor.FaceThread.PruneFacesList | planetariumfd/Detector/FaceProcessor.cpp:1216-1220 | popping from the front until the limit is met leaves the last min(faces, limit) old faces and changes nothing else |
| FaceProcessor.ChooseTrack | planetariumfd/Detector/FaceProcessor.cpp:416-438 | the loop over the tracks finds the specified choice: none iff no centre is within the threshold, else a track whose centre is, with that distance |
| FaceProcessor.Compete | planetariumfd/Detector/FaceProcessor.cpp:442-455 | the contest changes the match of the chosen track only, and as specified |
| FaceProcessor.MatchFaces | planetariumfd/Detector/FaceProcessor.cpp:403-456 | the loop over the detections leaves the specified matches; what a track found is a detection at the distance of the centres, and left over, in order, are those near no centre |
| FaceProcessor.Tracker.AddToHistory | planetariumfd/Detector/FaceProcessor.cpp:508-528 | the next frame id is appended to the history |
| FaceProcessor.Tracker.TakeFaces | planetariumfd/Detector/FaceProcessor.cpp:391-401 | the conversion loop gives the face list |
| FaceProcessor.Tracker.UpdateCounters | planetariumfd/Detector/FaceProcessor.cpp:458-478 | every live record is aged by its match, and nothing else changes |
| FaceProcessor.Tracker.DeleteThread | planetariumfd/Detector/FaceProcessor.cpp:307-328 | the record moves from the live list to the list being saved, in one step, and its saver exists |
| FaceProcessor.Tracker.DeleteDead | planetariumfd/Detector/FaceProcessor.cpp:479-490 | exactly the dead tracks are handed over, in order, while the list is being walked |
| FaceProcessor.Tracker.AddNewThreads | planetariumfd/Detector/FaceProcessor.cpp:492-496 | one new track per detection left over, with that face alone and nothing counted; the old tracks stay |
| FaceProcessor.Tracker.PruneAllFaces | planetariumfd/Detector/FaceProcessor.cpp:258-260 | every live track is left with its newest faces, as many as allowed |
| FaceProcessor.Tracker.ProcessThreads | planetariumfd/Detector/FaceProcessor.cpp:368-497 | the in-place passes together have the specified effect on the whole state |
| FaceProcessor.Tracker.ProcessFaces | planetariumfd/Detector/FaceProcessor.cpp:239-281 | a frame has the effect of the protocol's run; shown are the last faces of the tracks with more hits than the threshold, in order; after every pruning interval no live track is over the limit |
| FaceProcessor.Tracker.CollectVisible | planetariumfd/Detector/FaceProcessor.cpp:263-274 | the last face of exactly the tracks with more than so many hits, in order |
| FaceProcessor.Tracker.GetMinFrameToKeep | planetariumfd/Detector/FaceProcessor.cpp:559-585 | the scan of both lists gives the least first face id, or -1 for no track |
| Frames.ErasePassMeaning | planetariumfd/Detector/FaceProcessor.cpp:617-628 | a run of erasures and the end of the pass removes a front part of the history below the bound, and ends at the bound or at the minimum size |
| Frames.PassIsARun | planetariumfd/Detector/FaceProcessor.cpp:608-636 | a whole turn of the pruner is a run of the protocol |
| FaceProcessor.Tracker.ErasePass | planetariumfd/Detector/FaceProcessor.cpp:615-628 | the loop, undisturbed, is a run of erasures and the end of the pass in the protocol |
| FaceProcessor.Tracker.PrunePass | planetariumfd/Detector/FaceProcessor.cpp:608-636 | so is the whole turn: the bound read, the erasures, the size read again |
| FaceProcessor.Tracker.PruneSerialized | planetariumfd/Detector/FaceProcessor.cpp:657-660 | the record is left with its newest faces, in place, which is the first step of its saver in the protocol |
| FaceProcessor.Tracker.RemoveSerialized | planetariumfd/Detector/FaceProcessor.cpp:711-728 | the record is found iff it is in the list, and only it is removed, which is the last step of its saver in the protocol |
| PruneInvariants.ReadMinimumIsExact | planetariumfd/Detector/FaceProcessor.cpp:559-585 | the minimum is -1 iff there is no track, and otherwise the least frame any live or saved track needs |
| PruneInvariants.NeedsOnlyMoveUp | planetariumfd/Detector/FaceProcessor.cpp:559-637 | no step makes a track need an older frame |
| PruneInvariants.HistoryStep | planetariumfd/Detector/FaceProcessor.cpp:522-524 | the history stays an unbroken interval ending at the newest frame, not shorter than the minimum once pruning has begun, and that needs more frames than the minimum |
| PruneInvariants.TracksStep | planetariumfd/Detector/FaceProcessor.cpp:458-490 | every step keeps the meaning, age, health and length of every live and saved track |
| PruneInvariants.LifeStep | planetariumfd/Detector/FaceProcessor.cpp:307-319 | every created track is at each moment in exactly one of live, being saved, finished |
| PruneInvariants.StagesMoveForward | planetariumfd/Detector/FaceProcessor.cpp:711-728 | a track only moves forward, one stage at a time, and a saver finds its own track |
| PruneInvariants.InvHoldsThroughout | planetariumfd/Detector/FaceProcessor.cpp:557-637 | all of this after every run |
| TrackFaces.FacesStep | planetariumfd/Detector/FaceProcessor.cpp:297-328 | every step keeps, for each track, the newest of the faces it was given, and gives a face only where main ages or founds a track |
| TrackFaces.TracksHoldNewestFaces | planetariumfd/Detector/FaceProcessor.cpp:440-496 | in every run each live or saved track holds exactly the last of the detections it was given, boxes included: all of them, or at least as many as the limit |
| PruneSafety.ProtectedStep | planetariumfd/Detector/FaceProcessor.cpp:608-628 | no step removes a frame a track needs, under the timing assumption |
| PruneSafety.SaversStep | planetariumfd/Detector/FaceProcessor.cpp:822-856 | every walking saver stays on a frame of its track's span, not past the one it looks for |
| PruneSafety.PruningIsSafe | planetariumfd/Detector/FaceProcessor.cpp:553-637 | after any interleaving, every frame from the first to the last face of every live or saved track is in the history, no assertion of a saver has failed, and the history is an unbroken interval of at least MIN_LIST_SIZE once pruning has begun |
| PruneSafety.LiveTracksAreHealthy | planetariumfd/Detector/FaceProcessor.cpp:458-490 | in every state between frames of every run the counters mean what they should, no window of a live track's life breaks a limit, and it holds at most the limit and the frames since the last pruning |
| PruneSafety.QuietPassBoundsHistory | planetariumfd/Detector/FaceProcessor.cpp:608-636 | a pass between frames with nothing being saved leaves at most max(MIN_LIST_SIZE, (faces + interval) * (consecutive misses + 1)) frames |
| PruneTightness.UnsafeRun | planetariumfd/Detector/FaceProcessor.cpp:617-628 | with one frame more allowed in a pass without tracks there is a run that erases a needed frame |
| PruneTightness.SafeIffFewerFramesThanMinimum | planetariumfd/Detector/FaceProcessor.cpp:553-637 | all runs are safe iff fewer than MIN_LIST_SIZE frames can arrive during a pass that found no track |
| Locking.EdgesKeepDepth | planetariumfd/Detector/fd_util.h:89-98 | every step enters or leaves the one section that it names |
| Locking.NeverAsksWhileHolding | planetariumfd/Detector/FaceProcessor.cpp:610-634 | nobody asks for one lock while holding the other |
| Locking.StepKeepsInv | planetariumfd/Detector/fd_util.h:89-98 | owner and nesting depth of each section agree with where the actors are |
| Locking.MutualExclusion | planetariumfd/Detector/fd_util.h:89-98 | in every state of every run two actors are never inside the same section |
| Locking.NoDeadlock | planetariumfd/Detector/FaceProcessor.cpp:608-636 | in every state of every run some actor can go on, and whoever waits waits for one that can |
| SaverWalk.FindFirst | planetariumfd/Detector/FaceProcessor.cpp:934-942 | the scan stops at the frame of the first face, inside the history |
| SaverRuns.WalkIsFaithful | planetariumfd/Detector/FaceProcessor.cpp:822-856 | in every run of the protocol, while frames are appended and erased and other savers work: the frames a saver has visited are, in order and once each, those of the first faces, or with smoothing the first of all frames from the first face on; all are visited exactly after as many advances as there are frames from the first face to the last |
| SaverRuns.AdvanceMoves | planetariumfd/Detector/FaceProcessor.cpp:977-1011 | one advance of the two cursors: the frame is visited iff it is the one looked for, and one advance less is to go |
| SaverRuns.OthersLeaveSaver | planetariumfd/Detector/FaceProcessor.cpp:812-812 | no action of another actor moves a saver |
| SaverWalk.SaveImages | planetariumfd/Detector/FaceProcessor.cpp:788-859 | the loop itself on a history that stays: every face in order, once, with its own box and the frame of its id, until the wanted number of pictures is written; the walk never leaves the history and ends |
| SaverWalk.SaveVideo | planetariumfd/Detector/FaceProcessor.cpp:878-1023 | the same for the video, given up at the first frame that cannot be written |
| SaverWalk.GaplessWalkVisitsEveryFrame | planetariumfd/Detector/FaceProcessor.cpp:977-1011 | on a list without gaps every id from first to last is visited |
| SaverWalk.KeptFramesCoverFaces | planetariumfd/Detector/FaceProcessor.cpp:806-816 | the pruning theorem gives what the walks require |
| SaverWalk.SmoothTargetsAreFilled | planetariumfd/Detector/FaceProcessor.cpp:890-898 | the frames walked for the smoothed video are those of the gap-filled list |
| Rounding.RoundsHalfUp | planetariumfd/Detector/FaceProcessor.cpp:83-88 | my_round rounds to nearest, halves upwards, also for negative numbers |
| Rounding.RoundIsMonotone | planetariumfd/Detector/FaceProcessor.cpp:83-88 | rounding keeps order |
| Rounding.RoundShift | planetariumfd/Detector/FaceProcessor.cpp:83-88 | adding an integer before or after rounding is the same |
| Convolution.Accumulate | planetariumfd/Detector/fd_util.h:125-135 | the moving pointers sum exactly the overlapping products, in range |
| Convolution.LinearConvolution | planetariumfd/Detector/fd_util.h:112-139 | exactly lenx + leny - 1 values are written, the full convolution |
| Convolution.AccumulateBoth | planetariumfd/Detector/fd_util.h:161-173 | the sum and the normalising sum of one output |
| Convolution.LinearConvolutionSame | planetariumfd/Detector/fd_util.h:147-180 | exactly lenx values are written, value k being full(X,Y)[k+leny/2] / full(1,Y)[k+leny/2] |
| Convolution.SameIsNormalised | planetariumfd/Detector/fd_util.h:166-175 | each value times the normaliser is element k + leny/2 of the full convolution |
| Convolution.NormalizerIsPositive | planetariumfd/Detector/fd_util.h:166-175 | the divisor is positive for a positive filter |
| Convolution.SameStaysInWindow | planetariumfd/Detector/fd_util.h:147-180 | each output lies between the least and greatest input of its window |
| Convolution.SameIsAdditive | planetariumfd/Detector/fd_util.h:147-180 | smoothing a sum is summing what was smoothed |
| Convolution.SameKeepsConstantsAndTranslations | planetariumfd/Detector/fd_util.h:147-180 | constants are kept, and a constant added to the input is added to the output |
| Convolution.FullConservesMass | planetariumfd/Detector/fd_util.h:112-139 | the outputs sum to sum(X) * sum(Y) |
| Convolution.FullCommutes | planetariumfd/Detector/fd_util.h:112-139 | X with Y is Y with X |
| Convolution.FullOfImpulse | planetariumfd/Detector/fd_util.h:112-139 | a filter with a single tap moves the input by its position and scales it |
| Convolution.FullIsAdditive | planetariumfd/Detector/fd_util.h:112-139 | a sum of filters gives the sum of the outputs |
| Convolution.SameIsShiftedFull | planetariumfd/Detector/PlanetariumFD.cpp:66-84 | where the filter overlaps completely both routes give the same values, for a filter divided by its sum |
| FaceSeries.FillingIsComplete | planetariumfd/Detector/FaceProcessor.cpp:1093-1122 | every id from first to last is there once, and every original face is in its place, unchanged |
| FaceSeries.InsertedFace | planetariumfd/Detector/FaceProcessor.cpp:1109-1117 | the face inserted at each place has the frame of that place and stands, in x, y, width and height alike, within 1/2 of the line between the same coordinate of its neighbours, and between them |
| FaceSeries.LineIsExact | planetariumfd/Detector/FaceProcessor.cpp:1104-1107 | the line is the exact one through the two values |
| FaceSeries.InsertedCoordinates | planetariumfd/Detector/FaceProcessor.cpp:1104-1115 | an inserted coordinate is within 1/2 of the exact line and between its neighbours |
| FaceSeries.ContiguousIffUnchanged | planetariumfd/Detector/FaceProcessor.cpp:1095-1096 | the length test holds iff nothing is missing |
| FaceSeries.FillingIsIdempotent | planetariumfd/Detector/FaceProcessor.cpp:1093-1122 | filling again changes nothing |
| FaceSeries.Series.InsertMissing | planetariumfd/Detector/FaceProcessor.cpp:1102-1119 | the insertions between two neighbours, in place, each standing between them in every coordinate |
| FaceSeries.Series.AddMissingFrames | planetariumfd/Detector/FaceProcessor.cpp:1093-1122 | the list is filled in place: old faces stay, and each new one stands on the line between its neighbours; the result is false exactly when it was already contiguous |
| FaceSeries.Series.SmoothCoordinate | planetariumfd/Detector/FaceProcessor.cpp:1042-1052 | one block replaces one coordinate by its rounded smoothed value and leaves the rest |
| FaceSeries.Series.SmoothFaceSeries | planetariumfd/Detector/FaceProcessor.cpp:1035-1091 | all four coordinates are smoothed from the original values; frame ids stay |
| FaceSeries.SmoothValueStaysInWindow | planetariumfd/Detector/FaceProcessor.cpp:1035-1091 | a smoothed coordinate lies between the least and greatest of its window |
| SmoothedEdges.SmoothingIsMean | planetariumfd/Detector/fd_util.h:147-180 | with equal taps, before rounding, a smoothed coordinate is the mean over the faces of its window, also where the series cuts the window off |
| SmoothedEdges.SmoothedFaceIsMean | planetariumfd/Detector/FaceProcessor.cpp:1035-1091 | x, y and width are the rounded means over the faces up to three before and after, the height over the next ones only, and the frame stays |
| SmoothedEdges.RightEdgeGrowsIff | planetariumfd/Detector/FaceProcessor.cpp:1035-1074 | the smoothed x + width exceeds the largest original right edge by at most 1, and exceeds it iff every face of the window reaches that edge and the x of the window add up to an odd multiple of half their number |
| SmoothedEdges.RightEdgeIsKeptInside | planetariumfd/Detector/FaceProcessor.cpp:1035-1074 | with an odd number of faces in the window, and so everywhere but at the first and last three faces, the largest edge is kept |
| SmoothedEdges.SeriesKeepsEdgeIff | planetariumfd/Detector/FaceProcessor.cpp:1035-1074 | no smoothed right edge exceeds the largest original one iff there is no such window |
| SmoothedEdges.RightEdgeCanGrowByOne | planetariumfd/Detector/FaceProcessor.cpp:1035-1074 | two faces for which it does |
| TrieLanguage.FailureKeepsCandidate | planetariumfd/mysql-connector-c/include/my_trie.h:89-90 | following a failure link loses no longer match |
| TrieLanguage.ExtendedCandidateIsLongest | planetariumfd/mysql-connector-c/include/my_trie.h:89-90 | the first node with an edge for the byte leads to the longest suffix |
| TrieLanguage.ReportsAreSound | planetariumfd/mysql-connector-c/include/my_trie.h:75-79 | a report means that a word ends here |
| TrieLanguage.ScanIsCompleteIff | planetariumfd/mysql-connector-c/include/my_trie.h:75-92 | every end of a word is reported in every text iff each path that ends with a word is a word |
| TrieLanguage.ScanCanMissAWord | planetariumfd/mysql-connector-c/include/my_trie.h:75-92 | two words and a text with a missed occurrence |
| AhoCorasick.SiblingsDiffer | planetariumfd/mysql-connector-c/include/my_trie.h:22-29 | the edges of a node have different labels |
| AhoCorasick.Goto | planetariumfd/mysql-connector-c/include/my_trie.h:55-65 | the child with the label, the root when the root has none, otherwise NULL |
| AhoCorasick.Follow | planetariumfd/mysql-connector-c/include/my_trie.h:86-91 | the loop ends at the longest suffix that is a path, by exactly that many failure links and then the edge; the links are paid for by depth |
| AhoCorasick.AcState.Next | planetariumfd/mysql-connector-c/include/my_trie.h:82-92 | the state is the longest suffix of the text read so far that is a path, and the result is its length if it is a word and 0 otherwise |
| AhoCorasick.Search | planetariumfd/mysql-connector-c/include/my_trie.h:116-136 | true iff the key is a word |
| AhoCorasick.Scan | planetariumfd/mysql-connector-c/include/my_trie.h:82-136 | over a whole text: a result n > 0 means that trie_search accepts the last n bytes, it is given iff the longest suffix path is a word; the paths gone through and the failure links followed on each byte are the automaton's, and the links total at most the length |
| TrieLanguage.FollowingEnds | planetariumfd/mysql-connector-c/include/my_trie.h:89-91 | where the loop stops, the node reached is the longest suffix of the longer text |
| TrieLanguage.ScanGrows | planetariumfd/mysql-connector-c/include/my_trie.h:82-92 | one byte more keeps the scan's account of links and depth |
| TrieExample.MissedWord | planetariumfd/mysql-connector-c/include/my_trie.h:82-136 | on the linked trie of "abc" and "b" the program reports nothing for "ab", although it finds "b" to be a word |
| UrlStream.LineLength | planetariumfd/libCurl/7.19.3-win32-ssl-msvc/docs/examples/fopen.c:397-406 | the line ends at the first newline, or at the limit |
| UrlStream.WholeItems | planetariumfd/libCurl/7.19.3-win32-ssl-msvc/docs/examples/fopen.c:358-359 | the item count covers whole items only |
| UrlStream.FillKeepsRest | planetariumfd/libCurl/7.19.3-win32-ssl-msvc/docs/examples/fopen.c:128-184 | filling loses nothing and stops short of the wanted bytes only at the end of the transfer |
| UrlStream.ServeReadsStream | planetariumfd/libCurl/7.19.3-win32-ssl-msvc/docs/examples/fopen.c:328-424 | a request answered from the buffer gets the answer that the whole rest of the stream would give |
| UrlStream.FreadTakes | planetariumfd/libCurl/7.19.3-win32-ssl-msvc/docs/examples/fopen.c:328-371 | fread hands out exactly the next nmemb * size bytes of the stream, or all that is left, and counts the whole items |
| UrlStream.FgetsTakes | planetariumfd/libCurl/7.19.3-win32-ssl-msvc/docs/examples/fopen.c:373-424 | fgets hands out exactly the stream up to the first newline, or size - 1 bytes, or what is left |
| UrlStream.FillIsLazy | planetariumfd/libCurl/7.19.3-win32-ssl-msvc/docs/examples/fopen.c:128-184 | filling makes no round when more than the wanted bytes are there, at least one otherwise, and none once the wanted bytes are there |
| UrlStream.RepliesDoNotDependOnChunks | planetariumfd/libCurl/7.19.3-win32-ssl-msvc/docs/examples/fopen.c:86-424 | the replies to any sequence of requests depend only on the bytes, not on how they were delivered |
| UrlStream.FgetsIsIndependentIff | planetariumfd/libCurl/7.19.3-win32-ssl-msvc/docs/examples/fopen.c:373-424 | this holds for fgets iff its size is at least 2 |
| UrlStream.ShortLineEndsStream | planetariumfd/libCurl/7.19.3-win32-ssl-msvc/docs/examples/fopen.c:383-415 | a line without newline shorter than size - 1 ends the stream |
| UrlStream.EofIsSound | planetariumfd/libCurl/7.19.3-win32-ssl-msvc/docs/examples/fopen.c:305-326 | end of file is never reported early, and an empty answer means end of file |
| UrlStream.UrlFile.WriteCallback | planetariumfd/libCurl/7.19.3-win32-ssl-msvc/docs/examples/fopen.c:86-125 | the chunk is appended; when realloc fails, as much of it as fits |
| UrlStream.UrlFile.MoveDown | planetariumfd/libCurl/7.19.3-win32-ssl-msvc/docs/examples/fopen.c:204-206 | the overlapping move to the front, in place |
| UrlStream.UrlFile.UseBuffer | planetariumfd/libCurl/7.19.3-win32-ssl-msvc/docs/examples/fopen.c:187-211 | the first bytes leave the buffer and the others stay in order |
| UrlStream.UrlFile.FillBuffer | planetariumfd/libCurl/7.19.3-win32-ssl-msvc/docs/examples/fopen.c:128-184 | the loop of rounds, on the object |
| UrlStream.UrlFile.Start | planetariumfd/libCurl/7.19.3-win32-ssl-msvc/docs/examples/fopen.c:249-269 | opening loses nothing, and fails iff the stream is empty and over |
| UrlStream.UrlFile.Fread | planetariumfd/libCurl/7.19.3-win32-ssl-msvc/docs/examples/fopen.c:328-371 | exactly the next nmemb * size unread bytes, or all, are handed out; the reply and the new state are the specified ones; delivered = copied out ++ buffer |
| UrlStream.UrlFile.FindLineEnd | planetariumfd/libCurl/7.19.3-win32-ssl-msvc/docs/examples/fopen.c:397-406 | the scan for the newline |
| UrlStream.UrlFile.Fgets | planetariumfd/libCurl/7.19.3-win32-ssl-msvc/docs/examples/fopen.c:373-424 | exactly the next line of the unread bytes, within the size, is handed out; the reply and the new state are the specified ones; delivered = copied out ++ buffer |
| UrlStream.UrlFile.Feof | planetariumfd/libCurl/7.19.3-win32-ssl-msvc/docs/examples/fopen.c:305-326 | 1 iff the buffer is empty and the transfer over |
| AtomicOps.AttemptIsSequential | planetariumfd/mysql-connector-c/include/atomic/rwlock.h:52-56 | a successful exchange does what the plain body does; a failed one changes nothing and reads the cell |
| AtomicOps.StepKeepsInv | planetariumfd/mysql-connector-c/include/my_atomic.h:65-86 | every step of every thread keeps the log an explanation of the cell and of all results |
| AtomicOps.RunsAreLinearizable | planetariumfd/mysql-connector-c/include/my_atomic.h:65-86 | in any interleaving of any number of threads, replaying the plain bodies in the order of the exchanges gives every result and the cell, and respects real-time order; what took effect and has not returned is what some thread is about to return |
| AtomicOps.NoIncrementIsLost | planetariumfd/mysql-connector-c/include/my_atomic.h:65-69 | in every interleaving of additions the cell ends with the initial value and all that was added, modulo 2^32, and each returns what was there before it |
| AtomicOps.RetriesArePaidFor | planetariumfd/mysql-connector-c/include/my_atomic.h:66-76 | an operation fails at most as often as others changed the cell since it was invoked |
| AtomicOps.AloneTwoAttemptsSuffice | planetariumfd/mysql-connector-c/include/my_atomic.h:66-76 | a thread left alone finishes within two exchanges |
| AtomicOps.LoadChangesNothing | planetariumfd/mysql-connector-c/include/my_atomic.h:78-81 | the load's exchange never changes the cell and returns its value |
| AtomicOps.Cell.CompareAndSwap | planetariumfd/mysql-connector-c/include/atomic/generic-msvc.h:66-69 | the wrapper around the exchange succeeds iff the cell holds the comparand, and leaves the new value, or the comparand updated |
| AtomicOps.Cell.Add | planetariumfd/mysql-connector-c/include/my_atomic.h:66-69 | the loop ends, and at its last exchange returns what the cell held and leaves it raised by v modulo 2^32 |
| AtomicOps.Cell.FetchAndStore | planetariumfd/mysql-connector-c/include/my_atomic.h:72-75 | the same with v in the cell; with the value dropped it is the store |
| AtomicOps.Cell.Load | planetariumfd/mysql-connector-c/include/my_atomic.h:78-80 | the value that the cell holds after the others' access, which stays |
| TrailingSpace.ScanIsUnique | planetariumfd/mysql-connector-c/include/m_string.h:382-384 | only one end has nothing but spaces behind it and no space before it |
| TrailingSpace.WordOfSpaces | planetariumfd/mysql-connector-c/include/m_string.h:378-378 | a word equals SPACE_INT iff its four bytes are spaces, in either byte order |
| TrailingSpace.SkipTrailingSpace | planetariumfd/mysql-connector-c/include/m_string.h:361-385 | for every buffer, length and address the same end as the byte-by-byte scan, with all reads inside the buffer and word reads aligned |
| TransferScheduler.AccountedCount | planetariumfd/libCurl/7.19.3-win32-ssl-msvc/docs/examples/10-at-a-time.c:173-178 | in flight + reported = started |
| TransferScheduler.Multi.Perform | planetariumfd/libCurl/7.19.3-win32-ssl-msvc/docs/examples/10-at-a-time.c:123-123 | the number of transfers still running; no transfer is lost or added |
| TransferScheduler.Scheduler.StartNext | planetariumfd/libCurl/7.19.3-win32-ssl-msvc/docs/examples/10-at-a-time.c:87-98 | the next URL in order is started, once |
| TransferScheduler.Scheduler.HandleMessage | planetariumfd/libCurl/7.19.3-win32-ssl-msvc/docs/examples/10-at-a-time.c:160-178 | a message is taken, a transfer started for it while URLs are left, and U stays the number running |
| TransferScheduler.Scheduler.HandleMessages | planetariumfd/libCurl/7.19.3-win32-ssl-msvc/docs/examples/10-at-a-time.c:160-178 | everything that had finished has been reported |
| TransferScheduler.Scheduler.Turn | planetariumfd/libCurl/7.19.3-win32-ssl-msvc/docs/examples/10-at-a-time.c:122-179 | each turn uses up part of the schedule or reports something |
| TransferScheduler.Scheduler.Run | planetariumfd/libCurl/7.19.3-win32-ssl-msvc/docs/examples/10-at-a-time.c:100-185 | the loop ends; with completions as the only messages the most transfers ever in flight are exactly MAX; unless waiting fails, every URL was started once, in order, and reported once, and nothing is in flight |
| TransferScheduler.InFlight | planetariumfd/libCurl/7.19.3-win32-ssl-msvc/docs/examples/10-at-a-time.c:160-178 | between two messages exactly min(URLs left, MAX) transfers are in flight, plus one for each message that is no completion |
| DumpLines.SplitThenJoin | planetariumfd/libCurl/7.19.3-win32-ssl-msvc/docs/examples/debug.c:48-52 | the segments joined by CRLF are the buffer |
| DumpLines.SegmentsHaveNoCrlf | planetariumfd/libCurl/7.19.3-win32-ssl-msvc/docs/examples/debug.c:48-52 | no segment has a CRLF inside |
| DumpLines.LinesFromIsLinesOf | planetariumfd/libCurl/7.19.3-win32-ssl-msvc/docs/examples/debug.c:34-62 | the lines found from left to right are the CRLF-separated segments wrapped at the width, without an extra line for a CRLF at the width |
| DumpLines.WrapBack | planetariumfd/libCurl/7.19.3-win32-ssl-msvc/docs/examples/debug.c:50-57 | setting the index back by the width, even below zero, is undone when the width is added |
| DumpLines.HexShowsEverything | planetariumfd/libCurl/7.19.3-win32-ssl-msvc/docs/examples/debug.c:38-45 | the buffer can be read back from the hexadecimal columns |
| DumpLines.HexLinesAre | planetariumfd/libCurl/7.19.3-win32-ssl-msvc/docs/examples/debug.c:34-61 | each line has its offset, its sixteen columns and its characters |
| DumpLines.LinesFromTile | planetariumfd/libCurl/7.19.3-win32-ssl-msvc/docs/examples/debug.c:34-62 | the text lines show the whole buffer but its CRLFs, each line beginning where the one before ends |
| DumpLines.TextOfByte | planetariumfd/libCurl/7.19.3-win32-ssl-msvc/docs/examples/debug.c:48-59 | the body of the inner loop, with its two ways to break out |
| DumpLines.TextOfLine | planetariumfd/libCurl/7.19.3-win32-ssl-msvc/docs/examples/debug.c:47-60 | the characters of one text line and where the next begins |
| DumpLines.Dump | planetariumfd/libCurl/7.19.3-win32-ssl-msvc/docs/examples/debug.c:18-64 | all lines, in both modes, for every buffer: in hexadecimal sixteen columns a line with the bytes as characters beside them; as text, lines that follow on each other up to a CRLF, the width or the end; a byte from 0x20 up to 0x7f is itself, any other a dot |

## Left out

- Image and video work, windows, detection: a frame is its id and a detection an integer box; whether a picture can be written is an input.
- `smoothFaceSeries2`, logging, `numRequiredFrames`, `faceStats`, the frame-rate estimate, date strings, configuration, the registration of output files: not compiled, or with nothing to prove.
- Floating-point rounding: convolution, interpolation and distances are over `real`; the height of a face uses the first three of the seven equal taps, as in the code.
- Overflow of `int` in areas, coordinates and byte counts; the conversion of `size_t` to `int` in `fill_buffer`.
- The time that a pass or a frame takes: the number of frames that arrive during a pass is the only measure of time in the protocol.
- How a trie is built (`trie_insert`, `ac_trie_prepare`): `AhoCorasick.Trie.Valid` states what the scan needs; the 16-bit width of the depth mark is not modelled.
- The FILE branches of `fopen.c`, `url_rewind`, `url_fclose`, and transfers that never end: a schedule is finite.
- UrlStream.UrlFile.FillBuffer: every realloc succeeds; a failing one is modelled in `UrlStream.UrlFile.WriteCallback` only, since what the transfer library does with a short count is its own.
- SaverWalk.SaveImages: the history stays as it is during the loop; `SaverRuns.WalkIsFaithful` is the statement for a history that changes.
- SaverWalk.SaveVideo: as for SaveImages.
- TransferScheduler.Scheduler.Run: messages other than completions are modelled because the program has a branch for them, but this library never sends one (curl/multi.h:77-80).
- AtomicOps.Cell.Add: what the other threads put into the cell is a list, one value before each access; the theorems about any number of threads are those on the transition system.
- Hardware memory order; the native exchange-add of Windows; 8-, 16- and pointer-sized operations.
- `skip_trailing_space` for 8-byte words; the model has the 4-byte ones.
- The contents of the transfers and the time of waiting in the scheduler; CNT is at least MAX, as in the program.
- DumpLines.Dump: the heading line with the size and the column layout of numbers.
- The other example programs, the PHP service, process plumbing, and the headers that only declare functions.
