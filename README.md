# Minima hopping controller, modelled in Dafny

This project models the search-and-archive controller of the minima hopping code, the
`Minimahopping` class of `src/python/mh.py`. One run does the following:

1. It merges the caller's keyword settings over a table of defaults.
2. At start-up it either resumes a previous run from its output files or relaxes the given structure.
3. It hops `totalsteps + 1` times. Each hop runs these steps in turn:
   - the escape loop: softened MD plus relaxation, repeated and heated while it keeps landing on the start;
   - the accept/reject rule with its adaptive threshold `Ediff`;
   - the novelty lookup in the energy-sorted archive;
   - the temperature feedback;
   - the archive update;
   - the snapshots of the lowest once-visited minima;
   - one history line.
4. It stops early when a wall-clock budget given as `D-HH:MM:SS` runs out.

Files and modules:

| file | module | what it holds |
|---|---|---|
| `minimahopping.dfy` | `MinimaHopping` | the controller as a class `Minimahopping` whose fields are the search state (temperature, `Ediff`, counters, tag, the candidate, archive, unique and accepted lists, the history log); start-up as functions plus the methods that compute them |
| `escape.dfy` | `Escape` | the escape loop as a chain of attempts: how many attempts it makes, the counters, the temperature boosts and the lines it logs |
| `acceptance.dfy` | `Acceptance` | the accept/reject pass over the candidates |
| `novelty.dfy` | `Novelty` | the visit count of the novelty lookup as written, and a corrected lookup (see Findings) |
| `archive.dfy` | `Archive` | bisection, sorted insertion after equal energies, the restart sort, the snapshot selection and its file names |
| `fingerprint.dfy` | `Fingerprint` | the fingerprint distance and its cost matrix |
| `fpfile.dfy` | `FingerprintFile` | the text layout of `fp.dat` (writer and reader) |
| `runtime.dfy` | `RunTime` | the budget parser and the elapsed-time split |
| `settings.dfy` | `Settings` | the defaults table and the keyword merge |
| `history.dfy` | `History` | the fractions of a history line |
| `structures.dfy` | `Structures` | structures, descriptors, archive records, the species filter |
| `decimal.dfy` | `Decimal` | decimal digit strings |
| `powers.dfy` | `Powers` | powers of a real factor |
| `results.dfy` | `Results` | `Option` and `Result` |

Collaborators the controller calls but does not define are parameters (the `Physics` and `Numerics` values):

- the MD/softening/relaxation step;
- the local optimiser;
- the normalised fingerprint distance;
- `np.log`, `np.sqrt`, `np.linalg.norm`;
- the linear-sum assignment.

A structure carries its energy and its fingerprint as fields. These are the answers of the calculator and of the fingerprint code. Archive records are ordered by potential energy alone.

## Model

| member | source | states |
|---|---|---|
| MinimaHopping.Minimahopping.constructor | src/python/mh.py:56-68 | the controller starts from the given structure and merged settings, at temperature `T0` and threshold `Ediff0`, with the hop counter at 0 |
| Settings.Merge | src/python/mh.py:56-63 | the merge fails exactly when some keyword names no setting, and the error names such a keyword of the call; otherwise every setting holds the value passed for it, or its default when none was passed |
| Settings.Named | src/python/mh.py:59-60 | a keyword names the setting with that spelling, or no setting has that spelling |
| Settings.Lookup | src/python/mh.py:63 | no value exactly when no argument has that keyword; a value found is one passed under that keyword |
| Settings.FirstUnknown | src/python/mh.py:59-61 | none exactly when every keyword is known; otherwise the first unknown keyword in call order, with every keyword before it known |
| Settings.MergeNothing | src/python/mh.py:62-63 | with no keyword arguments every setting keeps its default |
| Settings.MergeRejectsMisspelt | src/python/mh.py:59-61 | a misspelt keyword is rejected by name even when a valid keyword precedes it |
| Settings.MergeOverrides | src/python/mh.py:62-63 | a keyword overrides its own default and leaves the other settings at their defaults |
| Settings.ToConfig | src/python/mh.py:62-63 | each of the 23 fields of the typed settings is the value of its setting (an integer read as a real where a real is used) |
| Settings.DefaultsWellTyped | src/python/mh.py:30-54 | every default has the kind of value its setting is used as |
| Settings.DefaultConfig | src/python/mh.py:31-36 | the defaults give `T0` = 2000, `Ediff0` = 0.01, `alpha_a` = 0.95, `alpha_r` = 1.05 |
| Settings.DefaultGates | src/python/mh.py:41-53 | the defaults give two positive novelty gates, `n_poslow` = 30, no exclusions and the unlimited run time `infinit` |
| MinimaHopping.Minimahopping.Run | src/python/mh.py:70-117 | start-up errors end the run with start-up's error. Otherwise the archive and counter invariants hold at the end and no hop before the last found the budget exceeded. A run cut short stopped at the first hop over a limited budget, at most `totalsteps + 1` hops in. A completed run did `totalsteps + 1` hops from a zero counter and reports `totalsteps` with the floor of the elapsed time split into D/H/M/S |
| MinimaHopping.Minimahopping.Hops | src/python/mh.py:72-111 | the hop loop keeps the archive and counter invariants; it ends either at the first hop after which a limited budget is exceeded or with the counter at `totalsteps + 1` |
| MinimaHopping.Minimahopping.Hop | src/python/mh.py:76-90 | one hop: the escape's attempt count is the first count that passes both gates; the minima found grow by that count and the repeats by one less; the new minimum is counted once as known or new. It adds one archive record and `attempts + 1` history lines, the last tagged with the hop's verdict (Accepted or Rejected). It continues from the current minimum and keeps the sorted-archive invariant and the counter invariant |
| MinimaHopping.Minimahopping.HopEscape | src/python/mh.py:76 | the escape of a hop takes the first attempt count that passes both gates, at least one. The minima found grow by that count and the repeats by one less. One line per attempt is logged after the old ones. The fingerprint is a vector or a matrix. The new minimum is the structure the last attempt leaves, at the temperature raised once per repeat, and it joins the candidates |
| MinimaHopping.Minimahopping.EscapeDone | src/python/mh.py:291-379 | an escape of `attempts` passes makes at least one, adds `attempts` minima and `attempts - 1` repeats, and logs `attempts` lines after the old ones |
| MinimaHopping.Minimahopping.Judge | src/python/mh.py:79-81 | after judging, the tag is Accepted or Rejected, the hop step is counted and the new minimum has been seen at least once |
| MinimaHopping.Minimahopping.Keep | src/python/mh.py:85-90 | the new minimum is counted once as known or new. The temperature is raised for a known minimum (scaled by `1 + ln(visits)` with enhanced feedback) and lowered for a new one. A new minimum joins the kept minima, an accepted one the accepted minima. The archive gains exactly the hop's record and stays a sorted permutation. The history gains exactly the hop's line. The next hop starts from the current minimum and the hop counter rises by one |
| MinimaHopping.Minimahopping.Feedback | src/python/mh.py:85 | the temperature feedback counts the new minimum exactly once, as known or as new. The temperature is multiplied by `beta_increase` for a known minimum (and by `1 + ln(visits)` with enhanced feedback) and by `beta_decrease` for a new one. Only a new minimum joins the kept minima and has its fingerprint appended to `fp.dat` |
| MinimaHopping.Minimahopping.Store | src/python/mh.py:86-87 | an accepted minimum joins the accepted minima. The archive grows by the hop's record at its end, and the sorted archive is the old one with that record inserted after equal energies, a sorted permutation of the archive. The snapshots written are those of the once-visited selection of the new sorted archive |
| MinimaHopping.Minimahopping.HistoryLog | src/python/mh.py:509-526 | one history line with the current energy, visit count, temperature, threshold, counters and tag is appended, then the visit count is cleared |
| MinimaHopping.Minimahopping.HopLog | src/python/mh.py:384-385 | the hop step counter rises by one |
| MinimaHopping.Minimahopping.Escape | src/python/mh.py:287-381 | the attempt count is the first count at which both gates are passed. The state is the one the attempt chain leaves, closed by an `Inter` line. The new minimum is appended to the candidates. The boosted temperature is kept |
| MinimaHopping.Minimahopping.EscapeLoop | src/python/mh.py:298-372 | the loop stops at the first attempt count that passes both gates, in the state the attempt chain leaves after that many attempts |
| MinimaHopping.Minimahopping.EscapePass | src/python/mh.py:300-371 | pass i moves the state one link down the attempt chain and computes the gauges of attempt i against the start |
| MinimaHopping.Minimahopping.Conclude | src/python/mh.py:377-379 | after the loop, the new minimum joins the candidates and is logged as `Inter` |
| MinimaHopping.Minimahopping.RepeatStep | src/python/mh.py:300-304 | from the second pass on, a repeat is counted, logged as `Same`, and the temperature multiplied by 1.05 |
| MinimaHopping.Minimahopping.AttemptStep | src/python/mh.py:308-372 | one attempt from the structure at hand, at the current temperature and time step, replaces structure, time step, noise and fingerprint and counts a minimum |
| MinimaHopping.Minimahopping.AccRejStep | src/python/mh.py:393-408 | the threshold, current minimum, tag and candidate list are those the in-order pass over the candidates leaves, judged against the current energy captured before the loop |
| MinimaHopping.Minimahopping.InHistoryFp | src/python/mh.py:419-460 | the returned count is the as-written lookup count (`Novelty.Count`) for the sorted archive, with `start` the insertion point after equal energies |
| MinimaHopping.Minimahopping.AdjTemperature | src/python/mh.py:462-474 | exactly one branch is taken. A minimum seen more than once: known count +1, temperature times `beta_increase`, times `1 + log(n_visits)` with enhanced feedback. Otherwise: new count +1, temperature times `beta_decrease`, the minimum kept and its fingerprint appended to `fp.dat`. Nothing else changes |
| MinimaHopping.Minimahopping.UpdateData | src/python/mh.py:495-507 | the accepted list grows by the structure exactly when the tag is Accepted. The archive grows by the current record. The sorted archive is the old one with that record inserted after equal energies |
| MinimaHopping.Minimahopping.WritePoslow | src/python/mh.py:535-549 | the snapshots written are those of the selection `PoslowRecords` of the sorted archive, numbered in order |
| MinimaHopping.Minimahopping.Startup | src/python/mh.py:119-231 | start-up fails exactly when `Begin` fails, with its error. Otherwise the state is `Started` of the set-up: start structure as current minimum, restored archive and its sort, temperature and threshold, counters at the start, history closed by an `Initial` line. A limited budget holds the parsed seconds. The hop counter is unchanged |
| MinimaHopping.Minimahopping.StartedValid | src/python/mh.py:129-139 | the state start-up leaves satisfies the archive and counter invariants of the hop loop |
| MinimaHopping.Minimahopping.Install | src/python/mh.py:129-231 | the fields start-up sets are exactly those of `Started(b)` |
| MinimaHopping.Minimahopping.InstallStart | src/python/mh.py:228-231 | start structure and current minimum, temperature, threshold and counters as start-up leaves them, and the history closed by the `Initial` line |
| MinimaHopping.Minimahopping.InstallArchive | src/python/mh.py:129-134 | empty candidate, unique and accepted lists, the hop step at 0, and the restored archive with its sorted copy |
| MinimaHopping.Begun | src/python/mh.py:123-226 | computes `Begin`: a malformed limited budget is an error; then the restart decision; a restart resumes, a new run relaxes the given structure with an empty archive |
| MinimaHopping.BeginSorted | src/python/mh.py:206 | whatever start-up decides, its sorted archive is a sorted permutation of its archive |
| MinimaHopping.RestartDecision | src/python/mh.py:149-159 | an error exactly when one of `min.extxyz` and `history.dat` exists without the other; a restart exactly when both exist and no fresh start is asked for |
| MinimaHopping.Resumed | src/python/mh.py:161-219 | computes `Resume`: no stored structure is an error; else the last accepted (or last new) structure, the restored archive, then `Settle` |
| MinimaHopping.Settled | src/python/mh.py:201-219 | computes `Settle`: the start is re-optimised as the source does (twice when it is the last structure of `min.extxyz`), the archive sorted, the lowest record taken with `start_lowest`, temperature and threshold from the last history line; empty lists are errors |
| MinimaHopping.Restore | src/python/mh.py:175-198 | computes `RestoredRecords`: pairs `fp.dat` with `min.extxyz` when the file exists and no re-optimisation is asked, failing on a read error or a count mismatch; otherwise recomputes every fingerprint |
| MinimaHopping.PairRecords | src/python/mh.py:179-183 | the loop builds `Paired`: each stored structure with its fingerprint, one visit and the placeholder fields |
| MinimaHopping.RecomputeRecords | src/python/mh.py:187-198 | the loop builds `Recomputed`: each stored structure, re-optimised when asked, with its own fingerprint |
| MinimaHopping.StartLowestIsLowest | src/python/mh.py:206-208 | with `start_lowest`, a restart starts from a structure whose energy is at most that of every restored record |
| MinimaHopping.AliasedLowest | src/python/mh.py:206-208 | with `start_lowest` the first escape rewrites the head record of the sorted archive: it holds the escaped structure and its energy, and keeps its visit count, fingerprint and tag, while every other record is unchanged |
| MinimaHopping.AliasedLowestOrder | src/python/mh.py:206-208 | the rewritten archive stays sorted exactly when the escaped energy is no higher than the second record's |
| MinimaHopping.AliasedLowestExample | src/python/mh.py:206-208 | archive energies 0.0 and 1.0 and an escape to 2.0 leave the sorted archive out of order |
| MinimaHopping.RestoreReadsBack | src/python/mh.py:175-183 | a restart whose `fp.dat` holds what `_write_fp` appended, one fingerprint per stored structure, pairs every stored structure with its own fingerprint, provided each periodic fingerprint has one row per site of the start structure; that holds only when no site is excluded |
| MinimaHopping.RestoreReadsBackSelected | src/python/mh.py:261-269 | grouping the periodic lines by the number of sites the species filter keeps, a restart reads back every `fp.dat` the previous run wrote and pairs each stored structure with its own fingerprint |
| MinimaHopping.SelectedAgreesWhenNothingExcluded | src/python/mh.py:607-610 | when no site of the start structure is excluded, grouping by the kept sites and by `len(atoms)` restore the same archive |
| MinimaHopping.ExcludedRestartExample | src/python/mh.py:175-177 | two sites with one excluded and two stored one-row fingerprints: the restart reads one two-row fingerprint and fails the count assertion, while grouping by the kept sites reads both back |
| MinimaHopping.ScanDown | src/python/mh.py:431-444 | the backward loop counts what `Novelty.BackScan` counts and leaves its energy gap |
| MinimaHopping.ScanUp | src/python/mh.py:447-459 | the forward loop, inheriting the backward gap, counts what `Novelty.FwdScan` counts |
| Novelty.Count | src/python/mh.py:419-460 | the as-written count lies in [1, 1 + archive size], and is at most the archive size when the insertion point is inside the archive |
| Novelty.BackScan | src/python/mh.py:431-444 | the backward scan counts at most one match per index below its start |
| Novelty.FwdScan | src/python/mh.py:447-459 | the forward scan counts at most one match per index above its start, and nothing from the end |
| Novelty.StartNeverCompared | src/python/mh.py:433-451 | the record at the insertion point is never compared: changing it leaves the count unchanged |
| Novelty.ForwardNeedsFullBackward | src/python/mh.py:432-449 | the forward scan counts something only if every record below the insertion point lies inside the energy window, so the backward scan ran through index 0 |
| Novelty.NeighbourBelowCounted | src/python/mh.py:434-444 | the record just below the insertion point is compared whatever its energy gap, so a match there makes the count at least 2 |
| Novelty.WindowCount | src/python/mh.py:419-460 | the corrected count lies in [1, 1 + archive size] |
| Novelty.WindowCountIsWindow | src/python/mh.py:419-460 | on a sorted archive with the insertion point after equal energies, the corrected count is one plus exactly the matches inside the energy window |
| Novelty.WindowCountMonotone | src/python/mh.py:419-460 | any archived match inside the energy window makes the corrected count at least 2 |
| Novelty.SkippedNeighbourExample | src/python/mh.py:448-451 | as written, a match at the insertion point is missed: count 1 where the corrected count is 2 |
| Novelty.ComparedPastWindowExample | src/python/mh.py:434-444 | as written, the first record outside the window is compared and counted: count 3 where the corrected count is 2 |
| Novelty.StaleGapExample | src/python/mh.py:447-449 | as written, the forward scan inherits the backward scan's stopping gap and misses matches above: count 2 where the corrected count is 4 |
| Escape.FirstEscapeOf | src/python/mh.py:298 | an escape that ends has a first attempt count that passes both gates |
| Escape.FirstEscapeExists | src/python/mh.py:298 | an attempt count that passes both gates bounds a first one |
| Escape.FirstEscapeUnique | src/python/mh.py:298 | the attempt count of the loop is determined |
| Escape.EscapeCheck | src/python/mh.py:298 | up to the first escape, the loop condition fails exactly at the first escape |
| Escape.AttemptsAtLeastOnce | src/python/mh.py:291-298 | the loop attempts nothing exactly when neither gate is positive: both gauges start at 0 |
| Escape.StepsCounters | src/python/mh.py:300-304 | after k passes: k-1 repeats counted, the temperature boosted k-1 times, the threshold and known count unchanged, the tag `Same` and the visit count cleared once a repeat happened |
| Escape.StepsAttempts | src/python/mh.py:308-365 | after k passes the structure, time step, noise and fingerprint are those of attempt k-1 |
| Escape.StepsHistory | src/python/mh.py:300-303 | k passes log one line per repeat after the old history |
| Escape.RepeatLogged | src/python/mh.py:300-303 | pass k-1 logs repeat k-1 |
| Escape.RepeatLinesAt | src/python/mh.py:300-304 | repeat j's line is tagged `Same` and carries the temperature of attempt j-1 |
| Escape.StepsGauges | src/python/mh.py:363-367 | the gauges after k passes are the distance and energy gap of the latest structure to the start |
| Escape.HeatedPower | src/python/mh.py:295-304 | i boosts multiply the temperature by 1.05 to the i-th power |
| Escape.HeatedPositive | src/python/mh.py:304 | boosting keeps a positive temperature positive |
| Escape.HeatedRises | src/python/mh.py:304 | later attempts run strictly hotter |
| Escape.AttemptShaped | src/python/mh.py:363-365 | every attempt's fingerprint is a vector or a matrix when the relaxation always yields one |
| Acceptance.PassStep | src/python/mh.py:399-406 | each candidate multiplies the threshold by the factor of its own verdict |
| Acceptance.PassScale | src/python/mh.py:396-406 | the threshold after k candidates is the initial one scaled by their verdicts in order |
| Acceptance.PassThreshold | src/python/mh.py:396-406 | the threshold after k candidates is the initial one times `alpha_a` per acceptance and `alpha_r` per rejection |
| Acceptance.PassThresholdPositive | src/python/mh.py:396-406 | positive factors keep a positive threshold positive |
| Acceptance.PassTag | src/python/mh.py:396-407 | the final tag is the verdict on the last candidate; no candidate changes nothing |
| Acceptance.PassClears | src/python/mh.py:396-403 | the candidate list is emptied when some candidate is accepted and left as it was otherwise |
| Acceptance.PassCurrent | src/python/mh.py:396-401 | the current minimum is the last accepted candidate, or the old one when all are rejected |
| Acceptance.CurrentStep | src/python/mh.py:399-401 | one more candidate replaces the current minimum exactly when it is accepted |
| Acceptance.SingleAcceptExample | src/python/mh.py:399-403 | with the defaults, one candidate within 0.01 is accepted and the threshold becomes 0.0095 |
| Acceptance.UpdatedThresholdExample | src/python/mh.py:396-408 | a rejection raises the threshold that the next candidate is judged against |
| Archive.UpperBound | src/python/mh.py:426 | the insertion point after equal energies splits the sorted archive into keys at most e and keys above e |
| Archive.UpperBoundUnique | src/python/mh.py:426 | the insertion point is the only index making that split |
| Archive.Bisect | src/python/mh.py:426 | binary search returns the insertion point after equal energies |
| Archive.Insort | src/python/mh.py:507 | sorted insertion keeps the order, adds exactly the record (as a multiset) and places it after every equal key |
| Archive.InsertAt | src/python/mh.py:507 | inserting at that point is sorted, a permutation with the record added, and shifts the records above it by one |
| Archive.InsortAll | src/python/mh.py:206 | the stable sort by energy is sorted and a permutation |
| Archive.SortByEnergy | src/python/mh.py:206 | the restart sort returns the stable energy sort, sorted and a permutation |
| Archive.FirstIsLowest | src/python/mh.py:206-208 | the head of the sorted archive has the lowest energy of all records |
| Archive.UniquesMembers | src/python/mh.py:537-538 | the once-visited records are exactly the archive's records with one visit |
| Archive.UniquesSorted | src/python/mh.py:537-538 | the once-visited records of a sorted archive are sorted |
| Archive.PoslowRecords | src/python/mh.py:535-549 | the snapshot selection holds at most `n_poslow + 2` once-visited archive records (at most one when `n_poslow < -1`) |
| Archive.PoslowLowest | src/python/mh.py:535-549 | the selection is a sorted prefix of the once-visited records, none of which outside it lies below one inside |
| Archive.WritePoslow | src/python/mh.py:535-549 | the loop writes exactly the snapshots of the selection, the i-th under index i |
| Archive.PoslowStop | src/python/mh.py:547-548 | when the loop breaks, what it wrote is the selection |
| Archive.PoslowComplete | src/python/mh.py:537-548 | when the loop runs to the end, what it wrote is the selection |
| Archive.SnapshotsWritten | src/python/mh.py:536-546 | the i-th snapshot holds the i-th selected record under index i |
| Archive.SnapshotPathsDistinct | src/python/mh.py:539-544 | `min` + six-digit index + extension names different indices differently |
| Archive.SnapshotFilesDistinct | src/python/mh.py:539-545 | the snapshots of one pass go to pairwise different files |
| Decimal.ZFill6 | src/python/mh.py:539 | `zfill(6)` yields the digits of the index, preceded by exactly as many zeros as bring it to six characters, and none when it already has six or more |
| Decimal.ZFill6Width | src/python/mh.py:539 | a snapshot index is six characters wide exactly when it is below a million; larger indices are written unpadded |
| Decimal.ZFill6Example | src/python/mh.py:539 | index 5 is written `000005` and index 123456 `123456` |
| RunTime.Split | src/python/mh.py:251-252 | `split` yields at least one piece |
| RunTime.ParseInt | src/python/mh.py:253 | `int` accepts exactly a non-empty run of decimal digits, optionally signed, with white space around it allowed |
| RunTime.ParseIntPadded | src/python/mh.py:253 | white space before and after a number does not change what `int` reads |
| RunTime.ParseDigits | src/python/mh.py:253 | a plain run of digits reads as its decimal value |
| RunTime.ParseIntSpaced | src/python/mh.py:253 | the fields `00 ` and ` 2` read as 0 and 2 |
| RunTime.Fields | src/python/mh.py:251-253 | the conversion succeeds only with exactly three `h:m:s` pieces |
| RunTime.GetSecFields | src/python/mh.py:249-253 | `D-H:M:S` of digit runs reads as `D*86400 + H*3600 + M*60 + S` |
| RunTime.GetSecFormat | src/python/mh.py:249-253 | reading a budget formatted as `D-HH:MM:SS` gives `D*86400 + HH*3600 + MM*60 + SS` seconds |
| RunTime.GetSecRejectsInfinit | src/python/mh.py:124-125 | `infinit` read as a budget is a wrong field count |
| RunTime.SplitElapsed | src/python/mh.py:104-111 | the split recombines to the elapsed seconds, with hours below 24 and minutes and seconds below 60 |
| RunTime.SplitElapsedRoundTrip | src/python/mh.py:104-111 | the split is the inverse of `_get_sec`: formatting it and reading it back gives the elapsed seconds |
| History.FractionsPartition | src/python/mh.py:510-512 | with every minimum but the start counted once, the fractions are proportions and the unique fraction is the share of new minima counting the start |
| History.FractionsBounded | src/python/mh.py:510-512 | during an escape the fractions stay within [0, 1] |
| FingerprintFile.WriteNumbers | src/python/mh.py:481-483 | the numbers of one row are written without a newline |
| FingerprintFile.ReadFp | src/python/mh.py:256-282 | the reader loop computes `ParseFp`: one vector per line, or every `len(atoms)` lines grouped into one matrix |
| FingerprintFile.ReadWriteRoundTrip | src/python/mh.py:477-490 | reading back what `_write_fp` appended gives the same fingerprints, for periodic runs when each has exactly the number of rows the reader groups by |
| FingerprintFile.RowBoundariesUnwritten | src/python/mh.py:478-483 | periodic fingerprints holding the same rows in the same order are written as the same text, so the file does not record where one ends |
| FingerprintFile.TrailingGroupDropped | src/python/mh.py:269-272 | a trailing incomplete group of lines is dropped |
| FingerprintFile.GroupStep | src/python/mh.py:269-272 | a line closes a group exactly when `(i+1) % nat == 0` |
| FingerprintFile.NumbersWritten | src/python/mh.py:264-266 | the numbers of a written row read back unchanged |
| FingerprintFile.ReadWrittenRows | src/python/mh.py:262-268 | written rows read back line by line as the same rows |
| Fingerprint.FpDistance | src/python/mh.py:632-661 | the distance is defined exactly for compatible descriptors: different dimensionality, rank 3 or more, or 2-D descriptors with different row counts are errors; two vectors give the norm of their difference |
| Fingerprint.Sub | src/python/mh.py:652 | `a - b` with numpy broadcasting of a length-1 operand |
| Fingerprint.CostMatrix | src/python/mh.py:663-681 | succeeds exactly for equal row counts whose rows can be subtracted; then an n-by-n matrix whose (i, j) entry is the distance between row i of the first and row j of the second |
| Fingerprint.SameShapeCompatible | src/python/mh.py:644-651 | two descriptors of the run's shape can always be compared |
| Fingerprint.DistanceToSelf | src/python/mh.py:651-659 | under the oracles' laws, a descriptor is at distance zero from itself |
| Fingerprint.FpDistanceNonNegative | src/python/mh.py:651-659 | under the norm's laws and a non-negative root, every distance is at least zero, for vectors and for matrices |
| Fingerprint.FpDistanceSymmetricVectors | src/python/mh.py:651-652 | two vectors are equally far apart in either order, and fail alike, when the norm ignores the sign |
| Fingerprint.MatrixDistance | src/python/mh.py:653-659 | two matrices with matching row counts and comparable rows are at the root of the summed squares over the oracle's assignment, which is a permutation |
| Fingerprint.MatrixTieExample | src/python/mh.py:653-659 | for matrices the distance need not be symmetric: rows [0], [1] against [2], [3] tie at cost 4 under both matchings, and an oracle answering each order differently gives roots of 8 and 10 |
| Fingerprint.ZeroCostMatchesEqualRows | src/python/mh.py:655-659 | an assignment of zero cost matches identical rows, so the reported sum of squares is zero |
| Fingerprint.IdentityCostZero | src/python/mh.py:675-679 | matching every row with itself costs nothing |
| Structures.Ndim | src/python/mh.py:644-645 | the dimensionality is 1 exactly for vectors and 2 exactly for matrices |
| Structures.SelectSites | src/python/mh.py:607-610 | the species filter keeps exactly the sites whose symbol is not excluded |
| Structures.SelectSitesKeepsOrder | src/python/mh.py:607-610 | the filter keeps the order of the kept sites |

## Left out

- Physics: MD, softening, the optimiser, the OMFP fingerprint and the calculator are oracles (`Physics.relax`, `Physics.opt`, the fingerprint and energy fields of a structure). `_restart_opt` (lines 239-247) is the oracle `opt`.
- `_get_OMFP` (lines 551-630) is not modelled beyond its species filter (`SelectSites`), including its mixed boundary assertion. A periodic fingerprint is taken to have one row per site the filter keeps. That count is what `RestoredSelected` groups `fp.dat` by.
- MinimaHopping.RestoreReadsBack: the round trip is promised only when every periodic fingerprint has one row per site of the start structure, which fails whenever `exclude` names a species present in it. `ExcludedRestartExample` and the finding below cover that case.
- The normalised distance `fp_distance(a, b) / rows(b)` used by the escape loop and the lookup is the oracle `Physics.dist`. It is not tied to `Fingerprint.FpDistance`.
- `np.linalg.norm`, `np.sqrt`, `np.log` and `linear_sum_assignment` are oracles, and reals stand in for floating point.
- Fingerprint.FpDistance: symmetry is stated for vectors only (`FpDistanceSymmetricVectors`). For matrices it depends on how `linear_sum_assignment` breaks ties, which is not modelled, and `MatrixTieExample` shows two least-cost answers that give different distances in the two orders.
- The random Maxwell-Boltzmann velocities (line 308) and the cell velocities (line 313) are not drawn. The `relax` oracle is instead indexed by the attempt's draw number, `n_min` plus the attempt, so a repeated attempt may land elsewhere. `AlwaysEscapes` is a property of that oracle and stands in for the randomness that makes the source's escape loop end in practice.
- Extended-XYZ files are not modelled as files:
  - the structures a previous run stored in `acc.extxyz` and `min.extxyz` are inputs (`Disk`);
  - the appends to `acc.extxyz` (lines 226, 498), `min.extxyz` (line 473) and `locm.extxyz` (line 369) are not modelled;
  - the snapshot writes are the list of `Snapshot` values with their file names (`PathOf`).
- `history.dat` is a list of `Line` values holding the numbers, not the formatted text (lines 514-521). A restart therefore reads the last temperature and threshold exactly, not rounded to five decimals.
- FingerprintFile.WriteFp: chooses the layout by the fingerprint's kind, while the source (line 479) chooses it by `pbc`. The two agree because a periodic structure has a matrix fingerprint and any other structure a vector one.
- `fpFile` holds what this run appended to `fp.dat`, not the file's earlier contents.
- `print`, `warnings` and `_check_energy_threshold` (lines 529-532, a warning only) are left out, as are the directory creation and file-existence probes, which are inputs (`Disk`).
- Time: the clock is a parameter. `elapsed(c)` is the elapsed time after c hops, and `finalElapsed` the elapsed time at the end. The final split works on the floor of a non-negative elapsed time, which is what `int()` of Python's float `//` and `%` gives there.
- RunTime.ParseInt: reads ASCII digits with ASCII white space around them. Python's `int` also accepts single underscores between digits (`1_000`), other Unicode decimal digits and Unicode white space, which are not modelled.
- `run_time is not "infinit"` compares identity in the source. It is modelled as string inequality.
- The budget string is parsed once, when the controller is built (`budget`), and used only when the run time is limited. This is the value `_get_sec` gives at start-up, because the settings never change.
- `totalsteps` is a natural number. The default `None` fails in the source's loop test and is not modelled.
- MinimaHopping.Minimahopping.Run: requires that every escape loop ends (`AlwaysEscapes`). Otherwise the source loops forever.
- MinimaHopping.Minimahopping.Run: requires that some gate is positive (`Gated`). With both gates at or below zero, the escape loop never runs and `_fp` is never set before the lookup reads it (an `AttributeError` in the source).
- MinimaHopping.Minimahopping.Hop: states counts, lengths, prefixes and the final tag of the hop; the exact values are stated by the methods it calls (`Escape`, `AccRejStep`, `InHistoryFp`, `AdjTemperature`, `UpdateData`, `HistoryLog`).
- MinimaHopping.Minimahopping.HopEscape: states the attempt count, the counters, the history prefix, the fingerprint's shape, the new minimum and the temperature. The time step, the noise, the tag, the visit count and the text of the logged lines are stated by `Escape` and `EscapeDone`, which it calls.
- MinimaHopping.Minimahopping.Keep: states the counts, the temperature, the kept, accepted and archived records and the history line. The sorted position of the record, the `fp.dat` append and the snapshots are stated by `Feedback` and `Store`, which it calls.
- MinimaHopping.Minimahopping.Judge: states the tag, the hop step and a positive visit count; the exact threshold, current minimum and count are stated by `AccRejStep` and `InHistoryFp`.
- Settings.ToConfig: requires each setting to hold the kind of value it is used as (`WellTyped`). The source takes any Python value (a float `n_poslow`, an integer `enhanced_feedback`), and such values are not modelled.
- MinimaHopping.Minimahopping.constructor: takes the typed settings (`Config`), which `Settings.Merge` followed by `Settings.ToConfig` gives for the keyword call. No member joins the keyword call and the constructor into one step.
- `deepcopy` and aliasing: structures and records are values, so copies and shared objects are not distinguished. The one alias that changes the outcome, the start shared with the head of the sorted archive under `start_lowest`, is a finding below.
- The ordering of `Minimum` (not part of this model) is taken to compare potential energies only (`Key`).
- The final message reports `totalsteps` although a completed run from a zero counter does `totalsteps + 1` hops. `Run` states both as the source has them.

## Findings

| source | as written | input that shows it | evidently intended | confidence | as-written member | corrected member |
|---|---|---|---|---|---|---|
| src/python/mh.py:448-451 | the forward scan starts one past the insertion point, so the first record above the query energy is never compared | energies [0.5], all matching, query 0.0, threshold 1.0, insertion point 0: count 1 | compare upward from the insertion point itself: count 2 | high, not executed | Novelty.SkippedNeighbourExample | Novelty.WindowCountMonotone |
| src/python/mh.py:447-449 | the forward scan inherits the energy gap the backward scan stopped on, so it runs only when the backward scan reached index 0 | energies [-2.0, 0.0, 0.25, 0.5], matches [no, yes, yes, yes], query 0.0, threshold 1.0, insertion point 2: count 2 | each scan tests the gaps of its own records: count 4 | medium, not executed | Novelty.StaleGapExample | Novelty.WindowCountIsWindow |
| src/python/mh.py:434-444 | each scan compares a record before testing its energy gap, so the first record outside the energy window can be counted | energies [1.0, 2.0, 3.0], all matching, query 2.0001, threshold 0.01, insertion point 2: count 3 | count only matches inside the energy window: count 2 | low, not executed | Novelty.ComparedPastWindowExample | Novelty.WindowCountIsWindow |
| src/python/mh.py:261-269 | `_read_fp` groups the lines of a periodic `fp.dat` by `len(self._atoms)`, but the fingerprints written there have one row per site not excluded (lines 607-618), so with `exclude` the groups straddle fingerprints | a periodic run of two sites, one excluded, two stored structures: `fp.dat` holds two one-row fingerprints, read back as one two-row fingerprint, and the assertion at line 177 fails | group by the number of sites the species filter keeps | medium, not executed | MinimaHopping.ExcludedRestartExample | MinimaHopping.RestoreReadsBackSelected |
| src/python/mh.py:206-208 | with `start_lowest` the start is the head record's own structure, and the first escape moves it in place (lines 308-359), so the head of the sorted archive takes the escaped structure and energy, still paired with the old fingerprint, and the lookup (line 440) and the snapshots (line 545) read it from there | a restart with `start_lowest`, archive energies [0.0, 1.0], first escape landing at energy 2.0: the sorted archive reads [2.0, 1.0] | start from a copy of the lowest record and leave the archive sorted | medium, not executed | MinimaHopping.AliasedLowestOrder | MinimaHopping.Minimahopping.Hop |

The controller model keeps the lookup as written (`InHistoryFp` computes `Novelty.Count`), because the temperature feedback and the archive records depend on the count it returns. The corrected lookup is `Novelty.WindowCount`. It counts the query plus exactly the fingerprint matches inside the energy window.

The controller model restores the archive as written (`Resume` calls `RestoredRecords`, grouping by `len(atoms)`). The corrected restore is `RestoredSelected`, which groups by the sites the species filter keeps; both share `RestoredGrouped`.

The controller model starts from the lowest record as a value (`Settle`), so the escape leaves the sorted archive as it was and `Hop` keeps it sorted. `AliasedLowest` is the archive as the source leaves it.
