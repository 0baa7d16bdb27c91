# Event photo face matching, modelled in Dafny

The repository sorts the photos of an event by guest. Each guest uploads
selfies into `selfies/<guest e-mail>/`. The event photos sit in `photos/`. A
matcher copies every photo in which it recognises a guest into
`matched/<guest e-mail>/`. Three matchers do this, each with its own
decision rule:

- `enhanced_face_match.py`, `EnhancedFaceProcessor`. It works with
  face_recognition encodings:
  - Every face of every photo is ranked against each guest's centroid and
    raw selfie vectors, keeping the per-guest minimum distance.
  - A strict test is applied first, then a relaxed one. Both use thresholds
    that tighten for group photos and loosen when there is a single guest.
  - An optional CNN re-check can veto an acceptance.
  - A rejected face that is still within 0.90 is saved under `candidates/`.
  - A second pass picks, for each guest with at least 5 bootstrap items
    (pass-1 faces ranked first for that guest within 0.80), the photos of
    the 30 closest items. It encodes every face of each of those photos that
    loads, builds a refined centroid from all of them, then matches every
    photo again against the refined centroids.
  - `_unique_path` finds a free numbered file name.
- `deepface_match_fixed.py`, `DeepFaceProcessor`. For every guest folder and
  every photo, it tries the guest's verified selfies with `DeepFace.verify`
  until one reaches the similarity threshold.
- `fast_face_match.py`, `FastFaceProcessor`. For every guest folder and every
  photo, it calls `DeepFace.find` with the guest folder as database. The
  photo matches when a result row lies within the distance threshold.

## How it is modelled

- **Face-model calls are inputs.** The face-detection and face-recognition
  libraries become deterministic oracle parameters of the event datatypes
  (`Event`, `DeepEvent`, `FastEvent`):
  - image loading;
  - the distance of each face to each guest vector;
  - the CNN faces;
  - the distance to a refined centroid;
  - `Image.verify`;
  - `DeepFace.verify` and `DeepFace.find`.
- **Folders are listings.** The filesystem is given as listings (`Folders`,
  `Entry`).
- **Copies are sets.** The copies under `matched/` and `candidates/` are
  sets of (guest, file name) pairs that the processors' methods update in
  place. These methods are declared `modifies`.
- **One specification per loop.** Every loop of the modelled code is a
  `method` proved against a specification function (the layout loops
  `BuildFlatEmails` and `BuildRawEmails` against `FlatEmails` and
  `RawEmails`); the passes are specified by:
  - `Pass1Matches`, `Pass1Candidates`, `Pass1Boot`;
  - `Refined`, `Samples`, `Pass2Matches`;
  - `DeepMatches`, `FastMatches`.
- **Lemmas give the meaning.** Lemmas state what those functions mean: which
  pairs get copied, and why.

| file | module | models |
|---|---|---|
| `common.dfy` | `Common` | shared pieces: infinite distances, pathlib suffixes, `str.lower`, image filters, directory listings, `f"{i}"` |
| `enhanced_decision.dfy` | `EnhancedDecision` | the thresholds, per-guest minima, ranking, strict and relaxed tiers, re-check trigger, CNN confirmation, bootstrap selection |
| `enhanced_face_match.dfy` | `EnhancedFaceMatch` | `EnhancedFaceProcessor`: both passes, `_unique_path`, `validate_directories`, `run`, `main` |
| `enhanced_properties.dfy` | `EnhancedProperties` | what the two passes copy, stated without the loops |
| `deepface_match.dfy` | `DeepFaceMatch` | `DeepFaceProcessor`: the guest, photo and selfie loops, validation, `run`, `main` |
| `fast_face_match.dfy` | `FastFaceMatch` | `FastFaceProcessor`: the glob patterns, `validate_setup`, `process_guest`, `process_all_guests`, `run`, `main` |

## Model

| member | source | states |
|---|---|---|
| Common.Minus | enhanced_face_match.py:387 | `second_best - best_distance` is infinite exactly when the runner-up is `float('inf')`; otherwise adding back the best distance gives the runner-up |
| Common.Lower | enhanced_face_match.py:107 | `str.lower()` keeps the length and lower-cases each ASCII letter |
| Common.StemSuffixSplit | enhanced_face_match.py:77 | a name is its pathlib stem followed by its suffix |
| Common.ImageFiles | enhanced_face_match.py:112 | the photo list keeps exactly the listed names whose lower-cased suffix is an image extension |
| Common.ImageFilesConcat | enhanced_face_match.py:112 | the image filter keeps listing order: the images of a + b are those of a followed by those of b |
| Common.GuestDirs | enhanced_face_match.py:102-104 | the guest folders are exactly the directory entries of `selfies/` |
| Common.GuestDirsConcat | enhanced_face_match.py:102-104 | the guest folders keep listing order: those of a + b are those of a followed by those of b |
| Common.NoSelfiesIffNoImages | enhanced_face_match.py:102-120 | the selfie count is zero exactly when no guest folder holds a file with an image suffix |
| Common.CountSelfies | enhanced_face_match.py:98-109 | the counting loop yields the guest folders and the selfie count |
| Common.Decimal | enhanced_face_match.py:80 | `f"{i}"` is non-empty, and two digits or more from 10 on |
| Common.DecimalInjective | enhanced_face_match.py:80 | different numbers render as different strings |
| EnhancedDecision.RelaxedTolerance | enhanced_face_match.py:60 | the relaxed tolerance is the smaller of 0.78 and tolerance + 0.10 |
| EnhancedDecision.RelaxedMargin | enhanced_face_match.py:61 | the relaxed margin is the larger of 0.02 and margin / 2 |
| EnhancedDecision.EffectiveThresholds | enhanced_face_match.py:318-337 | the per-photo thresholds for under 5, 5 to 7 and 8 or more faces, their floors and caps, and, for each band, the single-guest values: the clamped tolerance raised to at least 0.66, the clamped relaxed tolerance raised to at least 0.70, both margins 0 |
| EnhancedDecision.GroupPhotosAreStricter | enhanced_face_match.py:318-331 | more faces never raise a tolerance or lower a margin |
| EnhancedDecision.AggregateIsPerGuestMinimum | enhanced_face_match.py:370-376 | `per_guest_min` gives each guest the smallest of its distances and keeps guests in first-seen order |
| EnhancedDecision.AggregateKeys | enhanced_face_match.py:371-376 | the keys are exactly the guests that occur among the entries, and the key order lists each of them once |
| EnhancedDecision.AggregateMinimum | enhanced_face_match.py:371-376 | each guest's stored value is at most each of its distances and equals one of them |
| EnhancedDecision.AggregateBound | enhanced_face_match.py:375-376 | the stored minimum of an entry's guest is at most that entry's distance |
| EnhancedDecision.AggregateAttained | enhanced_face_match.py:375-376 | a stored minimum is the distance of one of the guest's entries |
| EnhancedDecision.AggregateOrder | enhanced_face_match.py:371-376 | dictionary order is the order of first occurrence |
| EnhancedDecision.AggregateOrderAt | enhanced_face_match.py:371-376 | of two keys, the earlier one first occurs earlier |
| EnhancedDecision.ArgMinFirst | enhanced_face_match.py:563 | `np.argmin` picks a smallest value, and no earlier value is as small |
| EnhancedDecision.MinOf | enhanced_face_match.py:380 | the minimum is `float('inf')` exactly for no values; otherwise it is one of the values and not above any |
| EnhancedDecision.OthersMinimum | enhanced_face_match.py:378-380 | the runner-up is the smallest minimum among the other guests, infinite when there are none |
| EnhancedDecision.Rank | enhanced_face_match.py:377-380 | `ranked[0]` is a guest with the smallest minimum, and the first such in dictionary order (stable sort); `ranked[1][1]` is at least it, is another guest's minimum and is at most every other guest's, or is infinite with one guest |
| EnhancedDecision.FaceRanking | enhanced_face_match.py:369-380 | a face gets a ranking exactly when there is some vector |
| EnhancedDecision.FaceRankingIsClosestVector | enhanced_face_match.py:369-380 | the best guest owns the closest vector of all; the runner-up distance is the closest vector of any other guest |
| EnhancedDecision.PerGuestMin | enhanced_face_match.py:371-376 | the aggregation loop computes the per-guest minima in first-seen order |
| EnhancedDecision.Classify | enhanced_face_match.py:433-486 | strict when under the tolerance with margin (or single guest); relaxed only when not strict but under the relaxed pair; otherwise rejected |
| EnhancedDecision.CloserIsNeverWorse | enhanced_face_match.py:433-459 | a closer best match against the same runner-up never lands in a worse tier |
| EnhancedDecision.SingleGuestAcceptsCloseFaces | enhanced_face_match.py:332-337 | with one guest, a best distance under 0.66 is always a strict accept |
| EnhancedDecision.NeedRecheckIff | enhanced_face_match.py:389-393 | with Python's precedence, a re-check is due exactly when there is more than one guest, the image is not large, the re-check is enabled or the photo has 5 faces or more, and the best distance or the delta is within its padded threshold |
| EnhancedDecision.GroupPhotosForceRecheck | enhanced_face_match.py:389-393 | a photo of 5 faces or more with several guests is re-checked when its best match is close, even with `cnn_recheck` off |
| EnhancedDecision.NoRecheckWhenDisabled | enhanced_face_match.py:389-393 | with `cnn_recheck` off, a photo of fewer than 5 faces is never re-checked |
| EnhancedDecision.NoRecheckForLargeImagesOrSingleGuest | enhanced_face_match.py:389-393 | images of 3000 pixels or more, and single-guest runs, are never re-checked by CNN |
| EnhancedDecision.FaceRankings | enhanced_face_match.py:418-426 | one ranking per CNN face, each the ranking of that face's distances |
| EnhancedDecision.CnnFoldPicksClosestFace | enhanced_face_match.py:415-431 | the CNN loop answers with the first face whose best distance is strictly smallest, with that face's guest and runner-up |
| EnhancedDecision.CnnConfirmPicksClosestFace | enhanced_face_match.py:395-431 | `confirm_with_cnn` is not ok exactly when there is no CNN face; otherwise it picks the closest face, and it has no guest only when there is no vector |
| EnhancedDecision.CnnFace | enhanced_face_match.py:419-430 | one CNN face replaces the answer only when its best distance is strictly smaller |
| EnhancedDecision.ConfirmWithCnn | enhanced_face_match.py:415-431 | the loop over the CNN faces computes the answer of `confirm_with_cnn` |
| EnhancedDecision.DecideFace | enhanced_face_match.py:433-505 | accepted or candidate faces go to the best guest; a face is a candidate exactly when rejected with a non-empty guest within 0.90; only a strict or relaxed face is ever accepted, so the CNN re-check can only veto; without re-check, accepted exactly when not rejected; a strict or relaxed face is never plainly rejected: it is accepted or CNN-rejected; with re-check, a strict face is accepted exactly when CNN ran, agrees on the guest and is within max(tol, 0.01) and max(margin, 0), and a relaxed face exactly when CNN agrees and is within min(relaxed tol, tol + pad/2) and max(relaxed margin, margin/2) |
| EnhancedDecision.InsertByDistSorts | enhanced_face_match.py:527 | inserting into a sorted list keeps it sorted and adds exactly the item |
| EnhancedDecision.SortByDistSorts | enhanced_face_match.py:527 | `sorted(items, key=distance)` is sorted and a permutation of the items |
| EnhancedDecision.SortByDistIsStable | enhanced_face_match.py:527 | `sorted` is stable: the items at any one distance keep their input order, which decides which tied items `[:30]` keeps |
| EnhancedDecision.TopClosestIsClosest | enhanced_face_match.py:527 | `[:30]` keeps min(30, n) items in ascending distance, none farther than any item left out; kept plus left out are the items |
| EnhancedFaceMatch.FlatAndRawOwners | enhanced_face_match.py:349-361 | `flat_emails` and `flat_emails_cnn` hold exactly the guests with a vector; the first is never shorter, and one is empty exactly when the other is |
| EnhancedFaceMatch.CentroidAndRawOwner | enhanced_face_match.py:351-361 | a guest contributes entries exactly when it has a vector |
| EnhancedFaceMatch.FlatOwner | enhanced_face_match.py:349-361 | a guest owns an entry of `flat_emails` exactly when it has a vector |
| EnhancedFaceMatch.RawOwner | enhanced_face_match.py:401-412 | a guest owns an entry of `flat_emails_cnn` exactly when it has a vector |
| EnhancedFaceMatch.FlatLonger | enhanced_face_match.py:349-361 | the centroid adds an entry per guest with vectors, so `flat_emails` is at least as long, and empty only when `flat_emails_cnn` is |
| EnhancedFaceMatch.BuildFlatEmails | enhanced_face_match.py:349-361 | the loop lays out `flat_emails`: per guest its centroid (when `np.stack` succeeds), then its raw vectors |
| EnhancedFaceMatch.BuildRawEmails | enhanced_face_match.py:402-412 | the loop lays out `flat_emails_cnn`: every raw vector of every guest, guest by guest |
| EnhancedFaceMatch.RankedGuestIsAGuest | enhanced_face_match.py:371-379 | every face's best guest is a guest with a vector |
| EnhancedFaceMatch.NothingToMatch | enhanced_face_match.py:307-316 | a photo that does not load or has no face is skipped; with no vector (no guest loaded) the face loop stops at once |
| EnhancedFaceMatch.AllFaces | enhanced_face_match.py:366-368 | otherwise every face of the photo is examined, in order |
| EnhancedFaceMatch.BootItemFrom | enhanced_face_match.py:383-384 | a bootstrap item is a face of that photo ranked first for the guest, stored with its best distance |
| EnhancedFaceMatch.Pass1BootInRange | enhanced_face_match.py:301-384 | every bootstrap item comes from a photo already processed |
| EnhancedFaceMatch.Pass1Step | enhanced_face_match.py:303-516 | pass 1 copies photo by photo, on top of the earlier photos |
| EnhancedFaceMatch.BootedStep | enhanced_face_match.py:383-384 | `boot_candidates` after a photo is what it was plus that photo's items, for every guest |
| EnhancedFaceMatch.SampleInRange | enhanced_face_match.py:527-529 | the sample photos of a guest are photos of the event |
| EnhancedFaceMatch.RefinedSoFarIsRefined | enhanced_face_match.py:523-545 | after the last guest, the keys and samples built are `refined_vectors` |
| EnhancedFaceMatch.SamplesAre | enhanced_face_match.py:524-542 | one sample per refined guest, in key order |
| EnhancedFaceMatch.NoRefinedNoPass2 | enhanced_face_match.py:547 | without refined centroids pass 2 matches nothing |
| EnhancedFaceMatch.NoRefinedFacePass2 | enhanced_face_match.py:547 | without refined centroids pass 2 matches no face of a photo |
| EnhancedFaceMatch.Pass2Step | enhanced_face_match.py:549-580 | pass 2 proceeds photo by photo |
| EnhancedFaceMatch.FacePass2Step | enhanced_face_match.py:556-580 | pass 2 proceeds face by face within a photo |
| EnhancedFaceMatch.ParseArgs | enhanced_face_match.py:652-661 | usage unless 2 to 5 arguments; a crash when `float` or `int` rejects a given argument; otherwise the event path, tolerance (default 0.45), margin (default 0.10) and `cnn_recheck` (default true, else `int(...) != 0`) |
| EnhancedFaceMatch.DefaultLaunch | enhanced_face_match.py:652-662 | with the event path alone, the run uses 0.45 and 0.10 with re-check, so relaxed thresholds are 0.55 and 0.05 |
| EnhancedFaceMatch.NumberedInjective | enhanced_face_match.py:80 | different counters give different numbered names |
| EnhancedFaceMatch.UniquePath | enhanced_face_match.py:73-84 | the result is a free name: the name itself when free, else `stem_i.suffix` for the smallest i whose name is free |
| EnhancedFaceMatch.EnhancedFaceProcessor.constructor | enhanced_face_match.py:22-71 | the base thresholds with their relaxed pair, the re-check settings, empty record sets and zeroed statistics |
| EnhancedFaceMatch.EnhancedFaceProcessor.RecordMatch | enhanced_face_match.py:443-457 | the pair is copied and recorded only when absent from `matched/`; the pair is present afterwards |
| EnhancedFaceMatch.EnhancedFaceProcessor.SaveCandidate | enhanced_face_match.py:495-504 | the same for `candidates/` |
| EnhancedFaceMatch.EnhancedFaceProcessor.RankFace | enhanced_face_match.py:369-380 | the ranking of one face from its distances |
| EnhancedFaceMatch.EnhancedFaceProcessor.DecideOnFace | enhanced_face_match.py:386-505 | the face's fate is `FaceOutcome`, with the CNN re-check run only when needed |
| EnhancedFaceMatch.EnhancedFaceProcessor.CollectBoot | enhanced_face_match.py:383-384 | only the best guest's list grows, by the face's item when within the 0.80 cut-off |
| EnhancedFaceMatch.EnhancedFaceProcessor.ApplyMatch | enhanced_face_match.py:443-485 | an accepted face copies its pair under `matched/`, counted when new |
| EnhancedFaceMatch.EnhancedFaceProcessor.ApplyCandidate | enhanced_face_match.py:495-504 | a candidate face copies its pair under `candidates/` |
| EnhancedFaceMatch.EnhancedFaceProcessor.AdvanceBoot | enhanced_face_match.py:383-384 | `boot_candidates` after one more face |
| EnhancedFaceMatch.EnhancedFaceProcessor.RecordAction | enhanced_face_match.py:433-505 | the copies one face's fate calls for, counted when new |
| EnhancedFaceMatch.EnhancedFaceProcessor.MatchFace | enhanced_face_match.py:366-505 | one iteration of the face loop |
| EnhancedFaceMatch.EnhancedFaceProcessor.MatchFaces | enhanced_face_match.py:366-513 | the face loop of a photo copies what its faces' fates call for and collects their bootstrap items |
| EnhancedFaceMatch.EnhancedFaceProcessor.MatchPhoto | enhanced_face_match.py:303-316 | pass 1 on one photo, nothing when it does not load or shows no face |
| EnhancedFaceMatch.EnhancedFaceProcessor.PhotoStep | enhanced_face_match.py:303-518 | one iteration of the photo loop of pass 1 |
| EnhancedFaceMatch.EnhancedFaceProcessor.Pass1 | enhanced_face_match.py:300-519 | pass 1 copies exactly `Pass1Matches` and `Pass1Candidates` on top of what was there, counts the new matches, and leaves `boot_candidates` |
| EnhancedFaceMatch.EnhancedFaceProcessor.AccCount | enhanced_face_match.py:528-538 | `len(acc)`: the faces of every sample photo that loads |
| EnhancedFaceMatch.EnhancedFaceProcessor.KeepGuest | enhanced_face_match.py:524-539 | a guest is refined exactly when it has at least 5 bootstrap items and a non-empty `acc` |
| EnhancedFaceMatch.EnhancedFaceProcessor.RefineGuest | enhanced_face_match.py:524-545 | one iteration of the refinement loop |
| EnhancedFaceMatch.EnhancedFaceProcessor.RefineCentroids | enhanced_face_match.py:522-545 | the loop builds `refined_vectors`' keys and their sample photos |
| EnhancedFaceMatch.EnhancedFaceProcessor.PickRefined | enhanced_face_match.py:557-566 | the pass-2 choice for one face |
| EnhancedFaceMatch.EnhancedFaceProcessor.RematchFace | enhanced_face_match.py:556-580 | one face of pass 2 |
| EnhancedFaceMatch.EnhancedFaceProcessor.RematchPhoto | enhanced_face_match.py:549-580 | one photo of pass 2 |
| EnhancedFaceMatch.EnhancedFaceProcessor.Pass2 | enhanced_face_match.py:547-580 | pass 2 copies exactly `Pass2Matches`, counting the new ones |
| EnhancedFaceMatch.EnhancedFaceProcessor.RefineAndRematch | enhanced_face_match.py:522-580 | refinement followed by pass 2 over the refined guests and samples |
| EnhancedFaceMatch.EnhancedFaceProcessor.ProcessEventPhotos | enhanced_face_match.py:284-583 | both passes copy exactly their pairs; the result and `stats['total_matches']` are the number of pairs new under `matched/` |
| EnhancedFaceMatch.EnhancedFaceProcessor.ValidateDirectories | enhanced_face_match.py:86-129 | true exactly when both folders exist and hold images, `.bmp` included; the counts reach the statistics only then |
| EnhancedFaceMatch.EnhancedFaceProcessor.Run | enhanced_face_match.py:609-650 | true exactly when validation passes and some guest was loaded; then both passes have run, otherwise nothing was copied |
| EnhancedProperties.MatchesOfIff | enhanced_face_match.py:433-485 | a photo's faces copy (g, name) under `matched/` exactly when one of them is accepted for g |
| EnhancedProperties.CandidatesOfIff | enhanced_face_match.py:486-504 | a photo's faces copy (g, name) under `candidates/` exactly when one of them is a candidate for g |
| EnhancedProperties.OutcomesAreFaceOutcomes | enhanced_face_match.py:303-368 | pass 1 examines exactly the faces of loadable photos when some vector exists, each with its own fate |
| EnhancedProperties.Pass1MatchIff | enhanced_face_match.py:303-485 | pass 1 copies (g, n) exactly when some examined face of a photo named n is accepted for g |
| EnhancedProperties.Pass1CandidateIff | enhanced_face_match.py:303-504 | pass 1 saves (g, n) exactly when some examined face of a photo named n is a candidate for g |
| EnhancedProperties.FaceOutcomeGoesToClosest | enhanced_face_match.py:369-505 | an accepted or candidate face goes to the guest owning the closest vector; an accepted face is under the effective strict or relaxed tolerance, a candidate within 0.90 |
| EnhancedProperties.Pass1MatchesAreClosest | enhanced_face_match.py:369-485 | every pass-1 match is justified by a face whose closest vector is the guest's |
| EnhancedProperties.Pass1BootIsClose | enhanced_face_match.py:383-384 | `boot_candidates[g]` holds only examined faces ranked first for g, at a distance within 0.80 |
| EnhancedProperties.RefinedUpToIff | enhanced_face_match.py:523-545 | the refined keys among the first n guests are exactly the refinable ones |
| EnhancedProperties.RefinedIff | enhanced_face_match.py:522-545 | a guest has a refined centroid exactly when it is a guest with at least 5 bootstrap items and a non-empty `acc` |
| EnhancedProperties.Pass2ChoiceIff | enhanced_face_match.py:557-566 | pass 2 gives a face to g exactly when g's refined centroid is the first closest and under 0.66 |
| EnhancedProperties.FacePass2Iff | enhanced_face_match.py:556-566 | pass 2 matches (g, n) on a photo exactly when n is its name and one of its faces is given to g |
| EnhancedProperties.Pass2MatchIff | enhanced_face_match.py:549-580 | pass 2 matches (g, n) exactly when some loadable photo named n has a face given to g |
| EnhancedProperties.Pass2MatchesAreRefined | enhanced_face_match.py:522-580 | every pass-2 match is a refinable guest's, on a face whose refined distance is under 0.66 |
| DeepFaceMatch.Similarity | deepface_match_fixed.py:289-290 | `1.0 - distance`, with a missing distance read as 1.0 |
| DeepFaceMatch.VerifiedSelfies | deepface_match_fixed.py:243-254 | the selfies are exactly the image-suffixed files that open as images |
| DeepFaceMatch.MatchedInIff | deepface_match_fixed.py:272-301 | a guest's photo loop matches (g, p) exactly when g is the guest, p is among the photos and some selfie reaches the threshold |
| DeepFaceMatch.DeepMatchesUpToIff | deepface_match_fixed.py:230-316 | the run matches (g, p) exactly when a guest folder named g is eligible and some verified selfie of it matches p |
| DeepFaceMatch.LowerThresholdKeepsMatches | deepface_match_fixed.py:294 | lowering the similarity threshold never loses a match |
| DeepFaceMatch.ParseArgs | deepface_match_fixed.py:439-458 | the event path defaults to `test_event_data`; the threshold is `float(argv[2])` when it parses and lies in [0, 1], otherwise 0.4 |
| DeepFaceMatch.DeepFaceProcessor.constructor | deepface_match_fixed.py:47-80 | the threshold (default 0.3) and zeroed statistics |
| DeepFaceMatch.DeepFaceProcessor.ValidateDirectories | deepface_match_fixed.py:167-214 | true exactly when both folders exist and `photos/` holds an image (no `.bmp`); no selfies only warns; the counts reach the statistics only on success |
| DeepFaceMatch.DeepFaceProcessor.TrySelfies | deepface_match_fixed.py:277-305 | matched exactly when some selfie passes; it stops at the first that does, and a raising verify is skipped |
| DeepFaceMatch.DeepFaceProcessor.CollectSelfies | deepface_match_fixed.py:243-254 | the selfie loop keeps the verified images |
| DeepFaceMatch.DeepFaceProcessor.MatchPhoto | deepface_match_fixed.py:272-312 | one photo: copied only when matched and absent, counted only then |
| DeepFaceMatch.DeepFaceProcessor.MatchPhotos | deepface_match_fixed.py:272-312 | the photo loop copies exactly the guest's matched pairs and counts the new ones |
| DeepFaceMatch.DeepFaceProcessor.ProcessGuest | deepface_match_fixed.py:230-316 | a file, a guest whose handling raises, or a guest without valid selfies adds nothing; otherwise its photo loop runs |
| DeepFaceMatch.DeepFaceProcessor.GuestStep | deepface_match_fixed.py:230-316 | one iteration of the guest loop |
| DeepFaceMatch.DeepFaceProcessor.MatchAllGuests | deepface_match_fixed.py:230-319 | the guest loop copies exactly `DeepMatches`, counts the new pairs and sums the valid selfies |
| DeepFaceMatch.DeepFaceProcessor.ProcessEventPhotos | deepface_match_fixed.py:216-323 | 0 and no change when validation fails; otherwise every guest folder in turn, with the count stored as `total_matches` |
| DeepFaceMatch.DeepFaceProcessor.Run | deepface_match_fixed.py:346-388 | always true, even with no match; when validation passes it copies exactly the matched pairs, `total_matches` counts the new ones, `valid_selfies` grows by the verified selfies and the selfie and photo counts are set; otherwise nothing changes |
| FastFaceMatch.GlobSuffixConcat | fast_face_match.py:97 | a glob keeps listing order: over a + b it finds the names of a, then those of b |
| FastFaceMatch.GlobSuffixIff | fast_face_match.py:97 | `glob('*.jpg')` finds exactly the listed names ending, case-sensitively, in `.jpg` |
| FastFaceMatch.GlobAllIff | fast_face_match.py:97-100 | the concatenated globs find exactly the names ending in one of the patterns |
| FastFaceMatch.GlobIff | fast_face_match.py:97-100 | a name is globbed exactly when it ends in `.jpg`, `.jpeg`, `.png` or `.webp` |
| FastFaceMatch.CloseRows | fast_face_match.py:193 | the filtered rows are exactly those within the threshold |
| FastFaceMatch.GuestFolders | fast_face_match.py:237 | `guest_folders` are exactly the directory entries |
| FastFaceMatch.GuestFoldersConcat | fast_face_match.py:237 | guest folders keep listing order: those of a + b are those of a followed by those of b |
| FastFaceMatch.MatchedInIff | fast_face_match.py:174-205 | a guest's photo loop matches (g, p) exactly when g is the guest, p is among the photos and the search finds a close row |
| FastFaceMatch.FastMatchesUpToIff | fast_face_match.py:237-242 | the run matches (g, p) exactly when a guest folder named g holds a selfie and the search of p in it finds a close row |
| FastFaceMatch.HigherThresholdKeepsMatches | fast_face_match.py:193 | raising the distance threshold never loses a match |
| FastFaceMatch.ParseArgs | fast_face_match.py:316-328 | usage with fewer than 2 arguments; a crash when `float` rejects the threshold; otherwise the path and the threshold, default 0.6 |
| FastFaceMatch.ExitStatus | fast_face_match.py:316-340 | exit status 0 exactly when a processor started and its run succeeded, otherwise 1 |
| FastFaceMatch.FastFaceProcessor.constructor | fast_face_match.py:35-70 | the threshold (default 0.6) and zeroed statistics |
| FastFaceMatch.FastFaceProcessor.CountGuests | fast_face_match.py:91-101 | the loop counts the guest folders and their globbed selfies |
| FastFaceMatch.FastFaceProcessor.ValidateSetup | fast_face_match.py:76-132 | true exactly when both folders exist, there is a guest folder and the globs find a photo; the counts reach the statistics once both folders exist |
| FastFaceMatch.FastFaceProcessor.AnyCloseRow | fast_face_match.py:188-196 | matched exactly when some row of some frame is within the threshold |
| FastFaceMatch.FastFaceProcessor.SearchPhoto | fast_face_match.py:175-217 | a raising search is not a match |
| FastFaceMatch.FastFaceProcessor.MatchPhoto | fast_face_match.py:174-217 | one photo: copied when matched and absent, counted only then |
| FastFaceMatch.FastFaceProcessor.MatchPhotos | fast_face_match.py:165-217 | the photo loop copies exactly the guest's matched pairs and counts the new ones |
| FastFaceMatch.FastFaceProcessor.ProcessGuest | fast_face_match.py:134-225 | a folder without selfies returns 0 and creates nothing; otherwise its `matched/` folder is created and its photo loop runs |
| FastFaceMatch.FastFaceProcessor.GuestStep | fast_face_match.py:239-242 | one iteration of the guest loop |
| FastFaceMatch.FastFaceProcessor.MatchGuests | fast_face_match.py:237-242 | the guest loop copies every guest's pairs and creates their folders |
| FastFaceMatch.FastFaceProcessor.ProcessAllGuests | fast_face_match.py:227-250 | copies exactly `FastMatches`; the result and `total_matches` are the sum of the guests' new copies |
| FastFaceMatch.FastFaceProcessor.Run | fast_face_match.py:289-314 | false exactly when validation fails, in which case nothing is copied and no folder is made; otherwise true whatever the match count, with the matched pairs copied and every guest's `matched/` folder made; the guest, selfie and photo counts are set once both folders exist |

## Left out

- Face detection, encoding, `face_recognition.face_distance`, `np.mean` / `np.median` of vectors, `DeepFace.verify`, `DeepFace.find`, `DeepFace.build_model` and `Image.verify` are opaque: their results are deterministic oracle inputs of `Event`, `DeepEvent` and `FastEvent`.
- Distances are exact reals, not IEEE doubles. Rounding, NaN and a non-finite `float()` of an argument are not modelled.
- Copying assumes success. A `shutil.copy2` or `mkdir` that raises is not modelled, except in two places:
  - pass 2 of the enhanced matcher swallows the exception, and the model takes that copy to succeed;
  - the deepface matcher's guest-level `try` is the oracle `guestFails`, which skips the whole guest. The `mkdir` that runs before such a failure is not modelled.
- Logging, progress, timing (`processing_time`, photos per second, ETA), match-rate output, `generate_report` / `generate_processing_report` and the JSON reports are not modelled: they only write text.
- Visualisation helpers, the `DeepFace.find` demo, `simple_match.py` and the other scripts of the repository are not part of this model.
- `load_guest_selfies` is not part of this model. Its result, `guest_encodings`, is the input `Event.guests`, given as each guest's e-mail and its number of vectors.
- `_guest_cnn_cache` is left out. It only stores each guest's original vectors, so the CNN re-check always compares against the raw vectors (`RawEmails`).
- The temporary `ref_<i>.jpg` copies of the deepface selfies are left out: the selfies are used directly, in the same order.
- Folder creation in the processors' `__init__` (`matched/`, `exports/`, `candidates/`) is left out. The matched sub-directories are tracked only in the fast matcher (`matchedDirs`).
- `_unique_path` has no caller in the source. `UniquePath` models it on its own, with the set of existing names as its input.
- Copy order is not modelled. `matched/` and `candidates/` are sets of (guest, file name) pairs, so the order in which copies happen is not modelled; only the final sets and the counts are.
- The fast matcher's globs are modelled as case-sensitive suffix tests that also match names starting with a dot. On a case-insensitive filesystem Python's `glob` behaves differently.
- `str.lower()` is modelled on ASCII letters only.
- The enhanced matcher's `ValidationPasses` and `run` assume that the photos given to `process_event_photos` are the image files of `photos/` (`PhotosListed`); the directory listing is not re-read.
- Exceptions not named above are not modelled, including the outer `try` of each `run` and `process_event_photos`.
- `EnhancedDecision.ConfirmWithCnn`: its contract ties it to `CnnConfirm`, and the closest-face property is stated by `CnnConfirmPicksClosestFace` rather than in the method's own ensures.
