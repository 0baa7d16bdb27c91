/** DeepFaceProcessor of deepface_match_fixed.py: every guest folder's
    verified selfies are compared with every event photo through
    DeepFace.verify, the first selfie similar enough matches the photo, and a
    match is copied into matched/<guest>/ unless a file of that name is
    already there. DeepFace.verify and the image check are oracles. */
module DeepFaceMatch {
  import opened Common

  /** The suffixes (lower-cased) this matcher takes for images; unlike the
      enhanced matcher it does not take ".bmp". */
  const DeepExtensions: seq<string> := [".jpg", ".jpeg", ".png", ".webp"]

  /** The similarity threshold main uses unless the command line gives a
      valid one. */
  const DefaultThreshold: real := 0.4
  /** The event folder main uses when none is given. */
  const TestEventPath: string := "test_event_data"

  /** What DeepFace.verify does for one (photo, selfie) pair: it raises, or
      it returns a result whose "distance" entry may be missing. */
  datatype Verdict = Raised | Returned(distance: Option<real>)

  /** similarity = 1.0 - result.get("distance", 1.0) */
  function Similarity(v: Verdict): (r: real)
    requires v.Returned?
    ensures v.distance.None? ==> r == 0.0
    ensures v.distance.Some? ==> r + v.distance.value == 1.0
  {
    1.0 - (if v.distance.Some? then v.distance.value else 1.0)
  }

  /** The selfie matches the photo: verify returned and the similarity
      reaches the threshold. */
  predicate Passes(v: Verdict, threshold: real) {
    v.Returned? && Similarity(v) >= threshold
  }

  /** The inputs of process_event_photos: the event folder, whether a file of
      a guest folder opens as an image (Image.verify), whether handling a
      guest raises before anything is done for it, and DeepFace.verify on
      (photo, guest, selfie). The oracles are deterministic. */
  datatype DeepEvent = DeepEvent(folders: Folders, validImage: (string, string) -> bool,
                                 guestFails: string -> bool, verify: (string, string, string) -> Verdict)

  /** photo_files: the image files of photos/. */
  function Photos(ev: DeepEvent): seq<string> {
    ImageFiles(ev.folders.photos, DeepExtensions)
  }

  /** selfie_files of a guest folder: its image files that open as images,
      in listing order. */
  function VerifiedSelfies(ev: DeepEvent, guest: string, names: seq<string>): (r: seq<string>)
    ensures |r| <= |names|
    ensures forall x :: x in r <==> x in names && HasImageSuffix(x, DeepExtensions) && ev.validImage(guest, x)
  {
    if |names| == 0 then []
    else
      var x := names[|names| - 1];
      VerifiedSelfies(ev, guest, names[..|names| - 1])
      + (if HasImageSuffix(x, DeepExtensions) && ev.validImage(guest, x) then [x] else [])
  }

  /** Some selfie of the guest reaches the threshold on the photo. */
  ghost predicate SomeSelfiePasses(ev: DeepEvent, threshold: real, guest: string, selfies: seq<string>, photo: string) {
    exists k :: 0 <= k < |selfies| && Passes(ev.verify(photo, guest, selfies[k]), threshold)
  }

  /** The (guest, photo) pairs among photos that some selfie matches. */
  ghost function MatchedIn(ev: DeepEvent, threshold: real, guest: string, selfies: seq<string>,
                           photos: seq<string>): set<(string, string)>
  {
    if |photos| == 0 then {}
    else
      var p := photos[|photos| - 1];
      MatchedIn(ev, threshold, guest, selfies, photos[..|photos| - 1])
      + (if SomeSelfiePasses(ev, threshold, guest, selfies, p) then {(guest, p)} else {})
  }

  /** A guest folder the loop works on: a directory whose handling does not
      raise and that holds a verified selfie. */
  predicate Eligible(ev: DeepEvent, entry: Entry) {
    entry.isDir && !ev.guestFails(entry.name) && |VerifiedSelfies(ev, entry.name, entry.listing)| > 0
  }

  /** The pairs one entry of selfies/ matches. */
  ghost function GuestMatches(ev: DeepEvent, threshold: real, entry: Entry): set<(string, string)> {
    if Eligible(ev, entry)
    then MatchedIn(ev, threshold, entry.name, VerifiedSelfies(ev, entry.name, entry.listing), Photos(ev))
    else {}
  }

  /** The pairs the first k entries of selfies/ match. */
  ghost function DeepMatchesUpTo(ev: DeepEvent, threshold: real, k: nat): set<(string, string)>
    requires k <= |ev.folders.selfies|
  {
    UnionUpTo(k, (j: nat) => if j < |ev.folders.selfies| then GuestMatches(ev, threshold, ev.folders.selfies[j]) else {})
  }

  /** Every (guest, photo) pair the run matches. */
  ghost function DeepMatches(ev: DeepEvent, threshold: real): set<(string, string)> {
    DeepMatchesUpTo(ev, threshold, |ev.folders.selfies|)
  }

  /** The verified selfies of the eligible guests among the first k entries. */
  function ValidSelfiesUpTo(ev: DeepEvent, k: nat): nat
    requires k <= |ev.folders.selfies|
  {
    if k == 0 then 0
    else
      var entry := ev.folders.selfies[k - 1];
      ValidSelfiesUpTo(ev, k - 1)
      + (if Eligible(ev, entry) then |VerifiedSelfies(ev, entry.name, entry.listing)| else 0)
  }

  /** validate_directories' verdict: both folders exist and photos/ holds an
      image; no selfie at all only draws a warning. */
  predicate ValidationPasses(d: Folders) {
    d.selfiesExist && d.photosExist && |ImageFiles(d.photos, DeepExtensions)| > 0
  }

  // ---------------------------------------------------------------------
  // What the match sets mean

  /** A pair is matched among photos exactly when it is the guest's, its
      photo is one of them, and some selfie passes on it. */
  lemma {:induction false} MatchedInIff(ev: DeepEvent, threshold: real, guest: string, selfies: seq<string>,
                                        photos: seq<string>, g: string, p: string)
    ensures (g, p) in MatchedIn(ev, threshold, guest, selfies, photos) <==>
      g == guest && p in photos && SomeSelfiePasses(ev, threshold, guest, selfies, p)
  {
    if |photos| > 0 {
      var init := photos[..|photos| - 1];
      MatchedInIff(ev, threshold, guest, selfies, init, g, p);
      assert photos == init + [photos[|photos| - 1]];
    }
  }

  /** The run matches (g, p) exactly when some eligible guest folder named g
      has a selfie passing on p, an image of photos/. A guest whose handling
      raises, and a folder without a verified selfie, match nothing, and
      take nothing from the others. */
  lemma DeepMatchesUpToIff(ev: DeepEvent, threshold: real, k: nat, g: string, p: string)
    requires k <= |ev.folders.selfies|
    ensures (g, p) in DeepMatchesUpTo(ev, threshold, k) <==>
      exists j :: 0 <= j < k && ev.folders.selfies[j].name == g && Eligible(ev, ev.folders.selfies[j])
        && p in Photos(ev)
        && SomeSelfiePasses(ev, threshold, g, VerifiedSelfies(ev, g, ev.folders.selfies[j].listing), p)
  {
    var part := (j: nat) => if j < |ev.folders.selfies| then GuestMatches(ev, threshold, ev.folders.selfies[j]) else {};
    UnionUpToIff(k, part, (g, p));
    if (g, p) in DeepMatchesUpTo(ev, threshold, k) {
      var j :| 0 <= j < k && (g, p) in part(j);
      var entry := ev.folders.selfies[j];
      MatchedInIff(ev, threshold, entry.name, VerifiedSelfies(ev, entry.name, entry.listing), Photos(ev), g, p);
    } else {
      forall j | 0 <= j < k && ev.folders.selfies[j].name == g && Eligible(ev, ev.folders.selfies[j])
                 && p in Photos(ev)
        ensures !SomeSelfiePasses(ev, threshold, g, VerifiedSelfies(ev, g, ev.folders.selfies[j].listing), p)
      {
        var entry := ev.folders.selfies[j];
        MatchedInIff(ev, threshold, entry.name, VerifiedSelfies(ev, entry.name, entry.listing), Photos(ev), g, p);
        assert (g, p) !in part(j);
      }
    }
  }

  /** Lowering the similarity threshold never loses a match. */
  lemma {:induction false} LowerThresholdKeepsMatches(ev: DeepEvent, lower: real, higher: real)
    requires lower <= higher
    ensures DeepMatches(ev, higher) <= DeepMatches(ev, lower)
  {
    forall pair | pair in DeepMatches(ev, higher)
      ensures pair in DeepMatches(ev, lower)
    {
      var (g, p) := pair;
      var n := |ev.folders.selfies|;
      DeepMatchesUpToIff(ev, higher, n, g, p);
      DeepMatchesUpToIff(ev, lower, n, g, p);
      var j :| 0 <= j < n && ev.folders.selfies[j].name == g && Eligible(ev, ev.folders.selfies[j])
               && p in Photos(ev)
               && SomeSelfiePasses(ev, higher, g, VerifiedSelfies(ev, g, ev.folders.selfies[j].listing), p);
      var selfies := VerifiedSelfies(ev, g, ev.folders.selfies[j].listing);
      var k :| 0 <= k < |selfies| && Passes(ev.verify(p, g, selfies[k]), higher);
      assert Passes(ev.verify(p, g, selfies[k]), lower);
    }
  }

  // ---------------------------------------------------------------------
  // The command line

  /** What main passes to the processor. */
  datatype DeepLaunch = DeepLaunch(eventPath: string, threshold: real)

  /** main's argument handling; parseFloat stands for float(), None where it
      raises or gives a value outside every interval (nan, inf). */
  function ParseArgs(argv: seq<string>, parseFloat: string -> Option<real>): (r: DeepLaunch)
    ensures r.eventPath == if |argv| < 2 then TestEventPath else argv[1]
    ensures 0.0 <= r.threshold <= 1.0
    ensures r.threshold != DefaultThreshold ==> |argv| > 2 && parseFloat(argv[2]) == Some(r.threshold)
    ensures |argv| > 2 && parseFloat(argv[2]).Some? && 0.0 <= parseFloat(argv[2]).value <= 1.0 ==>
      r.threshold == parseFloat(argv[2]).value
  {
    var path := if |argv| < 2 then TestEventPath else argv[1];
    var given := if |argv| > 2 then parseFloat(argv[2]) else None;
    if given.Some? && 0.0 <= given.value <= 1.0 then DeepLaunch(path, given.value)
    else DeepLaunch(path, DefaultThreshold)
  }

  /** One more photo in a guest's photo loop. */
  lemma MatchedInStep(ev: DeepEvent, threshold: real, guest: string, selfies: seq<string>, photos: seq<string>, j: nat)
    requires j < |photos|
    ensures MatchedIn(ev, threshold, guest, selfies, photos[..j + 1])
         == MatchedIn(ev, threshold, guest, selfies, photos[..j])
            + (if SomeSelfiePasses(ev, threshold, guest, selfies, photos[j]) then {(guest, photos[j])} else {})
  {
    assert photos[..j + 1][..j] == photos[..j];
  }

  // ---------------------------------------------------------------------
  // The processor

  class DeepFaceProcessor {
    const threshold: real
    /** The (guest, photo name) pairs present under matched/. */
    var matchedFiles: set<(string, string)>
    /** The statistics dictionary. */
    var totalSelfies: nat
    var validSelfies: nat
    var totalPhotos: nat
    var totalMatches: nat

    /** __init__ over an event folder whose matched/ already holds the given
        pairs; the default threshold of the constructor is 0.3. */
    constructor(matchedOnDisk: set<(string, string)>, similarityThreshold: real := 0.3)
      ensures threshold == similarityThreshold && matchedFiles == matchedOnDisk
      ensures totalSelfies == 0 && validSelfies == 0 && totalPhotos == 0 && totalMatches == 0
    {
      threshold := similarityThreshold;
      matchedFiles := matchedOnDisk;
      totalSelfies, validSelfies, totalPhotos, totalMatches := 0, 0, 0, 0;
    }

    /** validate_directories: the counts reach the statistics only on success. */
    method ValidateDirectories(d: Folders) returns (ok: bool)
      modifies this`totalSelfies, this`totalPhotos
      ensures ok <==> ValidationPasses(d)
      ensures ok ==> totalSelfies == SelfieCount(d.selfies, DeepExtensions)
                     && totalPhotos == |ImageFiles(d.photos, DeepExtensions)|
      ensures !ok ==> totalSelfies == old(totalSelfies) && totalPhotos == old(totalPhotos)
    {
      if !d.selfiesExist || !d.photosExist {
        return false;
      }
      var guestFolders, selfieCount := CountSelfies(d.selfies, DeepExtensions);
      var photoFiles := ImageFiles(d.photos, DeepExtensions);
      if |photoFiles| == 0 {
        return false;
      }
      totalSelfies := selfieCount;
      totalPhotos := |photoFiles|;
      ok := true;
    }

    /** The selfie loop for one photo: the selfies are tried in order until
        one passes; a verification that raises only skips its selfie. tried
        is the number of verify calls made. */
    static method TrySelfies(ev: DeepEvent, threshold: real, guest: string, selfies: seq<string>, photo: string)
      returns (matched: bool, tried: nat)
      ensures matched <==> exists k :: 0 <= k < |selfies| && Passes(ev.verify(photo, guest, selfies[k]), threshold)
      ensures matched ==> 0 < tried <= |selfies| && Passes(ev.verify(photo, guest, selfies[tried - 1]), threshold)
                          && forall k :: 0 <= k < tried - 1 ==> !Passes(ev.verify(photo, guest, selfies[k]), threshold)
      ensures !matched ==> tried == |selfies|
    {
      matched, tried := false, 0;
      while tried < |selfies| && !matched
        invariant tried <= |selfies|
        invariant matched ==> 0 < tried && Passes(ev.verify(photo, guest, selfies[tried - 1]), threshold)
        invariant forall k :: 0 <= k < (if matched then tried - 1 else tried) ==>
          !Passes(ev.verify(photo, guest, selfies[k]), threshold)
      {
        var result := ev.verify(photo, guest, selfies[tried]);
        tried := tried + 1;
        if result.Raised? {
          continue;
        }
        if Similarity(result) >= threshold {
          matched := true;
        }
      }
    }

    /** The verified selfies of a guest folder, in listing order. */
    static method CollectSelfies(ev: DeepEvent, guest: string, names: seq<string>) returns (selfies: seq<string>)
      ensures selfies == VerifiedSelfies(ev, guest, names)
    {
      selfies := [];
      for k := 0 to |names|
        invariant selfies == VerifiedSelfies(ev, guest, names[..k])
      {
        assert names[..k + 1][..k] == names[..k];
        var f := names[k];
        if HasImageSuffix(f, DeepExtensions) && ev.validImage(guest, f) {
          selfies := selfies + [f];
        }
      }
      assert names[..|names|] == names;
    }

    /** One photo for one guest: when some selfie matches, the photo is
        copied unless matched/<guest>/<photo> exists, and only a copy counts. */
    method MatchPhoto(ev: DeepEvent, guest: string, selfies: seq<string>, photos: seq<string>, j: nat,
                      added: nat, ghost files0: set<(string, string)>)
      returns (added': nat)
      requires j < |photos|
      requires matchedFiles == files0 + MatchedIn(ev, threshold, guest, selfies, photos[..j])
      requires added == |MatchedIn(ev, threshold, guest, selfies, photos[..j]) - files0|
      modifies this`matchedFiles
      ensures matchedFiles == files0 + MatchedIn(ev, threshold, guest, selfies, photos[..j + 1])
      ensures added' == |MatchedIn(ev, threshold, guest, selfies, photos[..j + 1]) - files0|
      ensures matchedFiles - old(matchedFiles) <= {(guest, photos[j])}
      ensures added' == added + |matchedFiles - old(matchedFiles)|
    {
      var dest := (guest, photos[j]);
      var matched, _ := TrySelfies(ev, threshold, guest, selfies, photos[j]);
      MatchedInStep(ev, threshold, guest, selfies, photos, j);
      AddPair(files0, MatchedIn(ev, threshold, guest, selfies, photos[..j]), dest, matched);
      added' := added;
      if matched && dest !in matchedFiles {
        matchedFiles := matchedFiles + {dest};
        added' := added + 1;
      }
    }

    /** The photo loop of one guest with its selfies. */
    method MatchPhotos(ev: DeepEvent, guest: string, selfies: seq<string>) returns (added: nat)
      modifies this`matchedFiles
      ensures matchedFiles == old(matchedFiles) + MatchedIn(ev, threshold, guest, selfies, Photos(ev))
      ensures added == |MatchedIn(ev, threshold, guest, selfies, Photos(ev)) - old(matchedFiles)|
    {
      ghost var files0 := matchedFiles;
      var photos := Photos(ev);
      added := 0;
      var j := 0;
      while j < |photos|
        invariant j <= |photos|
        invariant matchedFiles == files0 + MatchedIn(ev, threshold, guest, selfies, photos[..j])
        invariant added == |MatchedIn(ev, threshold, guest, selfies, photos[..j]) - files0|
      {
        added := MatchPhoto(ev, guest, selfies, photos, j, added, files0);
        j := j + 1;
      }
      assert photos[..|photos|] == photos;
    }

    /** One entry of selfies/: nothing for a file, a guest whose handling
        raises, or a folder without a verified selfie; otherwise its selfies
        are counted and every photo is tried. */
    method ProcessGuest(ev: DeepEvent, entry: Entry) returns (added: nat)
      modifies this`matchedFiles, this`validSelfies
      ensures matchedFiles == old(matchedFiles) + GuestMatches(ev, threshold, entry)
      ensures added == |GuestMatches(ev, threshold, entry) - old(matchedFiles)|
      ensures validSelfies == old(validSelfies)
        + if Eligible(ev, entry) then |VerifiedSelfies(ev, entry.name, entry.listing)| else 0
    {
      if !entry.isDir || ev.guestFails(entry.name) {
        return 0;
      }
      var selfies := CollectSelfies(ev, entry.name, entry.listing);
      if |selfies| == 0 {
        return 0;
      }
      validSelfies := validSelfies + |selfies|;
      added := MatchPhotos(ev, entry.name, selfies);
    }

    /** One guest folder of process_event_photos, on top of the first k. */
    method GuestStep(ev: DeepEvent, k: nat, total: nat, ghost files0: set<(string, string)>, ghost valid0: nat)
      returns (total': nat)
      requires k < |ev.folders.selfies|
      requires matchedFiles == files0 + DeepMatchesUpTo(ev, threshold, k)
      requires total == |DeepMatchesUpTo(ev, threshold, k) - files0|
      requires validSelfies == valid0 + ValidSelfiesUpTo(ev, k)
      modifies this`matchedFiles, this`validSelfies
      ensures matchedFiles == files0 + DeepMatchesUpTo(ev, threshold, k + 1)
      ensures total' == |DeepMatchesUpTo(ev, threshold, k + 1) - files0|
      ensures validSelfies == valid0 + ValidSelfiesUpTo(ev, k + 1)
    {
      ghost var done := DeepMatchesUpTo(ev, threshold, k);
      var entry := ev.folders.selfies[k];
      var added := ProcessGuest(ev, entry);
      UnionGrowth(files0, done, GuestMatches(ev, threshold, entry));
      total' := total + added;
    }

    /** process_event_photos: nothing when validation fails; otherwise every
        guest folder in turn, and the number of new copies, which is also
        stats['total_matches']. */
    method ProcessEventPhotos(ev: DeepEvent) returns (total: nat)
      modifies this`matchedFiles, this`validSelfies, this`totalSelfies, this`totalPhotos, this`totalMatches
      ensures !ValidationPasses(ev.folders) ==>
        total == 0 && matchedFiles == old(matchedFiles) && validSelfies == old(validSelfies)
        && totalMatches == old(totalMatches) && totalSelfies == old(totalSelfies) && totalPhotos == old(totalPhotos)
      ensures ValidationPasses(ev.folders) ==>
        && matchedFiles == old(matchedFiles) + DeepMatches(ev, threshold)
        && total == |DeepMatches(ev, threshold) - old(matchedFiles)| && totalMatches == total
        && validSelfies == old(validSelfies) + ValidSelfiesUpTo(ev, |ev.folders.selfies|)
        && totalSelfies == SelfieCount(ev.folders.selfies, DeepExtensions) && totalPhotos == |Photos(ev)|
    {
      var ok := ValidateDirectories(ev.folders);
      if !ok {
        return 0;
      }
      totalPhotos := |Photos(ev)|;
      total := MatchAllGuests(ev);
      totalMatches := total;
    }

    /** The loop of process_event_photos over the entries of selfies/. */
    method MatchAllGuests(ev: DeepEvent) returns (total: nat)
      modifies this`matchedFiles, this`validSelfies
      ensures matchedFiles == old(matchedFiles) + DeepMatches(ev, threshold)
      ensures total == |DeepMatches(ev, threshold) - old(matchedFiles)|
      ensures validSelfies == old(validSelfies) + ValidSelfiesUpTo(ev, |ev.folders.selfies|)
    {
      ghost var files0, valid0 := matchedFiles, validSelfies;
      total := 0;
      var k := 0;
      while k < |ev.folders.selfies|
        invariant k <= |ev.folders.selfies|
        invariant matchedFiles == files0 + DeepMatchesUpTo(ev, threshold, k)
        invariant total == |DeepMatchesUpTo(ev, threshold, k) - files0|
        invariant validSelfies == valid0 + ValidSelfiesUpTo(ev, k)
      {
        total := GuestStep(ev, k, total, files0, valid0);
        k := k + 1;
      }
    }

    /** run: the result is True whatever the number of matches. */
    method Run(ev: DeepEvent) returns (ok: bool)
      modifies this`matchedFiles, this`validSelfies, this`totalSelfies, this`totalPhotos, this`totalMatches
      ensures ok
      ensures ValidationPasses(ev.folders) ==>
        && matchedFiles == old(matchedFiles) + DeepMatches(ev, threshold)
        && totalMatches == |DeepMatches(ev, threshold) - old(matchedFiles)|
        && validSelfies == old(validSelfies) + ValidSelfiesUpTo(ev, |ev.folders.selfies|)
        && totalSelfies == SelfieCount(ev.folders.selfies, DeepExtensions) && totalPhotos == |Photos(ev)|
      ensures !ValidationPasses(ev.folders) ==>
        && matchedFiles == old(matchedFiles) && totalMatches == old(totalMatches)
        && validSelfies == old(validSelfies) && totalSelfies == old(totalSelfies) && totalPhotos == old(totalPhotos)
    {
      var _ := ProcessEventPhotos(ev);
      ok := true;
    }
  }
}
