/** FastFaceProcessor of fast_face_match.py: each guest folder serves as the
    database of DeepFace.find, every event photo is searched in it, and a
    photo with a result row within the distance threshold is copied into
    matched/<guest>/ unless a file of that name is already there.
    DeepFace.find is an oracle. */
module FastFaceMatch {
  import opened Common

  /** The glob patterns *.jpg, *.jpeg, *.png and *.webp, in the order their
      results are concatenated. */
  const GlobSuffixes: seq<string> := [".jpg", ".jpeg", ".png", ".webp"]

  /** The distance threshold when the command line gives none. */
  const DefaultThreshold: real := 0.6

  predicate EndsWith(name: string, suffix: string) {
    |suffix| <= |name| && name[|name| - |suffix|..] == suffix
  }

  /** glob('*<suffix>') over a listing: the names ending in suffix, in
      listing order. */
  function GlobSuffix(names: seq<string>, suffix: string): (r: seq<string>)
    ensures |r| <= |names|
  {
    if |names| == 0 then []
    else
      var x := names[|names| - 1];
      GlobSuffix(names[..|names| - 1], suffix) + (if EndsWith(x, suffix) then [x] else [])
  }

  /** The globs for each suffix in turn, concatenated. */
  function GlobAll(names: seq<string>, suffixes: seq<string>): seq<string> {
    if |suffixes| == 0 then [] else GlobSuffix(names, suffixes[0]) + GlobAll(names, suffixes[1..])
  }

  /** The four globs of the script, concatenated. */
  function Glob(names: seq<string>): seq<string> {
    GlobAll(names, GlobSuffixes)
  }

  lemma {:induction false} GlobSuffixIff(names: seq<string>, suffix: string, x: string)
    ensures x in GlobSuffix(names, suffix) <==> x in names && EndsWith(x, suffix)
  {
    if |names| > 0 {
      var init := names[..|names| - 1];
      GlobSuffixIff(init, suffix, x);
      assert names == init + [names[|names| - 1]];
    }
  }

  /** A glob over a + b finds the names of a, then those of b: it keeps the
      listing's order. */
  lemma {:induction false} GlobSuffixConcat(a: seq<string>, b: seq<string>, suffix: string)
    ensures GlobSuffix(a + b, suffix) == GlobSuffix(a, suffix) + GlobSuffix(b, suffix)
  {
    if |b| > 0 {
      var init := b[..|b| - 1];
      GlobSuffixConcat(a, init, suffix);
      assert (a + b)[..|a + b| - 1] == a + init;
      assert (a + b)[|a + b| - 1] == b[|b| - 1];
    } else {
      assert a + b == a;
    }
  }

  lemma {:induction false} GlobAllIff(names: seq<string>, suffixes: seq<string>, x: string)
    ensures x in GlobAll(names, suffixes) <==> x in names && exists s :: s in suffixes && EndsWith(x, s)
  {
    if |suffixes| > 0 {
      GlobSuffixIff(names, suffixes[0], x);
      GlobAllIff(names, suffixes[1..], x);
      assert forall s :: s in suffixes <==> s == suffixes[0] || s in suffixes[1..];
    }
  }

  /** A name is globbed exactly when it is listed and ends, case-sensitively,
      in one of .jpg, .jpeg, .png and .webp. */
  lemma GlobIff(names: seq<string>, x: string)
    ensures x in Glob(names) <==>
      (x in names && (EndsWith(x, ".jpg") || EndsWith(x, ".jpeg") || EndsWith(x, ".png") || EndsWith(x, ".webp")))
  {
    GlobAllIff(names, GlobSuffixes, x);
    assert forall s :: s in GlobSuffixes <==> s == ".jpg" || s == ".jpeg" || s == ".png" || s == ".webp";
  }

  /** What DeepFace.find does for one photo against one guest folder: it
      raises, or it returns one result frame per face found, each given by
      its distance column. */
  datatype FindResult = FindRaised | Frames(frames: seq<seq<real>>)

  /** The inputs of a run: the event folder and DeepFace.find on (photo,
      guest). The oracle is deterministic. */
  datatype FastEvent = FastEvent(folders: Folders, find: (string, string) -> FindResult)

  /** df[df['distance'] <= threshold]: the rows within the threshold. */
  function CloseRows(frame: seq<real>, threshold: real): (r: seq<real>)
    ensures |r| <= |frame|
    ensures forall x :: x in r <==> x in frame && x <= threshold
  {
    if |frame| == 0 then []
    else
      var x := frame[|frame| - 1];
      CloseRows(frame[..|frame| - 1], threshold) + (if x <= threshold then [x] else [])
  }

  /** Some row of some frame is within the threshold. */
  ghost predicate FoundClose(r: FindResult, threshold: real) {
    r.Frames? && exists i, j :: 0 <= i < |r.frames| && 0 <= j < |r.frames[i]| && r.frames[i][j] <= threshold
  }

  /** photo_files: the photos the globs find in photos/. */
  function Photos(ev: FastEvent): seq<string> {
    Glob(ev.folders.photos)
  }

  /** The (guest, photo) pairs among photos whose search finds a close row. */
  ghost function MatchedIn(ev: FastEvent, threshold: real, guest: string, photos: seq<string>): set<(string, string)> {
    if |photos| == 0 then {}
    else
      var p := photos[|photos| - 1];
      MatchedIn(ev, threshold, guest, photos[..|photos| - 1])
      + (if FoundClose(ev.find(p, guest), threshold) then {(guest, p)} else {})
  }

  /** The pairs process_guest matches for a guest folder: none without a
      selfie. */
  ghost function GuestMatches(ev: FastEvent, threshold: real, folder: Entry): set<(string, string)> {
    if |Glob(folder.listing)| == 0 then {} else MatchedIn(ev, threshold, folder.name, Photos(ev))
  }

  /** guest_folders: the sub-directories of selfies/, in listing order. */
  function GuestFolders(entries: seq<Entry>): (r: seq<Entry>)
    ensures forall x :: x in r <==> x in entries && x.isDir
  {
    if |entries| == 0 then []
    else
      var last := entries[|entries| - 1];
      GuestFolders(entries[..|entries| - 1]) + (if last.isDir then [last] else [])
  }

  /** The guest folders of a + b are those of a followed by those of b:
      guests are processed in listing order. */
  lemma {:induction false} GuestFoldersConcat(a: seq<Entry>, b: seq<Entry>)
    ensures GuestFolders(a + b) == GuestFolders(a) + GuestFolders(b)
  {
    if |b| > 0 {
      var init := b[..|b| - 1];
      GuestFoldersConcat(a, init);
      assert (a + b)[..|a + b| - 1] == a + init;
      assert (a + b)[|a + b| - 1] == b[|b| - 1];
    } else {
      assert a + b == a;
    }
  }

  /** The pairs the first k guest folders match. */
  ghost function FastMatchesUpTo(ev: FastEvent, threshold: real, folders: seq<Entry>, k: nat): set<(string, string)>
    requires k <= |folders|
  {
    UnionUpTo(k, (j: nat) => if j < |folders| then GuestMatches(ev, threshold, folders[j]) else {})
  }

  /** Every (guest, photo) pair the run matches. */
  ghost function FastMatches(ev: FastEvent, threshold: real): set<(string, string)> {
    var folders := GuestFolders(ev.folders.selfies);
    FastMatchesUpTo(ev, threshold, folders, |folders|)
  }

  /** The names of the guest folders that hold a selfie: the matched/
      sub-directories process_guest creates. */
  function DirsMadeUpTo(folders: seq<Entry>, k: nat): set<string>
    requires k <= |folders|
  {
    if k == 0 then {}
    else DirsMadeUpTo(folders, k - 1) + (if |Glob(folders[k - 1].listing)| > 0 then {folders[k - 1].name} else {})
  }

  /** The selfie count of validate_setup: the globs over every guest folder. */
  function GlobSelfieCount(entries: seq<Entry>): nat {
    if |entries| == 0 then 0
    else
      var last := entries[|entries| - 1];
      GlobSelfieCount(entries[..|entries| - 1]) + (if last.isDir then |Glob(last.listing)| else 0)
  }

  /** validate_setup's verdict: both folders exist, there is a guest folder,
      and the globs find a photo. The selfie count plays no part. */
  predicate ValidationPasses(d: Folders) {
    d.selfiesExist && d.photosExist && |GuestDirs(d.selfies)| > 0 && |Glob(d.photos)| > 0
  }

  // ---------------------------------------------------------------------
  // What the match sets mean

  /** A pair is matched among photos exactly when it is the guest's, its
      photo is one of them, and the search finds a close row. */
  lemma {:induction false} MatchedInIff(ev: FastEvent, threshold: real, guest: string, photos: seq<string>,
                                        g: string, p: string)
    ensures (g, p) in MatchedIn(ev, threshold, guest, photos) <==>
      g == guest && p in photos && FoundClose(ev.find(p, guest), threshold)
  {
    if |photos| > 0 {
      var init := photos[..|photos| - 1];
      MatchedInIff(ev, threshold, guest, init, g, p);
      assert photos == init + [photos[|photos| - 1]];
    }
  }

  /** The run matches (g, p) exactly when one of the guest folders is named g
      and holds a selfie, p is a photo, and searching p in that folder finds
      a close row. */
  lemma FastMatchesUpToIff(ev: FastEvent, threshold: real, folders: seq<Entry>, k: nat,
                                              g: string, p: string)
    requires k <= |folders|
    ensures (g, p) in FastMatchesUpTo(ev, threshold, folders, k) <==>
      exists j :: 0 <= j < k && folders[j].name == g && |Glob(folders[j].listing)| > 0
        && p in Photos(ev) && FoundClose(ev.find(p, g), threshold)
  {
    var part := (j: nat) => if j < |folders| then GuestMatches(ev, threshold, folders[j]) else {};
    UnionUpToIff(k, part, (g, p));
    if (g, p) in FastMatchesUpTo(ev, threshold, folders, k) {
      var j :| 0 <= j < k && (g, p) in part(j);
      MatchedInIff(ev, threshold, folders[j].name, Photos(ev), g, p);
    } else {
      forall j | 0 <= j < k && folders[j].name == g && |Glob(folders[j].listing)| > 0 && p in Photos(ev)
        ensures !FoundClose(ev.find(p, g), threshold)
      {
        MatchedInIff(ev, threshold, folders[j].name, Photos(ev), g, p);
        assert (g, p) !in part(j);
      }
    }
  }

  /** A larger distance threshold never loses a match. */
  lemma {:induction false} HigherThresholdKeepsMatches(ev: FastEvent, lower: real, higher: real)
    requires lower <= higher
    ensures FastMatches(ev, lower) <= FastMatches(ev, higher)
  {
    var folders := GuestFolders(ev.folders.selfies);
    forall pair | pair in FastMatches(ev, lower)
      ensures pair in FastMatches(ev, higher)
    {
      var (g, p) := pair;
      FastMatchesUpToIff(ev, lower, folders, |folders|, g, p);
      FastMatchesUpToIff(ev, higher, folders, |folders|, g, p);
      var r := ev.find(p, g);
      var i, j :| 0 <= i < |r.frames| && 0 <= j < |r.frames[i]| && r.frames[i][j] <= lower;
      assert r.frames[i][j] <= higher;
    }
  }

  // ---------------------------------------------------------------------
  // The command line

  /** What main makes of sys.argv: the usage message, a crash on a
      threshold float() rejects, or a processor to run. */
  datatype FastLaunch = FastUsage | FastCrash | FastStart(eventPath: string, threshold: real)

  /** main's argument handling; parseFloat stands for float(), None where it
      raises ValueError. */
  function ParseArgs(argv: seq<string>, parseFloat: string -> Option<real>): (r: FastLaunch)
    ensures r.FastUsage? <==> |argv| < 2
    ensures r.FastCrash? <==> |argv| > 2 && parseFloat(argv[2]).None?
    ensures r.FastStart? ==> r.eventPath == argv[1]
    ensures r.FastStart? ==> (|argv| == 2 ==> r.threshold == DefaultThreshold)
                             && (|argv| > 2 ==> Some(r.threshold) == parseFloat(argv[2]))
  {
    if |argv| < 2 then FastUsage
    else if |argv| == 2 then FastStart(argv[1], DefaultThreshold)
    else if parseFloat(argv[2]).None? then FastCrash
    else FastStart(argv[1], parseFloat(argv[2]).value)
  }

  /** The exit status of the script: 0 exactly when a processor was started
      and its run succeeded. An uncaught ValueError exits with 1. */
  function ExitStatus(launch: FastLaunch, success: bool): (status: int)
    ensures status == 0 || status == 1
    ensures status == 0 <==> launch.FastStart? && success
  {
    match launch
    case FastUsage => 1
    case FastCrash => 1
    case FastStart(_, _) => if success then 0 else 1
  }

  // ---------------------------------------------------------------------
  // The processor

  /** One more photo in the photo loop. */
  lemma MatchedInStep(ev: FastEvent, threshold: real, guest: string, photos: seq<string>, j: nat)
    requires j < |photos|
    ensures MatchedIn(ev, threshold, guest, photos[..j + 1])
         == MatchedIn(ev, threshold, guest, photos[..j])
            + (if FoundClose(ev.find(photos[j], guest), threshold) then {(guest, photos[j])} else {})
  {
    assert photos[..j + 1][..j] == photos[..j];
  }

  class FastFaceProcessor {
    const threshold: real
    /** The (guest, photo name) pairs present under matched/. */
    var matchedFiles: set<(string, string)>
    /** The guest sub-directories of matched/. */
    var matchedDirs: set<string>
    /** The statistics dictionary. */
    var totalGuests: nat
    var totalSelfies: nat
    var totalPhotos: nat
    var totalMatches: nat

    /** __init__ over an event folder whose matched/ already holds the given
        sub-directories and pairs; the default threshold is 0.6. */
    constructor(dirsOnDisk: set<string>, matchedOnDisk: set<(string, string)>, threshold: real := 0.6)
      ensures this.threshold == threshold && matchedDirs == dirsOnDisk && matchedFiles == matchedOnDisk
      ensures totalGuests == 0 && totalSelfies == 0 && totalPhotos == 0 && totalMatches == 0
    {
      this.threshold := threshold;
      matchedDirs, matchedFiles := dirsOnDisk, matchedOnDisk;
      totalGuests, totalSelfies, totalPhotos, totalMatches := 0, 0, 0, 0;
    }

    /** The counting loop of validate_setup. */
    static method CountGuests(entries: seq<Entry>) returns (guests: nat, selfies: nat)
      ensures guests == |GuestDirs(entries)|
      ensures selfies == GlobSelfieCount(entries)
    {
      guests, selfies := 0, 0;
      for k := 0 to |entries|
        invariant guests == |GuestDirs(entries[..k])|
        invariant selfies == GlobSelfieCount(entries[..k])
      {
        assert entries[..k + 1][..k] == entries[..k];
        var folder := entries[k];
        if folder.isDir {
          guests := guests + 1;
          selfies := selfies + |Glob(folder.listing)|;
        }
      }
      assert entries[..|entries|] == entries;
    }

    /** validate_setup: the counts reach the statistics as soon as both
        folders exist, before the checks on them. */
    method ValidateSetup(d: Folders) returns (ok: bool)
      modifies this`totalGuests, this`totalSelfies, this`totalPhotos
      ensures ok <==> ValidationPasses(d)
      ensures d.selfiesExist && d.photosExist ==>
        totalGuests == |GuestDirs(d.selfies)| && totalSelfies == GlobSelfieCount(d.selfies)
        && totalPhotos == |Glob(d.photos)|
      ensures !(d.selfiesExist && d.photosExist) ==>
        totalGuests == old(totalGuests) && totalSelfies == old(totalSelfies) && totalPhotos == old(totalPhotos)
    {
      if !d.selfiesExist || !d.photosExist {
        return false;
      }
      var guestCount, selfieCount := CountGuests(d.selfies);
      var photoFiles := Glob(d.photos);
      totalGuests, totalSelfies, totalPhotos := guestCount, selfieCount, |photoFiles|;
      if guestCount == 0 {
        return false;
      }
      if |photoFiles| == 0 {
        return false;
      }
      ok := true;
    }

    /** The frame loop for one photo: matched as soon as a non-empty frame
        has a row within the threshold. */
    static method AnyCloseRow(frames: seq<seq<real>>, threshold: real) returns (matched: bool)
      ensures matched <==> exists i, j :: 0 <= i < |frames| && 0 <= j < |frames[i]| && frames[i][j] <= threshold
    {
      matched := false;
      var i := 0;
      while i < |frames|
        invariant 0 <= i <= |frames|
        invariant forall k, j :: 0 <= k < i && 0 <= j < |frames[k]| ==> frames[k][j] > threshold
      {
        var df := frames[i];
        if |df| > 0 {
          var close := CloseRows(df, threshold);
          if |close| > 0 {
            assert close[0] in df;
            matched := true;
            break;
          }
          assert forall x :: x in df ==> x > threshold;
          assert forall j :: 0 <= j < |df| ==> df[j] in df;
        }
        i := i + 1;
      }
    }

    /** The search of one photo in a guest folder: a search that raises
        matches nothing. */
    static method SearchPhoto(ev: FastEvent, photo: string, guest: string, threshold: real) returns (matched: bool)
      ensures matched <==> FoundClose(ev.find(photo, guest), threshold)
    {
      var result := ev.find(photo, guest);
      matched := false;
      if result.Frames? {
        matched := AnyCloseRow(result.frames, threshold);
      }
    }

    /** One photo of process_guest: a search that raises skips the photo; a
        match is copied unless matched/<guest>/<photo> exists, and only a
        copy counts. */
    method MatchPhoto(ev: FastEvent, guest: string, photos: seq<string>, j: nat, matches: nat,
                      ghost files0: set<(string, string)>)
      returns (matches': nat)
      requires j < |photos|
      requires matchedFiles == files0 + MatchedIn(ev, threshold, guest, photos[..j])
      requires matches == |MatchedIn(ev, threshold, guest, photos[..j]) - files0|
      modifies this`matchedFiles
      ensures matchedFiles == files0 + MatchedIn(ev, threshold, guest, photos[..j + 1])
      ensures matches' == |MatchedIn(ev, threshold, guest, photos[..j + 1]) - files0|
    {
      var dest := (guest, photos[j]);
      var matched := SearchPhoto(ev, photos[j], guest, threshold);
      MatchedInStep(ev, threshold, guest, photos, j);
      AddPair(files0, MatchedIn(ev, threshold, guest, photos[..j]), dest, matched);
      matches' := matches;
      if matched && dest !in matchedFiles {
        matchedFiles := matchedFiles + {dest};
        matches' := matches + 1;
      }
    }

    /** The photo loop of process_guest for a guest holding a selfie. */
    method MatchPhotos(ev: FastEvent, guest: string) returns (matches: nat)
      modifies this`matchedFiles
      ensures matchedFiles == old(matchedFiles) + MatchedIn(ev, threshold, guest, Photos(ev))
      ensures matches == |MatchedIn(ev, threshold, guest, Photos(ev)) - old(matchedFiles)|
    {
      ghost var files0 := matchedFiles;
      var photos := Photos(ev);
      matches := 0;
      for j := 0 to |photos|
        invariant matchedFiles == files0 + MatchedIn(ev, threshold, guest, photos[..j])
        invariant matches == |MatchedIn(ev, threshold, guest, photos[..j]) - files0|
      {
        matches := MatchPhoto(ev, guest, photos, j, matches, files0);
      }
      assert photos[..|photos|] == photos;
    }

    /** process_guest: nothing, not even its matched/ sub-directory, for a
        folder without a selfie; otherwise every photo is searched. */
    method ProcessGuest(ev: FastEvent, folder: Entry) returns (matches: nat)
      modifies this`matchedFiles, this`matchedDirs
      ensures matchedFiles == old(matchedFiles) + GuestMatches(ev, threshold, folder)
      ensures matches == |GuestMatches(ev, threshold, folder) - old(matchedFiles)|
      ensures |Glob(folder.listing)| == 0 ==> matches == 0 && matchedDirs == old(matchedDirs)
      ensures |Glob(folder.listing)| > 0 ==> matchedDirs == old(matchedDirs) + {folder.name}
    {
      var selfieFiles := Glob(folder.listing);
      if |selfieFiles| == 0 {
        return 0;
      }
      matchedDirs := matchedDirs + {folder.name};
      matches := MatchPhotos(ev, folder.name);
    }

    /** One guest folder of process_all_guests, on top of the first k. */
    method GuestStep(ev: FastEvent, folders: seq<Entry>, k: nat, total: nat,
                     ghost files0: set<(string, string)>, ghost dirs0: set<string>)
      returns (total': nat)
      requires k < |folders|
      requires matchedFiles == files0 + FastMatchesUpTo(ev, threshold, folders, k)
      requires total == |FastMatchesUpTo(ev, threshold, folders, k) - files0|
      requires matchedDirs == dirs0 + DirsMadeUpTo(folders, k)
      modifies this`matchedFiles, this`matchedDirs
      ensures matchedFiles == files0 + FastMatchesUpTo(ev, threshold, folders, k + 1)
      ensures total' == |FastMatchesUpTo(ev, threshold, folders, k + 1) - files0|
      ensures matchedDirs == dirs0 + DirsMadeUpTo(folders, k + 1)
    {
      ghost var done := FastMatchesUpTo(ev, threshold, folders, k);
      var matches := ProcessGuest(ev, folders[k]);
      UnionGrowth(files0, done, GuestMatches(ev, threshold, folders[k]));
      total' := total + matches;
    }

    /** The guest loop of process_all_guests over the given folders. */
    method MatchGuests(ev: FastEvent, folders: seq<Entry>) returns (total: nat)
      modifies this`matchedFiles, this`matchedDirs
      ensures matchedFiles == old(matchedFiles) + FastMatchesUpTo(ev, threshold, folders, |folders|)
      ensures total == |FastMatchesUpTo(ev, threshold, folders, |folders|) - old(matchedFiles)|
      ensures matchedDirs == old(matchedDirs) + DirsMadeUpTo(folders, |folders|)
    {
      ghost var files0, dirs0 := matchedFiles, matchedDirs;
      total := 0;
      var k := 0;
      while k < |folders|
        invariant k <= |folders|
        invariant matchedFiles == files0 + FastMatchesUpTo(ev, threshold, folders, k)
        invariant total == |FastMatchesUpTo(ev, threshold, folders, k) - files0|
        invariant matchedDirs == dirs0 + DirsMadeUpTo(folders, k)
      {
        total := GuestStep(ev, folders, k, total, files0, dirs0);
        k := k + 1;
      }
    }

    /** process_all_guests: the sum of process_guest over the guest folders,
        which is the number of new copies and stats['total_matches']. */
    method ProcessAllGuests(ev: FastEvent) returns (total: nat)
      modifies this`matchedFiles, this`matchedDirs, this`totalMatches
      ensures matchedFiles == old(matchedFiles) + FastMatches(ev, threshold)
      ensures total == |FastMatches(ev, threshold) - old(matchedFiles)| && totalMatches == total
      ensures matchedDirs == old(matchedDirs)
        + DirsMadeUpTo(GuestFolders(ev.folders.selfies), |GuestFolders(ev.folders.selfies)|)
    {
      var folders := GuestFolders(ev.folders.selfies);
      total := MatchGuests(ev, folders);
      totalMatches := total;
    }

    /** run: False when validation fails, True otherwise, however many
        photos matched. */
    method Run(ev: FastEvent) returns (ok: bool)
      modifies this`matchedFiles, this`matchedDirs, this`totalMatches, this`totalGuests, this`totalSelfies,
               this`totalPhotos
      ensures ok <==> ValidationPasses(ev.folders)
      ensures ok ==> matchedFiles == old(matchedFiles) + FastMatches(ev, threshold)
                     && totalMatches == |FastMatches(ev, threshold) - old(matchedFiles)|
      ensures ok ==> matchedDirs == old(matchedDirs)
                     + DirsMadeUpTo(GuestFolders(ev.folders.selfies), |GuestFolders(ev.folders.selfies)|)
      ensures !ok ==> matchedFiles == old(matchedFiles) && totalMatches == old(totalMatches)
                      && matchedDirs == old(matchedDirs)
      ensures ev.folders.selfiesExist && ev.folders.photosExist ==>
        totalGuests == |GuestDirs(ev.folders.selfies)| && totalSelfies == GlobSelfieCount(ev.folders.selfies)
        && totalPhotos == |Glob(ev.folders.photos)|
      ensures !(ev.folders.selfiesExist && ev.folders.photosExist) ==>
        totalGuests == old(totalGuests) && totalSelfies == old(totalSelfies) && totalPhotos == old(totalPhotos)
    {
      ok := ValidateSetup(ev.folders);
      if !ok {
        return;
      }
      var _ := ProcessAllGuests(ev);
    }
  }
}
