/** EnhancedFaceProcessor of enhanced_face_match.py: the guests' vectors as
    the matcher lays them out, the two passes over the event photos as
    specification sets, and the processor object that copies photos into
    matched/ and candidates/ and keeps its statistics. */
module EnhancedFaceMatch {
  import opened Common
  import opened EnhancedDecision

  /** The suffixes (lower-cased) that count as images. */
  const ImageExtensions: seq<string> := [".jpg", ".jpeg", ".png", ".webp", ".bmp"]

  // ---------------------------------------------------------------------
  // Guests and their vectors

  /** An entry of guest_encodings: the guest's e-mail (the selfie folder name)
      and how many selfie encodings were loaded for it. */
  datatype GuestEncodings = GuestEncodings(email: string, vectors: nat)

  function Emails(guests: seq<GuestEncodings>): (r: seq<string>)
    ensures |r| == |guests|
    ensures forall i :: 0 <= i < |guests| ==> r[i] == guests[i].email
  {
    seq(|guests|, i requires 0 <= i < |guests| => guests[i].email)
  }

  /** The owners of one guest's vectors in flat_vectors: the centroid first
      (np.stack of an empty list raises, so a guest without vectors has none)
      and then every raw vector. */
  function CentroidAndRaw(g: GuestEncodings): seq<string> {
    if g.vectors == 0 then [] else [g.email] + Repeat(g.email, g.vectors)
  }

  /** flat_emails of pass 1: guest by guest, in dictionary order. */
  function FlatEmails(guests: seq<GuestEncodings>): seq<string> {
    if |guests| == 0 then []
    else FlatEmails(guests[..|guests| - 1]) + CentroidAndRaw(guests[|guests| - 1])
  }

  /** flat_emails_cnn of the CNN re-check: the raw vectors only. */
  function RawEmails(guests: seq<GuestEncodings>): seq<string> {
    if |guests| == 0 then []
    else RawEmails(guests[..|guests| - 1]) + Repeat(guests[|guests| - 1].email, guests[|guests| - 1].vectors)
  }

  ghost predicate HasVectors(guests: seq<GuestEncodings>, x: string) {
    exists i :: 0 <= i < |guests| && guests[i].email == x && guests[i].vectors > 0
  }

  /** Both layouts hold a vector of exactly the guests that have one, and the
      pass-1 layout adds one centroid per such guest. */
  lemma FlatAndRawOwners(guests: seq<GuestEncodings>)
    ensures forall x :: x in FlatEmails(guests) <==> HasVectors(guests, x)
    ensures forall x :: x in RawEmails(guests) <==> HasVectors(guests, x)
    ensures |FlatEmails(guests)| >= |RawEmails(guests)|
    ensures |FlatEmails(guests)| == 0 <==> |RawEmails(guests)| == 0
  {
    forall x ensures x in FlatEmails(guests) <==> HasVectors(guests, x) {
      FlatOwner(guests, x);
    }
    forall x ensures x in RawEmails(guests) <==> HasVectors(guests, x) {
      RawOwner(guests, x);
    }
    FlatLonger(guests);
  }

  lemma CentroidAndRawOwner(g: GuestEncodings, x: string)
    ensures x in CentroidAndRaw(g) <==> g.vectors > 0 && x == g.email
  {
    if g.vectors > 0 && x in Repeat(g.email, g.vectors) {
      var k :| 0 <= k < g.vectors && Repeat(g.email, g.vectors)[k] == x;
    }
  }

  /** A guest owns a vector of flat_emails exactly when it has a vector. */
  lemma {:induction false} FlatOwner(guests: seq<GuestEncodings>, x: string)
    ensures x in FlatEmails(guests) <==> HasVectors(guests, x)
  {
    if |guests| > 0 {
      var init, g := guests[..|guests| - 1], guests[|guests| - 1];
      FlatOwner(init, x);
      assert FlatEmails(guests) == FlatEmails(init) + CentroidAndRaw(g);
      CentroidAndRawOwner(g, x);
      if HasVectors(guests, x) {
        var i :| 0 <= i < |guests| && guests[i].email == x && guests[i].vectors > 0;
        if i < |guests| - 1 {
          assert init[i] == guests[i];
        }
      }
      if x in FlatEmails(init) {
        var i :| 0 <= i < |init| && init[i].email == x && init[i].vectors > 0;
        assert guests[i] == init[i];
      }
    }
  }

  /** A guest owns a vector of flat_emails_cnn exactly when it has a vector. */
  lemma {:induction false} RawOwner(guests: seq<GuestEncodings>, x: string)
    ensures x in RawEmails(guests) <==> HasVectors(guests, x)
  {
    if |guests| > 0 {
      var init, g := guests[..|guests| - 1], guests[|guests| - 1];
      RawOwner(init, x);
      assert RawEmails(guests) == RawEmails(init) + Repeat(g.email, g.vectors);
      if HasVectors(guests, x) {
        var i :| 0 <= i < |guests| && guests[i].email == x && guests[i].vectors > 0;
        if i < |guests| - 1 {
          assert init[i] == guests[i];
        } else {
          assert Repeat(g.email, g.vectors)[0] == x;
        }
      }
      if x in RawEmails(init) {
        var i :| 0 <= i < |init| && init[i].email == x && init[i].vectors > 0;
        assert guests[i] == init[i];
      } else if x in Repeat(g.email, g.vectors) {
        var k :| 0 <= k < g.vectors && Repeat(g.email, g.vectors)[k] == x;
      }
    }
  }

  /** flat_emails has one more entry than flat_emails_cnn per guest with a
      vector. */
  lemma {:induction false} FlatLonger(guests: seq<GuestEncodings>)
    ensures |FlatEmails(guests)| >= |RawEmails(guests)|
    ensures |FlatEmails(guests)| == 0 <==> |RawEmails(guests)| == 0
  {
    if |guests| > 0 {
      FlatLonger(guests[..|guests| - 1]);
    }
  }

  /** The loop of process_event_photos that lays out flat_emails. */
  method BuildFlatEmails(guests: seq<GuestEncodings>) returns (flat: seq<string>)
    ensures flat == FlatEmails(guests)
  {
    flat := [];
    var j := 0;
    while j < |guests|
      invariant 0 <= j <= |guests|
      invariant flat == FlatEmails(guests[..j])
    {
      var g := guests[j];
      if g.vectors > 0 {
        flat := flat + [g.email];
      }
      var v := 0;
      while v < g.vectors
        invariant 0 <= v <= g.vectors
        invariant flat == FlatEmails(guests[..j]) + (if g.vectors > 0 then [g.email] else []) + Repeat(g.email, v)
      {
        flat := flat + [g.email];
        v := v + 1;
      }
      assert guests[..j + 1][..j] == guests[..j];
      j := j + 1;
    }
    assert guests[..j] == guests;
  }

  /** The loop of confirm_with_cnn that lays out flat_emails_cnn: every raw
      vector of every guest, guest by guest. */
  method BuildRawEmails(guests: seq<GuestEncodings>) returns (raw: seq<string>)
    ensures raw == RawEmails(guests)
  {
    raw := [];
    var j := 0;
    while j < |guests|
      invariant 0 <= j <= |guests|
      invariant raw == RawEmails(guests[..j])
    {
      var g := guests[j];
      var v := 0;
      while v < g.vectors
        invariant 0 <= v <= g.vectors
        invariant raw == RawEmails(guests[..j]) + Repeat(g.email, v)
      {
        raw := raw + [g.email];
        v := v + 1;
      }
      assert guests[..j + 1][..j] == guests[..j];
      j := j + 1;
    }
    assert guests[..j] == guests;
  }

  // ---------------------------------------------------------------------
  // Event photos

  /** One image file of photos/ as the matcher sees it. `loaded` is false when
      safe_load_image gives up on it; `faces` holds, for every face the HOG
      encoder finds, its distance to each vector of FlatEmails; `cnnFaces`
      the same for every face the CNN encoder finds, against RawEmails. The
      encoders are deterministic, so pass 2 sees the faces of pass 1. */
  datatype Photo = Photo(name: string, loaded: bool, height: int, width: int,
                         faces: seq<seq<real>>, cnnFaces: seq<seq<real>>)

  /** The faces a pass works on: none when the image does not load. */
  function Faces(p: Photo): seq<seq<real>> {
    if p.loaded then p.faces else []
  }

  ghost predicate Fits(p: Photo, guests: seq<GuestEncodings>) {
    && (forall f :: 0 <= f < |p.faces| ==> |p.faces[f]| == |FlatEmails(guests)|)
    && (forall c :: 0 <= c < |p.cnnFaces| ==> |p.cnnFaces[c]| == |RawEmails(guests)|)
  }

  /** The inputs of process_event_photos: guest_encodings, the image files of
      photos/ in listing order, and the distance of face `f` of photo `i` to
      the refined centroid built from the faces of the sample photos. */
  datatype Event = Event(guests: seq<GuestEncodings>, photos: seq<Photo>,
                         refinedDist: (seq<nat>, nat, nat) -> real)

  ghost predicate WellFormed(e: Event) {
    && NoDup(Emails(e.guests))
    // load_guest_selfies adds a guest only together with its first encoding
    && (forall i :: 0 <= i < |e.guests| ==> e.guests[i].vectors > 0)
    && forall i :: 0 <= i < |e.photos| ==> Fits(e.photos[i], e.guests)
  }

  // ---------------------------------------------------------------------
  // Pass 1, face by face

  /** The ranking of face `f` of photo `i`. */
  function Ranked(e: Event, i: nat, f: nat): Ranking
    requires WellFormed(e) && i < |e.photos| && f < |e.photos[i].faces|
    requires |FlatEmails(e.guests)| > 0
  {
    assert Fits(e.photos[i], e.guests);
    FaceRanking(FlatEmails(e.guests), e.photos[i].faces[f]).value
  }

  /** What pass 1 does with face `f` of photo `i`. */
  function FaceOutcome(s: Settings, e: Event, i: nat, f: nat): FaceAction
    requires WellFormed(e) && i < |e.photos| && f < |e.photos[i].faces|
    requires |FlatEmails(e.guests)| > 0
  {
    var p := e.photos[i];
    assert Fits(p, e.guests);
    var r := Ranked(e, i, f);
    var single := |e.guests| == 1;
    var eff := EffectiveThresholds(s.base, |p.faces|, single);
    var recheck := NeedRecheck(s, |p.faces|, single, IsLargeImage(p.height, p.width), r.best, Delta(r.second, r.best));
    DecideFace(s, r, eff, single, recheck, CnnConfirm(p.cnnFaces, RawEmails(e.guests)))
  }

  /** The pair a face's fate copies under matched/, if any. */
  function MatchStep(a: FaceAction, name: string): set<(string, string)> {
    if a.Accept? then {(a.guest, name)} else {}
  }

  /** The pair a face's fate copies under candidates/, if any. */
  function CandidateStep(a: FaceAction, name: string): set<(string, string)> {
    if a.Candidate? then {(a.guest, name)} else {}
  }

  /** The bootstrap item face f of photo i gives guest g, if any. */
  function BootStep(r: Ranking, i: nat, f: nat, g: string): seq<BootItem> {
    if r.guest == g && IsBootstrapCandidate(r) then [BootItem(r.best, i, f)] else []
  }

  function MatchesOf(acts: seq<FaceAction>, name: string): set<(string, string)> {
    if |acts| == 0 then {} else MatchesOf(acts[..|acts| - 1], name) + MatchStep(acts[|acts| - 1], name)
  }

  function CandidatesOf(acts: seq<FaceAction>, name: string): set<(string, string)> {
    if |acts| == 0 then {} else CandidatesOf(acts[..|acts| - 1], name) + CandidateStep(acts[|acts| - 1], name)
  }

  /** The bootstrap items guest g collects from the rankings of photo i's faces. */
  function BootItemsOf(rs: seq<Ranking>, i: nat, g: string): seq<BootItem> {
    if |rs| == 0 then [] else BootItemsOf(rs[..|rs| - 1], i, g) + BootStep(rs[|rs| - 1], i, |rs| - 1, g)
  }

  /** The rankings of the first k faces of photo i. */
  function RankingsUpTo(e: Event, i: nat, k: nat): (rs: seq<Ranking>)
    requires WellFormed(e) && i < |e.photos| && k <= |Faces(e.photos[i])|
    requires |FlatEmails(e.guests)| > 0
    ensures |rs| == k
  {
    Tabulate(k, (j: nat) => if j < |Faces(e.photos[i])| then Ranked(e, i, j) else Ranking("", 0.0, Inf))
  }

  /** The fates of the first k faces of photo i. */
  function OutcomesUpTo(s: Settings, e: Event, i: nat, k: nat): (acts: seq<FaceAction>)
    requires WellFormed(e) && i < |e.photos| && k <= |Faces(e.photos[i])|
    requires |FlatEmails(e.guests)| > 0
    ensures |acts| == k
  {
    Tabulate(k, (j: nat) => if j < |Faces(e.photos[i])| then FaceOutcome(s, e, i, j) else Reject)
  }

  /** The rankings of photo i's faces in pass 1: none when the photo does not
      load, or when no guest has a vector (the face loop breaks at once). */
  function Rankings(e: Event, i: nat): seq<Ranking>
    requires WellFormed(e) && i < |e.photos|
  {
    if |FlatEmails(e.guests)| == 0 then [] else RankingsUpTo(e, i, |Faces(e.photos[i])|)
  }

  /** The fates of photo i's faces in pass 1, in face order. */
  function Outcomes(s: Settings, e: Event, i: nat): seq<FaceAction>
    requires WellFormed(e) && i < |e.photos|
  {
    if |FlatEmails(e.guests)| == 0 then [] else OutcomesUpTo(s, e, i, |Faces(e.photos[i])|)
  }

  function Pass1Matches(s: Settings, e: Event, n: nat): set<(string, string)>
    requires WellFormed(e) && n <= |e.photos|
  {
    UnionUpTo(n, (i: nat) => if i < |e.photos| then MatchesOf(Outcomes(s, e, i), e.photos[i].name) else {})
  }

  function Pass1Candidates(s: Settings, e: Event, n: nat): set<(string, string)>
    requires WellFormed(e) && n <= |e.photos|
  {
    UnionUpTo(n, (i: nat) => if i < |e.photos| then CandidatesOf(Outcomes(s, e, i), e.photos[i].name) else {})
  }

  /** boot_candidates[g] after the first n photos. */
  function Pass1Boot(e: Event, n: nat, g: string): seq<BootItem>
    requires WellFormed(e) && n <= |e.photos|
  {
    ConcatUpTo(n, (i: nat) => if i < |e.photos| then BootItemsOf(Rankings(e, i), i, g) else [])
  }

  // ---------------------------------------------------------------------
  // Pass 2

  /** The photos whose faces build guest g's refined centroid: those of the
      30 closest bootstrap items. */
  function Sample(e: Event, g: string): seq<nat>
    requires WellFormed(e)
  {
    PhotosOf(TopClosest(Pass1Boot(e, |e.photos|, g), BootstrapTopK))
  }

  /** len(acc): every face of every loadable sample photo, repeats included. */
  function AccSize(e: Event, sample: seq<nat>): nat
    requires forall k :: 0 <= k < |sample| ==> sample[k] < |e.photos|
  {
    if |sample| == 0 then 0
    else AccSize(e, sample[..|sample| - 1]) + |Faces(e.photos[sample[|sample| - 1]])|
  }

  /** Guest g gets a refined centroid: enough bootstrap items, and a
      non-empty acc from its sample photos. */
  predicate Refinable(e: Event, g: string)
    requires WellFormed(e)
  {
    SampleInRange(e, g);
    |Pass1Boot(e, |e.photos|, g)| >= BootstrapMinSamples && AccSize(e, Sample(e, g)) > 0
  }

  /** refined_vectors' keys after the first n guests. */
  function RefinedUpTo(e: Event, n: nat): seq<string>
    requires WellFormed(e) && n <= |e.guests|
  {
    Select(n, (j: nat) => if j < |e.guests| then e.guests[j].email else "",
              (j: nat) => j < |e.guests| && Refinable(e, e.guests[j].email))
  }

  lemma RefinedUpToSnoc(e: Event, k: nat)
    requires WellFormed(e) && k < |e.guests|
    ensures RefinedUpTo(e, k + 1)
      == RefinedUpTo(e, k) + (if Refinable(e, e.guests[k].email) then [e.guests[k].email] else [])
  {
  }

  function Refined(e: Event): seq<string>
    requires WellFormed(e)
  {
    RefinedUpTo(e, |e.guests|)
  }

  /** Every item a photo's rankings give guest g is a face of that photo
      ranked first for g within the bootstrap cut-off. */
  lemma {:induction false} BootItemFrom(rs: seq<Ranking>, i: nat, g: string, x: BootItem)
    requires x in BootItemsOf(rs, i, g)
    ensures x.photo == i && x.face < |rs| && rs[x.face].guest == g && x.dist == rs[x.face].best
    ensures IsBootstrapCandidate(rs[x.face])
  {
    var init := rs[..|rs| - 1];
    assert BootItemsOf(rs, i, g) == BootItemsOf(init, i, g) + BootStep(rs[|rs| - 1], i, |rs| - 1, g);
    if x in BootItemsOf(init, i, g) {
      BootItemFrom(init, i, g, x);
      assert init[x.face] == rs[x.face];
    }
  }

  /** Every bootstrap item of the first n photos names one of them, and
      comes from that photo's rankings. */
  lemma Pass1BootInRange(e: Event, n: nat, g: string, x: BootItem)
    requires WellFormed(e) && n <= |e.photos|
    requires x in Pass1Boot(e, n, g)
    ensures x.photo < n && x in BootItemsOf(Rankings(e, x.photo), x.photo, g)
  {
    var part := (i: nat) => if i < |e.photos| then BootItemsOf(Rankings(e, i), i, g) else [];
    ConcatUpToFrom(n, part, x);
    var i :| 0 <= i < n && x in part(i);
    BootItemFrom(Rankings(e, i), i, g, x);
  }

  /** The sample photos of a guest are photos of the event. */
  lemma SampleInRange(e: Event, g: string)
    requires WellFormed(e)
    ensures forall k :: 0 <= k < |Sample(e, g)| ==> Sample(e, g)[k] < |e.photos|
  {
    var items := Pass1Boot(e, |e.photos|, g);
    forall x | x in items ensures x.photo < |e.photos| {
      Pass1BootInRange(e, |e.photos|, g, x);
    }
    TopClosestIsClosest(items, BootstrapTopK);
    var top := TopClosest(items, BootstrapTopK);
    forall k | 0 <= k < |top| ensures top[k].photo < |e.photos| {
      assert top[k] in multiset(top);
      assert top[k] in multiset(items);
    }
  }

  /** The sample photos behind each refined centroid, in key order. */
  function Samples(e: Event): (ss: seq<seq<nat>>)
    requires WellFormed(e)
    ensures |ss| == |Refined(e)|
  {
    var r := Refined(e);
    seq(|r|, j requires 0 <= j < |r| => Sample(e, r[j]))
  }

  /** The distances of face f of photo i to the refined centroids built from
      samples, in key order. */
  function RefinedDists(e: Event, samples: seq<seq<nat>>, i: nat, f: nat): (d: seq<real>)
    ensures |d| == |samples|
  {
    seq(|samples|, j requires 0 <= j < |samples| => e.refinedDist(samples[j], i, f))
  }

  /** The guest pass 2 gives face f of photo i: np.argmin's pick among the
      refined guests, when under the bootstrap tolerance. */
  function Pass2Choice(e: Event, refined: seq<string>, samples: seq<seq<nat>>, i: nat, f: nat): Option<string>
    requires |samples| == |refined|
  {
    var d := RefinedDists(e, samples, i, f);
    if |d| == 0 then None
    else
      var m := ArgMinFirst(d);
      if d[m] < BootstrapTolerance then Some(refined[m]) else None
  }

  /** The pairs pass 2 accepts among the first k faces of photo i. */
  function FacePass2(e: Event, refined: seq<string>, samples: seq<seq<nat>>, i: nat, k: nat): set<(string, string)>
    requires |samples| == |refined| && i < |e.photos|
  {
    if k == 0 then {}
    else
      var c := Pass2Choice(e, refined, samples, i, k - 1);
      FacePass2(e, refined, samples, i, k - 1) + (if c.Some? then {(c.value, e.photos[i].name)} else {})
  }

  /** The pairs pass 2 accepts in the first n photos. */
  function Pass2Matches(e: Event, refined: seq<string>, samples: seq<seq<nat>>, n: nat): set<(string, string)>
    requires |samples| == |refined| && n <= |e.photos|
  {
    UnionUpTo(n, (i: nat) => if i < |e.photos| then FacePass2(e, refined, samples, i, |Faces(e.photos[i])|) else {})
  }

  /** Pass 2 photo by photo. */
  lemma Pass2Step(e: Event, refined: seq<string>, samples: seq<seq<nat>>, i: nat)
    requires |samples| == |refined| && i < |e.photos|
    ensures Pass2Matches(e, refined, samples, i + 1)
         == Pass2Matches(e, refined, samples, i) + FacePass2(e, refined, samples, i, |Faces(e.photos[i])|)
  {
  }

  /** Every (guest, photo name) pair the two passes accept. */
  function AllMatches(s: Settings, e: Event): set<(string, string)>
    requires WellFormed(e)
  {
    Pass1Matches(s, e, |e.photos|) + Pass2Matches(e, Refined(e), Samples(e), |e.photos|)
  }

  /** No refined centroid: pass 2 matches no face of photo i. */
  lemma {:induction false} NoRefinedFacePass2(e: Event, samples: seq<seq<nat>>, i: nat, k: nat)
    requires |samples| == 0 && i < |e.photos|
    ensures FacePass2(e, [], samples, i, k) == {}
  {
    if k > 0 {
      NoRefinedFacePass2(e, samples, i, k - 1);
    }
  }

  /** No refined centroid: pass 2 matches nothing. */
  lemma {:induction false} NoRefinedNoPass2(e: Event, samples: seq<seq<nat>>, n: nat)
    requires |samples| == 0 && n <= |e.photos|
    ensures Pass2Matches(e, [], samples, n) == {}
  {
    if n > 0 {
      NoRefinedNoPass2(e, samples, n - 1);
      NoRefinedFacePass2(e, samples, n - 1, |Faces(e.photos[n - 1])|);
    }
  }

  /** Pass 1 photo by photo. */
  lemma Pass1Step(s: Settings, e: Event, i: nat)
    requires WellFormed(e) && i < |e.photos|
    ensures Pass1Matches(s, e, i + 1) == Pass1Matches(s, e, i) + MatchesOf(Outcomes(s, e, i), e.photos[i].name)
    ensures Pass1Candidates(s, e, i + 1) == Pass1Candidates(s, e, i) + CandidatesOf(Outcomes(s, e, i), e.photos[i].name)
  {
  }

  /** boot_candidates after photo i, from those before it and the items of
      photo i's faces. */
  lemma BootedStep(e: Event, boot: map<string, seq<BootItem>>, boot': map<string, seq<BootItem>>, i: nat)
    requires WellFormed(e) && i < |e.photos| && Booted(e, boot, i)
    requires Collected(boot, boot', Rankings(e, i), i)
    ensures Booted(e, boot', i + 1)
  {
    forall g | g in boot'
      ensures boot'[g] == Pass1Boot(e, i + 1, g)
    {
      assert Pass1Boot(e, i + 1, g) == Pass1Boot(e, i, g) + BootItemsOf(Rankings(e, i), i, g);
    }
  }

  /** refined and samples are refined_vectors' keys after the first k guests
      and the sample photos behind each. */
  ghost predicate RefinedSoFar(e: Event, k: nat, refined: seq<string>, samples: seq<seq<nat>>)
    requires WellFormed(e) && k <= |e.guests|
  {
    && refined == RefinedUpTo(e, k) && |samples| == |refined|
    && forall j :: 0 <= j < |refined| ==> samples[j] == Sample(e, refined[j])
  }

  /** A sequence holding Sample of each refined guest is Samples. */
  lemma SamplesAre(e: Event, samples: seq<seq<nat>>)
    requires WellFormed(e) && |samples| == |Refined(e)|
    requires forall j :: 0 <= j < |samples| ==> samples[j] == Sample(e, Refined(e)[j])
    ensures samples == Samples(e)
  {
  }

  /** After the last guest, the keys are refined_vectors' and the samples
      those behind them. */
  lemma RefinedSoFarIsRefined(e: Event, refined: seq<string>, samples: seq<seq<nat>>)
    requires WellFormed(e) && RefinedSoFar(e, |e.guests|, refined, samples)
    ensures refined == Refined(e) && samples == Samples(e)
  {
    SamplesAre(e, samples);
  }

  /** Pass 2 face by face, on top of the pairs done before the photo. */
  lemma FacePass2Step(e: Event, refined: seq<string>, samples: seq<seq<nat>>, i: nat, f: nat,
                      done: set<(string, string)>)
    requires |samples| == |refined| && i < |e.photos|
    ensures var c := Pass2Choice(e, refined, samples, i, f);
      done + FacePass2(e, refined, samples, i, f + 1)
      == (done + FacePass2(e, refined, samples, i, f)) + (if c.Some? then {(c.value, e.photos[i].name)} else {})
  {
  }

  /** boot_candidates after the first n photos of pass 1. */
  ghost predicate Booted(e: Event, boot: map<string, seq<BootItem>>, n: nat)
    requires WellFormed(e) && n <= |e.photos|
  {
    && (forall g :: g in boot <==> g in Emails(e.guests))
    && (forall g :: g in boot ==> boot[g] == Pass1Boot(e, n, g))
  }

  // ---------------------------------------------------------------------
  // The event folder and the command line

  /** validate_directories' verdict: both folders exist, some guest folder
      holds an image, and photos/ holds one. */
  predicate ValidationPasses(d: Folders) {
    && d.selfiesExist && d.photosExist
    && SelfieCount(d.selfies, ImageExtensions) > 0
    && |ImageFiles(d.photos, ImageExtensions)| > 0
  }

  /** The event's photos are the image files of photos/, in listing order. */
  ghost predicate PhotosListed(d: Folders, e: Event) {
    var names := ImageFiles(d.photos, ImageExtensions);
    |e.photos| == |names| && forall i :: 0 <= i < |names| ==> e.photos[i].name == names[i]
  }

  /** What main makes of sys.argv: the usage message, a crash on an argument
      float() or int() rejects, or a processor to run. */
  datatype Launch = Usage | Crash | Start(eventPath: string, tolerance: real, margin: real, cnnRecheck: bool)

  /** main's argument handling; parseFloat and parseInt stand for float() and
      int(), None where they raise ValueError. */
  function ParseArgs(argv: seq<string>, parseFloat: string -> Option<real>, parseInt: string -> Option<int>): (r: Launch)
    ensures r.Usage? <==> |argv| < 2 || |argv| > 5
    ensures r.Crash? <==> (2 <= |argv| <= 5 &&
      ((|argv| >= 3 && parseFloat(argv[2]).None?) || (|argv| >= 4 && parseFloat(argv[3]).None?)
       || (|argv| == 5 && parseInt(argv[4]).None?)))
    ensures r.Start? ==> r.eventPath == argv[1]
    ensures r.Start? ==> (|argv| < 3 ==> r.tolerance == 0.45) && (|argv| >= 3 ==> Some(r.tolerance) == parseFloat(argv[2]))
    ensures r.Start? ==> (|argv| < 4 ==> r.margin == 0.10) && (|argv| >= 4 ==> Some(r.margin) == parseFloat(argv[3]))
    ensures r.Start? ==> (|argv| < 5 ==> r.cnnRecheck) && (|argv| == 5 ==> (r.cnnRecheck <==> parseInt(argv[4]).value != 0))
  {
    if |argv| < 2 || |argv| > 5 then Usage
    else
      var tol := if |argv| >= 3 then parseFloat(argv[2]) else Some(0.45);
      var margin := if |argv| >= 4 then parseFloat(argv[3]) else Some(0.10);
      var cnn := if |argv| >= 5 then parseInt(argv[4]) else Some(1);
      if tol.None? || margin.None? || cnn.None? then Crash
      else Start(argv[1], tol.value, margin.value, cnn.value != 0)
  }

  /** With the event path alone, main builds a processor with tolerance 0.45,
      margin 0.10 and the CNN re-check on, whose relaxed pair is 0.55 and
      0.05. */
  lemma DefaultLaunch(argv: seq<string>, parseFloat: string -> Option<real>, parseInt: string -> Option<int>)
    requires |argv| == 2
    ensures ParseArgs(argv, parseFloat, parseInt) == Start(argv[1], 0.45, 0.10, true)
    ensures BaseThresholds(0.45, 0.10) == Thresholds(0.45, 0.10, 0.55, 0.05)
  {
  }

  // ---------------------------------------------------------------------
  // _unique_path

  /** path.with_name(f"{stem}_{i}{suffix}"). */
  function Numbered(name: string, i: nat): string {
    Stem(name) + "_" + Decimal(i) + Suffix(name)
  }

  lemma NumberedInjective(name: string, i: nat, j: nat)
    requires Numbered(name, i) == Numbered(name, j)
    ensures i == j
  {
    var head, tail := Stem(name) + "_", Suffix(name);
    var a, b := Numbered(name, i), Numbered(name, j);
    assert |Decimal(i)| == |Decimal(j)|;
    assert a[|head|..|a| - |tail|] == Decimal(i);
    assert b[|head|..|b| - |tail|] == Decimal(j);
    DecimalInjective(i, j);
  }

  /** _unique_path: the name itself when it is free, otherwise the first
      numbered variant that is free. */
  method UniquePath(existing: set<string>, name: string) returns (r: string)
    ensures r !in existing
    ensures name !in existing ==> r == name
    ensures name in existing ==>
      exists i :: 1 <= i && r == Numbered(name, i) && forall j :: 1 <= j < i ==> Numbered(name, j) in existing
  {
    if name !in existing {
      return name;
    }
    var i := 1;
    ghost var taken: set<string> := {};
    while true
      invariant 1 <= i
      invariant taken <= existing && |taken| == i - 1
      invariant forall j :: 1 <= j < i ==> Numbered(name, j) in taken
      invariant forall x :: x in taken ==> exists j :: 1 <= j < i && x == Numbered(name, j)
      decreases |existing| - |taken|
    {
      var candidate := Numbered(name, i);
      if candidate !in existing {
        return candidate;
      }
      if candidate in taken {
        var j :| 1 <= j < i && candidate == Numbered(name, j);
        NumberedInjective(name, i, j);
      }
      SubsetSize(taken + {candidate}, existing);
      taken := taken + {candidate};
      i := i + 1;
    }
  }

  lemma SubsetSize<T>(a: set<T>, b: set<T>)
    requires a <= b
    ensures |a| <= |b|
  {
    assert b == a + (b - a);
  }

  /** The best guest of every face is a guest with a vector. */
  lemma RankedGuestIsAGuest(e: Event, i: nat, f: nat)
    requires WellFormed(e) && i < |e.photos| && f < |e.photos[i].faces|
    requires |FlatEmails(e.guests)| > 0
    ensures Ranked(e, i, f).guest in Emails(e.guests)
    ensures HasVectors(e.guests, Ranked(e, i, f).guest)
  {
    var flat, dists := FlatEmails(e.guests), e.photos[i].faces[f];
    assert Fits(e.photos[i], e.guests);
    FaceRankingIsClosestVector(flat, dists);
    var r := Ranked(e, i, f);
    var k :| 0 <= k < |flat| && flat[k] == r.guest && dists[k] == r.best;
    FlatAndRawOwners(e.guests);
    assert HasVectors(e.guests, r.guest);
    var j :| 0 <= j < |e.guests| && e.guests[j].email == r.guest && e.guests[j].vectors > 0;
    assert Emails(e.guests)[j] == r.guest;
  }

  /** boot holds what boot0 held plus the bootstrap items of the rankings
      rs of photo i's faces, guest by guest. */
  ghost predicate Collected(boot0: map<string, seq<BootItem>>, boot: map<string, seq<BootItem>>,
                            rs: seq<Ranking>, i: nat)
  {
    && boot.Keys == boot0.Keys
    && (forall g :: g in boot0 ==> boot[g] == boot0[g] + BootItemsOf(rs, i, g))
  }

  lemma FoldStep(acts: seq<FaceAction>, a: FaceAction, name: string)
    ensures MatchesOf(acts + [a], name) == MatchesOf(acts, name) + MatchStep(a, name)
    ensures CandidatesOf(acts + [a], name) == CandidatesOf(acts, name) + CandidateStep(a, name)
  {
    assert (acts + [a])[..|acts|] == acts;
  }

  lemma BootFoldStep(rs: seq<Ranking>, r: Ranking, i: nat)
    ensures forall g :: BootItemsOf(rs + [r], i, g) == BootItemsOf(rs, i, g) + BootStep(r, i, |rs|, g)
  {
    assert (rs + [r])[..|rs|] == rs;
  }

  /** Before the first face nothing is collected. */
  lemma NothingCollected(boot: map<string, seq<BootItem>>, i: nat)
    ensures Collected(boot, boot, [], i)
  {
    forall g | g in boot ensures boot[g] == boot[g] + BootItemsOf([], i, g) {
      assert boot[g] + [] == boot[g];
    }
  }

  /** A photo that did not load, shows no face, or meets an event where no
      guest has a vector has no face outcome and adds nothing. */
  lemma NothingToMatch(s: Settings, e: Event, i: nat)
    requires WellFormed(e) && i < |e.photos|
    requires !e.photos[i].loaded || |e.photos[i].faces| == 0 || |FlatEmails(e.guests)| == 0
    ensures Outcomes(s, e, i) == [] && Rankings(e, i) == []
  {
  }

  /** Otherwise the outcomes and rankings of the photo are those of all its faces. */
  lemma AllFaces(s: Settings, e: Event, i: nat)
    requires WellFormed(e) && i < |e.photos| && |FlatEmails(e.guests)| > 0
    ensures Outcomes(s, e, i) == OutcomesUpTo(s, e, i, |Faces(e.photos[i])|)
    ensures Rankings(e, i) == RankingsUpTo(e, i, |Faces(e.photos[i])|)
  {
  }

  /** Copying the pairs of one more step on top of those of the earlier
      steps: the files gain all of them, the records the ones not already
      on disk before the first step. */
  lemma CopyStep<T>(files0: set<T>, records0: set<T>, done: set<T>, step: set<T>,
                    files: set<T>, records: set<T>, files': set<T>, records': set<T>)
    requires files == files0 + done && records == records0 + (done - files0)
    requires files' == files + step && records' == records + (step - files)
    ensures files' == files0 + (done + step) && records' == records0 + ((done + step) - files0)
  {
  }

  // ---------------------------------------------------------------------
  // The processor

  class EnhancedFaceProcessor {
    /** tolerance, margin, their relaxed pair and the CNN re-check settings. */
    const settings: Settings
    /** _matched_records and _candidate_records: the pairs copied in this run. */
    var matchedRecords: set<(string, string)>
    var candidateRecords: set<(string, string)>
    /** The (guest, file name) pairs present under matched/ and candidates/. */
    var matchedFiles: set<(string, string)>
    var candidateFiles: set<(string, string)>
    /** The statistics dictionary. */
    var totalSelfies: nat
    var validSelfies: nat
    var totalPhotos: nat
    var totalMatches: nat
    var guestsProcessed: nat

    /** Whatever this run recorded it also copied. */
    ghost predicate Valid()
      reads this
    {
      matchedRecords <= matchedFiles && candidateRecords <= candidateFiles
    }

    /** The matched sets are those of an earlier moment plus the copies of
        the pairs matches: the files gain all of them, the records those that
        were not on disk then. */
    ghost predicate MatchedCopied(files0: set<(string, string)>, records0: set<(string, string)>,
                                  matches: set<(string, string)>)
      reads this
    {
      matchedFiles == files0 + matches && matchedRecords == records0 + (matches - files0)
    }

    /** The same for both destinations, matched/ and candidates/. */
    ghost predicate Copied(files0: set<(string, string)>, records0: set<(string, string)>,
                           cFiles0: set<(string, string)>, cRecords0: set<(string, string)>,
                           matches: set<(string, string)>, candidates: set<(string, string)>)
      reads this
    {
      && MatchedCopied(files0, records0, matches)
      && candidateFiles == cFiles0 + candidates
      && candidateRecords == cRecords0 + (candidates - cFiles0)
    }

    /** The copies the face actions acts on photo name call for. */
    ghost predicate Recorded(files0: set<(string, string)>, records0: set<(string, string)>,
                             cFiles0: set<(string, string)>, cRecords0: set<(string, string)>,
                             acts: seq<FaceAction>, name: string)
      reads this
    {
      Copied(files0, records0, cFiles0, cRecords0, MatchesOf(acts, name), CandidatesOf(acts, name))
    }

    /** __init__ over an event folder whose matched/ and candidates/ already
        hold the given pairs. */
    constructor(matchedOnDisk: set<(string, string)>, candidatesOnDisk: set<(string, string)>,
                tolerance: real := 0.45, margin: real := 0.10, cnnRecheck: bool := true,
                recheckDeltaPad: real := 0.03, recheckTolerancePad: real := 0.05)
      ensures Valid()
      ensures settings == Settings(BaseThresholds(tolerance, margin), cnnRecheck, recheckDeltaPad, recheckTolerancePad)
      ensures matchedRecords == {} && candidateRecords == {}
      ensures matchedFiles == matchedOnDisk && candidateFiles == candidatesOnDisk
      ensures totalSelfies == 0 && validSelfies == 0 && totalPhotos == 0 && totalMatches == 0 && guestsProcessed == 0
    {
      settings := Settings(BaseThresholds(tolerance, margin), cnnRecheck, recheckDeltaPad, recheckTolerancePad);
      matchedRecords, candidateRecords := {}, {};
      matchedFiles, candidateFiles := matchedOnDisk, candidatesOnDisk;
      totalSelfies, validSelfies, totalPhotos, totalMatches, guestsProcessed := 0, 0, 0, 0, 0;
    }

    /** The copy into matched/<guest>/<name>, skipped when the pair was
        recorded or the file is already there. */
    method RecordMatch(guest: string, name: string) returns (isNew: bool)
      requires Valid()
      modifies this`matchedRecords, this`matchedFiles
      ensures Valid()
      ensures isNew <==> (guest, name) !in old(matchedFiles)
      ensures matchedFiles == old(matchedFiles) + {(guest, name)}
      ensures matchedRecords == if isNew then old(matchedRecords) + {(guest, name)} else old(matchedRecords)
      ensures matchedRecords == old(matchedRecords) + ({(guest, name)} - old(matchedFiles))
      ensures |matchedRecords| == |old(matchedRecords)| + (if isNew then 1 else 0)
    {
      var key := (guest, name);
      if key in matchedRecords || key in matchedFiles {
        isNew := false;
      } else {
        matchedFiles := matchedFiles + {key};
        matchedRecords := matchedRecords + {key};
        isNew := true;
      }
    }

    /** The copy into candidates/<guest>/<name>, skipped likewise. */
    method SaveCandidate(guest: string, name: string)
      requires Valid()
      modifies this`candidateRecords, this`candidateFiles
      ensures Valid()
      ensures candidateFiles == old(candidateFiles) + {(guest, name)}
      ensures candidateRecords == old(candidateRecords) + ({(guest, name)} - old(candidateFiles))
    {
      var key := (guest, name);
      if !(key in candidateRecords || key in candidateFiles) {
        candidateFiles := candidateFiles + {key};
        candidateRecords := candidateRecords + {key};
      }
    }
  
    /** The ranking of face f of photo i: per_guest_min and its sorted order. */
    static method RankFace(e: Event, i: nat, f: nat, flat: seq<string>) returns (r: Ranking)
      requires WellFormed(e) && i < |e.photos| && f < |e.photos[i].faces|
      requires flat == FlatEmails(e.guests) && |flat| > 0
      ensures r == Ranked(e, i, f)
    {
      assert Fits(e.photos[i], e.guests);
      var dists := e.photos[i].faces[f];
      var order, mins := PerGuestMin(flat, dists);
      assert flat[0] in order;
      r := Rank(order, mins);
      assert FaceRanking(flat, dists) == Some(r);
    }

    /** The fate of face f of photo i, running confirm_with_cnn only when a
        re-check is due. */
    method DecideOnFace(e: Event, i: nat, f: nat, r: Ranking) returns (action: FaceAction)
      requires WellFormed(e) && i < |e.photos| && f < |e.photos[i].faces|
      requires |FlatEmails(e.guests)| > 0 && r == Ranked(e, i, f)
      ensures action == FaceOutcome(settings, e, i, f)
    {
      var photo := e.photos[i];
      assert Fits(photo, e.guests);
      var n := |photo.faces|;
      var single := |e.guests| == 1;
      var eff := EffectiveThresholds(settings.base, n, single);
      var recheck := NeedRecheck(settings, n, single, IsLargeImage(photo.height, photo.width), r.best, Delta(r.second, r.best));
      var tier := Classify(r.best, r.second, eff, single);
      ghost var cnnSpec := CnnConfirm(photo.cnnFaces, RawEmails(e.guests));
      assert FaceOutcome(settings, e, i, f) == DecideFace(settings, r, eff, single, recheck, cnnSpec);
      if tier == Strict || tier == Relaxed {
        var accept := true;
        if recheck {
          var raw := BuildRawEmails(e.guests);
          var cnn := ConfirmWithCnn(photo.cnnFaces, raw);
          if !cnn.ok || cnn.guest != Some(r.guest) {
            accept := false;
          } else if tier == Strict {
            accept := CnnPasses(cnn, Max(eff.tol - 0.00, 0.01), Max(eff.margin - 0.00, 0.0));
          } else {
            var strictTol := Min(eff.relaxedTol, eff.tol + settings.recheckTolerancePad * 0.5);
            var strictMargin := Max(eff.relaxedMargin, eff.margin * 0.5);
            accept := CnnPasses(cnn, strictTol, strictMargin);
          }
        }
        action := if accept then Accept(r.guest) else CnnReject;
      } else if r.guest != "" && r.best <= MaxCandidateDistance {
        action := Candidate(r.guest);
      } else {
        action := Reject;
      }
    }

    /** boot_candidates after one face: its best guest gets the item when
        the face is close enough. */
    static method CollectBoot(r: Ranking, i: nat, f: nat, boot: map<string, seq<BootItem>>)
      returns (boot': map<string, seq<BootItem>>)
      requires r.guest in boot
      ensures boot'.Keys == boot.Keys
      ensures forall g :: g in boot ==> boot'[g] == boot[g] + BootStep(r, i, f, g)
    {
      boot' := boot;
      if r.guest != "" && r.best <= BootstrapCutoff {
        boot' := boot'[r.guest := boot'[r.guest] + [BootItem(r.best, i, f)]];
      }
    }

    /** The copy into matched/ an accepted face calls for. */
    method ApplyMatch(action: FaceAction, name: string) returns (isNew: bool)
      requires Valid()
      modifies this`matchedRecords, this`matchedFiles
      ensures Valid()
      ensures matchedFiles == old(matchedFiles) + MatchStep(action, name)
      ensures matchedRecords == old(matchedRecords) + (MatchStep(action, name) - old(matchedFiles))
      ensures |matchedRecords| == |old(matchedRecords)| + (if isNew then 1 else 0)
    {
      isNew := false;
      if action.Accept? {
        isNew := RecordMatch(action.guest, name);
      }
    }

    /** The copy into candidates/ a face saved for review calls for. */
    method ApplyCandidate(action: FaceAction, name: string)
      requires Valid()
      modifies this`candidateRecords, this`candidateFiles
      ensures Valid()
      ensures candidateFiles == old(candidateFiles) + CandidateStep(action, name)
      ensures candidateRecords == old(candidateRecords) + (CandidateStep(action, name) - old(candidateFiles))
    {
      if action.Candidate? {
        SaveCandidate(action.guest, name);
      }
    }

    /** boot_candidates after one more face of photo i, given the state
        before the photo's first face and the rankings of the faces so far. */
    static method AdvanceBoot(i: nat, f: nat, r: Ranking, boot: map<string, seq<BootItem>>,
                              ghost boot0: map<string, seq<BootItem>>, ghost ranks: seq<Ranking>,
                              ghost after: seq<Ranking>)
      returns (boot': map<string, seq<BootItem>>)
      requires Collected(boot0, boot, ranks, i) && r.guest in boot0 && f == |ranks| && after == ranks + [r]
      ensures Collected(boot0, boot', after, i)
    {
      boot' := CollectBoot(r, i, f, boot);
      BootFoldStep(ranks, r, i);
      forall g | g in boot0 ensures boot'[g] == boot0[g] + BootItemsOf(after, i, g) {
        calc {
          boot'[g];
          boot[g] + BootStep(r, i, |ranks|, g);
          (boot0[g] + BootItemsOf(ranks, i, g)) + BootStep(r, i, |ranks|, g);
          boot0[g] + (BootItemsOf(ranks, i, g) + BootStep(r, i, |ranks|, g));
        }
      }
    }

    /** Before pass 2 nothing is copied by it. */
    lemma NothingMatched(files0: set<(string, string)>, records0: set<(string, string)>)
      requires matchedFiles == files0 && matchedRecords == records0
      ensures MatchedCopied(files0, records0, {})
    {
    }

    /** Before the first photo nothing is copied. */
    lemma NothingCopied(files0: set<(string, string)>, records0: set<(string, string)>,
                        cFiles0: set<(string, string)>, cRecords0: set<(string, string)>)
      requires matchedFiles == files0 && matchedRecords == records0
      requires candidateFiles == cFiles0 && candidateRecords == cRecords0
      ensures Copied(files0, records0, cFiles0, cRecords0, {}, {})
    {
    }

    /** Before the first face nothing is copied. */
    lemma NothingRecorded(files0: set<(string, string)>, records0: set<(string, string)>,
                          cFiles0: set<(string, string)>, cRecords0: set<(string, string)>, name: string)
      requires matchedFiles == files0 && matchedRecords == records0
      requires candidateFiles == cFiles0 && candidateRecords == cRecords0
      ensures Recorded(files0, records0, cFiles0, cRecords0, [], name)
    {
    }

    /** The copies one face action on photo name calls for, given the
        state before the photo's first face and the actions so far. */
    method RecordAction(action: FaceAction, name: string, ghost done: seq<FaceAction>, ghost after: seq<FaceAction>,
                        ghost files0: set<(string, string)>, ghost records0: set<(string, string)>,
                        ghost cFiles0: set<(string, string)>, ghost cRecords0: set<(string, string)>)
      returns (isNew: bool)
      requires Valid() && Recorded(files0, records0, cFiles0, cRecords0, done, name)
      requires after == done + [action]
      modifies this`matchedRecords, this`matchedFiles, this`candidateRecords, this`candidateFiles
      ensures Valid() && Recorded(files0, records0, cFiles0, cRecords0, after, name)
      ensures |matchedRecords| == |old(matchedRecords)| + (if isNew then 1 else 0)
    {
      ghost var files, records := matchedFiles, matchedRecords;
      ghost var cFiles, cRecords := candidateFiles, candidateRecords;
      isNew := ApplyMatch(action, name);
      ApplyCandidate(action, name);
      FoldStep(done, action, name);
      CopyStep(files0, records0, MatchesOf(done, name), MatchStep(action, name),
               files, records, matchedFiles, matchedRecords);
      CopyStep(cFiles0, cRecords0, CandidatesOf(done, name), CandidateStep(action, name),
               cFiles, cRecords, candidateFiles, candidateRecords);
    }

    /** Face f of photo i in the face loop of pass 1, given the state before
        the photo's first face. */
    method MatchFace(e: Event, i: nat, f: nat, flat: seq<string>, boot: map<string, seq<BootItem>>,
                     ghost boot0: map<string, seq<BootItem>>,
                     ghost files0: set<(string, string)>, ghost records0: set<(string, string)>,
                     ghost cFiles0: set<(string, string)>, ghost cRecords0: set<(string, string)>)
      returns (isNew: bool, boot': map<string, seq<BootItem>>)
      requires Valid() && WellFormed(e) && i < |e.photos| && f < |Faces(e.photos[i])|
      requires flat == FlatEmails(e.guests) && |flat| > 0
      requires forall g :: g in boot0 <==> g in Emails(e.guests)
      requires Recorded(files0, records0, cFiles0, cRecords0, OutcomesUpTo(settings, e, i, f), e.photos[i].name)
      requires Collected(boot0, boot, RankingsUpTo(e, i, f), i)
      modifies this`matchedRecords, this`matchedFiles, this`candidateRecords, this`candidateFiles
      ensures Valid()
      ensures Recorded(files0, records0, cFiles0, cRecords0, OutcomesUpTo(settings, e, i, f + 1), e.photos[i].name)
      ensures |matchedRecords| == |old(matchedRecords)| + (if isNew then 1 else 0)
      ensures Collected(boot0, boot', RankingsUpTo(e, i, f + 1), i)
    {
      var r := RankFace(e, i, f, flat);
      RankedGuestIsAGuest(e, i, f);
      boot' := AdvanceBoot(i, f, r, boot, boot0, RankingsUpTo(e, i, f), RankingsUpTo(e, i, f + 1));
      var action := DecideOnFace(e, i, f, r);
      isNew := RecordAction(action, e.photos[i].name, OutcomesUpTo(settings, e, i, f), OutcomesUpTo(settings, e, i, f + 1),
                            files0, records0, cFiles0, cRecords0);
    }

    /** The face loop of pass 1 on a photo that loaded with faces, when some
        guest has a vector. */
    method MatchFaces(e: Event, i: nat, flat: seq<string>, boot: map<string, seq<BootItem>>)
      returns (added: nat, boot': map<string, seq<BootItem>>)
      requires Valid() && WellFormed(e) && i < |e.photos|
      requires e.photos[i].loaded && flat == FlatEmails(e.guests) && |flat| > 0
      requires forall g :: g in boot <==> g in Emails(e.guests)
      modifies this`matchedRecords, this`matchedFiles, this`candidateRecords, this`candidateFiles
      ensures Valid()
      ensures Recorded(old(matchedFiles), old(matchedRecords), old(candidateFiles), old(candidateRecords),
                       OutcomesUpTo(settings, e, i, |Faces(e.photos[i])|), e.photos[i].name)
      ensures |matchedRecords| == |old(matchedRecords)| + added
      ensures Collected(boot, boot', RankingsUpTo(e, i, |Faces(e.photos[i])|), i)
    {
      added, boot' := 0, boot;
      ghost var files0, records0 := matchedFiles, matchedRecords;
      ghost var cFiles0, cRecords0 := candidateFiles, candidateRecords;
      var name, n := e.photos[i].name, |e.photos[i].faces|;
      var f := 0;
      NothingCollected(boot, i);
      NothingRecorded(files0, records0, cFiles0, cRecords0, name);
      while f < n
        invariant 0 <= f <= n == |Faces(e.photos[i])|
        invariant Valid()
        invariant Recorded(files0, records0, cFiles0, cRecords0, OutcomesUpTo(settings, e, i, f), name)
        invariant |matchedRecords| == |records0| + added
        invariant Collected(boot, boot', RankingsUpTo(e, i, f), i)
      {
        var isNew;
        isNew, boot' := MatchFace(e, i, f, flat, boot', boot, files0, records0, cFiles0, cRecords0);
        if isNew {
          added := added + 1;
        }
        f := f + 1;
      }
    }

    /** Pass 1 on photo i: nothing when it does not load or has no face, or
        when no guest has a vector (the face loop breaks before its first
        face); otherwise every face in turn. */
    method MatchPhoto(e: Event, i: nat, boot: map<string, seq<BootItem>>)
      returns (added: nat, boot': map<string, seq<BootItem>>)
      requires Valid() && WellFormed(e) && i < |e.photos|
      requires forall g :: g in boot <==> g in Emails(e.guests)
      modifies this`matchedRecords, this`matchedFiles, this`candidateRecords, this`candidateFiles
      ensures Valid()
      ensures Recorded(old(matchedFiles), old(matchedRecords), old(candidateFiles), old(candidateRecords),
                       Outcomes(settings, e, i), e.photos[i].name)
      ensures |matchedRecords| == |old(matchedRecords)| + added
      ensures Collected(boot, boot', Rankings(e, i), i)
    {
      var photo := e.photos[i];
      var flat := BuildFlatEmails(e.guests);
      if !photo.loaded || |photo.faces| == 0 || |flat| == 0 {
        NothingToMatch(settings, e, i);
        NothingCollected(boot, i);
        NothingRecorded(matchedFiles, matchedRecords, candidateFiles, candidateRecords, photo.name);
        added, boot' := 0, boot;
      } else {
        added, boot' := MatchFaces(e, i, flat, boot);
        AllFaces(settings, e, i);
      }
    }

    /** One photo of pass 1, given the state before the first photo. */
    method PhotoStep(e: Event, i: nat, boot: map<string, seq<BootItem>>,
                     ghost files0: set<(string, string)>, ghost records0: set<(string, string)>,
                     ghost cFiles0: set<(string, string)>, ghost cRecords0: set<(string, string)>)
      returns (added: nat, boot': map<string, seq<BootItem>>)
      requires Valid() && WellFormed(e) && i < |e.photos| && Booted(e, boot, i)
      requires Copied(files0, records0, cFiles0, cRecords0, Pass1Matches(settings, e, i), Pass1Candidates(settings, e, i))
      modifies this`matchedRecords, this`matchedFiles, this`candidateRecords, this`candidateFiles
      ensures Valid() && Booted(e, boot', i + 1)
      ensures Copied(files0, records0, cFiles0, cRecords0, Pass1Matches(settings, e, i + 1), Pass1Candidates(settings, e, i + 1))
      ensures |matchedRecords| == |old(matchedRecords)| + added
    {
      ghost var files, records, cFiles, cRecords := matchedFiles, matchedRecords, candidateFiles, candidateRecords;
      ghost var acts, name := Outcomes(settings, e, i), e.photos[i].name;
      added, boot' := MatchPhoto(e, i, boot);
      BootedStep(e, boot, boot', i);
      Pass1Step(settings, e, i);
      CopyStep(files0, records0, Pass1Matches(settings, e, i), MatchesOf(acts, name),
               files, records, matchedFiles, matchedRecords);
      CopyStep(cFiles0, cRecords0, Pass1Candidates(settings, e, i), CandidatesOf(acts, name),
               cFiles, cRecords, candidateFiles, candidateRecords);
    }

    /** Pass 1: every photo in listing order, collecting boot_candidates. */
    method Pass1(e: Event) returns (added: nat, boot: map<string, seq<BootItem>>)
      requires Valid() && WellFormed(e)
      modifies this`matchedRecords, this`matchedFiles, this`candidateRecords, this`candidateFiles
      ensures Valid() && Booted(e, boot, |e.photos|)
      ensures Copied(old(matchedFiles), old(matchedRecords), old(candidateFiles), old(candidateRecords),
                     Pass1Matches(settings, e, |e.photos|), Pass1Candidates(settings, e, |e.photos|))
      ensures |matchedRecords| == |old(matchedRecords)| + added
    {
      ghost var files0, records0, cFiles0, cRecords0 := matchedFiles, matchedRecords, candidateFiles, candidateRecords;
      var emails := Emails(e.guests);
      boot := map g | g in emails :: [];
      assert Booted(e, boot, 0);
      NothingCopied(files0, records0, cFiles0, cRecords0);
      added := 0;
      var i := 0;
      while i < |e.photos|
        invariant i <= |e.photos| && Valid() && Booted(e, boot, i)
        invariant Copied(files0, records0, cFiles0, cRecords0, Pass1Matches(settings, e, i), Pass1Candidates(settings, e, i))
        invariant |matchedRecords| == |records0| + added
      {
        var n;
        n, boot := PhotoStep(e, i, boot, files0, records0, cFiles0, cRecords0);
        added := added + n;
        i := i + 1;
      }
    }

    /** len(acc) for one guest: the faces of every sample photo that loads. */
    static method AccCount(e: Event, sample: seq<nat>) returns (n: nat)
      requires forall k :: 0 <= k < |sample| ==> sample[k] < |e.photos|
      ensures n == AccSize(e, sample)
    {
      n := 0;
      var k := 0;
      while k < |sample|
        invariant k <= |sample| && n == AccSize(e, sample[..k])
      {
        assert sample[..k + 1][..k] == sample[..k];
        var photo := e.photos[sample[k]];
        if photo.loaded && |photo.faces| > 0 {
          n := n + |photo.faces|;
        }
        k := k + 1;
      }
      assert sample[..k] == sample;
    }

    /** Whether guest k gets a refined centroid, and its sample photos. */
    static method KeepGuest(e: Event, boot: map<string, seq<BootItem>>, k: nat) returns (keep: bool, sample: seq<nat>)
      requires WellFormed(e) && Booted(e, boot, |e.photos|) && k < |e.guests|
      ensures keep == Refinable(e, e.guests[k].email)
      ensures sample == Sample(e, e.guests[k].email)
    {
      var g := e.guests[k].email;
      assert g == Emails(e.guests)[k];
      var items := boot[g];
      assert items == Pass1Boot(e, |e.photos|, g);
      sample := PhotosOf(TopClosest(items, BootstrapTopK));
      assert sample == Sample(e, g);
      SampleInRange(e, g);
      keep := false;
      if |items| >= BootstrapMinSamples {
        var n := AccCount(e, sample);
        keep := n > 0;
      }
    }

    /** Guest k of the refinement loop: it gets a refined centroid when it
        has enough bootstrap items and its sample photos give a face. */
    static method RefineGuest(e: Event, boot: map<string, seq<BootItem>>, k: nat,
                              refined: seq<string>, samples: seq<seq<nat>>)
      returns (refined': seq<string>, samples': seq<seq<nat>>)
      requires WellFormed(e) && Booted(e, boot, |e.photos|) && k < |e.guests|
      requires RefinedSoFar(e, k, refined, samples)
      ensures RefinedSoFar(e, k + 1, refined', samples')
    {
      var g := e.guests[k].email;
      var keep, sample := KeepGuest(e, boot, k);
      RefinedUpToSnoc(e, k);
      refined', samples' := refined, samples;
      if keep {
        refined', samples' := refined + [g], samples + [sample];
      }
    }

    /** refined_vectors: the guests, in key order, with enough bootstrap items
        whose sample photos give a face, and those photos. */
    static method RefineCentroids(e: Event, boot: map<string, seq<BootItem>>)
      returns (refined: seq<string>, samples: seq<seq<nat>>)
      requires WellFormed(e) && Booted(e, boot, |e.photos|)
      ensures refined == Refined(e) && samples == Samples(e)
    {
      refined, samples := [], [];
      var k := 0;
      while k < |e.guests|
        invariant k <= |e.guests| && RefinedSoFar(e, k, refined, samples)
      {
        refined, samples := RefineGuest(e, boot, k, refined, samples);
        k := k + 1;
      }
      RefinedSoFarIsRefined(e, refined, samples);
    }

    /** The refined guest closest to face f of photo i, when under the
        bootstrap tolerance. */
    static method PickRefined(e: Event, refined: seq<string>, samples: seq<seq<nat>>, i: nat, f: nat)
      returns (c: Option<string>)
      requires |samples| == |refined|
      ensures c == Pass2Choice(e, refined, samples, i, f)
    {
      var dists := RefinedDists(e, samples, i, f);
      c := None;
      if |dists| > 0 {
        var m := ArgMinFirst(dists);
        if dists[m] < BootstrapTolerance {
          c := Some(refined[m]);
        }
      }
    }

    /** Face f of photo i in pass 2, given the matched sets before pass 2 and
        the pairs of the earlier photos. */
    method RematchFace(e: Event, i: nat, f: nat, refined: seq<string>, samples: seq<seq<nat>>,
                       ghost files0: set<(string, string)>, ghost records0: set<(string, string)>,
                       ghost done: set<(string, string)>)
      returns (isNew: bool)
      requires Valid() && i < |e.photos| && |samples| == |refined|
      requires MatchedCopied(files0, records0, done + FacePass2(e, refined, samples, i, f))
      modifies this`matchedRecords, this`matchedFiles
      ensures Valid() && MatchedCopied(files0, records0, done + FacePass2(e, refined, samples, i, f + 1))
      ensures |matchedRecords| == |old(matchedRecords)| + (if isNew then 1 else 0)
    {
      ghost var files, records := matchedFiles, matchedRecords;
      ghost var before := FacePass2(e, refined, samples, i, f);
      var name := e.photos[i].name;
      var c := PickRefined(e, refined, samples, i, f);
      isNew := false;
      if c.Some? {
        isNew := RecordMatch(c.value, name);
      }
      ghost var step := if c.Some? then {(c.value, name)} else {};
      FacePass2Step(e, refined, samples, i, f, done);
      CopyStep(files0, records0, done + before, step, files, records, matchedFiles, matchedRecords);
    }

    /** Photo i in pass 2: every face of it when it loads. */
    method RematchPhoto(e: Event, i: nat, refined: seq<string>, samples: seq<seq<nat>>,
                        ghost files0: set<(string, string)>, ghost records0: set<(string, string)>)
      returns (added: nat)
      requires Valid() && i < |e.photos| && |samples| == |refined|
      requires MatchedCopied(files0, records0, Pass2Matches(e, refined, samples, i))
      modifies this`matchedRecords, this`matchedFiles
      ensures Valid() && MatchedCopied(files0, records0, Pass2Matches(e, refined, samples, i + 1))
      ensures |matchedRecords| == |old(matchedRecords)| + added
    {
      added := 0;
      ghost var done := Pass2Matches(e, refined, samples, i);
      var photo := e.photos[i];
      Pass2Step(e, refined, samples, i);
      assert done + FacePass2(e, refined, samples, i, 0) == done;
      if !photo.loaded {
        return;
      }
      var f := 0;
      while f < |photo.faces|
        invariant f <= |photo.faces| && Valid()
        invariant MatchedCopied(files0, records0, done + FacePass2(e, refined, samples, i, f))
        invariant |matchedRecords| == |old(matchedRecords)| + added
      {
        var isNew := RematchFace(e, i, f, refined, samples, files0, records0, done);
        if isNew {
          added := added + 1;
        }
        f := f + 1;
      }
    }

    /** Pass 2: every photo again, against the refined centroids only. */
    method Pass2(e: Event, refined: seq<string>, samples: seq<seq<nat>>) returns (added: nat)
      requires Valid() && |samples| == |refined|
      modifies this`matchedRecords, this`matchedFiles
      ensures Valid() && MatchedCopied(old(matchedFiles), old(matchedRecords), Pass2Matches(e, refined, samples, |e.photos|))
      ensures |matchedRecords| == |old(matchedRecords)| + added
    {
      ghost var files0, records0 := matchedFiles, matchedRecords;
      NothingMatched(files0, records0);
      added := 0;
      var i := 0;
      while i < |e.photos|
        invariant i <= |e.photos| && Valid()
        invariant MatchedCopied(files0, records0, Pass2Matches(e, refined, samples, i))
        invariant |matchedRecords| == |records0| + added
      {
        var n := RematchPhoto(e, i, refined, samples, files0, records0);
        added := added + n;
        i := i + 1;
      }
    }

    /** The refined centroids, then pass 2 when some guest has one. */
    method RefineAndRematch(e: Event, boot: map<string, seq<BootItem>>) returns (added: nat)
      requires Valid() && WellFormed(e) && Booted(e, boot, |e.photos|)
      modifies this`matchedRecords, this`matchedFiles
      ensures Valid() && MatchedCopied(old(matchedFiles), old(matchedRecords), Pass2Matches(e, Refined(e), Samples(e), |e.photos|))
      ensures |matchedRecords| == |old(matchedRecords)| + added
    {
      var refined, samples := RefineCentroids(e, boot);
      if |refined| > 0 {
        added := Pass2(e, refined, samples);
      } else {
        NoRefinedNoPass2(e, samples, |e.photos|);
        NothingMatched(matchedFiles, matchedRecords);
        added := 0;
      }
    }

    /** process_event_photos: pass 1, the refined centroids, and pass 2 when
        some guest has one; the result is the number of new copies into
        matched/, which is also stats['total_matches']. */
    method ProcessEventPhotos(e: Event) returns (total: nat)
      requires Valid() && WellFormed(e)
      modifies this`matchedRecords, this`matchedFiles, this`candidateRecords, this`candidateFiles, this`totalMatches
      ensures Valid()
      ensures Copied(old(matchedFiles), old(matchedRecords), old(candidateFiles), old(candidateRecords),
                     AllMatches(settings, e), Pass1Candidates(settings, e, |e.photos|))
      ensures total == |AllMatches(settings, e) - old(matchedFiles)| && totalMatches == total
    {
      ghost var files0, records0 := matchedFiles, matchedRecords;
      ghost var pass1 := Pass1Matches(settings, e, |e.photos|);
      var added1, boot := Pass1(e);
      ghost var files1, records1 := matchedFiles, matchedRecords;
      var added2 := RefineAndRematch(e, boot);
      CopyStep(files0, records0, pass1, Pass2Matches(e, Refined(e), Samples(e), |e.photos|),
               files1, records1, matchedFiles, matchedRecords);
      total := added1 + added2;
      totalMatches := total;
    }

    /** validate_directories: both folders must exist and hold images; the
        selfie and photo counts reach the statistics only on success. */
    method ValidateDirectories(d: Folders) returns (ok: bool)
      requires Valid()
      modifies this`totalSelfies, this`totalPhotos
      ensures Valid()
      ensures ok <==> ValidationPasses(d)
      ensures ok ==> totalSelfies == SelfieCount(d.selfies, ImageExtensions)
                     && totalPhotos == |ImageFiles(d.photos, ImageExtensions)|
      ensures !ok ==> totalSelfies == old(totalSelfies) && totalPhotos == old(totalPhotos)
    {
      if !d.selfiesExist || !d.photosExist {
        return false;
      }
      var guestFolders, selfieCount := CountSelfies(d.selfies, ImageExtensions);
      var photoFiles := ImageFiles(d.photos, ImageExtensions);
      if selfieCount == 0 || |photoFiles| == 0 {
        return false;
      }
      totalSelfies := selfieCount;
      totalPhotos := |photoFiles|;
      ok := true;
    }

    /** run: the validation gate, an empty guest_encodings, then the two
        passes; the result does not depend on how many photos matched. */
    method Run(d: Folders, e: Event) returns (ok: bool)
      requires Valid() && WellFormed(e) && PhotosListed(d, e)
      modifies this`matchedRecords, this`matchedFiles, this`candidateRecords, this`candidateFiles,
               this`totalMatches, this`totalSelfies, this`totalPhotos
      ensures Valid()
      ensures ok <==> ValidationPasses(d) && |e.guests| > 0
      ensures ok ==> Copied(old(matchedFiles), old(matchedRecords), old(candidateFiles), old(candidateRecords),
                            AllMatches(settings, e), Pass1Candidates(settings, e, |e.photos|))
                     && totalMatches == |AllMatches(settings, e) - old(matchedFiles)|
      ensures !ok ==> matchedFiles == old(matchedFiles) && candidateFiles == old(candidateFiles)
    {
      ok := ValidateDirectories(d);
      if !ok {
        return;
      }
      if |e.guests| == 0 {
        return false;
      }
      var _ := ProcessEventPhotos(e);
      ok := true;
    }
  }
}
