/** What the two passes of process_event_photos promise, stated over the
    specification sets of EnhancedFaceMatch: which (guest, photo) pairs each
    pass copies, that an accepted guest owns the closest vector of the face,
    which guests get a refined centroid, and what a pass-2 pick means. */
module EnhancedProperties {
  import opened Common
  import opened EnhancedDecision
  import opened EnhancedFaceMatch

  // ---------------------------------------------------------------------
  // Face fates of one photo

  /** A photo's face fates copy (g, n) under matched/ exactly when n is the
      photo and some face was accepted for g. */
  lemma {:induction false} MatchesOfIff(acts: seq<FaceAction>, name: string, g: string, n: string)
    ensures (g, n) in MatchesOf(acts, name) <==> n == name && exists k :: 0 <= k < |acts| && acts[k] == Accept(g)
  {
    if |acts| > 0 {
      var init := acts[..|acts| - 1];
      MatchesOfIff(init, name, g, n);
      assert forall k :: 0 <= k < |init| ==> init[k] == acts[k];
      if n == name && exists k :: 0 <= k < |acts| && acts[k] == Accept(g) {
        var k :| 0 <= k < |acts| && acts[k] == Accept(g);
        if k < |init| {
          assert init[k] == Accept(g);
        }
      }
    }
  }

  /** The same for candidates/ and the faces saved for review. */
  lemma {:induction false} CandidatesOfIff(acts: seq<FaceAction>, name: string, g: string, n: string)
    ensures (g, n) in CandidatesOf(acts, name) <==> n == name && exists k :: 0 <= k < |acts| && acts[k] == Candidate(g)
  {
    if |acts| > 0 {
      var init := acts[..|acts| - 1];
      CandidatesOfIff(init, name, g, n);
      assert forall k :: 0 <= k < |init| ==> init[k] == acts[k];
      if n == name && exists k :: 0 <= k < |acts| && acts[k] == Candidate(g) {
        var k :| 0 <= k < |acts| && acts[k] == Candidate(g);
        if k < |init| {
          assert init[k] == Candidate(g);
        }
      }
    }
  }

  /** The k-th fate of a photo is FaceOutcome of its k-th face. */
  lemma OutcomesUpToAt(s: Settings, e: Event, i: nat, k: nat, f: nat)
    requires WellFormed(e) && i < |e.photos| && k <= |Faces(e.photos[i])|
    requires |FlatEmails(e.guests)| > 0 && f < k
    ensures OutcomesUpTo(s, e, i, k)[f] == FaceOutcome(s, e, i, f)
  {
    TabulateAt(k, (j: nat) => if j < |Faces(e.photos[i])| then FaceOutcome(s, e, i, j) else Reject, f);
  }

  /** The k-th ranking of a photo is Ranked of its k-th face. */
  lemma RankingsUpToAt(e: Event, i: nat, k: nat, f: nat)
    requires WellFormed(e) && i < |e.photos| && k <= |Faces(e.photos[i])|
    requires |FlatEmails(e.guests)| > 0 && f < k
    ensures RankingsUpTo(e, i, k)[f] == Ranked(e, i, f)
  {
    TabulateAt(k, (j: nat) => if j < |Faces(e.photos[i])| then Ranked(e, i, j) else Ranking("", 0.0, Inf), f);
  }

  // ---------------------------------------------------------------------
  // Pass 1

  /** Face f of photo i is one pass 1 looks at: the photo loaded, the face
      was found, and some guest has a vector. */
  ghost predicate Examined(e: Event, i: int, f: int) {
    0 <= i < |e.photos| && 0 <= f && f < |Faces(e.photos[i])| && |FlatEmails(e.guests)| > 0
  }

  /** The fates pass 1 gives a photo are those of its examined faces. */
  lemma OutcomesAreFaceOutcomes(s: Settings, e: Event, i: nat, f: int)
    requires WellFormed(e) && i < |e.photos|
    ensures 0 <= f < |Outcomes(s, e, i)| <==> Examined(e, i, f)
    ensures Examined(e, i, f) ==> Outcomes(s, e, i)[f] == FaceOutcome(s, e, i, f)
  {
    if Examined(e, i, f) {
      OutcomesUpToAt(s, e, i, |Faces(e.photos[i])|, f);
    }
  }

  /** Pass 1 copies (g, n) exactly when some photo named n has a face
      accepted for g. */
  lemma Pass1MatchIff(s: Settings, e: Event, n: nat, g: string, name: string)
    requires WellFormed(e) && n <= |e.photos|
    ensures (g, name) in Pass1Matches(s, e, n) <==>
      exists i, f :: 0 <= i < n && e.photos[i].name == name && 0 <= f < |Outcomes(s, e, i)| && Outcomes(s, e, i)[f] == Accept(g)
  {
    var part := (i: nat) => if i < |e.photos| then MatchesOf(Outcomes(s, e, i), e.photos[i].name) else {};
    UnionUpToIff(n, part, (g, name));
    if (g, name) in Pass1Matches(s, e, n) {
      var i :| 0 <= i < n && (g, name) in part(i);
      MatchesOfIff(Outcomes(s, e, i), e.photos[i].name, g, name);
    } else {
      forall i, f | 0 <= i < n && e.photos[i].name == name && 0 <= f < |Outcomes(s, e, i)|
        ensures Outcomes(s, e, i)[f] != Accept(g)
      {
        MatchesOfIff(Outcomes(s, e, i), e.photos[i].name, g, name);
        assert (g, name) !in part(i);
      }
    }
  }

  /** Pass 1 saves (g, n) for review exactly when some photo named n has a
      face that is a candidate for g. */
  lemma Pass1CandidateIff(s: Settings, e: Event, n: nat, g: string, name: string)
    requires WellFormed(e) && n <= |e.photos|
    ensures (g, name) in Pass1Candidates(s, e, n) <==>
      exists i, f :: 0 <= i < n && e.photos[i].name == name && 0 <= f < |Outcomes(s, e, i)| && Outcomes(s, e, i)[f] == Candidate(g)
  {
    var part := (i: nat) => if i < |e.photos| then CandidatesOf(Outcomes(s, e, i), e.photos[i].name) else {};
    UnionUpToIff(n, part, (g, name));
    if (g, name) in Pass1Candidates(s, e, n) {
      var i :| 0 <= i < n && (g, name) in part(i);
      CandidatesOfIff(Outcomes(s, e, i), e.photos[i].name, g, name);
    } else {
      forall i, f | 0 <= i < n && e.photos[i].name == name && 0 <= f < |Outcomes(s, e, i)|
        ensures Outcomes(s, e, i)[f] != Candidate(g)
      {
        CandidatesOfIff(Outcomes(s, e, i), e.photos[i].name, g, name);
        assert (g, name) !in part(i);
      }
    }
  }

  /** Guest g owns a vector at least as close to face f of photo i as every
      other vector. */
  ghost predicate OwnsClosestVector(e: Event, i: nat, f: nat, g: string)
    requires WellFormed(e) && Examined(e, i, f)
  {
    var flat, dists := FlatEmails(e.guests), e.photos[i].faces[f];
    assert Fits(e.photos[i], e.guests);
    exists k :: 0 <= k < |flat| && flat[k] == g && forall j :: 0 <= j < |flat| ==> dists[k] <= dists[j]
  }

  /** A face pass 1 accepts or saves for review goes to the guest owning the
      closest vector; an accepted one is under the strict or the relaxed
      effective tolerance, a saved one within 0.90. */
  lemma FaceOutcomeGoesToClosest(s: Settings, e: Event, i: nat, f: nat)
    requires WellFormed(e) && Examined(e, i, f)
    ensures var a := FaceOutcome(s, e, i, f);
      a.Accept? || a.Candidate? ==> OwnsClosestVector(e, i, f, a.guest)
    ensures var a, r := FaceOutcome(s, e, i, f), Ranked(e, i, f);
      var eff := EffectiveThresholds(s.base, |e.photos[i].faces|, |e.guests| == 1);
      a.Accept? ==> r.best < eff.tol || r.best < eff.relaxedTol
    ensures var a, r := FaceOutcome(s, e, i, f), Ranked(e, i, f);
      a.Candidate? ==> r.best <= MaxCandidateDistance
  {
    var flat, dists := FlatEmails(e.guests), e.photos[i].faces[f];
    assert Fits(e.photos[i], e.guests);
    FaceRankingIsClosestVector(flat, dists);
  }

  /** Every pair pass 1 copies names a photo with a face whose closest vector
      belongs to the guest. */
  lemma Pass1MatchesAreClosest(s: Settings, e: Event, g: string, name: string)
    requires WellFormed(e) && (g, name) in Pass1Matches(s, e, |e.photos|)
    ensures exists i, f :: Examined(e, i, f) && e.photos[i].name == name && OwnsClosestVector(e, i, f, g)
  {
    Pass1MatchIff(s, e, |e.photos|, g, name);
    var i, f :| 0 <= i < |e.photos| && e.photos[i].name == name && 0 <= f < |Outcomes(s, e, i)|
                && Outcomes(s, e, i)[f] == Accept(g);
    OutcomesAreFaceOutcomes(s, e, i, f);
    FaceOutcomeGoesToClosest(s, e, i, f);
  }

  // ---------------------------------------------------------------------
  // Bootstrap items

  /** boot_candidates[g] holds only faces ranked first for g at a distance
      of at most 0.80. */
  lemma Pass1BootIsClose(e: Event, n: nat, g: string, x: BootItem)
    requires WellFormed(e) && n <= |e.photos|
    requires x in Pass1Boot(e, n, g)
    ensures Examined(e, x.photo, x.face) && x.photo < n && Ranked(e, x.photo, x.face).guest == g
    ensures x.dist == Ranked(e, x.photo, x.face).best <= BootstrapCutoff
  {
    Pass1BootInRange(e, n, g, x);
    var rs := Rankings(e, x.photo);
    BootItemFrom(rs, x.photo, g, x);
    RankingsUpToAt(e, x.photo, |Faces(e.photos[x.photo])|, x.face);
  }

  // ---------------------------------------------------------------------
  // Refined centroids and pass 2

  /** The guests with a refined centroid are exactly the guests that are
      Refinable, in guest order. */
  lemma RefinedUpToIff(e: Event, n: nat, g: string)
    requires WellFormed(e) && n <= |e.guests|
    ensures g in RefinedUpTo(e, n) <==> Refinable(e, g) && exists k :: 0 <= k < n && e.guests[k].email == g
  {
    var key := (j: nat) => if j < |e.guests| then e.guests[j].email else "";
    var keep := (j: nat) => j < |e.guests| && Refinable(e, e.guests[j].email);
    SelectIff(n, key, keep, g);
    if g in RefinedUpTo(e, n) {
      var j :| 0 <= j < n && keep(j) && key(j) == g;
      assert e.guests[j].email == g;
    } else if Refinable(e, g) {
      forall k | 0 <= k < n
        ensures e.guests[k].email != g
      {
        assert !(keep(k) && key(k) == g);
      }
    }
  }

  /** Pass 2 has a refined centroid for g iff g is a guest with at least five
      bootstrap items whose sample photos give some face. */
  lemma RefinedIff(e: Event, g: string)
    requires WellFormed(e)
    ensures g in Refined(e) <==> g in Emails(e.guests) && Refinable(e, g)
  {
    RefinedUpToIff(e, |e.guests|, g);
    if g in Emails(e.guests) {
      var k :| 0 <= k < |e.guests| && Emails(e.guests)[k] == g;
      assert e.guests[k].email == g;
    }
  }

  /** d[m] is the smallest value of d and no earlier value is as small:
      np.argmin's answer. */
  ghost predicate IsFirstMin(d: seq<real>, m: int) {
    && 0 <= m < |d|
    && (forall j :: 0 <= j < |d| ==> d[m] <= d[j])
    && (forall j :: 0 <= j < m ==> d[m] < d[j])
  }

  /** g's refined centroid is the first closest to face f of photo i, and
      closer than 0.66. */
  ghost predicate ClosestRefined(e: Event, refined: seq<string>, samples: seq<seq<nat>>, i: nat, f: nat, g: string)
    requires |samples| == |refined|
  {
    var d := RefinedDists(e, samples, i, f);
    exists m :: IsFirstMin(d, m) && refined[m] == g && d[m] < BootstrapTolerance
  }

  /** Pass 2 gives face f of photo i to g exactly when g's refined centroid is
      the first closest one and closer than 0.66. */
  lemma Pass2ChoiceIff(e: Event, refined: seq<string>, samples: seq<seq<nat>>, i: nat, f: nat, g: string)
    requires |samples| == |refined|
    ensures Pass2Choice(e, refined, samples, i, f) == Some(g) <==> ClosestRefined(e, refined, samples, i, f, g)
  {
    var d := RefinedDists(e, samples, i, f);
    if exists m :: IsFirstMin(d, m) && refined[m] == g && d[m] < BootstrapTolerance {
      var m :| IsFirstMin(d, m) && refined[m] == g && d[m] < BootstrapTolerance;
      var k := ArgMinFirst(d);
      assert !(k < m) && !(m < k);
    }
    if Pass2Choice(e, refined, samples, i, f) == Some(g) {
      assert IsFirstMin(d, ArgMinFirst(d));
    }
  }

  /** Pass 2 matches (g, n) on photo i's first k faces exactly when n is the
      photo and one of those faces is given to g. */
  lemma {:induction false} FacePass2Iff(e: Event, refined: seq<string>, samples: seq<seq<nat>>, i: nat, k: nat,
                                        g: string, name: string)
    requires |samples| == |refined| && i < |e.photos|
    ensures (g, name) in FacePass2(e, refined, samples, i, k) <==>
      name == e.photos[i].name && exists f :: 0 <= f < k && Pass2Choice(e, refined, samples, i, f) == Some(g)
  {
    if k > 0 {
      FacePass2Iff(e, refined, samples, i, k - 1, g, name);
      if name == e.photos[i].name && exists f :: 0 <= f < k && Pass2Choice(e, refined, samples, i, f) == Some(g) {
        var f :| 0 <= f < k && Pass2Choice(e, refined, samples, i, f) == Some(g);
        if f < k - 1 {
          assert (g, name) in FacePass2(e, refined, samples, i, k - 1);
        }
      }
    }
  }

  /** Pass 2 matches (g, n) exactly when some photo named n has a face
      given to g. */
  lemma Pass2MatchIff(e: Event, refined: seq<string>, samples: seq<seq<nat>>, n: nat,
                                         g: string, name: string)
    requires |samples| == |refined| && n <= |e.photos|
    ensures (g, name) in Pass2Matches(e, refined, samples, n) <==>
      exists i, f :: 0 <= i < n && e.photos[i].name == name && 0 <= f < |Faces(e.photos[i])|
                     && Pass2Choice(e, refined, samples, i, f) == Some(g)
  {
    var part := (i: nat) => if i < |e.photos| then FacePass2(e, refined, samples, i, |Faces(e.photos[i])|) else {};
    UnionUpToIff(n, part, (g, name));
    if (g, name) in Pass2Matches(e, refined, samples, n) {
      var i :| 0 <= i < n && (g, name) in part(i);
      FacePass2Iff(e, refined, samples, i, |Faces(e.photos[i])|, g, name);
    } else {
      forall i, f | 0 <= i < n && e.photos[i].name == name && 0 <= f < |Faces(e.photos[i])|
        ensures Pass2Choice(e, refined, samples, i, f) != Some(g)
      {
        FacePass2Iff(e, refined, samples, i, |Faces(e.photos[i])|, g, name);
        assert (g, name) !in part(i);
      }
    }
  }

  /** Every pair pass 2 copies is for a refined guest, on a photo with a face
      whose first closest refined centroid is that guest's, under 0.66. */
  lemma Pass2MatchesAreRefined(e: Event, g: string, name: string)
    requires WellFormed(e) && (g, name) in Pass2Matches(e, Refined(e), Samples(e), |e.photos|)
    ensures g in Emails(e.guests) && Refinable(e, g)
    ensures exists i, f :: (0 <= i < |e.photos| && e.photos[i].name == name && 0 <= f < |Faces(e.photos[i])|
                            && ClosestRefined(e, Refined(e), Samples(e), i, f, g))
  {
    var refined, samples := Refined(e), Samples(e);
    Pass2MatchIff(e, refined, samples, |e.photos|, g, name);
    var i, f :| 0 <= i < |e.photos| && e.photos[i].name == name && 0 <= f < |Faces(e.photos[i])|
                && Pass2Choice(e, refined, samples, i, f) == Some(g);
    Pass2ChoiceIff(e, refined, samples, i, f, g);
    var d := RefinedDists(e, samples, i, f);
    var m :| IsFirstMin(d, m) && refined[m] == g && d[m] < BootstrapTolerance;
    assert g in refined;
    RefinedIff(e, g);
  }
}
