/** The decision layer of EnhancedFaceProcessor: the thresholds it derives, how
    it reduces one face's distances to a ranking of guests, how it sorts a face
    into strict accept, relaxed accept, candidate or reject, when it asks the CNN
    detector for a second opinion, and which pass-1 faces feed pass 2.
    The face-distance library is an oracle: a face arrives as one distance per
    guest vector. */
module EnhancedDecision {
  import opened Common

  // Constants set in EnhancedFaceProcessor.__init__
  const MaxCandidateDistance: real := 0.90
  const BootstrapCutoff: real := 0.80
  const BootstrapMinSamples: nat := 5
  const BootstrapTopK: nat := 30
  const BootstrapTolerance: real := 0.66
  /** An image whose longer side reaches this many pixels is never re-checked. */
  const LargeImageSide: int := 3000

  /** tolerance, margin and their relaxed companions. */
  datatype Thresholds = Thresholds(tol: real, margin: real, relaxedTol: real, relaxedMargin: real)

  /** The processor's configuration: the base thresholds derived in __init__
      and the CNN re-check settings. */
  datatype Settings = Settings(base: Thresholds, cnnRecheck: bool, recheckDeltaPad: real, recheckTolerancePad: real)

  // ---------------------------------------------------------------------
  // Thresholds

  /** relaxed_tolerance = min(0.78, tolerance + 0.10) */
  function RelaxedTolerance(tol: real): (r: real)
    ensures r <= 0.78 && r <= tol + 0.10
    ensures r == 0.78 || r == tol + 0.10
  {
    Min(0.78, tol + 0.10)
  }

  /** relaxed_margin = max(0.02, margin * 0.5) */
  function RelaxedMargin(margin: real): (r: real)
    ensures r >= 0.02 && r >= margin * 0.5
    ensures r == 0.02 || r == margin * 0.5
  {
    Max(0.02, margin * 0.5)
  }

  function BaseThresholds(tol: real, margin: real): Thresholds {
    Thresholds(tol, margin, RelaxedTolerance(tol), RelaxedMargin(margin))
  }

  /** The thresholds for one photo: group photos (five faces or more, and again
      at eight) demand a closer match and a wider margin, each result is
      clamped, and with a single guest the tolerances are raised to a floor and
      the margins dropped, since there is no runner-up to beat. */
  function EffectiveThresholds(base: Thresholds, faces: nat, single: bool): (eff: Thresholds)
    ensures eff.tol >= 0.01 && eff.margin >= 0.0 && eff.relaxedTol <= 0.85
    ensures single ==> eff.tol >= 0.66 && eff.relaxedTol >= 0.70
    ensures single ==> eff.margin == 0.0 && eff.relaxedMargin == 0.0
    ensures !single ==> eff.relaxedMargin >= 0.01
    ensures !single && faces < 5 ==>
      eff == Thresholds(Max(0.01, base.tol), Max(0.0, base.margin),
                        Min(0.85, base.relaxedTol), Max(0.01, base.relaxedMargin))
    ensures !single && 5 <= faces < 8 ==>
      eff == Thresholds(Max(0.01, base.tol - 0.02), Max(0.0, base.margin + 0.03),
                        Min(0.85, base.relaxedTol - 0.02), Max(0.01, base.relaxedMargin + 0.015))
    ensures !single && faces >= 8 ==>
      eff == Thresholds(Max(0.01, base.tol - 0.05), Max(0.0, base.margin + 0.08),
                        Min(0.85, base.relaxedTol - 0.05), Max(0.01, base.relaxedMargin + 0.04))
    ensures single && faces < 5 ==>
      eff == Thresholds(Max(Max(0.01, base.tol), 0.66), 0.0, Max(Min(0.85, base.relaxedTol), 0.70), 0.0)
    ensures single && 5 <= faces < 8 ==>
      eff == Thresholds(Max(Max(0.01, base.tol - 0.02), 0.66), 0.0, Max(Min(0.85, base.relaxedTol - 0.02), 0.70), 0.0)
    ensures single && faces >= 8 ==>
      eff == Thresholds(Max(Max(0.01, base.tol - 0.05), 0.66), 0.0, Max(Min(0.85, base.relaxedTol - 0.05), 0.70), 0.0)
  {
    var tolAdj := (if faces >= 5 then -0.02 else 0.0) + (if faces >= 8 then -0.03 else 0.0);
    var marginAdj := (if faces >= 5 then 0.03 else 0.0) + (if faces >= 8 then 0.05 else 0.0);
    var tol := Max(0.01, base.tol + tolAdj);
    var margin := Max(0.0, base.margin + marginAdj);
    var relaxedTol := Min(0.85, base.relaxedTol + tolAdj);
    var relaxedMargin := Max(0.01, base.relaxedMargin + marginAdj * 0.5);
    if single then Thresholds(Max(tol, 0.66), 0.0, Max(relaxedTol, 0.70), 0.0)
    else Thresholds(tol, margin, relaxedTol, relaxedMargin)
  }

  /** More faces never loosen a threshold. */
  lemma GroupPhotosAreStricter(base: Thresholds, fewer: nat, more: nat, single: bool)
    requires fewer <= more
    ensures EffectiveThresholds(base, more, single).tol <= EffectiveThresholds(base, fewer, single).tol
    ensures EffectiveThresholds(base, more, single).margin >= EffectiveThresholds(base, fewer, single).margin
    ensures EffectiveThresholds(base, more, single).relaxedTol <= EffectiveThresholds(base, fewer, single).relaxedTol
    ensures EffectiveThresholds(base, more, single).relaxedMargin >= EffectiveThresholds(base, fewer, single).relaxedMargin
  {
  }

  // ---------------------------------------------------------------------
  // Per-guest minimum and ranking

  /** The dictionary per_guest_min: its keys in insertion order and its values. */
  datatype GuestMinima = GuestMinima(order: seq<string>, mins: map<string, real>)

  /** One step of the aggregation loop: a new guest is inserted at the end, a
      smaller distance replaces the stored one in place. */
  function AddDistance(acc: GuestMinima, email: string, d: real): GuestMinima {
    if email !in acc.mins then GuestMinima(acc.order + [email], acc.mins[email := d])
    else if d < acc.mins[email] then GuestMinima(acc.order, acc.mins[email := d])
    else acc
  }

  /** per_guest_min after the loop over one face's distances. */
  function Aggregate(emails: seq<string>, dists: seq<real>): GuestMinima
    requires |emails| == |dists|
  {
    if |emails| == 0 then GuestMinima([], map[])
    else AddDistance(Aggregate(emails[..|emails| - 1], dists[..|dists| - 1]),
                     emails[|emails| - 1], dists[|dists| - 1])
  }

  ghost predicate IsPerGuestMinimum(emails: seq<string>, dists: seq<real>, a: GuestMinima)
    requires |emails| == |dists|
  {
    && (forall e :: e in a.mins <==> e in emails)
    && (forall k :: 0 <= k < |emails| ==> a.mins[emails[k]] <= dists[k])
    && (forall e :: e in a.mins ==> exists k :: 0 <= k < |emails| && emails[k] == e && dists[k] == a.mins[e])
  }

  ghost predicate InFirstSeenOrder(emails: seq<string>, a: GuestMinima) {
    && NoDup(a.order)
    && (forall e :: e in a.order <==> e in a.mins)
    && (forall e :: e in a.order ==> e in emails)
    && (forall i, j :: 0 <= i < j < |a.order| ==> FirstIndex(emails, a.order[i]) < FirstIndex(emails, a.order[j]))
  }

  /** Every guest that occurs gets the smallest of its distances, and the
      guests are kept in the order they first occur. */
  lemma AggregateIsPerGuestMinimum(emails: seq<string>, dists: seq<real>)
    requires |emails| == |dists|
    ensures IsPerGuestMinimum(emails, dists, Aggregate(emails, dists))
    ensures InFirstSeenOrder(emails, Aggregate(emails, dists))
  {
    AggregateKeys(emails, dists);
    AggregateMinimum(emails, dists);
    AggregateOrder(emails, dists);
  }

  lemma {:induction false} AggregateKeys(emails: seq<string>, dists: seq<real>)
    requires |emails| == |dists|
    ensures var a := Aggregate(emails, dists);
      && (forall e :: e in a.mins <==> e in emails)
      && (forall e :: e in a.order <==> e in a.mins)
      && NoDup(a.order)
  {
    if |emails| > 0 {
      var n := |emails| - 1;
      AggregateKeys(emails[..n], dists[..n]);
      assert emails == emails[..n] + [emails[n]];
    }
  }

  lemma AggregateMinimum(emails: seq<string>, dists: seq<real>)
    requires |emails| == |dists|
    ensures var a := Aggregate(emails, dists);
      && (forall e :: e in a.mins <==> e in emails)
      && (forall k :: 0 <= k < |emails| ==> a.mins[emails[k]] <= dists[k])
      && (forall e :: e in a.mins ==> exists k :: 0 <= k < |emails| && emails[k] == e && dists[k] == a.mins[e])
  {
    AggregateKeys(emails, dists);
    forall k | 0 <= k < |emails| ensures Aggregate(emails, dists).mins[emails[k]] <= dists[k] {
      AggregateBound(emails, dists, k);
    }
    forall e | e in Aggregate(emails, dists).mins
      ensures exists k :: 0 <= k < |emails| && emails[k] == e && dists[k] == Aggregate(emails, dists).mins[e]
    {
      AggregateAttained(emails, dists, e);
    }
  }

  /** The stored minimum of the guest of entry k is at most its distance. */
  lemma {:induction false} AggregateBound(emails: seq<string>, dists: seq<real>, k: nat)
    requires |emails| == |dists| && k < |emails|
    ensures emails[k] in Aggregate(emails, dists).mins
    ensures Aggregate(emails, dists).mins[emails[k]] <= dists[k]
  {
    var n := |emails| - 1;
    var es, ds := emails[..n], dists[..n];
    if k < n {
      AggregateBound(es, ds, k);
      assert es[k] == emails[k] && ds[k] == dists[k];
    }
  }

  /** The stored minimum of a guest is the distance of one of its entries. */
  lemma {:induction false} AggregateAttained(emails: seq<string>, dists: seq<real>, e: string)
    requires |emails| == |dists|
    requires e in Aggregate(emails, dists).mins
    ensures exists k :: 0 <= k < |emails| && emails[k] == e && dists[k] == Aggregate(emails, dists).mins[e]
  {
    var n := |emails| - 1;
    var es, ds := emails[..n], dists[..n];
    var prev, a := Aggregate(es, ds), Aggregate(emails, dists);
    if e == emails[n] && (e !in prev.mins || dists[n] < prev.mins[e]) {
      assert dists[n] == a.mins[e];
    } else {
      AggregateAttained(es, ds, e);
      var k :| 0 <= k < n && es[k] == e && ds[k] == prev.mins[e];
      assert emails[k] == e && dists[k] == a.mins[e];
    }
  }

  lemma AggregateOrder(emails: seq<string>, dists: seq<real>)
    requires |emails| == |dists|
    ensures var a := Aggregate(emails, dists);
      && (forall e :: e in a.order ==> e in emails)
      && (forall i, j :: 0 <= i < j < |a.order| ==> FirstIndex(emails, a.order[i]) < FirstIndex(emails, a.order[j]))
  {
    var a := Aggregate(emails, dists);
    AggregateKeys(emails, dists);
    forall i, j | 0 <= i < j < |a.order|
      ensures FirstIndex(emails, a.order[i]) < FirstIndex(emails, a.order[j])
    {
      AggregateOrderAt(emails, dists, i, j);
    }
  }

  /** Guests enter the key order in the order they first occur. */
  lemma {:induction false} AggregateOrderAt(emails: seq<string>, dists: seq<real>, i: nat, j: nat)
    requires |emails| == |dists|
    requires i < j < |Aggregate(emails, dists).order|
    ensures Aggregate(emails, dists).order[i] in emails && Aggregate(emails, dists).order[j] in emails
    ensures FirstIndex(emails, Aggregate(emails, dists).order[i]) < FirstIndex(emails, Aggregate(emails, dists).order[j])
  {
    var n := |emails| - 1;
    var es, ds := emails[..n], dists[..n];
    var prev, a := Aggregate(es, ds), Aggregate(emails, dists);
    var e := emails[n];
    AggregateKeys(es, ds);
    AggregateKeys(emails, dists);
    assert emails == es + [e];
    FirstIndexOfPrefix(es, e);
    if j < |prev.order| {
      AggregateOrderAt(es, ds, i, j);
      assert a.order[i] == prev.order[i] && a.order[j] == prev.order[j];
    } else {
      assert a.order[j] == e && e !in es;
      assert a.order[i] == prev.order[i] && a.order[i] in es;
    }
  }

  lemma FirstIndexOfPrefix(s: seq<string>, x: string)
    ensures forall y :: y in s ==> FirstIndex(s + [x], y) == FirstIndex(s, y)
    ensures x !in s ==> FirstIndex(s + [x], x) == |s|
  {
    forall y | y in s ensures FirstIndex(s + [x], y) == FirstIndex(s, y) {
      var k := FirstIndex(s, y);
      var k' := FirstIndex(s + [x], y);
      assert (s + [x])[k] == y;
      assert k' <= k;
      assert s[k'] == y;
    }
  }

  /** numpy.argmin and sorted()[0]: the first index holding the minimum. */
  function ArgMinFirst(s: seq<real>): (k: nat)
    requires |s| > 0
    ensures k < |s|
    ensures forall j :: 0 <= j < |s| ==> s[k] <= s[j]
    ensures forall j :: 0 <= j < k ==> s[k] < s[j]
  {
    if |s| == 1 then 0
    else
      var k := ArgMinFirst(s[..|s| - 1]);
      if s[|s| - 1] < s[k] then |s| - 1 else k
  }

  /** The smallest value, float('inf') for an empty sequence. */
  function MinOf(s: seq<real>): (m: Dist)
    ensures m.Inf? <==> |s| == 0
    ensures m.Fin? ==> (exists j :: 0 <= j < |s| && s[j] == m.v)
    ensures m.Fin? ==> forall j :: 0 <= j < |s| ==> m.v <= s[j]
  {
    if |s| == 0 then Inf else Fin(s[ArgMinFirst(s)])
  }

  /** best_match_email, best_distance and second_best: the first two entries of
      the per-guest minima sorted (stably) by distance. */
  datatype Ranking = Ranking(guest: string, best: real, second: Dist)

  function ValuesOf(order: seq<string>, mins: map<string, real>): (vals: seq<real>)
    requires forall i :: 0 <= i < |order| ==> order[i] in mins
    ensures |vals| == |order|
    ensures forall i :: 0 <= i < |order| ==> vals[i] == mins[order[i]]
  {
    seq(|order|, i requires 0 <= i < |order| => mins[order[i]])
  }

  /** The smallest minimum among the guests other than order[k]: infinite
      exactly when there is no other guest. */
  lemma OthersMinimum(order: seq<string>, mins: map<string, real>, k: nat)
    requires NoDup(order) && k < |order|
    requires forall i :: 0 <= i < |order| ==> order[i] in mins
    ensures var vals := ValuesOf(order, mins);
            var second := MinOf(vals[..k] + vals[k + 1..]);
            && (second.Inf? <==> |order| == 1)
            && (second.Fin? ==> exists g :: g in order && g != order[k] && mins[g] == second.v)
            && (second.Fin? ==> forall g :: g in order && g != order[k] ==> second.v <= mins[g])
  {
    var vals := ValuesOf(order, mins);
    var rest := vals[..k] + vals[k + 1..];
    var second := MinOf(rest);
    if second.Fin? {
      var j :| 0 <= j < |rest| && rest[j] == second.v;
      var i := if j < k then j else j + 1;
      assert order[i] != order[k] && mins[order[i]] == second.v;
      forall g | g in order && g != order[k] ensures second.v <= mins[g] {
        var i :| 0 <= i < |order| && order[i] == g;
        assert i != k;
        assert rest[if i < k then i else i - 1] == mins[g];
      }
    }
  }

  /** The ranking is ascending: the best guest has the smallest minimum (the
      earliest inserted one on a tie), the second entry is the smallest minimum
      of any other guest, and it is infinite exactly when no other guest exists. */
  function Rank(order: seq<string>, mins: map<string, real>): (r: Ranking)
    requires |order| > 0 && NoDup(order)
    requires forall i :: 0 <= i < |order| ==> order[i] in mins
    ensures r.guest in order && r.best == mins[r.guest]
    ensures forall g :: g in order ==> r.best <= mins[g]
    ensures forall i :: 0 <= i < |order| && order[i] != r.guest && i < FirstIndex(order, r.guest) ==> r.best < mins[order[i]]
    ensures r.second.Inf? <==> |order| == 1
    ensures r.second.Fin? ==> r.best <= r.second.v
    ensures r.second.Fin? ==> exists g :: g in order && g != r.guest && mins[g] == r.second.v
    ensures r.second.Fin? ==> forall g :: g in order && g != r.guest ==> r.second.v <= mins[g]
  {
    var vals := ValuesOf(order, mins);
    var k := ArgMinFirst(vals);
    var second := MinOf(vals[..k] + vals[k + 1..]);
    OthersMinimum(order, mins, k);
    assert FirstIndex(order, order[k]) == k;
    Ranking(order[k], vals[k], second)
  }

  /** The ranking of one face: its distances (one per guest vector) reduced to
      per-guest minima and ranked; None when there is nothing to rank. */
  function FaceRanking(emails: seq<string>, dists: seq<real>): (r: Option<Ranking>)
    requires |emails| == |dists|
    ensures r.None? <==> |emails| == 0
  {
    AggregateKeys(emails, dists);
    var a := Aggregate(emails, dists);
    assert |emails| > 0 ==> emails[0] in a.order;
    if |a.order| == 0 then None else Some(Rank(a.order, a.mins))
  }

  /** The face's best guest owns the closest of all vectors, and the second
      entry is the closest vector of any other guest. */
  lemma FaceRankingIsClosestVector(emails: seq<string>, dists: seq<real>)
    requires |emails| == |dists| && |emails| > 0
    ensures var r := FaceRanking(emails, dists).value;
      && (exists k :: 0 <= k < |emails| && emails[k] == r.guest && dists[k] == r.best)
      && (forall k :: 0 <= k < |emails| ==> r.best <= dists[k])
      && (r.second.Inf? <==> forall k :: 0 <= k < |emails| ==> emails[k] == r.guest)
      && (r.second.Fin? ==> exists k :: 0 <= k < |emails| && emails[k] != r.guest && dists[k] == r.second.v)
      && (r.second.Fin? ==> forall k :: 0 <= k < |emails| && emails[k] != r.guest ==> r.second.v <= dists[k])
  {
    AggregateIsPerGuestMinimum(emails, dists);
    var a := Aggregate(emails, dists);
    assert emails[0] in a.order;
    var r := Rank(a.order, a.mins);
    forall k | 0 <= k < |emails| ensures r.best <= dists[k] {
      assert emails[k] in a.order;
    }
    if r.second.Inf? {
      forall k | 0 <= k < |emails| ensures emails[k] == r.guest {
        assert emails[k] in a.order;
      }
    } else {
      var g :| g in a.order && g != r.guest && a.mins[g] == r.second.v;
      var k :| 0 <= k < |emails| && emails[k] == g && dists[k] == a.mins[g];
      forall k | 0 <= k < |emails| && emails[k] != r.guest ensures r.second.v <= dists[k] {
        assert emails[k] in a.order;
      }
    }
    if forall k :: 0 <= k < |emails| ==> emails[k] == r.guest {
      forall g | g in a.order ensures g == r.guest {
        var k :| 0 <= k < |emails| && emails[k] == g;
      }
    }
  }

  /** The aggregation loop of process_event_photos and confirm_with_cnn. */
  method PerGuestMin(emails: seq<string>, dists: seq<real>) returns (order: seq<string>, mins: map<string, real>)
    requires |emails| == |dists|
    ensures GuestMinima(order, mins) == Aggregate(emails, dists)
    ensures IsPerGuestMinimum(emails, dists, GuestMinima(order, mins))
    ensures InFirstSeenOrder(emails, GuestMinima(order, mins))
  {
    order, mins := [], map[];
    var idx := 0;
    while idx < |emails|
      invariant 0 <= idx <= |emails|
      invariant GuestMinima(order, mins) == Aggregate(emails[..idx], dists[..idx])
    {
      var email, val := emails[idx], dists[idx];
      if email !in mins || val < mins[email] {
        if email !in mins {
          order := order + [email];
        }
        mins := mins[email := val];
      }
      assert emails[..idx + 1][..idx] == emails[..idx];
      assert dists[..idx + 1][..idx] == dists[..idx];
      idx := idx + 1;
    }
    assert emails[..idx] == emails && dists[..idx] == dists;
    AggregateIsPerGuestMinimum(emails, dists);
  }

  // ---------------------------------------------------------------------
  // Classification

  datatype Tier = Strict | Relaxed | Rejected

  /** delta = second_best - best_distance */
  function Delta(second: Dist, best: real): Dist {
    Minus(second, best)
  }

  predicate StrictAccept(best: real, second: Dist, eff: Thresholds, single: bool) {
    best < eff.tol && (Delta(second, best).AtLeast(eff.margin) || single)
  }

  predicate RelaxedAccept(best: real, second: Dist, eff: Thresholds, single: bool) {
    best < eff.relaxedTol && (Delta(second, best).AtLeast(eff.relaxedMargin) || single)
  }

  /** The three branches of the acceptance test: strict first, then relaxed. */
  function Classify(best: real, second: Dist, eff: Thresholds, single: bool): (tier: Tier)
    ensures tier == Strict <==> StrictAccept(best, second, eff, single)
    ensures tier == Relaxed <==> !StrictAccept(best, second, eff, single) && RelaxedAccept(best, second, eff, single)
    ensures tier == Rejected <==> !StrictAccept(best, second, eff, single) && !RelaxedAccept(best, second, eff, single)
  {
    if StrictAccept(best, second, eff, single) then Strict
    else if RelaxedAccept(best, second, eff, single) then Relaxed
    else Rejected
  }

  function TierLevel(t: Tier): nat {
    match t
    case Strict => 2
    case Relaxed => 1
    case Rejected => 0
  }

  /** A closer best match against the same runner-up is never classified worse. */
  lemma CloserIsNeverWorse(best: real, closer: real, second: Dist, eff: Thresholds, single: bool)
    requires closer <= best
    ensures TierLevel(Classify(closer, second, eff, single)) >= TierLevel(Classify(best, second, eff, single))
  {
  }

  /** With one guest, any best distance under 0.66 is a strict accept, whatever
      the photo's face count and base thresholds. */
  lemma SingleGuestAcceptsCloseFaces(base: Thresholds, faces: nat, best: real, second: Dist)
    requires best < BootstrapTolerance
    ensures Classify(best, second, EffectiveThresholds(base, faces, true), true) == Strict
  {
  }

  // ---------------------------------------------------------------------
  // CNN re-check

  predicate IsLargeImage(height: int, width: int) {
    MaxInt(height, width) >= LargeImageSide
  }

  /** need_recheck: re-check when enabled (or forced by a crowded photo), never
      with a single guest or on a large image, and only for a close best match
      or a thin margin. */
  predicate NeedRecheck(s: Settings, faces: nat, single: bool, large: bool, best: real, delta: Dist) {
    var forceGroup := faces >= 5 && !single;
    && ((s.cnnRecheck && !single) || forceGroup)
    && !large
    && (best < s.base.tol + s.recheckTolerancePad || delta.Below(s.base.margin + s.recheckDeltaPad))
  }

  lemma NoRecheckForLargeImagesOrSingleGuest(s: Settings, faces: nat, single: bool, large: bool, best: real, delta: Dist)
    requires large || single
    ensures !NeedRecheck(s, faces, single, large, best, delta)
  {
  }

  /** Read with Python's precedence, `cnn_recheck and not single or
      force_group` asks for a re-check exactly when there is more than one
      guest and either the re-check is enabled or the photo shows five faces
      or more. */
  lemma NeedRecheckIff(s: Settings, faces: nat, single: bool, large: bool, best: real, delta: Dist)
    ensures NeedRecheck(s, faces, single, large, best, delta) <==>
      !single && !large && (s.cnnRecheck || faces >= 5) &&
      (best < s.base.tol + s.recheckTolerancePad || delta.Below(s.base.margin + s.recheckDeltaPad))
  {
  }

  /** A crowded photo is re-checked when its best match is close, even with
      the re-check switched off. */
  lemma GroupPhotosForceRecheck(s: Settings, faces: nat, single: bool, large: bool, best: real, delta: Dist)
    requires faces >= 5 && !single && !large && best < s.base.tol + s.recheckTolerancePad
    ensures NeedRecheck(s, faces, single, large, best, delta)
  {
  }

  /** With the re-check switched off, a photo of fewer than five faces is
      never re-checked. */
  lemma NoRecheckWhenDisabled(s: Settings, faces: nat, single: bool, large: bool, best: real, delta: Dist)
    requires !s.cnnRecheck && faces < 5
    ensures !NeedRecheck(s, faces, single, large, best, delta)
  {
  }

  /** The answer of confirm_with_cnn: ok, best_email_cnn, best_dist_cnn, second_cnn. */
  datatype CnnCheck = CnnCheck(ok: bool, guest: Option<string>, best: Dist, second: Dist)

  /** The ranking of every CNN face. */
  function FaceRankings(emails: seq<string>, faces: seq<seq<real>>): (rs: seq<Option<Ranking>>)
    requires forall k :: 0 <= k < |faces| ==> |faces[k]| == |emails|
    ensures |rs| == |faces|
    ensures forall k :: 0 <= k < |faces| ==> rs[k] == FaceRanking(emails, faces[k])
  {
    seq(|faces|, k requires 0 <= k < |faces| => FaceRanking(emails, faces[k]))
  }

  /** One CNN face: it replaces the current answer when its best distance is
      strictly smaller. */
  function CnnStep(acc: CnnCheck, r: Option<Ranking>): CnnCheck {
    if r.Some? && Fin(r.value.best).Less(acc.best)
    then CnnCheck(acc.ok, Some(r.value.guest), Fin(r.value.best), r.value.second)
    else acc
  }

  /** The loop of confirm_with_cnn over the rankings of the CNN faces. */
  function CnnFold(rs: seq<Option<Ranking>>): CnnCheck {
    if |rs| == 0 then CnnCheck(true, None, Inf, Inf)
    else CnnStep(CnnFold(rs[..|rs| - 1]), rs[|rs| - 1])
  }

  /** confirm_with_cnn: no CNN faces means not ok; otherwise the ranking of the
      CNN face with the smallest best distance. */
  function CnnConfirm(cnnFaces: seq<seq<real>>, emails: seq<string>): CnnCheck
    requires forall k :: 0 <= k < |cnnFaces| ==> |cnnFaces[k]| == |emails|
  {
    if |cnnFaces| == 0 then CnnCheck(false, None, Inf, Inf) else CnnFold(FaceRankings(emails, cnnFaces))
  }

  /** Face k yields the answer, and every earlier face with a ranking is farther. */
  ghost predicate ClosestFaceAt(rs: seq<Option<Ranking>>, c: CnnCheck, k: nat)
    requires k < |rs| && c.guest.Some? && c.best.Fin?
  {
    && rs[k] == Some(Ranking(c.guest.value, c.best.v, c.second))
    && forall j :: 0 <= j < k && rs[j].Some? ==> c.best.v < rs[j].value.best
  }

  ghost predicate PicksClosestFace(rs: seq<Option<Ranking>>, c: CnnCheck) {
    && (c.guest.None? <==> c.best.Inf?)
    && (c.guest.None? ==> c.second.Inf?)
    && (c.guest.None? <==> forall k :: 0 <= k < |rs| ==> rs[k].None?)
    && (c.guest.Some? && c.best.Fin? ==> exists k :: 0 <= k < |rs| && ClosestFaceAt(rs, c, k))
    && (c.guest.Some? && c.best.Fin? ==> forall j :: 0 <= j < |rs| && rs[j].Some? ==> c.best.v <= rs[j].value.best)
  }

  /** The CNN answer comes from the first face whose best distance is the
      smallest of all faces, and names a guest exactly when some face has a
      ranking. */
  lemma {:induction false} CnnFoldPicksClosestFace(rs: seq<Option<Ranking>>)
    ensures CnnFold(rs).ok
    ensures PicksClosestFace(rs, CnnFold(rs))
  {
    if |rs| > 0 {
      var n := |rs| - 1;
      var prefix := rs[..n];
      CnnFoldPicksClosestFace(prefix);
      var prev := CnnFold(prefix);
      var c := CnnFold(rs);
      assert c == CnnStep(prev, rs[n]);
      assert forall j :: 0 <= j < n ==> rs[j] == prefix[j];
      if c != prev {
        assert ClosestFaceAt(rs, c, n);
      } else if c.guest.Some? && c.best.Fin? {
        var k :| 0 <= k < n && ClosestFaceAt(prefix, prev, k);
        assert ClosestFaceAt(rs, c, k);
      }
    }
  }

  /** What confirm_with_cnn promises: not ok exactly when there is no CNN
      face; otherwise the closest face's ranking, naming a guest exactly when
      there is a guest to name. */
  lemma CnnConfirmPicksClosestFace(cnnFaces: seq<seq<real>>, emails: seq<string>)
    requires forall k :: 0 <= k < |cnnFaces| ==> |cnnFaces[k]| == |emails|
    ensures CnnConfirm(cnnFaces, emails).ok <==> |cnnFaces| > 0
    ensures CnnConfirm(cnnFaces, emails).ok ==> PicksClosestFace(FaceRankings(emails, cnnFaces), CnnConfirm(cnnFaces, emails))
    ensures CnnConfirm(cnnFaces, emails).ok ==> (CnnConfirm(cnnFaces, emails).guest.None? <==> |emails| == 0)
  {
    if |cnnFaces| > 0 {
      var rs := FaceRankings(emails, cnnFaces);
      CnnFoldPicksClosestFace(rs);
      assert |emails| > 0 ==> rs[0].Some?;
    }
  }

  lemma CnnFoldSnoc(rs: seq<Option<Ranking>>, n: nat)
    requires n < |rs|
    ensures CnnFold(rs[..n + 1]) == CnnStep(CnnFold(rs[..n]), rs[n])
  {
    assert rs[..n + 1][..n] == rs[..n];
  }

  /** One CNN face of confirm_with_cnn's loop. */
  method CnnFace(emails: seq<string>, dists: seq<real>, c: CnnCheck) returns (c': CnnCheck)
    requires |emails| == |dists|
    ensures c' == CnnStep(c, FaceRanking(emails, dists))
  {
    c' := c;
    var order, mins := PerGuestMin(emails, dists);
    if |order| > 0 {
      var ranked := Rank(order, mins);
      assert FaceRanking(emails, dists) == Some(ranked);
      if Fin(ranked.best).Less(c.best) {
        c' := CnnCheck(c.ok, Some(ranked.guest), Fin(ranked.best), ranked.second);
      }
    } else {
      assert FaceRanking(emails, dists).None?;
    }
  }

  /** confirm_with_cnn's loop over the CNN faces. */
  method ConfirmWithCnn(cnnFaces: seq<seq<real>>, emails: seq<string>) returns (c: CnnCheck)
    requires forall k :: 0 <= k < |cnnFaces| ==> |cnnFaces[k]| == |emails|
    ensures c == CnnConfirm(cnnFaces, emails)
  {
    if |cnnFaces| == 0 {
      return CnnCheck(false, None, Inf, Inf);
    }
    ghost var rs := FaceRankings(emails, cnnFaces);
    c := CnnCheck(true, None, Inf, Inf);
    var idx := 0;
    while idx < |cnnFaces|
      invariant 0 <= idx <= |cnnFaces|
      invariant c == CnnFold(rs[..idx])
    {
      c := CnnFace(emails, cnnFaces[idx], c);
      CnnFoldSnoc(rs, idx);
      idx := idx + 1;
    }
    assert rs[..idx] == rs;
  }

  /** The CNN answer confirms a guest under a tolerance and a margin. */
  predicate CnnPasses(c: CnnCheck, tol: real, margin: real) {
    c.best.Below(tol) && Delta(c.second, c.best.v).AtLeast(margin)
  }

  // ---------------------------------------------------------------------
  // The fate of one face

  datatype FaceAction = Accept(guest: string) | CnnReject | Candidate(guest: string) | Reject

  /** One face of pass 1: the tier of its ranking, the CNN confirmation when a
      re-check is due (strict thresholds in the strict branch, a tightened
      relaxed pair in the relaxed branch), and saving the top guest as a
      candidate for manual review when the face is rejected outright. */
  function DecideFace(s: Settings, r: Ranking, eff: Thresholds, single: bool, recheck: bool, cnn: CnnCheck): (a: FaceAction)
    ensures a.Accept? || a.Candidate? ==> a.guest == r.guest
    ensures a.Candidate? <==> Classify(r.best, r.second, eff, single) == Rejected && r.guest != "" && r.best <= MaxCandidateDistance
    ensures !recheck ==> (a.Accept? <==> Classify(r.best, r.second, eff, single) != Rejected)
    ensures a.CnnReject? ==> recheck && Classify(r.best, r.second, eff, single) != Rejected
    ensures a.Accept? && recheck ==> cnn.ok && cnn.guest == Some(r.guest)
    ensures a.Accept? && recheck && Classify(r.best, r.second, eff, single) == Strict ==> CnnPasses(cnn, Max(eff.tol, 0.01), Max(eff.margin, 0.0))
    ensures Classify(r.best, r.second, eff, single) != Rejected ==> a.Accept? || a.CnnReject?
    ensures a.Accept? ==> Classify(r.best, r.second, eff, single) != Rejected
    ensures recheck && Classify(r.best, r.second, eff, single) == Strict ==>
      (a.Accept? <==> cnn.ok && cnn.guest == Some(r.guest) && CnnPasses(cnn, Max(eff.tol, 0.01), Max(eff.margin, 0.0)))
    ensures recheck && Classify(r.best, r.second, eff, single) == Relaxed ==>
      (a.Accept? <==> cnn.ok && cnn.guest == Some(r.guest) &&
                      CnnPasses(cnn, Min(eff.relaxedTol, eff.tol + s.recheckTolerancePad * 0.5), Max(eff.relaxedMargin, eff.margin * 0.5)))
  {
    match Classify(r.best, r.second, eff, single)
    case Strict =>
      if recheck && (!cnn.ok || cnn.guest != Some(r.guest)) then CnnReject
      else if recheck && !CnnPasses(cnn, Max(eff.tol - 0.00, 0.01), Max(eff.margin - 0.00, 0.0)) then CnnReject
      else Accept(r.guest)
    case Relaxed =>
      var strictTol := Min(eff.relaxedTol, eff.tol + s.recheckTolerancePad * 0.5);
      var strictMargin := Max(eff.relaxedMargin, eff.margin * 0.5);
      if recheck && (!cnn.ok || cnn.guest != Some(r.guest)) then CnnReject
      else if recheck && !CnnPasses(cnn, strictTol, strictMargin) then CnnReject
      else Accept(r.guest)
    case Rejected =>
      if r.guest != "" && r.best <= MaxCandidateDistance then Candidate(r.guest) else Reject
  }

  /** A pass-1 face that seeds pass 2. */
  predicate IsBootstrapCandidate(r: Ranking) {
    r.guest != "" && r.best <= BootstrapCutoff
  }

  // ---------------------------------------------------------------------
  // Pass 2 sample selection

  /** (distance, photo, face index) collected for a guest in pass 1. */
  datatype BootItem = BootItem(dist: real, photo: nat, face: nat)

  ghost predicate SortedByDist(s: seq<BootItem>) {
    forall i, j :: 0 <= i < j < |s| ==> s[i].dist <= s[j].dist
  }

  /** Inserts x before the first element that is not closer than x. */
  function InsertByDist(x: BootItem, s: seq<BootItem>): (r: seq<BootItem>)
    ensures |r| == |s| + 1
  {
    if |s| == 0 then [x]
    else if x.dist <= s[0].dist then [x] + s
    else [s[0]] + InsertByDist(x, s[1..])
  }

  /** Inserting into a sorted sequence keeps it sorted and adds exactly x. */
  lemma {:induction false} InsertByDistSorts(x: BootItem, s: seq<BootItem>)
    requires SortedByDist(s)
    ensures forall i :: 0 <= i < |InsertByDist(x, s)| ==> InsertByDist(x, s)[i] == x || InsertByDist(x, s)[i] in s
    ensures SortedByDist(InsertByDist(x, s))
    ensures multiset(InsertByDist(x, s)) == multiset(s) + multiset{x}
  {
    if |s| > 0 && x.dist > s[0].dist {
      var rest := InsertByDist(x, s[1..]);
      InsertByDistSorts(x, s[1..]);
      HeadFirst(s, x, rest);
      assert s == [s[0]] + s[1..];
      forall i | 0 <= i < |rest| + 1 ensures ([s[0]] + rest)[i] == x || ([s[0]] + rest)[i] in s {
        if i > 0 {
          assert ([s[0]] + rest)[i] == rest[i - 1];
        }
      }
    } else if |s| > 0 {
      HeadBefore(x, s);
    }
  }

  /** An item not farther than the head of a sorted sequence can go first. */
  lemma HeadBefore(x: BootItem, s: seq<BootItem>)
    requires SortedByDist(s) && |s| > 0 && x.dist <= s[0].dist
    ensures SortedByDist([x] + s)
  {
    var r := [x] + s;
    forall i, j | 0 <= i < j < |r| ensures r[i].dist <= r[j].dist {
      assert r[j] == s[j - 1];
      if i > 0 {
        assert r[i] == s[i - 1];
      } else {
        assert s[0].dist <= s[j - 1].dist;
      }
    }
  }

  /** The head of a sorted sequence stays first when an item farther than it
      goes into the rest. */
  lemma HeadFirst(s: seq<BootItem>, x: BootItem, rest: seq<BootItem>)
    requires SortedByDist(s) && |s| > 0 && s[0].dist < x.dist && SortedByDist(rest)
    requires forall i :: 0 <= i < |rest| ==> rest[i] == x || rest[i] in s[1..]
    ensures SortedByDist([s[0]] + rest)
  {
    forall i | 0 <= i < |rest| ensures s[0].dist <= rest[i].dist {
      if rest[i] != x {
        var j :| 0 <= j < |s| - 1 && s[1..][j] == rest[i];
        assert s[j + 1] == rest[i];
      }
    }
    var r := [s[0]] + rest;
    forall i, j | 0 <= i < j < |r| ensures r[i].dist <= r[j].dist {
      assert r[j] == rest[j - 1];
      if i > 0 {
        assert r[i] == rest[i - 1];
      }
    }
  }

  /** sorted(items, key=distance), ascending; stable, as each item goes
      before the later ones at the same distance. */
  function SortByDist(s: seq<BootItem>): (r: seq<BootItem>)
    ensures |r| == |s|
  {
    if |s| == 0 then [] else InsertByDist(s[0], SortByDist(s[1..]))
  }

  /** The sort gives a sorted permutation of its input. */
  lemma {:induction false} SortByDistSorts(s: seq<BootItem>)
    ensures SortedByDist(SortByDist(s))
    ensures multiset(SortByDist(s)) == multiset(s)
  {
    if |s| > 0 {
      SortByDistSorts(s[1..]);
      InsertByDistSorts(s[0], SortByDist(s[1..]));
      assert s == [s[0]] + s[1..];
    }
  }

  /** The items of s at distance d, in their order in s. */
  function AtDist(s: seq<BootItem>, d: real): seq<BootItem> {
    if |s| == 0 then []
    else (if s[0].dist == d then [s[0]] else []) + AtDist(s[1..], d)
  }

  /** x goes before every item at its own distance: the items it passes are
      strictly closer. */
  lemma {:induction false} InsertByDistAtDist(x: BootItem, s: seq<BootItem>, d: real)
    ensures AtDist(InsertByDist(x, s), d) == (if x.dist == d then [x] else []) + AtDist(s, d)
  {
    if |s| > 0 && x.dist > s[0].dist {
      InsertByDistAtDist(x, s[1..], d);
      var r := InsertByDist(x, s);
      assert r[0] == s[0] && r[1..] == InsertByDist(x, s[1..]);
    } else if |s| > 0 {
      var r := [x] + s;
      assert r[0] == x && r[1..] == s;
    }
  }

  /** The sort is stable: the items at any one distance come out in the
      order they went in. */
  lemma {:induction false} SortByDistIsStable(s: seq<BootItem>, d: real)
    ensures AtDist(SortByDist(s), d) == AtDist(s, d)
  {
    if |s| > 0 {
      SortByDistIsStable(s[1..], d);
      InsertByDistAtDist(s[0], SortByDist(s[1..]), d);
    }
  }

  function KeptCount(n: nat, k: nat): nat {
    if k < n then k else n
  }

  /** sorted(items)[:k]: the k closest items. */
  function TopClosest(s: seq<BootItem>, k: nat): seq<BootItem> {
    SortByDist(s)[..KeptCount(|s|, k)]
  }

  /** sorted(items)[k:]: the items the selection leaves out. */
  function LeftOut(s: seq<BootItem>, k: nat): seq<BootItem> {
    SortByDist(s)[KeptCount(|s|, k)..]
  }

  /** The selection keeps min(k, n) items in ascending distance; together with
      the items it leaves out they are exactly the input, and no item left out
      is closer than a kept one. */
  lemma TopClosestIsClosest(s: seq<BootItem>, k: nat)
    ensures |TopClosest(s, k)| == KeptCount(|s|, k)
    ensures SortedByDist(TopClosest(s, k))
    ensures multiset(TopClosest(s, k)) + multiset(LeftOut(s, k)) == multiset(s)
    ensures forall i, j :: 0 <= i < |TopClosest(s, k)| && 0 <= j < |LeftOut(s, k)| ==>
      TopClosest(s, k)[i].dist <= LeftOut(s, k)[j].dist
  {
    SortByDistSorts(s);
    SplitSorted(SortByDist(s), KeptCount(|s|, k));
  }

  /** Cutting a sorted sequence in two: both halves are sorted, together
      they hold its items, and the first half is not farther. */
  lemma SplitSorted(sorted: seq<BootItem>, n: nat)
    requires SortedByDist(sorted) && n <= |sorted|
    ensures SortedByDist(sorted[..n])
    ensures multiset(sorted[..n]) + multiset(sorted[n..]) == multiset(sorted)
    ensures forall i, j :: 0 <= i < n && 0 <= j < |sorted| - n ==> sorted[..n][i].dist <= sorted[n..][j].dist
  {
    assert sorted == sorted[..n] + sorted[n..];
    forall i, j | 0 <= i < n && 0 <= j < |sorted| - n ensures sorted[..n][i].dist <= sorted[n..][j].dist {
      assert sorted[..n][i] == sorted[i] && sorted[n..][j] == sorted[n + j];
    }
  }

  function PhotosOf(items: seq<BootItem>): (photos: seq<nat>)
    ensures |photos| == |items|
    ensures forall i :: 0 <= i < |items| ==> photos[i] == items[i].photo
  {
    seq(|items|, i requires 0 <= i < |items| => items[i].photo)
  }
}
