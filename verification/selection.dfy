/** One iteration of the booking loop: which spaces are tried, in which
    order, and where the iteration stops. */
module Selection {

  /** The locations searched, in the order their spaces are tried. */
  const LocationIds: seq<string> := ["19", "29"]

  /** Spaces tried only as a last resort, keyed by their label. */
  const ForbiddenSpaces: map<string, string> := map["68" := "2592", "69" := "2591"]

  predicate IsForbidden(space: string) {
    space in ForbiddenSpaces.Values
  }

  /** The free spaces found at one location. */
  datatype Available = Available(location: string, spaces: seq<string>)

  datatype Candidate = Candidate(space: string, location: string)

  /** The non-forbidden spaces of one location, in list order. */
  function InLocation(location: string, spaces: seq<string>): (c: seq<Candidate>)
    ensures forall k :: 0 <= k < |c| ==> !IsForbidden(c[k].space) && c[k].location == location
    ensures forall k :: 0 <= k < |c| ==> c[k].space in spaces
    ensures forall s :: s in spaces && !IsForbidden(s) ==> Candidate(s, location) in c
  {
    if spaces == [] then [] else Offer(location, spaces[0]) + InLocation(location, spaces[1..])
  }

  /** What one space contributes to its location's candidates. */
  function Offer(location: string, space: string): seq<Candidate> {
    if IsForbidden(space) then [] else [Candidate(space, location)]
  }

  /** A single space is a candidate of its location exactly when it is not
      forbidden. */
  lemma InLocationSingle(location: string, space: string)
    ensures InLocation(location, [space]) ==
      if IsForbidden(space) then [] else [Candidate(space, location)]
  {
    assert [space][1..] == [];
  }

  /** Within one location spaces keep their list order: the candidates of a
      concatenation are the concatenated candidates. */
  lemma {:induction false} InLocationAppend(location: string, a: seq<string>, b: seq<string>)
    ensures InLocation(location, a + b) == InLocation(location, a) + InLocation(location, b)
  {
    if a == [] {
      assert a + b == b;
    } else {
      var head := Offer(location, a[0]);
      assert (a + b)[0] == a[0];
      assert (a + b)[1..] == a[1..] + b;
      InLocationAppend(location, a[1..], b);
      assert head + (InLocation(location, a[1..]) + InLocation(location, b))
          == (head + InLocation(location, a[1..])) + InLocation(location, b);
    }
  }

  /** The forbidden spaces of one list, in list order. */
  function FilterForbidden(spaces: seq<string>): (f: seq<string>)
    ensures forall k :: 0 <= k < |f| ==> IsForbidden(f[k]) && f[k] in spaces
    ensures forall s :: s in spaces && IsForbidden(s) ==> s in f
  {
    if spaces == [] then []
    else (if IsForbidden(spaces[0]) then [spaces[0]] else []) + FilterForbidden(spaces[1..])
  }

  /** The first-pass order: non-forbidden spaces in location order, then in
      list order. */
  function Preferred(avail: seq<Available>): (c: seq<Candidate>)
    ensures forall k :: 0 <= k < |c| ==> !IsForbidden(c[k].space)
  {
    if avail == [] then []
    else InLocation(avail[0].location, avail[0].spaces) + Preferred(avail[1..])
  }

  /** The forbidden spaces found, in location order; a space found at two
      locations appears twice. */
  function ForbiddenCandidates(avail: seq<Available>): (f: seq<string>)
    ensures forall k :: 0 <= k < |f| ==> IsForbidden(f[k])
  {
    if avail == [] then []
    else FilterForbidden(avail[0].spaces) + ForbiddenCandidates(avail[1..])
  }

  /** Every location's candidates come before those of later locations. */
  lemma {:induction false} PreferredAppend(a: seq<Available>, b: seq<Available>)
    ensures Preferred(a + b) == Preferred(a) + Preferred(b)
  {
    if a == [] {
      assert a + b == b;
    } else {
      assert (a + b)[0] == a[0];
      assert (a + b)[1..] == a[1..] + b;
      PreferredAppend(a[1..], b);
    }
  }

  /** A candidate is offered in the first pass exactly when it is a
      non-forbidden space found at that location. */
  lemma {:induction false} PreferredMembership(avail: seq<Available>, c: Candidate)
    ensures c in Preferred(avail) <==>
      !IsForbidden(c.space)
      && exists j :: 0 <= j < |avail| && avail[j].location == c.location && c.space in avail[j].spaces
  {
    if avail != [] {
      PreferredMembership(avail[1..], c);
      assert forall j :: 1 <= j < |avail| ==> avail[j] == avail[1..][j - 1];
      if exists j :: 0 <= j < |avail| && avail[j].location == c.location && c.space in avail[j].spaces {
        var j :| 0 <= j < |avail| && avail[j].location == c.location && c.space in avail[j].spaces;
        if j > 0 {
          assert avail[1..][j - 1] == avail[j];
        }
      }
    }
  }

  /** A space is a forbidden candidate exactly when it is forbidden and was
      found at some location. */
  lemma {:induction false} ForbiddenCandidatesMembership(avail: seq<Available>, s: string)
    ensures s in ForbiddenCandidates(avail) <==>
      IsForbidden(s) && exists j :: 0 <= j < |avail| && s in avail[j].spaces
  {
    if avail != [] {
      ForbiddenCandidatesMembership(avail[1..], s);
      assert forall j :: 1 <= j < |avail| ==> avail[j] == avail[1..][j - 1];
      if exists j :: 0 <= j < |avail| && s in avail[j].spaces {
        var j :| 0 <= j < |avail| && s in avail[j].spaces;
        if j > 0 {
          assert avail[1..][j - 1] == avail[j];
        }
      }
    }
  }

  function TotalFound(avail: seq<Available>): nat {
    if avail == [] then 0 else |avail[0].spaces| + TotalFound(avail[1..])
  }

  lemma {:induction false} SplitOneLocation(location: string, spaces: seq<string>)
    ensures |InLocation(location, spaces)| + |FilterForbidden(spaces)| == |spaces|
  {
    if spaces != [] {
      SplitOneLocation(location, spaces[1..]);
    }
  }

  /** Every space found is offered exactly once: in the first pass or among
      the forbidden candidates. */
  lemma {:induction false} CandidatesPartitionFound(avail: seq<Available>)
    ensures |Preferred(avail)| + |ForbiddenCandidates(avail)| == TotalFound(avail)
  {
    if avail != [] {
      SplitOneLocation(avail[0].location, avail[0].spaces);
      CandidatesPartitionFound(avail[1..]);
    }
  }

  datatype Outcome =
    | Booked(space: string, location: string)
    | BookedForbidden(space: string)
    | NotBooked

  /** What one iteration did: the spaces it tried to book, in order, and how
      it ended. */
  datatype Round = Round(attempts: seq<string>, outcome: Outcome)

  /** The first pass: try each candidate in turn and stop at the first that
      books. */
  function FirstPass(cands: seq<Candidate>, attempt: string -> bool): (r: Round)
    ensures !r.outcome.BookedForbidden?
    ensures |r.attempts| <= |cands|
    ensures forall k :: 0 <= k < |r.attempts| ==> r.attempts[k] == cands[k].space
    ensures forall k :: 0 <= k < |r.attempts| - 1 ==> !attempt(r.attempts[k])
    ensures r.outcome.Booked? <==> exists k :: 0 <= k < |cands| && attempt(cands[k].space)
    ensures r.outcome.Booked? ==>
      && |r.attempts| > 0
      && cands[|r.attempts| - 1] == Candidate(r.outcome.space, r.outcome.location)
      && attempt(r.outcome.space)
    ensures r.outcome.NotBooked? ==> |r.attempts| == |cands|
  {
    if cands == [] then Round([], NotBooked)
    else if attempt(cands[0].space) then Round([cands[0].space], Booked(cands[0].space, cands[0].location))
    else
      var rest := FirstPass(cands[1..], attempt);
      assert forall k :: 1 <= k < |cands| ==> cands[k] == cands[1..][k - 1];
      Round([cands[0].space] + rest.attempts, rest.outcome)
  }

  /** `random.choice` picks some index of the forbidden candidates. */
  predicate PickInRange(avail: seq<Available>, pick: nat) {
    ForbiddenCandidates(avail) == [] || pick < |ForbiddenCandidates(avail)|
  }

  /** The body of the booking loop, after the searches: the first pass, then
      at most one forbidden space, the one chosen by `pick`. */
  function RunRound(avail: seq<Available>, attempt: string -> bool, pick: nat): (r: Round)
    requires PickInRange(avail, pick)
    ensures forall k :: 0 <= k < |r.attempts| - 1 ==> !IsForbidden(r.attempts[k]) && !attempt(r.attempts[k])
    ensures r.outcome.Booked? <==> exists c :: c in Preferred(avail) && attempt(c.space)
    ensures r.outcome.Booked? ==>
      && |r.attempts| > 0
      && r.attempts[|r.attempts| - 1] == r.outcome.space
      && Candidate(r.outcome.space, r.outcome.location) in Preferred(avail)
      && attempt(r.outcome.space)
    ensures r.outcome.BookedForbidden? ==>
      && |r.attempts| > 0
      && r.attempts[|r.attempts| - 1] == r.outcome.space
      && r.outcome.space in ForbiddenCandidates(avail)
      && attempt(r.outcome.space)
    ensures r.outcome.NotBooked? ==> forall k :: 0 <= k < |r.attempts| ==> !attempt(r.attempts[k])
    ensures r.outcome.Booked? ==>
      && |r.attempts| <= |Preferred(avail)|
      && Preferred(avail)[|r.attempts| - 1] == Candidate(r.outcome.space, r.outcome.location)
    ensures !r.outcome.Booked? ==>
      && |Preferred(avail)| <= |r.attempts|
      && forall k :: 0 <= k < |Preferred(avail)| ==> r.attempts[k] == Preferred(avail)[k].space
    ensures !r.outcome.Booked? && ForbiddenCandidates(avail) != [] ==>
      && |r.attempts| == |Preferred(avail)| + 1
      && r.attempts[|Preferred(avail)|] == ForbiddenCandidates(avail)[pick]
      && (r.outcome.BookedForbidden? <==> attempt(ForbiddenCandidates(avail)[pick]))
    ensures !r.outcome.Booked? && ForbiddenCandidates(avail) == [] ==>
      r.outcome.NotBooked? && |r.attempts| == |Preferred(avail)|
  {
    var cands := Preferred(avail);
    var first := FirstPass(cands, attempt);
    if first.outcome.Booked? then
      assert cands[|first.attempts| - 1] in cands;
      first
    else
      assert |first.attempts| == |cands|;
      var f := ForbiddenCandidates(avail);
      if f == [] then first
      else
        var space := f[pick];
        var attempts := first.attempts + [space];
        assert forall k :: 0 <= k < |cands| ==> attempts[k] == first.attempts[k];
        assert attempts[|cands|] == space;
        Round(attempts, if attempt(space) then BookedForbidden(space) else NotBooked)
  }

  /** The spaces tried that are not forbidden are the first-pass candidates,
      in order, from the first one on. */
  lemma RoundFollowsPreferredOrder(avail: seq<Available>, attempt: string -> bool, pick: nat)
    requires PickInRange(avail, pick)
    ensures var r, cands := RunRound(avail, attempt, pick), Preferred(avail);
      forall k :: 0 <= k < |r.attempts| && !IsForbidden(r.attempts[k]) ==>
        k < |cands| && r.attempts[k] == cands[k].space
  {
  }

  /** A forbidden space is a last resort: tried only once every first-pass
      candidate failed, drawn from the forbidden spaces found, and at most one
      per iteration. */
  lemma ForbiddenIsLastResort(avail: seq<Available>, attempt: string -> bool, pick: nat)
    requires PickInRange(avail, pick)
    ensures var r := RunRound(avail, attempt, pick);
      forall k :: 0 <= k < |r.attempts| && IsForbidden(r.attempts[k]) ==>
        && k == |r.attempts| - 1
        && k == |Preferred(avail)|
        && (forall c :: c in Preferred(avail) ==> !attempt(c.space))
        && r.attempts[k] in ForbiddenCandidates(avail)
  {
  }
}
