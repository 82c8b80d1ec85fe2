/** The parts of the search and booking requests that do not depend on the
    network: the booking window strings, and the list of free spaces taken
    from a decoded search response. */
module Spaces {
  import opened Options
  import opened Decimal

  const StartHour := "08"
  const EndHour := "18"
  /** What follows the hour in every window string: minutes and a fixed UTC offset. */
  const MinutesAndOffset := ":00+01:00"

  /** The `startTime` / `endTime` pair sent with every search and booking. */
  datatype Window = Window(startTime: string, endTime: string)

  function TimeOn(date: string, hour: string): string {
    date + "T" + hour + MinutesAndOffset
  }

  /** The window for a target date: 08:00 to 18:00 at offset +01:00. */
  function BookingWindow(date: string): (w: Window)
    ensures |w.startTime| == |w.endTime| == |date| + 12
    ensures w.startTime[..|date|] == w.endTime[..|date|] == date
  {
    Window(TimeOn(date, StartHour), TimeOn(date, EndHour))
  }

  /** Recovers the date of a window, when both of its ends carry the fixed
      times and one and the same date. */
  function WindowDate(w: Window): (r: Option<string>)
    ensures r.Some? ==> |r.value| + 12 == |w.startTime|
  {
    var n := |w.startTime|;
    if n >= 12 && |w.endTime| == n
       && w.startTime[n - 12..] == "T" + StartHour + MinutesAndOffset
       && w.endTime[n - 12..] == "T" + EndHour + MinutesAndOffset
       && w.startTime[..n - 12] == w.endTime[..n - 12]
    then Some(w.startTime[..n - 12])
    else None
  }

  lemma WindowRoundTrip(date: string)
    ensures WindowDate(BookingWindow(date)) == Some(date)
  {
    var w := BookingWindow(date);
    assert w.startTime[..|date|] == date;
    assert w.startTime[|date|..] == "T" + StartHour + MinutesAndOffset;
    assert w.endTime[|date|..] == "T" + EndHour + MinutesAndOffset;
  }

  /** Conversely, every window that has a date is that date's booking window. */
  lemma WindowDateExact(w: Window)
    requires WindowDate(w).Some?
    ensures BookingWindow(WindowDate(w).value) == w
  {
    var n := |w.startTime|;
    assert w.startTime == w.startTime[..n - 12] + w.startTime[n - 12..];
    assert w.endTime == w.endTime[..n - 12] + w.endTime[n - 12..];
  }

  /** The request-body fields of a space search that this model keeps. */
  datatype SearchRequest = SearchRequest(window: Window, dates: seq<Window>, kind: string, lang: string)

  /** The request-body fields of a booking that this model keeps. */
  datatype BookingRequest = BookingRequest(window: Window, dates: seq<Window>, resources: string, extras: string)

  /** The search request for a date: a parking search whose window, at the
      top level and as the one `dates` entry, reads back as that date. */
  function SearchRequestFor(date: string): (r: SearchRequest)
    ensures WindowDate(r.window) == Some(date) && r.dates == [r.window]
    ensures r.kind == "parking" && r.lang == "pl"
  {
    var w := BookingWindow(date);
    WindowRoundTrip(date);
    SearchRequest(w, [w], "parking", "pl")
  }

  /** The booking request for one space on a date: its window reads back as
      that date, and the resource list holds exactly that space. */
  function BookingRequestFor(date: string, space: string): (r: BookingRequest)
    ensures WindowDate(r.window) == Some(date) && r.dates == [r.window]
    ensures |r.resources| == |space| + 2 && r.resources[0] == '[' && r.resources[|r.resources| - 1] == ']'
    ensures r.resources[1..|r.resources| - 1] == space
    ensures r.extras == "[]"
  {
    var w := BookingWindow(date);
    WindowRoundTrip(date);
    var resources := "[" + space + "]";
    assert resources[1..|resources| - 1] == space;
    BookingRequest(w, [w], resources, "[]")
  }

  /** Search and booking for one date send the same window, both as the
      top-level fields and as the one entry of `dates`, and it carries the date. */
  lemma SameWindowEverywhere(date: string, space: string)
    ensures SearchRequestFor(date).window == BookingRequestFor(date, space).window
    ensures SearchRequestFor(date).dates == BookingRequestFor(date, space).dates
              == [SearchRequestFor(date).window]
    ensures WindowDate(SearchRequestFor(date).window) == Some(date)
  {
    WindowRoundTrip(date);
  }

  /** A resource identifier as decoded from JSON: a number or a string. */
  datatype Id = NumberId(n: int) | TextId(s: string)

  /** One resource of a location; `None` for a missing key. A status that is
      not a string is represented by any string other than "free". */
  datatype Resource = Resource(id: Option<Id>, status: Option<string>)

  /** A location's entry; `resources` is `None` when the key is missing or its
      value is null, a number or a boolean. An absent, null or empty location
      entry is an absent key. */
  datatype Location = Location(resources: Option<seq<Resource>>)

  /** The decoded search response: its `locations` object (empty when missing). */
  datatype SearchResponse = SearchResponse(locations: map<string, Location>)

  /** What the search request produced: an HTTP error, or a decoded body. */
  datatype SearchReply = RequestFailed | Decoded(response: SearchResponse)

  /** Python's `str` of an id: a string id as it is, a number as its
      shortest decimal text. */
  function IdText(id: Id): (r: string)
    ensures id.TextId? ==> r == id.s
    ensures id.NumberId? ==> |r| >= 1 && (r[0] == '-' <==> id.n < 0)
    ensures id.NumberId? && id.n >= 0 ==> AllDigits(r) && Value(r) == id.n && (|r| > 1 ==> r[0] != '0')
  {
    match id
    case NumberId(n) => IntToString(n)
    case TextId(s) => s
  }

  /** `resource.get("status") == "free"`: a missing status is not free. */
  predicate IsFree(r: Resource): (b: bool)
    ensures b <==> r.status.Some? && r.status.value == "free"
  {
    r.status == Some("free")
  }

  /** A free resource without an id: reading its id raises `KeyError`. */
  predicate Unreadable(r: Resource) {
    IsFree(r) && r.id.None?
  }

  /** The ids of the free resources as text, in order; `None` when one of them
      has no id. */
  function FreeIds(rs: seq<Resource>): (r: Option<seq<string>>)
    ensures r.None? <==> exists i :: 0 <= i < |rs| && Unreadable(rs[i])
    ensures r.Some? ==> |r.value| <= |rs|
  {
    if rs == [] then Some([])
    else
      var rest := FreeIds(rs[1..]);
      assert forall i :: 1 <= i < |rs| ==> rs[i] == rs[1..][i - 1];
      if !IsFree(rs[0]) then rest
      else if rs[0].id.None? || rest.None? then None
      else Some([IdText(rs[0].id.value)] + rest.value)
  }

  /** `get_available_spaces` after the request: the free space ids of one
      location, or the empty list on a failed request, a missing location or
      an unreadable id. */
  function AvailableSpaces(reply: SearchReply, location: string): (r: seq<string>)
    ensures reply.RequestFailed? ==> r == []
    ensures reply.Decoded? && location !in reply.response.locations ==> r == []
    ensures reply.Decoded? && location in reply.response.locations ==>
      var entry := reply.response.locations[location].resources;
      && (entry.None? ==> r == [])
      && (entry.Some? ==> r == FreeIds(entry.value).GetOr([]))
  {
    match reply
    case RequestFailed => []
    case Decoded(resp) =>
      if location !in resp.locations then []
      else match resp.locations[location].resources
        case None => []
        case Some(rs) => FreeIds(rs).GetOr([])
  }

  /** The positions of the free resources, in increasing order. */
  function FreePositions(rs: seq<Resource>): (p: seq<nat>)
    ensures forall k :: 0 <= k < |p| ==> p[k] < |rs| && IsFree(rs[p[k]])
    ensures forall i :: 0 <= i < |rs| && IsFree(rs[i]) ==> i in p
    ensures forall k, l :: 0 <= k < l < |p| ==> p[k] < p[l]
    decreases |rs|
  {
    if rs == [] then []
    else
      var init := rs[..|rs| - 1];
      var p := FreePositions(init);
      assert forall k :: 0 <= k < |p| ==> rs[p[k]] == init[p[k]];
      if IsFree(rs[|rs| - 1]) then p + [|rs| - 1] else p
  }

  /** Splitting the resource list splits the extracted ids the same way. */
  lemma {:induction false} FreeIdsAppend(a: seq<Resource>, b: seq<Resource>)
    ensures FreeIds(a + b) ==
      if FreeIds(a).Some? && FreeIds(b).Some? then Some(FreeIds(a).value + FreeIds(b).value) else None
  {
    if a == [] {
      assert a + b == b;
      if FreeIds(b).Some? {
        assert [] + FreeIds(b).value == FreeIds(b).value;
      }
    } else {
      assert (a + b)[0] == a[0];
      assert (a + b)[1..] == a[1..] + b;
      FreeIdsAppend(a[1..], b);
      if IsFree(a[0]) && a[0].id.Some? && FreeIds(a[1..]).Some? && FreeIds(b).Some? {
        var x, ya, yb := [IdText(a[0].id.value)], FreeIds(a[1..]).value, FreeIds(b).value;
        assert x + (ya + yb) == (x + ya) + yb;
      }
    }
  }

  /** The extracted ids are exactly the texts of the ids of the free resources,
      in input order. */
  lemma {:induction false} FreeIdsExact(rs: seq<Resource>)
    requires FreeIds(rs).Some?
    ensures var ids, p := FreeIds(rs).value, FreePositions(rs);
      && |ids| == |p|
      && forall k :: 0 <= k < |p| ==> rs[p[k]].id.Some? && ids[k] == IdText(rs[p[k]].id.value)
    decreases |rs|
  {
    if rs != [] {
      var init, last := rs[..|rs| - 1], rs[|rs| - 1];
      assert rs == init + [last];
      assert !Unreadable(rs[|rs| - 1]);
      FreeIdsAppend(init, [last]);
      assert FreeIds([last]) == if IsFree(last) then Some([IdText(last.id.value)]) else Some([]) by {
        assert [last][1..] == [];
        if IsFree(last) {
          assert [IdText(last.id.value)] + [] == [IdText(last.id.value)];
        }
      }
      FreeIdsExact(init);
      var p := FreePositions(init);
      assert forall k :: 0 <= k < |p| ==> rs[p[k]] == init[p[k]];
    }
  }

  /** Membership form: a text is listed exactly when some free resource has it
      as its id. */
  lemma FreeIdsMembership(rs: seq<Resource>, s: string)
    requires FreeIds(rs).Some?
    ensures s in FreeIds(rs).value <==>
      exists i :: 0 <= i < |rs| && IsFree(rs[i]) && rs[i].id.Some? && IdText(rs[i].id.value) == s
  {
    FreeIdsExact(rs);
    var ids, p := FreeIds(rs).value, FreePositions(rs);
    if s in ids {
      var k :| 0 <= k < |ids| && ids[k] == s;
      assert IsFree(rs[p[k]]);
    }
    if exists i :: 0 <= i < |rs| && IsFree(rs[i]) && rs[i].id.Some? && IdText(rs[i].id.value) == s {
      var i :| 0 <= i < |rs| && IsFree(rs[i]) && rs[i].id.Some? && IdText(rs[i].id.value) == s;
      var k :| 0 <= k < |p| && p[k] == i;
      assert ids[k] == s;
    }
  }
}
