/** The navigations the three pages perform, the URLs they produce, and the match of
    the confirm route `/confirm/:trainId/:seatNumber` that turns a URL back into the
    confirm page's parameters. */
module Routes {
  import opened Http
  import opened Text

  datatype Navigation =
    | ToConfirm(trainId: string, seatNumber: string)   // the reserve page's submit
    | ToReserve(trainId: string, selectedSeat: string) // the confirm page's back button, with router state
    | ToReservations                                   // after a successful reservation

  /** The URL of a navigation; the router state of ToReserve is not part of it. */
  function Path(n: Navigation): (r: string)
    ensures r != [] && r[0] == '/'
    ensures n.ToConfirm? ==> ConfirmPrefix <= r
  {
    match n
    case ToConfirm(t, s) => "/confirm/" + t + "/" + s
    case ToReserve(t, _) => "/reserve/" + t
    case ToReservations => "/reservations"
  }

  predicate IsSlash(c: char) {
    c == '/'
  }

  /** A route parameter: a non-empty path segment. */
  predicate IsSegment(s: string) {
    s != [] && NoneMatch(s, IsSlash)
  }

  datatype ConfirmParams = ConfirmParams(trainId: string, seatNumber: string)

  const ConfirmPrefix: string := "/confirm/"

  /** The match of `/confirm/:trainId/:seatNumber`: two non-empty segments after the prefix. */
  function MatchConfirm(path: string): (r: Option<ConfirmParams>)
    ensures r.Some? ==> IsSegment(r.value.trainId) && IsSegment(r.value.seatNumber)
    ensures r.Some? ==> path == Path(ToConfirm(r.value.trainId, r.value.seatNumber))
  {
    if !(ConfirmPrefix <= path) then None
    else
      var rest := path[|ConfirmPrefix|..];
      match FirstMatch(rest, IsSlash)
      case None => None
      case Some(i) =>
        var t, s := rest[..i], rest[i + 1..];
        if t != [] && IsSegment(s) then
          SplitAtSlash(path, i);
          Some(ConfirmParams(t, s))
        else None
  }

  /** A confirm URL cut at the first '/' after the prefix. */
  lemma SplitAtSlash(path: string, i: nat)
    requires ConfirmPrefix <= path && i < |path| - |ConfirmPrefix|
    requires path[|ConfirmPrefix| + i] == '/'
    ensures path == Path(ToConfirm(path[|ConfirmPrefix|..][..i], path[|ConfirmPrefix|..][i + 1..]))
  {
    var rest := path[|ConfirmPrefix|..];
    assert path == ConfirmPrefix + rest;
    assert rest == rest[..i] + "/" + rest[i + 1..];
  }

  /** '?' starts the query and '#' the fragment of a URL. */
  predicate IsCut(c: char) {
    c == '?' || c == '#'
  }

  /** The pathname `navigate` reads off its target: everything before the first '?' or
      '#'. Only the pathname is matched against the routes. */
  function Pathname(url: string): (r: string)
    ensures r <= url && NoneMatch(r, IsCut)
    ensures NoneMatch(url, IsCut) ==> r == url
    ensures |r| < |url| ==> IsCut(url[|r|])
  {
    match FirstMatch(url, IsCut)
    case None => url
    case Some(i) => url[..i]
  }

  /** The URL the reserve page navigates to leads to a confirm page with the same train
      and seat, whenever both are non-empty and hold no '/', '?' or '#'. */
  lemma ConfirmRoundTrip(t: string, s: string)
    requires IsSegment(t) && IsSegment(s) && NoneMatch(t, IsCut) && NoneMatch(s, IsCut)
    ensures MatchConfirm(Pathname(Path(ToConfirm(t, s)))) == Some(ConfirmParams(t, s))
  {
    var path := Path(ToConfirm(t, s));
    assert NoneMatch(path, IsCut) by {
      assert path == ConfirmPrefix + t + "/" + s;
    }
    assert ConfirmPrefix <= path;
    var rest := path[|ConfirmPrefix|..];
    assert rest == t + "/" + s;
    assert rest[|t|] == '/';
    assert rest[..|t|] == t;
    FirstMatchAt(rest, IsSlash, |t|);
    assert rest[|t| + 1..] == s;
  }

  /** A seat number holding '?' or '#' is cut there: the confirm page receives only the
      part before it. */
  lemma CutInSeatShortensSeat(t: string, s: string, i: nat)
    requires IsSegment(t) && NoneMatch(t, IsCut)
    requires i < |s| && IsCut(s[i]) && IsSegment(s[..i]) && NoneMatch(s[..i], IsCut)
    ensures MatchConfirm(Pathname(Path(ToConfirm(t, s)))) == Some(ConfirmParams(t, s[..i]))
  {
    var path := Path(ToConfirm(t, s));
    var n := |ConfirmPrefix + t + "/"|;
    assert path == ConfirmPrefix + t + "/" + s;
    assert path[..n + i] == Path(ToConfirm(t, s[..i]));
    FirstMatchAt(path, IsCut, n + i);
    ConfirmRoundTrip(t, s[..i]);
  }

  /** A seat number holding a '/' (and no '?' or '#', which would end the pathname
      first) does not survive the trip: the pathname does not match, because the
      first '/' of the seat number ends the seat segment early. */
  lemma SlashInSeatBreaksRoute(t: string, s: string)
    requires IsSegment(t) && !NoneMatch(s, IsSlash)
    requires NoneMatch(t, IsCut) && NoneMatch(s, IsCut)
    ensures MatchConfirm(Pathname(Path(ToConfirm(t, s)))) == None
  {
    var path := Path(ToConfirm(t, s));
    assert path == ConfirmPrefix + t + "/" + s;
    assert NoneMatch(path, IsCut);
    assert ConfirmPrefix <= path;
    var rest := path[|ConfirmPrefix|..];
    assert rest == t + "/" + s;
    assert rest[|t|] == '/';
    assert rest[..|t|] == t;
    FirstMatchAt(rest, IsSlash, |t|);
    assert rest[|t| + 1..] == s;
  }
}
