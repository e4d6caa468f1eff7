/** The confirmation page: the lookup of the chosen train, the submit sequence over the
    `error` and `submitting` fields, and the back button that returns the selection to
    the seat-selection page. */
module Confirm {
  import opened Http
  import opened Text
  import opened Routes
  import opened Reserve

  datatype Train = Train(
    id: int,
    name: string,
    price: int,
    departureStation: string,
    arrivalStation: string,
    departureTime: string,
    arrivalTime: string)

  const TrainNotFound: string := "열차 정보를 찾을 수 없습니다"
  const TrainsLoadFallback: string := "열차 정보를 불러오지 못했습니다"
  const LoginRequired: string := "로그인이 필요합니다"
  const ReserveFallback: string := "예약에 실패했습니다"

  /** `Number(s)` on a route parameter: "" is 0, a string of decimal digits is its value,
      anything else is NaN (None). */
  function JsNumber(s: string): (r: Option<int>)
    ensures s == "" ==> r == Some(0)
    ensures s != "" && AllDigits(s) ==> r == Some(DecimalValue(s))
    ensures !AllDigits(s) ==> r.None?
  {
    if s == "" then Some(0) else if AllDigits(s) then Some(DecimalValue(s)) else None
  }

  /** A train id rendered in decimal is read back as that id. */
  lemma JsNumberOfDecimal(n: nat)
    ensures JsNumber(Decimal(n)) == Some(n)
  {
    DecimalRoundTrip(n);
  }

  /** `trains.find(t => t.id === id)`; no train equals NaN. */
  function FindTrain(trains: seq<Train>, id: Option<int>): (r: Option<Train>)
    ensures r.None? <==> id.None? || forall k :: 0 <= k < |trains| ==> trains[k].id != id.value
    ensures r.Some? ==> r.value.id == id.value
    ensures r.Some? ==> exists k :: (0 <= k < |trains| && trains[k] == r.value
                                     && forall j :: 0 <= j < k ==> trains[j].id != id.value)
  {
    if id.None? || trains == [] then None
    else if trains[0].id == id.value then
      Some(trains[0])
    else
      var r := FindTrain(trains[1..], id);
      if r.Some? then
        var k :| 0 <= k < |trains[1..]| && trains[1..][k] == r.value
                  && forall j :: 0 <= j < k ==> trains[1..][j].id != id.value;
        assert trains[k + 1] == r.value;
        assert forall j :: 0 <= j < k + 1 ==> trains[j].id != id.value by {
          forall j | 0 <= j < k + 1 ensures trains[j].id != id.value {
            if j > 0 {
              assert trains[j] == trains[1..][j - 1];
            }
          }
        }
        r
      else
        assert forall k :: 1 <= k < |trains| ==> trains[k] == trains[1..][k - 1];
        None
  }

  /** The body of `POST /api/v1/reservations?userId=…`. */
  datatype ReservationRequest = ReservationRequest(userId: string, trainId: Option<int>, seatNumber: string)

  /** What the page renders. */
  datatype Screen =
    | Loading
    | FullPageError(message: string)                  // the error alone, in place of the page
    | Details(train: Option<Train>, inlineError: Option<string>, buttonsEnabled: bool)

  /** The back button's navigation: the seat selection page of the train, with the seat
      as router state. The button is enabled once the train is shown and no submit is
      in progress. */
  function BackNavigation(trainId: string, seatNumber: string): (r: Navigation)
    ensures r.ToReserve? && r.trainId == trainId && r.selectedSeat == seatNumber
  {
    ToReserve(trainId, seatNumber)
  }

  class ConfirmPage {
    const trainId: string
    const seatNumber: string
    var train: Option<Train>
    var loading: bool
    var error: Option<string>
    var submitting: bool

    /** While loading there is no train, no error and no submit in progress; a submit is
        only in progress on a loaded train; every error shown is non-empty. */
    ghost predicate Valid()
      reads this
    {
      (loading ==> train.None? && error.None? && !submitting)
      && (submitting ==> !loading && train.Some?)
      && (error.Some? ==> error.value != "")
    }

    /** `if (loading) … if (error && !train) …`: the three things the page can show. */
    function View(): (s: Screen)
      reads this
      ensures s.Loading? <==> loading
      ensures s.FullPageError? <==> !loading && Truthy(error) && train.None?
      ensures s.FullPageError? ==> s.message == error.value
      ensures s.Details? ==> s.train == train && s.inlineError == error && s.buttonsEnabled == !submitting
    {
      if loading then Loading
      else if Truthy(error) && train.None? then FullPageError(error.value)
      else Details(train, error, !submitting)
    }

    constructor (trainId: string, seatNumber: string)
      ensures Valid()
      ensures this.trainId == trainId && this.seatNumber == seatNumber
      ensures train.None? && loading && error.None? && !submitting
    {
      this.trainId := trainId;
      this.seatNumber := seatNumber;
      train := None;
      loading := true;
      error := None;
      submitting := false;
    }

    /** The loading effect, given the outcome of `GET /api/v1/trains`. */
    method LoadTrains(response: Fetch<seq<Train>>)
      requires Valid() && loading
      modifies this
      ensures Valid()
      ensures !loading && !submitting
      ensures response.Fetched? ==> train == FindTrain(response.data, JsNumber(trainId))
      ensures response.Fetched? ==> error == if train.None? then Some(TrainNotFound) else None
      ensures response.FetchFailed? ==>
                train.None? && error == Some(MessageOr(response.error, TrainsLoadFallback))
    {
      match response {
        case Fetched(trains) =>
          var found := FindTrain(trains, JsNumber(trainId));
          if found.Some? {
            train := found;
          } else {
            error := Some(TrainNotFound);
          }
        case FetchFailed(e) =>
          error := Some(MessageOr(e, TrainsLoadFallback));
      }
      loading := false;
    }

    /** The first half of `confirmReservation`, up to the request: the error is cleared and
        the buttons disabled; without a stored user id the login message is shown, the
        buttons come back and no request is made. */
    method BeginSubmit(userId: Option<string>) returns (request: Option<ReservationRequest>)
      requires Valid() && !loading && train.Some? && !submitting
      modifies this
      ensures Valid()
      ensures train == old(train) && !loading
      ensures request.None? <==> !HasUser(userId)
      ensures !HasUser(userId) ==> error == Some(LoginRequired) && !submitting
      ensures HasUser(userId) ==> error.None? && submitting
      ensures HasUser(userId) ==>
                request == Some(ReservationRequest(userId.value, JsNumber(trainId), seatNumber))
    {
      error := None;
      submitting := true;
      if !HasUser(userId) {
        error := Some(LoginRequired);
        submitting := false;
        request := None;
        return;
      }
      request := Some(ReservationRequest(userId.value, JsNumber(trainId), seatNumber));
    }

    /** The second half of `confirmReservation`, given the outcome of the request: the
        reservation list on success; the server's message or the fallback on failure,
        with the buttons enabled again. */
    method FinishSubmit(outcome: Outcome) returns (nav: Option<Navigation>)
      requires Valid() && submitting
      modifies this
      ensures Valid()
      ensures train == old(train) && !loading
      ensures outcome.Succeeded? ==> nav == Some(ToReservations) && error == old(error) && submitting
      ensures outcome.Failed? ==> nav.None? && !submitting
      ensures outcome.Failed? ==> error == Some(MessageOr(outcome.error, ReserveFallback))
    {
      match outcome {
        case Succeeded =>
          nav := Some(ToReservations);
        case Failed(e) =>
          error := Some(MessageOr(e, ReserveFallback));
          submitting := false;
          nav := None;
      }
    }
  }

  /** The selection survives the round trip from the seat page to this page and back:
      submit with a seat, match the confirm route on the pathname, press back, and the
      seat page starts with that seat selected, on the same train. */
  lemma SelectionRoundTrip(trainId: string, seat: string)
    requires IsSegment(trainId) && IsSegment(seat)
    requires NoneMatch(trainId, IsCut) && NoneMatch(seat, IsCut)
    ensures var there := SubmitTarget(trainId, seat);
      there.Some? && MatchConfirm(Pathname(Path(there.value))).Some?
      && var params := MatchConfirm(Pathname(Path(there.value))).value;
      var back := BackNavigation(params.trainId, params.seatNumber);
      back.trainId == trainId && InitialSelection(Some(back.selectedSeat)) == seat
  {
    ConfirmRoundTrip(trainId, seat);
  }

  /** A seat number holding '?' or '#' does not survive the round trip: the confirm page
      gets the part before it, and the back button selects that shorter label. */
  lemma CutSeatComesBackShort(trainId: string, seat: string, i: nat)
    requires IsSegment(trainId) && NoneMatch(trainId, IsCut)
    requires i < |seat| && IsCut(seat[i]) && IsSegment(seat[..i]) && NoneMatch(seat[..i], IsCut)
    ensures var there := SubmitTarget(trainId, seat);
      there.Some? && MatchConfirm(Pathname(Path(there.value))).Some?
      && var params := MatchConfirm(Pathname(Path(there.value))).value;
      var back := BackNavigation(params.trainId, params.seatNumber);
      back.trainId == trainId && InitialSelection(Some(back.selectedSeat)) == seat[..i]
  {
    CutInSeatShortensSeat(trainId, seat, i);
  }
}
