/** The reservation list: how a failed fetch is sorted into "no reservations" or an
    error, the page state the fetch updates, and the cancel sequence that deletes a
    reservation and fetches the list again. */
module MyReservations {
  import opened Http
  import opened Text

  datatype Reservation = Reservation(
    reservationId: int,
    trainName: string,
    price: int,
    departureStation: string,
    arrivalStation: string,
    seatNumber: string,
    reservedAt: string)

  const NoReservations: string := "예매 내역이 없습니다"
  const ListFallback: string := "예매내역을 불러오지 못했습니다"
  const CancelFallback: string := "예약 취소에 실패했습니다"

  /** `e?.response?.data?.message || e?.response?.data || ''`: a string, or, when the
      body is an object without a non-empty message, that object itself. */
  datatype Extracted = Str(text: string) | Obj

  function Extract(e: HttpError): (r: Extracted)
    ensures r.Obj? <==> e.ErrorResponse? && e.body.Json? && !Truthy(e.body.message)
  {
    match e
    case NoResponse => Str("")
    case ErrorResponse(_, NoBody) => Str("")
    case ErrorResponse(_, Text(t)) => Str(t)
    case ErrorResponse(_, Json(m)) => if Truthy(m) then Str(m.value) else Obj
  }

  /** `e?.response?.status === 404`. */
  predicate IsNotFound(e: HttpError) {
    e.ErrorResponse? && e.status == 404
  }

  /** How the page treats a failed fetch: as an empty list, as an error to show, or, in
      the code as written, as an exception that escapes the handler. */
  datatype Classified = EmptyList | ShowError(message: string) | Thrown

  /** The handler as written: with an object in hand and no 404, `errorMessage.includes`
      is not a function and throws a TypeError. */
  function ClassifyAsWritten(e: HttpError): (r: Classified)
    ensures IsNotFound(e) ==> r == EmptyList
    ensures r.Thrown? ==> Extract(e).Obj?
    ensures r.ShowError? ==> r.message != ""
  {
    if IsNotFound(e) then EmptyList
    else match Extract(e)
      case Obj => Thrown
      case Str(s) =>
        if Contains(s, NoReservations) then EmptyList
        else ShowError(if s == "" then ListFallback else s)
  }

  /** The text the page works with: the extracted string, or "" for an object. */
  function MessageText(e: HttpError): string {
    match Extract(e)
    case Obj => ""
    case Str(s) => s
  }

  /** The handler as intended: an object without a message counts as an empty message,
      so the fallback text is shown. */
  function Classify(e: HttpError): (r: Classified)
    ensures !r.Thrown?
    ensures r == EmptyList <==> IsNotFound(e) || Contains(MessageText(e), NoReservations)
    ensures r.ShowError? ==> r.message != ""
    ensures r.ShowError? ==> r.message == (if MessageText(e) == "" then ListFallback else MessageText(e))
  {
    var s := MessageText(e);
    if IsNotFound(e) || Contains(s, NoReservations) then EmptyList
    else ShowError(if s == "" then ListFallback else s)
  }

  /** Wherever the handler as written does not throw, the corrected one does the same. */
  lemma ClassifyAgreesWhereNoThrow(e: HttpError)
    requires !ClassifyAsWritten(e).Thrown?
    ensures Classify(e) == ClassifyAsWritten(e)
  {
  }

  /** The handler as written throws exactly for a non-404 response whose body is an
      object without a non-empty message. */
  lemma AsWrittenThrowsIff(e: HttpError)
    ensures ClassifyAsWritten(e).Thrown? <==>
              !IsNotFound(e) && e.ErrorResponse? && e.body.Json? && !Truthy(e.body.message)
  {
  }

  /** A server error 500 with a JSON body and no message: as written, no error is shown
      (the exception escapes after `loading` is cleared, leaving the empty list); as
      intended, the fallback text is shown. */
  lemma ServerErrorWithoutMessage()
    ensures ClassifyAsWritten(ErrorResponse(500, Json(None))) == Thrown
    ensures Classify(ErrorResponse(500, Json(None))) == ShowError(ListFallback)
  {
  }

  /** A message that mentions the no-reservations text is an empty list, on any status. */
  lemma NoReservationsMessageIsEmpty(status: int, before: string, after: string)
    ensures Classify(ErrorResponse(status, Json(Some(before + NoReservations + after)))) == EmptyList
  {
    var m := before + NoReservations + after;
    ContainsInside(before, NoReservations, after);
    assert Truthy(Some(m));
  }

  lemma {:induction false} ContainsInside(before: string, needle: string, after: string)
    ensures Contains(before + needle + after, needle)
  {
    if before == [] {
      assert before + needle + after == needle + after;
    } else {
      assert (before + needle + after)[1..] == before[1..] + needle + after;
      ContainsInside(before[1..], needle, after);
    }
  }

  /** What the page renders. */
  datatype Screen = Loading | FullPageError(message: string) | List(reservations: seq<Reservation>) | NoneYet

  class MyReservationsPage {
    var reservations: seq<Reservation>
    var loading: bool
    var error: Option<string>

    /** Every error shown is non-empty. */
    ghost predicate Valid()
      reads this
    {
      error.Some? ==> error.value != ""
    }

    /** `if (loading) … if (error) … reservations.length > 0 ? … : …`. */
    function View(): (s: Screen)
      reads this
      ensures s.Loading? <==> loading
      ensures s.FullPageError? <==> !loading && Truthy(error)
      ensures s.FullPageError? ==> s.message == error.value
      ensures s.List? ==> s.reservations == reservations && |reservations| > 0
      ensures s.NoneYet? ==> reservations == []
    {
      if loading then Loading
      else if Truthy(error) then FullPageError(error.value)
      else if |reservations| > 0 then List(reservations)
      else NoneYet
    }

    constructor ()
      ensures Valid()
      ensures reservations == [] && loading && error.None?
    {
      reservations := [];
      loading := true;
      error := None;
    }

    /** `fetchReservations`, given the stored user id and the outcome of
        `GET /api/v1/reservations?userId=…`; `requested` tells whether the request was
        made. Without a user id nothing happens, and `loading` is never cleared. No path
        clears an earlier error. */
    method FetchReservations(userId: Option<string>, response: Fetch<Option<seq<Reservation>>>)
      returns (requested: bool)
      requires Valid()
      modifies this
      ensures Valid()
      ensures requested <==> HasUser(userId)
      ensures !requested ==> reservations == old(reservations) && loading == old(loading) && error == old(error)
      ensures requested ==> !loading
      ensures requested && response.Fetched? ==>
                error == old(error) && reservations == (if response.data.Some? then response.data.value else [])
      ensures requested && response.FetchFailed? && Classify(response.error) == EmptyList ==>
                error == old(error) && reservations == []
      ensures requested && response.FetchFailed? && Classify(response.error).ShowError? ==>
                error == Some(Classify(response.error).message) && reservations == old(reservations)
    {
      if !HasUser(userId) {
        return false;
      }
      requested := true;
      match response {
        case Fetched(data) =>
          reservations := if data.Some? then data.value else [];
        case FetchFailed(e) =>
          match Classify(e) {
            case EmptyList =>
              reservations := [];
            case ShowError(message) =>
              error := Some(message);
            case Thrown =>
          }
      }
      loading := false;
    }

    /** `cancelReservation`: `confirmed` is the user's answer to the confirmation dialog,
        `deletion` the outcome of `DELETE /api/v1/reservations/{id}` and `refetch` that of
        the list fetch that follows a deletion. `deleted` is the id whose deletion was
        requested, `alert` the text of the alert shown, if any. */
    method CancelReservation(id: int, confirmed: bool, userId: Option<string>,
                             deletion: Outcome, refetch: Fetch<Option<seq<Reservation>>>)
      returns (deleted: Option<int>, alert: Option<string>)
      requires Valid()
      modifies this
      ensures Valid()
      ensures deleted.Some? <==> confirmed
      ensures deleted.Some? ==> deleted.value == id
      ensures alert.Some? <==> confirmed && deletion.Failed?
      ensures alert.Some? ==> alert.value == MessageOr(deletion.error, CancelFallback)
      ensures !(confirmed && deletion.Succeeded?) ==>
                reservations == old(reservations) && loading == old(loading) && error == old(error)
      ensures confirmed && deletion.Succeeded? && !HasUser(userId) ==>
                reservations == old(reservations) && loading == old(loading) && error == old(error)
      ensures confirmed && deletion.Succeeded? && HasUser(userId) ==> !loading
      ensures confirmed && deletion.Succeeded? && HasUser(userId) && refetch.Fetched? ==>
                error == old(error) && reservations == (if refetch.data.Some? then refetch.data.value else [])
      ensures confirmed && deletion.Succeeded? && HasUser(userId) && refetch.FetchFailed? ==>
                match Classify(refetch.error)
                case EmptyList => error == old(error) && reservations == []
                case ShowError(m) => error == Some(m) && reservations == old(reservations)
                case Thrown => false
    {
      deleted, alert := None, None;
      if !confirmed {
        return;
      }
      deleted := Some(id);
      match deletion {
        case Succeeded =>
          var _ := FetchReservations(userId, refetch);
        case Failed(e) =>
          alert := Some(MessageOr(e, CancelFallback));
      }
    }
  }
}
