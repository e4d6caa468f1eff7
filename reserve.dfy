/** The seat-selection page: its state (the fetched seats, the selected seat, the
    loading flag, the error and the current page) and the handlers that change it. */
module Reserve {
  import opened Http
  import opened Seats
  import opened SeatMap
  import opened Routes

  const SeatsLoadFallback: string := "좌석 정보를 불러오지 못했습니다"

  /** `location.state?.selectedSeat || ''`: the selection carried in by the back button
      of the confirm page, or none. */
  function InitialSelection(carried: Option<string>): (r: string)
    ensures Truthy(carried) ==> r == carried.value
    ensures !Truthy(carried) ==> r == ""
  {
    if Truthy(carried) then carried.value else ""
  }

  /** A seat button rendered on the current page, in any of the four rows. */
  predicate OnPage(seats: seq<Seat>, page: nat, seat: Seat) {
    exists l :: IsRowLetter(l) && seat in PageWindow(SeatMapOf(seats)[l], page)
  }

  /** `onSubmit`: nothing without a selection, otherwise the confirm page of the train
      and seat. */
  function SubmitTarget(trainId: string, selectedSeat: string): (r: Option<Navigation>)
    ensures r.None? <==> selectedSeat == ""
    ensures r.Some? ==> r.value == ToConfirm(trainId, selectedSeat)
  {
    if selectedSeat == "" then None else Some(ToConfirm(trainId, selectedSeat))
  }

  /** `Math.max(0, page - 1)`. */
  function PreviousOf(page: nat): (r: nat)
    ensures page > 0 ==> r == page - 1
    ensures page == 0 ==> r == 0
  {
    if page == 0 then 0 else page - 1
  }

  /** `Math.min(totalPages - 1, page + 1)`. */
  function NextOf(page: nat, totalPages: nat): (r: nat)
    requires totalPages >= 1
    ensures r < totalPages
    ensures page + 1 < totalPages ==> r == page + 1
    ensures page + 1 >= totalPages ==> r == totalPages - 1
  {
    if page + 1 < totalPages then page + 1 else totalPages - 1
  }

  class ReservePage {
    const trainId: string
    var seats: seq<Seat>
    var selectedSeat: string
    var loading: bool
    var error: Option<string>
    var currentPage: nat

    /** The seats stay empty and the page stays 0 until the seats have been loaded, and
        the page, once moved, is one of the seat map's pages. */
    ghost predicate Valid()
      reads this
    {
      (loading ==> seats == [] && currentPage == 0 && error.None?)
      && (currentPage == 0 || currentPage < TotalPages(SeatMapOf(seats)))
      && (error.Some? ==> error.value != "")
    }

    constructor (trainId: string, carried: Option<string>)
      ensures Valid()
      ensures this.trainId == trainId && selectedSeat == InitialSelection(carried)
      ensures seats == [] && loading && error.None? && currentPage == 0
    {
      this.trainId := trainId;
      seats := [];
      selectedSeat := InitialSelection(carried);
      loading := true;
      error := None;
      currentPage := 0;
    }

    /** The loading effect, given the outcome of `GET /api/v1/seats?trainId=…`. Without a
        train id no request is made and the page keeps loading. */
    method LoadSeats(response: Fetch<seq<Seat>>)
      requires Valid() && loading
      modifies this
      ensures Valid()
      ensures selectedSeat == old(selectedSeat) && currentPage == 0
      ensures trainId == "" ==> seats == [] && loading && error.None?
      ensures trainId != "" ==> !loading
      ensures trainId != "" && response.Fetched? ==> seats == response.data && error.None?
      ensures trainId != "" && response.FetchFailed? ==>
                seats == [] && error == Some(MessageOr(response.error, SeatsLoadFallback))
    {
      if trainId != "" {
        match response {
          case Fetched(data) =>
            seats := data;
          case FetchFailed(e) =>
            error := Some(MessageOr(e, SeatsLoadFallback));
        }
        loading := false;
      }
    }

    /** The loading effect followed by the restoring effect, which reruns because the
        fetched seats replace the initial empty list. A failed or absent request leaves
        the seats as they were, so the restoring effect does not run again. */
    method Load(response: Fetch<seq<Seat>>)
      requires Valid() && loading
      modifies this
      ensures Valid()
      ensures selectedSeat == old(selectedSeat)
      ensures trainId == "" ==> seats == [] && loading && error.None? && currentPage == 0
      ensures trainId != "" ==> !loading
      ensures trainId != "" && response.Fetched? ==>
                seats == response.data && error.None?
                && currentPage == RestoredPage(response.data, selectedSeat, 0)
      ensures trainId != "" && response.FetchFailed? ==>
                seats == [] && currentPage == 0
                && error == Some(MessageOr(response.error, SeatsLoadFallback))
    {
      LoadSeats(response);
      if trainId != "" && response.Fetched? {
        RestorePage();
      }
    }

    /** The page-restoring effect: move to the page of the selected seat in its row. */
    method RestorePage()
      requires Valid()
      modifies this
      ensures Valid()
      ensures seats == old(seats) && selectedSeat == old(selectedSeat)
      ensures loading == old(loading) && error == old(error)
      ensures currentPage == RestoredPage(seats, selectedSeat, old(currentPage))
    {
      if selectedSeat != "" && |seats| > 0 {
        var rows := BuildSeatMap(seats);
        match RowLetter(selectedSeat)
        case None =>
        case Some(l) =>
          match IndexOfSeat(rows[l], selectedSeat)
          case None =>
          case Some(i) =>
            SeatOnOnePage(rows, l, i, i / SeatsPerPage);
            currentPage := i / SeatsPerPage;
      }
    }

    /** The "previous" button, shown when there is more than one page. */
    method PreviousPage()
      requires Valid() && !loading && TotalPages(SeatMapOf(seats)) > 1
      modifies this
      ensures Valid()
      ensures seats == old(seats) && selectedSeat == old(selectedSeat)
      ensures loading == old(loading) && error == old(error)
      ensures currentPage == PreviousOf(old(currentPage))
    {
      currentPage := PreviousOf(currentPage);
    }

    /** The "next" button, shown when there is more than one page. */
    method NextPage()
      requires Valid() && !loading && TotalPages(SeatMapOf(seats)) > 1
      modifies this
      ensures Valid()
      ensures seats == old(seats) && selectedSeat == old(selectedSeat)
      ensures loading == old(loading) && error == old(error)
      ensures currentPage == NextOf(old(currentPage), TotalPages(SeatMapOf(seats)))
    {
      currentPage := NextOf(currentPage, TotalPages(SeatMapOf(seats)));
    }

    /** A click on a seat button of the current page. A reserved seat's button is
        disabled, so nothing happens. Any other seat becomes the only selection; the
        restoring effect runs again only when that changes the selection, since React
        skips a state update to the same string. */
    method ClickSeat(seat: Seat)
      requires Valid() && !loading && OnPage(seats, currentPage, seat)
      modifies this
      ensures Valid()
      ensures seats == old(seats) && loading == old(loading) && error == old(error)
      ensures seat.reserved || seat.seatNumber == old(selectedSeat) ==>
                selectedSeat == old(selectedSeat) && currentPage == old(currentPage)
      ensures !seat.reserved ==> selectedSeat == seat.seatNumber
      ensures !seat.reserved && seat.seatNumber != old(selectedSeat) ==>
                currentPage == RestoredPage(seats, seat.seatNumber, old(currentPage))
    {
      if !seat.reserved && seat.seatNumber != selectedSeat {
        selectedSeat := seat.seatNumber;
        RestorePage();
      }
    }
  }

  // ---------------------------------------------------------------------------
  // Properties of the handlers

  /** Pressing "previous" or "next" keeps the page among the existing pages. */
  lemma PagingStaysInRange(page: nat, totalPages: nat)
    requires totalPages >= 1 && page < totalPages
    ensures PreviousOf(page) < totalPages && NextOf(page, totalPages) < totalPages
    ensures PreviousOf(page) <= page <= NextOf(page, totalPages)
  {
  }

  /** No two seats of a row share a label. */
  predicate DistinctLabels(row: seq<Seat>) {
    forall i, j :: 0 <= i < j < |row| ==> row[i].seatNumber != row[j].seatNumber
  }

  /** In a row with distinct labels, the seat at position k of a page is found on that page. */
  lemma FoundOnItsPage(row: seq<Seat>, page: nat, k: nat)
    requires DistinctLabels(row) && k < |PageWindow(row, page)|
    ensures IndexOfSeat(row, PageWindow(row, page)[k].seatNumber) == Some(page * SeatsPerPage + k)
    ensures (page * SeatsPerPage + k) / SeatsPerPage == page
  {
    var i := page * SeatsPerPage + k;
    assert PageWindow(row, page)[k] == row[i];
    var j := IndexOfSeat(row, row[i].seatNumber).value;
    assert j == i;
  }

  /** Clicking a seat shown on the current page keeps that page, as long as no two
      seats of a row share a label. */
  lemma ClickKeepsPage(seats: seq<Seat>, page: nat, seat: Seat)
    requires OnPage(seats, page, seat)
    requires forall l :: IsRowLetter(l) ==> DistinctLabels(SeatMapOf(seats)[l])
    ensures RestoredPage(seats, seat.seatNumber, page) == page
  {
    var m := SeatMapOf(seats);
    var l :| IsRowLetter(l) && seat in PageWindow(m[l], page);
    var w := PageWindow(m[l], page);
    var k :| 0 <= k < |w| && w[k] == seat;
    FoundOnItsPage(m[l], page, k);
    SeatMapRowMembers(seats, l, seat);
  }
}
