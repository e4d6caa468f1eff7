/** The seat map of the reservation page: the fetched seats grouped into the four
    rows A-D, each row ordered by seat number, and the 20-seat page window that is
    applied to all four rows alike. */
module SeatMap {
  import opened Http
  import opened Seats
  import opened StableSort

  /** Seats shown per row on one page (`seatsPerPage`). */
  const SeatsPerPage: nat := 20

  /** The sort key of a seat: the number in its label. */
  function SeatKey(s: Seat): nat {
    SortKey(s.seatNumber)
  }

  /** The four rows keyed by letter, `seatsByRow` in the page. */
  type Rows = map<char, seq<Seat>>

  /** Exactly the keys A, B, C and D, as `{ A: [], B: [], C: [], D: [] }` starts out. */
  predicate HasAllRows(m: Rows) {
    forall l :: l in m <==> IsRowLetter(l)
  }

  /** The seats whose label has row letter `letter`, in snapshot order. */
  function RowOf(seats: seq<Seat>, letter: char): (r: seq<Seat>)
    ensures |r| <= |seats|
  {
    if seats == [] then []
    else
      var last := seats[|seats| - 1];
      RowOf(seats[..|seats| - 1], letter) + (if RowLetter(last.seatNumber) == Some(letter) then [last] else [])
  }

  /** The seats whose label has any row letter, in snapshot order. */
  function Recognised(seats: seq<Seat>): seq<Seat> {
    if seats == [] then []
    else
      var last := seats[|seats| - 1];
      Recognised(seats[..|seats| - 1]) + (if RowLetter(last.seatNumber).Some? then [last] else [])
  }

  /** The seat map: each row of the snapshot stably sorted by seat number. */
  function SeatMapOf(seats: seq<Seat>): (m: Rows)
    ensures HasAllRows(m)
  {
    map['A' := SortedRow(seats, 'A'), 'B' := SortedRow(seats, 'B'),
        'C' := SortedRow(seats, 'C'), 'D' := SortedRow(seats, 'D')]
  }

  /** The seats of row `letter`, stably sorted by seat number. */
  function SortedRow(seats: seq<Seat>, letter: char): seq<Seat> {
    SortByKey(SeatKey, RowOf(seats, letter))
  }

  /** Row `l` of the seat map, for any row letter `l`. */
  lemma SeatMapAt(seats: seq<Seat>, l: char)
    requires IsRowLetter(l)
    ensures SeatMapOf(seats)[l] == SortByKey(SeatKey, RowOf(seats, l))
  {
  }

  /** The `forEach` that pushes every seat onto the row of its letter; a seat without a
      row letter is skipped. */
  method GroupByRow(seats: seq<Seat>) returns (rows: Rows)
    ensures HasAllRows(rows)
    ensures forall l :: l in rows ==> rows[l] == RowOf(seats, l)
  {
    rows := map['A' := [], 'B' := [], 'C' := [], 'D' := []];
    for i := 0 to |seats|
      invariant HasAllRows(rows)
      invariant forall l :: l in rows ==> rows[l] == RowOf(seats[..i], l)
    {
      var seat := seats[i];
      assert seats[..i + 1][..i] == seats[..i];
      match RowLetter(seat.seatNumber)
      case Some(l) => rows := rows[l := rows[l] + [seat]];
      case None =>
    }
    assert seats[..|seats|] == seats;
  }

  /** Grouping followed by the in-place sort of every row, as both the render and the
      page-restoring effect compute it. */
  method BuildSeatMap(seats: seq<Seat>) returns (rows: Rows)
    ensures rows == SeatMapOf(seats)
  {
    var grouped := GroupByRow(seats);
    assert grouped['A'] == RowOf(seats, 'A') && grouped['B'] == RowOf(seats, 'B');
    assert grouped['C'] == RowOf(seats, 'C') && grouped['D'] == RowOf(seats, 'D');
    var a := SortedCopy(SeatKey, grouped['A']);
    var b := SortedCopy(SeatKey, grouped['B']);
    var c := SortedCopy(SeatKey, grouped['C']);
    var d := SortedCopy(SeatKey, grouped['D']);
    rows := map['A' := a, 'B' := b, 'C' := c, 'D' := d];
  }

  // ---------------------------------------------------------------------------
  // Grouping: a partition of the recognised seats

  lemma {:induction false} RowOfMembers(seats: seq<Seat>, letter: char, x: Seat)
    ensures x in RowOf(seats, letter) <==> x in seats && RowLetter(x.seatNumber) == Some(letter)
  {
    if seats != [] {
      var init := seats[..|seats| - 1];
      assert seats == init + [seats[|seats| - 1]];
      RowOfMembers(init, letter, x);
    }
  }

  /** The rows one after the other, in display order A, B, C, D. */
  function AllRows(m: Rows): seq<Seat>
    requires HasAllRows(m)
  {
    m['A'] + m['B'] + m['C'] + m['D']
  }

  lemma {:induction false} RowsPartitionRecognised(seats: seq<Seat>)
    ensures multiset(RowOf(seats, 'A')) + multiset(RowOf(seats, 'B')) + multiset(RowOf(seats, 'C'))
          + multiset(RowOf(seats, 'D')) == multiset(Recognised(seats))
  {
    if seats != [] {
      var init, last := seats[..|seats| - 1], seats[|seats| - 1];
      RowsPartitionRecognised(init);
      var letter := RowLetter(last.seatNumber);
      var added := if letter.Some? then [last] else [];
      assert Recognised(seats) == Recognised(init) + added;
      assert RowOf(seats, 'A') == RowOf(init, 'A') + (if letter == Some('A') then [last] else []);
      assert RowOf(seats, 'B') == RowOf(init, 'B') + (if letter == Some('B') then [last] else []);
      assert RowOf(seats, 'C') == RowOf(init, 'C') + (if letter == Some('C') then [last] else []);
      assert RowOf(seats, 'D') == RowOf(init, 'D') + (if letter == Some('D') then [last] else []);
    }
  }

  /** A seat is in row `l` of the seat map exactly when it is in the snapshot and its
      label has row letter `l`; so a seat lands in at most one row, and in none when
      its label has no row letter. */
  lemma SeatMapRowMembers(seats: seq<Seat>, l: char, x: Seat)
    requires IsRowLetter(l)
    ensures x in SeatMapOf(seats)[l] <==> x in seats && RowLetter(x.seatNumber) == Some(l)
  {
    SeatMapAt(seats, l);
    RowOfMembers(seats, l, x);
    SortByKeyCorrect(SeatKey, RowOf(seats, l));
    assert x in SeatMapOf(seats)[l] <==> x in multiset(SeatMapOf(seats)[l]);
    assert x in RowOf(seats, l) <==> x in multiset(RowOf(seats, l));
  }

  /** Together the four rows hold exactly the recognised seats, each as often as the
      snapshot holds it. */
  lemma SeatMapPartitions(seats: seq<Seat>)
    ensures multiset(AllRows(SeatMapOf(seats))) == multiset(Recognised(seats))
  {
    var a, b, c, d := SortedRow(seats, 'A'), SortedRow(seats, 'B'), SortedRow(seats, 'C'), SortedRow(seats, 'D');
    assert AllRows(SeatMapOf(seats)) == a + b + c + d;
    assert multiset(a + b + c + d) == multiset(a) + multiset(b) + multiset(c) + multiset(d);
    SortByKeyCorrect(SeatKey, RowOf(seats, 'A'));
    SortByKeyCorrect(SeatKey, RowOf(seats, 'B'));
    SortByKeyCorrect(SeatKey, RowOf(seats, 'C'));
    SortByKeyCorrect(SeatKey, RowOf(seats, 'D'));
    RowsPartitionRecognised(seats);
  }

  /** Every row is non-decreasing by seat number, and seats with the same number keep
      their snapshot order. */
  lemma SeatMapRowsOrdered(seats: seq<Seat>, l: char)
    requires IsRowLetter(l)
    ensures SortedByKey(SeatKey, SeatMapOf(seats)[l])
    ensures forall k: nat :: WithKey(SeatKey, SeatMapOf(seats)[l], k) == WithKey(SeatKey, RowOf(seats, l), k)
  {
    SeatMapAt(seats, l);
    SortByKeyCorrect(SeatKey, RowOf(seats, l));
  }

  lemma {:induction false} RowOfAppend(s: seq<Seat>, t: seq<Seat>, l: char)
    ensures RowOf(s + t, l) == RowOf(s, l) + RowOf(t, l)
  {
    if t != [] {
      assert (s + t)[..|s + t| - 1] == s + t[..|t| - 1];
      RowOfAppend(s, t[..|t| - 1], l);
    } else {
      assert s + t == s;
    }
  }

  /** Grouping a sequence whose seats all have row letter `letter`. */
  lemma {:induction false} RowOfUniform(s: seq<Seat>, letter: char, l: char)
    requires forall x :: x in s ==> RowLetter(x.seatNumber) == Some(letter)
    ensures RowOf(s, l) == if l == letter then s else []
  {
    if s != [] {
      RowOfUniform(s[..|s| - 1], letter, l);
    }
  }

  lemma RowOfFour(a: seq<Seat>, b: seq<Seat>, c: seq<Seat>, d: seq<Seat>, l: char)
    ensures RowOf(a + b + c + d, l) == RowOf(a, l) + RowOf(b, l) + RowOf(c, l) + RowOf(d, l)
  {
    RowOfAppend(a, b, l);
    RowOfAppend(a + b, c, l);
    RowOfAppend(a + b + c, d, l);
  }

  /** The seats of row `l` of a seat map all have row letter `l`. */
  lemma SeatMapRowUniform(seats: seq<Seat>, l: char)
    requires IsRowLetter(l)
    ensures forall x :: x in SeatMapOf(seats)[l] ==> RowLetter(x.seatNumber) == Some(l)
  {
    forall x | x in SeatMapOf(seats)[l] ensures RowLetter(x.seatNumber) == Some(l) {
      SeatMapRowMembers(seats, l, x);
    }
  }

  /** Of four pieces of which only the one for `l` is non-empty, the concatenation is
      that piece. */
  lemma PickRow(ra: seq<Seat>, rb: seq<Seat>, rc: seq<Seat>, rd: seq<Seat>,
                a: seq<Seat>, b: seq<Seat>, c: seq<Seat>, d: seq<Seat>, l: char)
    requires ra == (if l == 'A' then a else []) && rb == (if l == 'B' then b else [])
    requires rc == (if l == 'C' then c else []) && rd == (if l == 'D' then d else [])
    requires IsRowLetter(l)
    ensures ra + rb + rc + rd == if l == 'A' then a else if l == 'B' then b else if l == 'C' then c else d
  {
    var e: seq<Seat> := [];
    if l == 'A' {
      assert a + e + e + e == a;
    } else if l == 'B' {
      assert e + b + e + e == b;
    } else if l == 'C' {
      assert e + e + c + e == c;
    } else {
      assert e + e + e + d == d;
    }
  }

  /** Rows that each hold only seats of their own letter are what grouping their
      concatenation gives back. */
  lemma RegroupRows(m: Rows, l: char)
    requires HasAllRows(m) && IsRowLetter(l)
    requires forall r :: IsRowLetter(r) ==> forall x :: x in m[r] ==> RowLetter(x.seatNumber) == Some(r)
    ensures RowOf(AllRows(m), l) == m[l]
  {
    RowOfUniform(m['A'], 'A', l);
    RowOfUniform(m['B'], 'B', l);
    RowOfUniform(m['C'], 'C', l);
    RowOfUniform(m['D'], 'D', l);
    RowOfFour(m['A'], m['B'], m['C'], m['D'], l);
    PickRow(RowOf(m['A'], l), RowOf(m['B'], l), RowOf(m['C'], l), RowOf(m['D'], l),
            m['A'], m['B'], m['C'], m['D'], l);
  }

  /** Building the seat map again from its own rows, read in display order, gives the
      same seat map: grouping and sorting are idempotent. */
  lemma SeatMapIdempotent(seats: seq<Seat>)
    ensures SeatMapOf(AllRows(SeatMapOf(seats))) == SeatMapOf(seats)
  {
    var m := SeatMapOf(seats);
    var again := SeatMapOf(AllRows(m));
    forall r | IsRowLetter(r) ensures forall x: Seat :: x in m[r] ==> RowLetter(x.seatNumber) == Some(r) {
      SeatMapRowUniform(seats, r);
    }
    forall l | IsRowLetter(l) ensures again[l] == m[l] {
      SeatMapAt(seats, l);
      SeatMapAt(AllRows(m), l);
      RegroupRows(m, l);
      SortIsIdempotent(SeatKey, RowOf(seats, l));
    }
    assert again.Keys == m.Keys;
  }

  // ---------------------------------------------------------------------------
  // Pagination: one 20-seat window shared by the four rows

  function Max(a: nat, b: nat): nat {
    if a < b then b else a
  }

  /** `Math.max(...rows.map(row => row.length))`: the length of the longest row. */
  function MaxRowLength(m: Rows): (r: nat)
    requires HasAllRows(m)
    ensures forall l :: l in m ==> |m[l]| <= r
    ensures exists l :: l in m && |m[l]| == r
  {
    assert IsRowLetter('A') && IsRowLetter('B') && IsRowLetter('C') && IsRowLetter('D');
    Max(Max(|m['A']|, |m['B']|), Max(|m['C']|, |m['D']|))
  }

  /** `Math.ceil(n / seatsPerPage)`: the fewest pages of 20 that hold `n` seats. */
  function PageCount(n: nat): (r: nat)
    ensures r * SeatsPerPage >= n
    ensures r == 0 || (r - 1) * SeatsPerPage < n
  {
    (n + SeatsPerPage - 1) / SeatsPerPage
  }

  /** `totalPages`: enough pages for the longest row. */
  function TotalPages(m: Rows): (r: nat)
    requires HasAllRows(m)
    ensures forall l :: l in m ==> |m[l]| <= r * SeatsPerPage
    ensures r > 0 ==> exists l :: l in m && |m[l]| > (r - 1) * SeatsPerPage
  {
    PageCount(MaxRowLength(m))
  }

  /** `row.slice(page * 20, page * 20 + 20)`: the seats of a row shown on `page`, clipped
      to the row's end. */
  function PageWindow(row: seq<Seat>, page: nat): (r: seq<Seat>)
    ensures |r| == if page * SeatsPerPage >= |row| then 0
                   else if |row| - page * SeatsPerPage < SeatsPerPage then |row| - page * SeatsPerPage
                   else SeatsPerPage
    ensures forall k :: 0 <= k < |r| ==> r[k] == row[page * SeatsPerPage + k]
  {
    var start := page * SeatsPerPage;
    var end := start + SeatsPerPage;
    if start >= |row| then [] else if end >= |row| then row[start..] else row[start..end]
  }

  /** There are no pages exactly when every row is empty. */
  lemma NoPagesIffEmpty(m: Rows)
    requires HasAllRows(m)
    ensures TotalPages(m) == 0 <==> forall l :: l in m ==> m[l] == []
  {
    if TotalPages(m) == 0 {
      forall l | l in m ensures m[l] == [] {
        assert |m[l]| <= MaxRowLength(m);
      }
    }
  }

  /** The page controls (`totalPages > 1`) appear exactly when some row holds more
      than one page of seats. */
  lemma PaginationShownIffLongRow(m: Rows)
    requires HasAllRows(m)
    ensures TotalPages(m) > 1 <==> exists l :: l in m && |m[l]| > SeatsPerPage
  {
    if TotalPages(m) > 1 {
      var l :| l in m && |m[l]| == MaxRowLength(m);
      assert |m[l]| > SeatsPerPage;
    }
  }

  /** Seat `i` of a row is on page `i / 20`, on no other page, and that page exists. */
  lemma SeatOnOnePage(m: Rows, l: char, i: nat, page: nat)
    requires HasAllRows(m) && l in m && i < |m[l]|
    ensures i / SeatsPerPage < TotalPages(m)
    ensures page * SeatsPerPage <= i < page * SeatsPerPage + |PageWindow(m[l], page)| <==> page == i / SeatsPerPage
    ensures page == i / SeatsPerPage ==> PageWindow(m[l], page)[i % SeatsPerPage] == m[l][i]
  {
    assert |m[l]| <= MaxRowLength(m);
  }

  /** The windows of pages 0 .. n-1, one after the other. */
  function Pages(row: seq<Seat>, n: nat): seq<Seat> {
    if n == 0 then [] else Pages(row, n - 1) + PageWindow(row, n - 1)
  }

  lemma {:induction false} PagesPrefix(row: seq<Seat>, n: nat)
    ensures Pages(row, n) == row[..if n * SeatsPerPage <= |row| then n * SeatsPerPage else |row|]
  {
    if n > 0 {
      PagesPrefix(row, n - 1);
    }
  }

  /** Paging through all the pages shows every row in full, each seat once and in order. */
  lemma PagesCoverRows(m: Rows, l: char)
    requires HasAllRows(m) && l in m
    ensures Pages(m[l], TotalPages(m)) == m[l]
  {
    assert |m[l]| <= MaxRowLength(m);
    PagesPrefix(m[l], TotalPages(m));
  }

  // ---------------------------------------------------------------------------
  // The page that holds the selected seat

  /** `row.findIndex(s => s.seatNumber === seatNumber)`, with -1 as None. */
  function IndexOfSeat(row: seq<Seat>, seatNumber: string): (r: Option<nat>)
    ensures r.None? <==> forall k :: 0 <= k < |row| ==> row[k].seatNumber != seatNumber
    ensures r.Some? ==> r.value < |row| && row[r.value].seatNumber == seatNumber
    ensures r.Some? ==> forall k :: 0 <= k < r.value ==> row[k].seatNumber != seatNumber
  {
    if row == [] then None
    else if row[0].seatNumber == seatNumber then Some(0)
    else match IndexOfSeat(row[1..], seatNumber)
      case None => None
      case Some(i) => Some(i + 1)
  }

  /** The page the restoring effect moves to: the page of the selected seat in its
      row of the seat map, or the current page when there is no selection, no seat,
      no row letter in the selection, or no such seat in that row. */
  function RestoredPage(seats: seq<Seat>, selected: string, page: nat): (r: nat)
    ensures selected == "" || seats == [] || RowLetter(selected).None? ==> r == page
  {
    if selected == "" || |seats| == 0 then page
    else match RowLetter(selected)
      case None => page
      case Some(l) =>
        match IndexOfSeat(SeatMapOf(seats)[l], selected)
        case None => page
        case Some(i) => i / SeatsPerPage
  }

  /** When the selection names a seat of the snapshot whose label has a row letter, the
      restored page exists and shows that seat; otherwise the page is left as it was. */
  lemma RestoredPageShowsSelection(seats: seq<Seat>, selected: string, page: nat)
    ensures var r := RestoredPage(seats, selected, page);
      if RowLetter(selected).Some? && exists x :: x in seats && x.seatNumber == selected then
        var row := SeatMapOf(seats)[RowLetter(selected).value];
        r < TotalPages(SeatMapOf(seats))
        && exists k :: 0 <= k < |PageWindow(row, r)| && PageWindow(row, r)[k].seatNumber == selected
      else r == page
  {
    var r := RestoredPage(seats, selected, page);
    var m := SeatMapOf(seats);
    match RowLetter(selected)
    case None =>
    case Some(l) =>
      if x :| x in seats && x.seatNumber == selected {
        SeatMapRowMembers(seats, l, x);
        var i :| 0 <= i < |m[l]| && m[l][i] == x;
        var j := IndexOfSeat(m[l], selected).value;
        SeatOnOnePage(m, l, j, j / SeatsPerPage);
        assert PageWindow(m[l], r)[j % SeatsPerPage].seatNumber == selected;
      } else {
        forall k | 0 <= k < |m[l]| ensures m[l][k].seatNumber != selected {
          SeatMapRowMembers(seats, l, m[l][k]);
        }
      }
  }
}
