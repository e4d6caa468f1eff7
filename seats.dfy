/** A seat of a train and the two keys read off its label: the row letter and the
    seat number. Labels come in either order ("12A" or "A12"). */
module Seats {
  import opened Http
  import opened Text

  datatype Seat = Seat(id: int, seatNumber: string, reserved: bool)

  /** `/[A-D]/i`: a row letter in either case. */
  predicate IsRowChar(c: char) {
    c == 'A' || c == 'B' || c == 'C' || c == 'D' || c == 'a' || c == 'b' || c == 'c' || c == 'd'
  }

  /** A key of the seat map: an upper-case row letter. */
  predicate IsRowLetter(c: char) {
    c == 'A' || c == 'B' || c == 'C' || c == 'D'
  }

  /** `toUpperCase()` on a row letter. */
  function ToUpper(c: char): (r: char)
    requires IsRowChar(c)
    ensures IsRowLetter(r)
    ensures IsRowLetter(c) ==> r == c
    ensures !IsRowLetter(c) ==> r as int == c as int - ('a' as int - 'A' as int)
  {
    match c
    case 'a' => 'A'
    case 'b' => 'B'
    case 'c' => 'C'
    case 'd' => 'D'
    case _ => c
  }

  /** `name.match(/[A-D]/i)?.[0]?.toUpperCase()`: the first character of the label that
      is a row letter in either case, upper-cased; None when the label has none, and
      such a seat belongs to no row. */
  function RowLetter(name: string): (r: Option<char>)
    ensures r.Some? ==> IsRowLetter(r.value)
  {
    if name == [] then None
    else if IsRowChar(name[0]) then Some(ToUpper(name[0]))
    else RowLetter(name[1..])
  }

  /** The row letter is the upper-cased first match of `/[A-D]/i`, and there is none
      exactly when the label holds no such character. */
  lemma {:induction false} RowLetterIsFirstMatch(name: string)
    ensures RowLetter(name) == match FirstMatch(name, IsRowChar)
                               case None => None
                               case Some(i) => Some(ToUpper(name[i]))
    ensures RowLetter(name).None? <==> NoneMatch(name, IsRowChar)
  {
    if name != [] && !IsRowChar(name[0]) {
      RowLetterIsFirstMatch(name[1..]);
      match FirstMatch(name[1..], IsRowChar)
      case None =>
      case Some(i) =>
        assert name[i + 1] == name[1..][i];
    }
  }

  /** `parseInt(name.match(/\d+/)?.[0] || '0')`: the value of the first maximal run of
      digits in the label, or 0 when the label has no digit. */
  function SortKey(name: string): (r: nat)
    ensures NoneMatch(name, IsDigit) ==> r == 0
  {
    match FirstMatch(name, IsDigit)
    case None => 0
    case Some(i) => DecimalValue(LeadingDigits(name[i..]))
  }

  /** The row letter is the first letter A-D of the label, whatever precedes it. */
  lemma RowLetterIsFirst(before: string, c: char, after: string)
    requires NoneMatch(before, IsRowChar) && IsRowChar(c)
    ensures RowLetter(before + [c] + after) == Some(ToUpper(c))
  {
    var s := before + [c] + after;
    assert s[|before|] == c;
    assert s[..|before|] == before;
    FirstMatchAt(s, IsRowChar, |before|);
    RowLetterIsFirstMatch(s);
  }

  /** The key is the value of the first run of digits: the digits before it do not
      exist, and the run stops at the first non-digit. */
  lemma SortKeyIsFirstRun(before: string, digits: string, after: string)
    requires NoneMatch(before, IsDigit)
    requires digits != [] && AllDigits(digits)
    requires after == [] || !IsDigit(after[0])
    ensures SortKey(before + digits + after) == DecimalValue(digits)
  {
    var s := before + digits + after;
    assert s[|before|] == digits[0];
    assert s[..|before|] == before;
    FirstMatchAt(s, IsDigit, |before|);
    assert s[|before|..] == digits + after;
    LeadingDigitsOf(digits, after);
  }

  /** A label without digits sorts as seat 0. */
  lemma SortKeyNoDigits(name: string)
    requires NoneMatch(name, IsDigit)
    ensures SortKey(name) == 0
  {
  }

  /** A label written number-first ("12A") reads back as its row and number. */
  lemma NumberFirstLabel(n: nat, c: char)
    requires IsRowChar(c)
    ensures RowLetter(Decimal(n) + [c]) == Some(ToUpper(c))
    ensures SortKey(Decimal(n) + [c]) == n
  {
    NumberFirstRow(Decimal(n), c);
    NumberFirstKey(n, c);
  }

  lemma NumberFirstRow(digits: string, c: char)
    requires AllDigits(digits) && IsRowChar(c)
    ensures RowLetter(digits + [c]) == Some(ToUpper(c))
  {
    assert NoneMatch(digits, IsRowChar) by {
      forall k | 0 <= k < |digits| ensures !IsRowChar(digits[k]) {
        assert IsDigit(digits[k]);
      }
    }
    RowLetterIsFirst(digits, c, []);
    assert digits + [c] + [] == digits + [c];
  }

  lemma NumberFirstKey(n: nat, c: char)
    requires IsRowChar(c)
    ensures SortKey(Decimal(n) + [c]) == n
  {
    var d := Decimal(n);
    assert [] + d + [c] == d + [c];
    SortKeyIsFirstRun([], d, [c]);
    DecimalRoundTrip(n);
  }

  /** A label written letter-first ("A12") reads back as its row and number. */
  lemma LetterFirstLabel(c: char, n: nat)
    requires IsRowChar(c)
    ensures RowLetter([c] + Decimal(n)) == Some(ToUpper(c))
    ensures SortKey([c] + Decimal(n)) == n
  {
    LetterFirstRow(c, Decimal(n));
    LetterFirstKey(c, n);
  }

  lemma LetterFirstRow(c: char, rest: string)
    requires IsRowChar(c)
    ensures RowLetter([c] + rest) == Some(ToUpper(c))
  {
    assert ([c] + rest)[0] == c;
  }

  lemma LetterFirstKey(c: char, n: nat)
    requires IsRowChar(c)
    ensures SortKey([c] + Decimal(n)) == n
  {
    var d := Decimal(n);
    assert NoneMatch([c], IsDigit);
    SortKeyIsFirstRun([c], d, []);
    assert [c] + d + [] == [c] + d;
    DecimalRoundTrip(n);
  }
}
