/**
 * The note id of src/block.ts (the expression inside `getTimelineData`): a
 * start date such as "1776-07-04" or "-0044-03-15" becomes the integer formed
 * by its dash-separated parts joined together, negated when the date starts
 * with '-'. Anything that does not give an integer is not an id.
 */
module NoteIds {
  import opened JsBuiltins

  /** Only digits and dashes: the dates whose joined parts are a digit string. */
  predicate IsDateText(s: string) {
    forall i :: 0 <= i < |s| ==> IsDigit(s[i]) || s[i] == '-'
  }

  predicate HasLeadingDash(s: string) {
    |s| > 0 && s[0] == '-'
  }

  /**
   * `startDate[0] == '-' ? +startDate.substring(1).split('-').join('') * -1
   *                      : +startDate.split('-').join('')`, kept only when it is an integer.
   * The id is defined exactly for dates made of digits and dashes (the empty
   * date included, which gives 0); its magnitude is the number spelt by the
   * digits and its sign is that of the leading dash.
   */
  function EncodeId(startDate: string): (r: Option<int>)
    ensures r.Some? <==> IsDateText(startDate)
    ensures r.Some? ==>
      && AllDigits(Without(startDate, '-'))
      && r.value == (if HasLeadingDash(startDate) then -1 else 1) * DigitsValue(Without(startDate, '-'))
  {
    DateTextDigits(startDate);
    if HasLeadingDash(startDate) then
      ConcatSplit(startDate[1..], '-');
      assert Without(startDate, '-') == Without(startDate[1..], '-');
      assert IsDateText(startDate) <==> IsDateText(startDate[1..]) by {
        assert forall i :: 1 <= i < |startDate| ==> startDate[i] == startDate[1..][i - 1];
      }
      DateTextDigits(startDate[1..]);
      match ToInteger(Concat(Split(startDate[1..], '-')))
      case None => None
      case Some(n) => Some(n * -1)
    else
      ConcatSplit(startDate, '-');
      ToInteger(Concat(Split(startDate, '-')))
  }

  /** Dropping the dashes of a date leaves a digit string exactly when the date has only digits and dashes. */
  lemma {:induction false} DateTextDigits(s: string)
    ensures AllDigits(Without(s, '-')) <==> IsDateText(s)
  {
    if s != [] {
      DateTextDigits(s[1..]);
      var w := Without(s[1..], '-');
      assert IsDateText(s) <==> (IsDigit(s[0]) || s[0] == '-') && IsDateText(s[1..]) by {
        assert forall i :: 1 <= i < |s| ==> s[i] == s[1..][i - 1];
      }
      if s[0] != '-' {
        var v := Without(s, '-');
        assert v == [s[0]] + w;
        AllDigitsAppend([s[0]], w);
        assert AllDigits([s[0]]) <==> IsDigit(s[0]) by { assert [s[0]][0] == s[0]; }
      } else {
        assert Without(s, '-') == "" + w == w;
      }
    }
  }

  /**
   * For dates whose digits have the same width, CE ids are ordered like the
   * digit strings, BCE ids the opposite way, and every BCE id is at most every
   * CE id.
   */
  lemma EncodeIdOrder(a: string, b: string)
    requires IsDateText(a) && IsDateText(b) && !HasLeadingDash(a) && !HasLeadingDash(b)
    requires |Without(a, '-')| == |Without(b, '-')|
    ensures EncodeId(a).Some? && EncodeId(b).Some? && EncodeId("-" + a).Some? && EncodeId("-" + b).Some?
    ensures EncodeId(a).value < EncodeId(b).value <==> LexLess(Without(a, '-'), Without(b, '-'))
    ensures EncodeId("-" + a).value < EncodeId("-" + b).value <==> LexLess(Without(b, '-'), Without(a, '-'))
    ensures EncodeId("-" + a).value <= 0 <= EncodeId(b).value
  {
    DashPrefix(a);
    DashPrefix(b);
    DateTextDigits(a);
    DateTextDigits(b);
    DigitsOrder(Without(a, '-'), Without(b, '-'));
    DigitsOrder(Without(b, '-'), Without(a, '-'));
  }

  lemma DashPrefix(s: string)
    requires IsDateText(s)
    ensures IsDateText("-" + s) && HasLeadingDash("-" + s)
    ensures Without("-" + s, '-') == Without(s, '-')
  {
    assert ("-" + s)[1..] == s;
  }

  /**
   * Within one BCE year and month, a later day gets the SMALLER id: the whole
   * joined number is negated, so days (and months) run backwards there.
   * `yearMonth` is the shared leading part of both dates, such as "0044-03-".
   */
  lemma BceDaysRunBackwards(yearMonth: string, d1: string, d2: string)
    requires IsDateText(yearMonth) && !HasLeadingDash(yearMonth)
    requires AllDigits(d1) && AllDigits(d2) && |d1| == |d2| && LexLess(d1, d2)
    ensures EncodeId("-" + (yearMonth + d1)).Some? && EncodeId("-" + (yearMonth + d2)).Some?
    ensures EncodeId("-" + (yearMonth + d2)).value < EncodeId("-" + (yearMonth + d1)).value
  {
    assert d1 != [] && d2 != [];
    var a, b := yearMonth + d1, yearMonth + d2;
    var p := Without(yearMonth, '-');
    AppendDigits(yearMonth, d1);
    AppendDigits(yearMonth, d2);
    assert Without(a, '-') == p + d1 && Without(b, '-') == p + d2;
    LexLessPrefix(p, d1, d2);
    assert LexLess(Without(a, '-'), Without(b, '-'));
    EncodeIdOrder(b, a);
  }

  /** Digits after a date that does not start with '-' give a longer such date. */
  lemma AppendDigits(date: string, d: string)
    requires IsDateText(date) && !HasLeadingDash(date)
    requires AllDigits(d) && d != []
    ensures IsDateText(date + d) && !HasLeadingDash(date + d)
    ensures Without(date + d, '-') == Without(date, '-') + d
  {
    DigitsWithout(d);
    WithoutAppend(date, d, '-');
    DateTextDigits(date);
    DateTextDigits(date + d);
    AllDigitsAppend(Without(date, '-'), d);
    assert (date + d)[0] == if date == [] then d[0] else date[0];
  }

  lemma {:induction false} DigitsWithout(s: string)
    requires AllDigits(s)
    ensures Without(s, '-') == s
  {
    if s != [] {
      DigitsWithout(s[1..]);
      assert [s[0]] + s[1..] == s;
    }
  }

  lemma {:induction false} LexLessPrefix(p: string, a: string, b: string)
    requires |a| == |b| && LexLess(a, b)
    ensures LexLess(p + a, p + b)
  {
    if p != [] {
      LexLessPrefix(p[1..], a, b);
      assert (p + a)[1..] == p[1..] + a;
      assert (p + b)[1..] == p[1..] + b;
    } else {
      assert p + a == a && p + b == b;
    }
  }

  /**
   * A date written as year, month and day digit groups: the id is the number
   * spelt by the three groups side by side, negated for a leading '-'. So
   * "1776-07-04" gives 17760704 and "-0044-03-15" gives -440315.
   */
  lemma EncodeIdOfParts(year: string, month: string, day: string)
    requires AllDigits(year) && AllDigits(month) && AllDigits(day) && year != []
    ensures AllDigits(year + month + day)
    ensures EncodeId(year + "-" + month + "-" + day) == Some(DigitsValue(year + month + day))
    ensures EncodeId("-" + year + "-" + month + "-" + day) == Some(-(DigitsValue(year + month + day) as int))
  {
    var date := year + "-" + month + "-" + day;
    JoinedParts(year, month, day);
    DashPrefix(date);
    assert "-" + year + "-" + month + "-" + day == "-" + date;
  }

  lemma JoinedParts(year: string, month: string, day: string)
    requires AllDigits(year) && AllDigits(month) && AllDigits(day) && year != []
    ensures var date := year + "-" + month + "-" + day;
      IsDateText(date) && !HasLeadingDash(date) && Without(date, '-') == year + month + day
      && AllDigits(year + month + day)
  {
    var a := year + "-";
    var b := a + month;
    var c := b + "-";
    var date := c + day;
    assert Without("-", '-') == "";
    DigitsWithout(year);
    DigitsWithout(month);
    DigitsWithout(day);
    WithoutAppend(year, "-", '-');
    assert Without(a, '-') == year;
    WithoutAppend(a, month, '-');
    assert Without(b, '-') == year + month;
    WithoutAppend(b, "-", '-');
    assert Without(c, '-') == year + month;
    WithoutAppend(c, day, '-');
    assert Without(date, '-') == year + month + day;
    AllDigitsAppend(year, month);
    AllDigitsAppend(year + month, day);
    DateTextDigits(date);
    assert date[0] == year[0];
  }

  /** The date of a note without a start date is "", whose id is 0: such notes are kept, at id 0. */
  lemma EmptyDateIsZero()
    ensures EncodeId("") == Some(0)
  {
  }
}
