// The half-hour-increment formatter: the 74-character template, the mapping
// from a time of day to a template index, the range a schedule paints, the
// painting itself, the "now" overlay and the rendered string.
module Formatter {
  import opened Times
  import opened Schedules
  import opened Chars

  // ---------------------------------------------------------------------
  // The empty template
  // ---------------------------------------------------------------------

  function StartEdge(): UnicodeChar { Edge(Start(NewUnicodeChar())) }
  function SlotChar(): UnicodeChar { Slot(NewUnicodeChar()) }
  function HourChar(): UnicodeChar { Chars.Hour(NewUnicodeChar()) }
  function EndEdge(): UnicodeChar { Edge(End(NewUnicodeChar())) }

  /** What sits at position p of the template: in each 37-character half, an
      edge with the start flag at offset 0, an edge with the end flag at
      offset 36, an hour mark at the other offsets divisible by 3, a slot
      everywhere else; no other flag set. */
  function LayoutAt(p: int): UnicodeChar
  {
    var o := p % 37;
    if o == 0 then UnicodeChar(EdgeMark, true, false, false, false)
    else if o == 36 then UnicodeChar(EdgeMark, false, true, false, false)
    else if o % 3 == 0 then UnicodeChar(HourMark, false, false, false, false)
    else UnicodeChar(SlotMark, false, false, false, false)
  }

  /** The empty template: 74 positions, the morning half then the afternoon
      half, laid out as LayoutAt says. */
  function Template(): seq<UnicodeChar>
  {
    seq(74, p => LayoutAt(p))
  }

  /** Twelve hours as empty() assembles them: a starting edge, eleven
      [slot, slot, hour] (given here by their positions), then
      [slot, slot, end edge]. */
  lemma HalfDayLayout(hours: seq<UnicodeChar>, half: seq<UnicodeChar>)
    requires |hours| == 33
    requires forall i :: 0 <= i < 33 ==> hours[i] == [SlotChar(), SlotChar(), HourChar()][i % 3]
    requires half == [StartEdge()] + hours + [SlotChar(), SlotChar(), EndEdge()]
    ensures |half| == 37
    ensures forall o :: 0 <= o < 37 ==> half[o] == LayoutAt(o)
  {
    forall o | 0 <= o < 37
      ensures half[o] == LayoutAt(o)
    {
      if 1 <= o <= 33 {
        assert half[o] == hours[o - 1];
        assert (o - 1) % 3 == 2 <==> o % 3 == 0;
      } else if o > 33 {
        assert half[o] == [SlotChar(), SlotChar(), EndEdge()][o - 34];
      }
    }
  }

  /** Two copies of a half laid out as `LayoutAt` says are the template. */
  lemma TwoHalvesTemplate(half: seq<UnicodeChar>, cc: seq<UnicodeChar>)
    requires |half| == 37 && forall o :: 0 <= o < 37 ==> half[o] == LayoutAt(o)
    requires |cc| == 74 && forall p :: 0 <= p < 74 ==> cc[p] == half[p % 37]
    ensures cc == Template()
  {
    forall p | 0 <= p < 74
      ensures cc[p] == Template()[p]
    {
      assert LayoutAt(p % 37) == LayoutAt(p);
    }
  }

  /** empty(): built by appends and Repeat, as the source does; it is the
      template. */
  method Empty() returns (cc: seq<UnicodeChar>)
    ensures cc == Template()
  {
    var start := Edge(Start(NewUnicodeChar()));
    var slot := Slot(NewUnicodeChar());
    var hour := Chars.Hour(NewUnicodeChar());
    var end := Edge(End(NewUnicodeChar()));
    var hours := Repeat([slot, slot, hour], 11);
    cc := [start] + hours;
    cc := cc + [slot, slot, end];
    ghost var half := cc;
    HalfDayLayout(hours, half);
    cc := Repeat(cc, 2);
    TwoHalvesTemplate(half, cc);
  }

  // ---------------------------------------------------------------------
  // Time to index
  // ---------------------------------------------------------------------

  /** timeToIndex: the number of template positions before t. Any instant
      after the first day is the whole template; otherwise one position per
      elapsed half hour, one per elapsed hour mark, one for the day's starting
      edge, and one more for the noon edge once noon has passed. */
  function TimeToIndex(t: Time): (i: int)
    ensures 0 <= i <= |Template()|
    ensures i == |Template()| <==> t.day > 1
    ensures i == 0 <==> t.day == 1 && t.sec == 0
  {
    if t.day > 1 then |Template()|
    else
      var d := t.sec;
      if d == 0 then 0
      else
        var iter := d / 1800;
        var iter := iter + iter / 2;
        var iter := iter + 1;
        if d > 43200 then iter + 1 else iter
  }

  /** Later times never map to earlier positions. */
  lemma TimeToIndexMonotone(a: Time, b: Time)
    requires Instant(a) <= Instant(b)
    ensures TimeToIndex(a) <= TimeToIndex(b)
  {
    if b.day == 1 {
      assert a.day == 1 && a.sec <= b.sec;
      if a.sec > 0 {
        assert a.sec / 1800 <= b.sec / 1800;
      }
    }
  }

  /** On a whole hour h of the first day the index is 3h + 1, one more in the
      afternoon: two slots and a mark per elapsed hour, the starting edge,
      and the noon edge. */
  lemma TimeToIndexOnHour(t: Time)
    requires t.sec % 3600 == 0
    ensures t.day == 1 ==>
      TimeToIndex(t) == if t.sec == 0 then 0 else 3 * (t.sec / 3600) + 1 + (if t.sec > 43200 then 1 else 0)
  {
    var h := t.sec / 3600;
    assert t.sec == 3600 * h;
    assert t.sec / 1800 == 2 * h;
  }

  /** On a whole hour of the first day other than midnight, the position
      before the index is that hour's mark, or the morning's end edge at
      noon. */
  lemma OnHourCloses(t: Time)
    requires t.day == 1 && t.sec > 0 && t.sec % 3600 == 0
    ensures 1 <= TimeToIndex(t) <= 73
    ensures Template()[TimeToIndex(t) - 1] == if Times.Hour(t) == 12 then EndEdge() else HourChar()
  {
    TimeToIndexOnHour(t);
    var h, i := t.sec / 3600, TimeToIndex(t);
    assert t.sec == 3600 * h;
    if h > 12 {
      assert (i - 1) % 37 == 3 * (h - 12);
    }
    assert Template()[i - 1] == LayoutAt(i - 1);
  }

  /** At half past an hour of the first day, the position before the index
      is the slot that closes that half hour. */
  lemma HalfPastCloses(t: Time)
    requires t.day == 1 && t.sec % 3600 == 1800
    ensures 1 <= TimeToIndex(t) <= 73
    ensures Template()[TimeToIndex(t) - 1] == SlotChar()
  {
    var h, i := t.sec / 3600, TimeToIndex(t);
    assert t.sec == 3600 * h + 1800;
    assert t.sec / 1800 == 2 * h + 1;
    if h >= 12 {
      assert (i - 1) % 37 == 3 * (h - 12) + 1;
    }
    assert Template()[i - 1] == LayoutAt(i - 1);
  }

  /** At a whole half hour of the first day, the position just before the
      index is the character that closes that half hour: a slot at half past,
      an hour mark on the hour, the morning's end edge at noon. */
  lemma TimeToIndexClosesHalfHour(t: Time)
    requires t.day == 1 && t.sec > 0 && t.sec % 1800 == 0
    ensures 1 <= TimeToIndex(t) <= 73
    ensures Template()[TimeToIndex(t) - 1] ==
      if Minute(t) == 30 then SlotChar()
      else if Times.Hour(t) == 12 then EndEdge()
      else HourChar()
  {
    if t.sec % 3600 == 0 {
      assert Minute(t) == 0;
      OnHourCloses(t);
    } else {
      assert t.sec % 3600 == 1800 && Minute(t) == 30;
      HalfPastCloses(t);
    }
  }

  /** The repository's expected indices. */
  lemma TimeToIndexExamples()
    ensures TimeToIndex(At(0, 0)) == 0 && TimeToIndex(At(0, 30)) == 2
    ensures TimeToIndex(At(1, 0)) == 4 && TimeToIndex(At(1, 30)) == 5
    ensures TimeToIndex(At(2, 0)) == 7 && TimeToIndex(At(5, 30)) == 17
    ensures TimeToIndex(At(12, 0)) == 37 && TimeToIndex(At(12, 30)) == 39
    ensures TimeToIndex(At(24, 0)) == 74
  {
    assert At(0, 0) == Time(1, 0) && At(0, 30) == Time(1, 1800);
    assert At(1, 0) == Time(1, 3600) && At(1, 30) == Time(1, 5400);
    assert At(2, 0) == Time(1, 7200) && At(5, 30) == Time(1, 19800);
    assert At(12, 0) == Time(1, 43200) && At(12, 30) == Time(1, 45000);
    assert At(24, 0) == Time(2, 0);
  }

  // ---------------------------------------------------------------------
  // Ranges
  // ---------------------------------------------------------------------

  /** A half-open range of template positions. */
  datatype Range = Range(lo: int, hi: int)

  /** pickRange: the indices of start and end, except that a start exactly on
      an interior hour moves back one so the range includes that hour mark.
      A well-formed schedule always gives a range inside the template. */
  function PickRange(start: Time, end: Time): (r: Range)
    ensures Instant(start) <= Instant(end) ==> 0 <= r.lo <= r.hi <= |Template()|
  {
    assert Instant(start) <= Instant(end) ==> TimeToIndex(start) <= TimeToIndex(end) by {
      if Instant(start) <= Instant(end) {
        TimeToIndexMonotone(start, end);
      }
    }
    var startIdx, endIdx := TimeToIndex(start), TimeToIndex(end);
    if Times.Hour(start) % 12 != 0 && Minute(start) == 0 then
      Range(startIdx - 1, endIdx)
    else
      Range(startIdx, endIdx)
  }

  /** A range starting on an interior whole hour of the first day begins on
      that hour's mark; one starting at midnight or noon begins on that
      half's starting edge. */
  lemma PickRangeStartsOnMark(start: Time, end: Time)
    requires start.day == 1 && Minute(start) == 0
    ensures Times.Hour(start) % 12 != 0 ==>
      var r := PickRange(start, end); 0 <= r.lo < 74 && Template()[r.lo] == HourChar()
    ensures Times.Hour(start) % 12 == 0 && start.sec % 3600 == 0 ==>
      var r := PickRange(start, end); 0 <= r.lo < 74 && Template()[r.lo] == StartEdge()
  {
    if Times.Hour(start) % 12 != 0 {
      WholeHourIndex(start);
    } else if start.sec % 3600 == 0 {
      assert start.sec == 0 || start.sec == 43200;
    }
  }

  /** The repository's expected ranges (times as seconds of the first day;
      24:00 is the second day's midnight). */
  lemma PickRangeMorningExamples()
    ensures PickRange(Time(1, 1800), Time(1, 19800)) == Range(2, 17)
    ensures PickRange(Time(1, 0), Time(1, 1800)) == Range(0, 2)
    ensures PickRange(Time(1, 1800), Time(1, 3600)) == Range(2, 4)
    ensures PickRange(Time(1, 7200), Time(1, 14400)) == Range(6, 13)
    ensures PickRange(Time(1, 7200), Time(1, 9000)) == Range(6, 8)
  {
  }

  /** ... and around noon and midnight. */
  lemma PickRangeAfternoonExamples()
    ensures PickRange(Time(1, 46800), Time(1, 48600)) == Range(40, 42)
    ensures PickRange(Time(1, 41400), Time(1, 45000)) == Range(35, 39)
    ensures PickRange(Time(1, 43200), Time(1, 46800)) == Range(37, 41)
    ensures PickRange(Time(1, 84600), Time(2, 0)) == Range(72, 74)
  {
  }

  /** A whole interior hour of the first day maps just past its hour mark. */
  lemma WholeHourIndex(t: Time)
    requires t.day == 1 && Minute(t) == 0 && Times.Hour(t) % 12 != 0
    ensures 1 <= TimeToIndex(t) <= 74 && Template()[TimeToIndex(t) - 1] == HourChar()
  {
    var h := Times.Hour(t);
    var i := TimeToIndex(t);
    assert 3600 * h <= t.sec < 3600 * h + 60;
    assert t.sec / 1800 == 2 * h;
    if h < 12 {
      assert i - 1 == 3 * h;
    } else {
      assert i - 1 == 3 * h + 1;
      assert (i - 1) % 37 == 3 * (h - 12);
    }
  }

  /** The range each merged schedule paints. */
  function Ranges(ms: seq<Schedule>): seq<Range>
  {
    seq(|ms|, k requires 0 <= k < |ms| => PickRange(ms[k].start, ms[k].end))
  }

  /** Every range can be sliced out of the template: Go's base[s:e] would
      panic otherwise. */
  predicate InBounds(rs: seq<Range>)
  {
    forall k :: 0 <= k < |rs| ==> 0 <= rs[k].lo <= rs[k].hi <= 74
  }

  /** What fill demands of its input. */
  predicate Paintable(ss: seq<Schedule>)
  {
    InBounds(Ranges(Merged(ss)))
  }

  /** Well-formed schedules are always paintable. */
  lemma WellFormedPaintable(ss: seq<Schedule>)
    requires forall k :: 0 <= k < |ss| ==> WellFormed(ss[k])
    ensures Paintable(ss)
  {
    MergedProperties(ss);
  }

  // ---------------------------------------------------------------------
  // Painting
  // ---------------------------------------------------------------------

  predicate StartsAt(rs: seq<Range>, p: int)
  {
    exists k :: 0 <= k < |rs| && rs[k].lo == p && rs[k].lo < rs[k].hi
  }

  predicate EndsAt(rs: seq<Range>, p: int)
  {
    exists k :: 0 <= k < |rs| && rs[k].hi - 1 == p && rs[k].lo < rs[k].hi
  }

  predicate CoveredAt(rs: seq<Range>, p: int)
  {
    exists k :: 0 <= k < |rs| && rs[k].lo <= p < rs[k].hi
  }

  /** Position p after all ranges, stated pointwise and independently of
      their order: start where some non-empty range begins, end where one
      ends, filled where one covers p; flags are only ever added. */
  function Paint(c: UnicodeChar, rs: seq<Range>, p: int): UnicodeChar
  {
    c.(start := c.start || StartsAt(rs, p),
       end := c.end || EndsAt(rs, p),
       filled := c.filled || CoveredAt(rs, p))
  }

  /** The template after painting every range. */
  function Painted(rs: seq<Range>): (r: seq<UnicodeChar>)
    ensures |r| == 74
    ensures forall p :: 0 <= p < 74 ==> r[p].role == Template()[p].role && r[p].role != NoRole
  {
    var t := Template();
    seq(|t|, p requires 0 <= p < |t| => Paint(t[p], rs, p))
  }

  /** fill's result as a value. */
  function Filled(ss: seq<Schedule>): seq<UnicodeChar>
  {
    Painted(Ranges(Merged(ss)))
  }

  /** The effect of one range on one position, step by step as the loop in
      fill applies it. */
  function PaintOne(c: UnicodeChar, r: Range, p: int): UnicodeChar
  {
    if r.lo <= p < r.hi then
      var c1 := if p == r.lo then Start(c) else c;
      var c2 := if p == r.hi - 1 then End(c1) else c1;
      Chars.Fill(c2)
    else c
  }

  /** One more range starts at p exactly when the prefix does or it does. */
  lemma StartsAtExtend(rs: seq<Range>, j: int, p: int)
    requires 0 <= j < |rs|
    ensures StartsAt(rs[..j + 1], p) == (StartsAt(rs[..j], p) || (rs[j].lo == p && rs[j].lo < rs[j].hi))
  {
    var pre, ext := rs[..j], rs[..j + 1];
    if StartsAt(ext, p) && !(rs[j].lo == p && rs[j].lo < rs[j].hi) {
      var k :| 0 <= k < |ext| && ext[k].lo == p && ext[k].lo < ext[k].hi;
      assert pre[k] == ext[k];
    }
    if StartsAt(pre, p) {
      var k :| 0 <= k < |pre| && pre[k].lo == p && pre[k].lo < pre[k].hi;
      assert ext[k] == pre[k];
    }
    assert ext[j] == rs[j];
  }

  /** Likewise for ends ... */
  lemma EndsAtExtend(rs: seq<Range>, j: int, p: int)
    requires 0 <= j < |rs|
    ensures EndsAt(rs[..j + 1], p) == (EndsAt(rs[..j], p) || (rs[j].hi - 1 == p && rs[j].lo < rs[j].hi))
  {
    var pre, ext := rs[..j], rs[..j + 1];
    if EndsAt(ext, p) && !(rs[j].hi - 1 == p && rs[j].lo < rs[j].hi) {
      var k :| 0 <= k < |ext| && ext[k].hi - 1 == p && ext[k].lo < ext[k].hi;
      assert pre[k] == ext[k];
    }
    if EndsAt(pre, p) {
      var k :| 0 <= k < |pre| && pre[k].hi - 1 == p && pre[k].lo < pre[k].hi;
      assert ext[k] == pre[k];
    }
    assert ext[j] == rs[j];
  }

  /** ... and for covered positions. */
  lemma CoveredAtExtend(rs: seq<Range>, j: int, p: int)
    requires 0 <= j < |rs|
    ensures CoveredAt(rs[..j + 1], p) == (CoveredAt(rs[..j], p) || rs[j].lo <= p < rs[j].hi)
  {
    var pre, ext := rs[..j], rs[..j + 1];
    if CoveredAt(ext, p) && !(rs[j].lo <= p < rs[j].hi) {
      var k :| 0 <= k < |ext| && ext[k].lo <= p < ext[k].hi;
      assert pre[k] == ext[k];
    }
    if CoveredAt(pre, p) {
      var k :| 0 <= k < |pre| && pre[k].lo <= p < pre[k].hi;
      assert ext[k] == pre[k];
    }
    assert ext[j] == rs[j];
  }

  /** Painting one more range on top of a prefix. */
  lemma PaintExtend(c: UnicodeChar, rs: seq<Range>, j: int, p: int)
    requires 0 <= j < |rs|
    ensures Paint(c, rs[..j + 1], p) == PaintOne(Paint(c, rs[..j], p), rs[j], p)
  {
    StartsAtExtend(rs, j, p);
    EndsAtExtend(rs, j, p);
    CoveredAtExtend(rs, j, p);
  }

  /** fill's inner loop: paint one range, marking its first position start,
      its last end, and every position in it filled; positions outside the
      range are left alone. */
  method PaintRange(base: seq<UnicodeChar>, r: Range) returns (painted: seq<UnicodeChar>)
    requires |base| == 74 && 0 <= r.lo <= r.hi <= 74
    ensures |painted| == 74
    ensures forall p :: 0 <= p < 74 ==> painted[p] == PaintOne(base[p], r, p)
  {
    painted := base;
    var s, e := r.lo, r.hi;
    for i := 0 to e - s
      invariant |painted| == 74
      invariant forall p :: 0 <= p < 74 ==>
        painted[p] == if s <= p < s + i then PaintOne(base[p], r, p) else base[p]
    {
      var c := painted[s + i];
      if i == 0 {
        c := Start(c);
      }
      if i == e - s - 1 {
        c := End(c);
      }
      c := Chars.Fill(c);
      painted := painted[s + i := c];
    }
  }

  /** fill: paint each merged schedule's range onto a fresh template. */
  method Fill(ss: seq<Schedule>) returns (base: seq<UnicodeChar>)
    requires Paintable(ss)
    ensures base == Filled(ss)
  {
    base := Empty();
    ghost var t := Template();
    if |ss| == 0 {
      assert forall p :: 0 <= p < |t| ==> Paint(t[p], [], p) == t[p];
      return;
    }
    var merged := OverlapSchedules(ss);
    ghost var rs := Ranges(merged);
    assert rs[..0] == [];
    for j := 0 to |merged|
      invariant |base| == 74
      invariant forall p :: 0 <= p < 74 ==> base[p] == Paint(t[p], rs[..j], p)
    {
      var range := PickRange(merged[j].start, merged[j].end);
      assert range == rs[j];
      base := PaintRange(base, range);
      forall p | 0 <= p < 74
        ensures base[p] == Paint(t[p], rs[..j + 1], p)
      {
        PaintExtend(t[p], rs, j, p);
      }
    }
    assert rs[..|merged|] == rs;
  }

  /** Painting keeps every role, never clears a flag, leaves every position
      outside all ranges as the template has it and fills every position
      inside one. */
  lemma PaintedProperties(rs: seq<Range>)
    ensures |Painted(rs)| == 74
    ensures forall p :: 0 <= p < 74 ==> Painted(rs)[p].role == Template()[p].role
    ensures forall p :: 0 <= p < 74 ==>
      (Template()[p].start ==> Painted(rs)[p].start) && (Template()[p].end ==> Painted(rs)[p].end)
      && (Template()[p].filled ==> Painted(rs)[p].filled) && (Template()[p].now ==> Painted(rs)[p].now)
    ensures forall p :: 0 <= p < 74 ==> (CoveredAt(rs, p) <==> Painted(rs)[p].filled)
    ensures forall p :: 0 <= p < 74 && !CoveredAt(rs, p) ==> Painted(rs)[p] == Template()[p]
  {
  }

  /** Painting depends only on which ranges there are, not on their order or
      repetition, and painting the same ranges again changes nothing. */
  lemma PaintedOrderFree(rs1: seq<Range>, rs2: seq<Range>)
    requires forall r :: r in rs1 <==> r in rs2
    ensures Painted(rs1) == Painted(rs2)
  {
    forall p | 0 <= p < 74
      ensures Paint(Template()[p], rs1, p) == Paint(Template()[p], rs2, p)
    {
      SameRangesSameFlags(rs1, rs2, p);
      SameRangesSameFlags(rs2, rs1, p);
    }
  }

  lemma SameRangesSameFlags(rs1: seq<Range>, rs2: seq<Range>, p: int)
    requires forall r :: r in rs1 ==> r in rs2
    ensures StartsAt(rs1, p) ==> StartsAt(rs2, p)
    ensures EndsAt(rs1, p) ==> EndsAt(rs2, p)
    ensures CoveredAt(rs1, p) ==> CoveredAt(rs2, p)
  {
    if StartsAt(rs1, p) {
      var k :| 0 <= k < |rs1| && rs1[k].lo == p && rs1[k].lo < rs1[k].hi;
      assert rs1[k] in rs2;
    }
    if EndsAt(rs1, p) {
      var k :| 0 <= k < |rs1| && rs1[k].hi - 1 == p && rs1[k].lo < rs1[k].hi;
      assert rs1[k] in rs2;
    }
    if CoveredAt(rs1, p) {
      var k :| 0 <= k < |rs1| && rs1[k].lo <= p < rs1[k].hi;
      assert rs1[k] in rs2;
    }
  }

  /** No schedules: the empty template. */
  lemma FilledEmpty()
    ensures Filled([]) == Template()
  {
    assert Ranges(Merged([])) == [];
  }

  // ---------------------------------------------------------------------
  // Rendering
  // ---------------------------------------------------------------------

  /** Every painted position keeps a role, so each renders as one glyph. */
  lemma PaintedRoles(cc: seq<UnicodeChar>)
    requires |cc| == 74
    requires forall p :: 0 <= p < 74 ==> cc[p].role == Template()[p].role
    ensures forall p :: 0 <= p < 74 ==> cc[p].role != NoRole
  {
  }

  /** Format: the filled template, one glyph per position. */
  method Format(ss: seq<Schedule>) returns (s: string)
    requires Paintable(ss)
    ensures s == Concat(Filled(ss))
    ensures |s| == 74
    ensures forall p :: 0 <= p < 74 ==> s[p] == Glyph(Filled(ss)[p])
  {
    var base := Fill(ss);
    PaintedProperties(Ranges(Merged(ss)));
    PaintedRoles(base);
    ConcatGlyphs(base);
    s := RenderAll(base);
  }

  /** The glyph the bare template shows at offset o of a half: edges at
      both ends, a light cross on every hour mark, a light line elsewhere. */
  function BareGlyph(o: int): char
  {
    if o == 0 then '├' else if o == 36 then '┤' else if o % 3 == 0 then '┼' else '─'
  }

  /** The repository's half line, glyph by glyph. */
  lemma BareHalfLine(h: string)
    requires h == "├──┼──┼──┼──┼──┼──┼──┼──┼──┼──┼──┼──┤"
    ensures h == seq(37, o => BareGlyph(o))
  {
  }

  /** Each bare glyph is what the table gives the template's character. */
  lemma BareGlyphs()
    ensures forall o :: 0 <= o < 37 ==> BareGlyph(o) == Glyph(LayoutAt(o))
  {
    forall o | 0 <= o < 37
      ensures BareGlyph(o) == Glyph(LayoutAt(o))
    {
      if 0 < o < 36 {
        if o % 3 == 0 {
          assert LayoutAt(o) == HourChar();
        } else {
          assert LayoutAt(o) == SlotChar();
        }
      }
    }
  }

  /** The bare template renders as two copies of one half's line. */
  lemma TemplateRendered(h: string)
    requires |h| == 37 && forall o :: 0 <= o < 37 ==> h[o] == Glyph(LayoutAt(o))
    ensures Concat(Template()) == h + h
  {
    var t := Template();
    assert forall p :: 0 <= p < 74 ==> t[p].role != NoRole;
    ConcatGlyphs(t);
    forall p | 0 <= p < 74
      ensures Concat(t)[p] == (h + h)[p]
    {
      var o := if p < 37 then p else p - 37;
      assert p % 37 == o && (h + h)[p] == h[o];
      assert t[p] == LayoutAt(o);
    }
  }

  /** The repository's "empty" case: without schedules the line is two bare
      halves. */
  lemma EmptyRendered()
    ensures Concat(Filled([])) == "├──┼──┼──┼──┼──┼──┼──┼──┼──┼──┼──┼──┤├──┼──┼──┼──┼──┼──┼──┼──┼──┼──┼──┼──┤"
  {
    var h := "├──┼──┼──┼──┼──┼──┼──┼──┼──┼──┼──┼──┤";
    BareHalfLine(h);
    BareGlyphs();
    assert forall o :: 0 <= o < 37 ==> h[o] == Glyph(LayoutAt(o));
    TemplateRendered(h);
    HalvesMakeLine();
    FilledEmpty();
  }

  /** The repository's expected line is two copies of one half's line. */
  lemma HalvesMakeLine()
    ensures "├──┼──┼──┼──┼──┼──┼──┼──┼──┼──┼──┼──┤" + "├──┼──┼──┼──┼──┼──┼──┼──┼──┼──┼──┼──┤" == "├──┼──┼──┼──┼──┼──┼──┼──┼──┼──┼──┼──┤├──┼──┼──┼──┼──┼──┼──┼──┼──┼──┼──┼──┤"
  {
  }

  /** A single range paints each position as one step of fill's loop does. */
  lemma PaintedSingle(r: Range, p: int)
    requires 0 <= p < 74
    ensures Painted([r])[p] == PaintOne(Template()[p], r, p)
  {
    PaintExtend(Template()[p], [r], 0, p);
    assert [r][..0] == [] && [r][..1] == [r];
  }

  /** A single schedule is painted over its own range. */
  lemma FilledSingle(s: Schedule)
    ensures Filled([s]) == Painted([PickRange(s.start, s.end)])
  {
    assert Merged([s]) == [s];
    assert Ranges([s]) == [PickRange(s.start, s.end)];
  }

  /** The repository's "hours" case: 16:00 to 19:00 is painted over
      positions 49 to 58 ... */
  lemma FilledHoursExample()
    ensures Filled([Schedule(Time(1, 57600), Time(1, 68400))]) == Painted([Range(49, 59)])
  {
    var s := Schedule(Time(1, 57600), Time(1, 68400));
    FilledSingle(s);
    assert PickRange(s.start, s.end) == Range(49, 59);
  }

  /** ... which renders from the 16 o'clock mark, opening the range, to the
      19 o'clock mark, closing it, and leaves the neighbours empty. */
  lemma PaintedHoursExample()
    ensures var f := Painted([Range(49, 59)]);
      |f| == 74 && Glyph(f[48]) == '─' && Glyph(f[49]) == '┾' && Glyph(f[50]) == '━'
      && Glyph(f[52]) == '┿' && Glyph(f[58]) == '┽' && Glyph(f[59]) == '─'
  {
    var r := Range(49, 59);
    var f := Painted([r]);
    PaintedSingle(r, 48);
    PaintedSingle(r, 49);
    PaintedSingle(r, 50);
    PaintedSingle(r, 52);
    PaintedSingle(r, 58);
    PaintedSingle(r, 59);
    assert f[48] == SlotChar() && f[59] == SlotChar();
    assert f[49] == UnicodeChar(HourMark, true, false, false, true);
    assert f[50] == UnicodeChar(SlotMark, false, false, false, true);
    assert f[52] == UnicodeChar(HourMark, false, false, false, true);
    assert f[58] == UnicodeChar(HourMark, false, true, false, true);
  }

  // ---------------------------------------------------------------------
  // The "now" marker
  // ---------------------------------------------------------------------

  /** The index the source computes for the "now" marker: the index of t
      rounded to the hour, one back unless it is 0, one forward again when t's
      clock reads 12 with a non-zero minute. */
  function NowIndexAsWritten(t: Time): (i: int)
    ensures 0 <= i <= 74
    ensures t.day == 1 ==> i < 74
  {
    var r := RoundHour(t);
    TimeToIndexOnHour(r);
    var i := TimeToIndex(r);
    var i := if i > 0 then i - 1 else i;
    if Times.Hour(t) == 12 && Minute(t) > 0 then i + 1 else i
  }

  /** The mark that stands for whole hour h of the first day (h = 24 is the
      next midnight): the day's starting edge, an hour mark, the noon edge of
      the half t is in, or the final edge. */
  function HourMarkIndex(h: int, afternoon: bool): int
    requires 0 <= h <= 24
  {
    if h == 0 then 0
    else if h < 12 then 3 * h
    else if h == 12 then (if afternoon then 37 else 36)
    else if h < 24 then 3 * h + 1
    else 73
  }

  /** Hours of t rounded to the nearest hour, counted from the first day's
      midnight. */
  function RoundedHours(t: Time): int
  {
    var r := RoundHour(t);
    if r.day == 1 then r.sec / 3600 else 24
  }

  /** The "now" index with the noon correction applied only when t rounds
      to noon itself (12:01 to 12:29); the source also applies it from
      12:30 to 12:59, which round to 13:00, an index already past the noon
      edge. On the first day the marker then always sits on the mark of the
      hour t rounds to. */
  function NowIndex(t: Time): (i: int)
    ensures 0 <= i <= 74
    ensures t.day == 1 ==>
      i == HourMarkIndex(RoundedHours(t), Times.Hour(t) == 12 && Minute(t) > 0) && i < 74
  {
    var r := RoundHour(t);
    TimeToIndexOnHour(r);
    var i := TimeToIndex(r);
    var i := if i > 0 then i - 1 else i;
    if Times.Hour(t) == 12 && 0 < Minute(t) < 30 then i + 1 else i
  }

  /** Every hour's mark is an hour mark or an edge, never a slot. */
  lemma HourMarkNotSlot(h: int, afternoon: bool)
    requires 0 <= h <= 24
    ensures 0 <= HourMarkIndex(h, afternoon) < 74
    ensures Template()[HourMarkIndex(h, afternoon)].role != SlotMark
  {
    var i := HourMarkIndex(h, afternoon);
    assert Template()[i] == LayoutAt(i);
    if 12 < h < 24 {
      assert i % 37 == 3 * (h - 12);
    }
  }

  /** The corrected index marks an hour mark or an edge, never a slot. */
  lemma NowIndexOnMark(t: Time)
    requires t.day == 1
    ensures NowIndex(t) < 74 && Template()[NowIndex(t)].role != SlotMark
  {
    HourMarkNotSlot(RoundedHours(t), Times.Hour(t) == 12 && Minute(t) > 0);
  }

  /** On the first day the corrected marker never moves backwards. */
  lemma NowIndexMonotone(a: Time, b: Time)
    requires a.day == 1 && b.day == 1 && a.sec <= b.sec
    ensures NowIndex(a) <= NowIndex(b)
  {
    assert RoundedHours(a) <= RoundedHours(b);
  }

  /** The two agree everywhere except 12:30 to 12:59. */
  lemma NowIndexAgrees(t: Time)
    requires !(Times.Hour(t) == 12 && Minute(t) >= 30)
    ensures NowIndex(t) == NowIndexAsWritten(t)
  {
  }

  /** As written, 12:30 puts the marker on a slot, which draws the same with
      or without "now"; the corrected index is the 13 o'clock mark. */
  lemma NowIndexAsWrittenMissesMark()
    ensures NowIndexAsWritten(At(12, 30)) == 41
    ensures Template()[41] == SlotChar()
    ensures Render(Now(Template()[41])) == Render(Template()[41])
    ensures NowIndex(At(12, 30)) == 40 && Template()[40] == HourChar()
  {
    assert At(12, 30) == Time(1, 45000) && RoundHour(Time(1, 45000)) == Time(1, 46800);
    assert TimeToIndex(Time(1, 46800)) == 41;
    var c := Template()[41];
    assert c == LayoutAt(41) == SlotChar();
    assert Render(Now(c)) == [SlotGlyph(Now(c))] && Render(c) == [SlotGlyph(c)];
    assert Template()[40] == LayoutAt(40);
  }

  /** As written, the marker at 12:59 lies after the one at 13:00. */
  lemma NowIndexAsWrittenGoesBack()
    ensures NowIndexAsWritten(At(12, 59)) > NowIndexAsWritten(At(13, 0))
  {
    assert At(12, 59) == Time(1, 46740) && RoundHour(Time(1, 46740)) == Time(1, 46800);
    assert At(13, 0) == Time(1, 46800) && RoundHour(Time(1, 46800)) == Time(1, 46800);
    assert TimeToIndex(Time(1, 46800)) == 41;
  }

  /** The repository's expected "now" positions in the morning (times are
      written as seconds of the first day). */
  lemma NowIndexMorningExamples()
    ensures NowIndex(Time(1, 0)) == 0
    ensures NowIndex(Time(1, 18000)) == 15
    ensures NowIndex(Time(1, 19800)) == 18
    ensures NowIndex(Time(1, 34200)) == 30
  {
    assert RoundedHours(Time(1, 0)) == 0;
    assert RoundedHours(Time(1, 18000)) == 5 && Times.Hour(Time(1, 18000)) == 5;
    assert RoundedHours(Time(1, 19800)) == 6 && Times.Hour(Time(1, 19800)) == 5;
    assert RoundedHours(Time(1, 34200)) == 10 && Times.Hour(Time(1, 34200)) == 9;
  }

  /** ... around noon ... */
  lemma NowIndexNoonExamples()
    ensures NowIndex(Time(1, 43200)) == 36
    ensures NowIndex(Time(1, 43260)) == 37
    ensures NowIndex(Time(1, 46800)) == 40
  {
    assert RoundedHours(Time(1, 43200)) == 12 && Minute(Time(1, 43200)) == 0;
    assert RoundedHours(Time(1, 43260)) == 12;
    assert Times.Hour(Time(1, 43260)) == 12 && Minute(Time(1, 43260)) == 1;
    assert RoundedHours(Time(1, 46800)) == 13 && Times.Hour(Time(1, 46800)) == 13;
  }

  /** ... and later, up to the next day's midnight. */
  lemma NowIndexEveningExamples()
    ensures NowIndex(Time(1, 57600)) == 49
    ensures NowIndex(Time(1, 68400)) == 58
    ensures NowIndex(Time(1, 86340)) == 73
    ensures NowIndex(Time(2, 0)) == 73
  {
    assert RoundedHours(Time(1, 57600)) == 16 && Times.Hour(Time(1, 57600)) == 16;
    assert RoundedHours(Time(1, 68400)) == 19 && Times.Hour(Time(1, 68400)) == 19;
    assert RoundedHours(Time(1, 86340)) == 24 && Times.Hour(Time(1, 86340)) == 23;
    assert RoundHour(Time(2, 0)) == Time(2, 0) && TimeToIndex(Time(2, 0)) == 74;
  }

  /** The filled template with the "now" flag set at one position. */
  function Marked(ss: seq<Schedule>, i: int): seq<UnicodeChar>
    requires 0 <= i < 74
  {
    var f := Filled(ss);
    f[i := Now(f[i])]
  }

  /** Fill, set "now" at position i, render. Exactly one position differs
      from Format's, and there only the now flag is added. */
  method RenderWithNow(ss: seq<Schedule>, i: int) returns (s: string)
    requires Paintable(ss)
    requires 0 <= i < 74
    ensures s == Concat(Marked(ss, i))
    ensures |s| == 74
    ensures forall p :: 0 <= p < 74 && p != i ==> s[p] == Glyph(Filled(ss)[p])
    ensures s[i] == Glyph(Now(Filled(ss)[i]))
  {
    var base := Fill(ss);
    base := base[i := Now(base[i])];
    PaintedProperties(Ranges(Merged(ss)));
    PaintedRoles(base);
    ConcatGlyphs(base);
    s := RenderAll(base);
  }

  /** FormatWithTime as the source writes it: "now" goes at the index the
      source computes, 41 (a slot) from 12:30 to 12:59 of the first day. */
  method FormatWithTime(ss: seq<Schedule>, t: Time) returns (s: string)
    requires Paintable(ss)
    requires NowIndexAsWritten(t) < 74
    ensures s == Concat(Marked(ss, NowIndexAsWritten(t)))
    ensures |s| == 74
    ensures forall p :: 0 <= p < 74 && p != NowIndexAsWritten(t) ==> s[p] == Glyph(Filled(ss)[p])
    ensures s[NowIndexAsWritten(t)] == Glyph(Now(Filled(ss)[NowIndexAsWritten(t)]))
  {
    var i := TimeToIndex(RoundHour(t));
    if i > 0 {
      i := i - 1;
    }
    if Times.Hour(t) == 12 && Minute(t) > 0 {
      i := i + 1;
    }
    s := RenderWithNow(ss, i);
  }

  /** FormatWithTime with the corrected index: on the first day "now" always
      lands on the mark of the hour t rounds to. */
  method FormatWithTimeIntended(ss: seq<Schedule>, t: Time) returns (s: string)
    requires Paintable(ss)
    requires NowIndex(t) < 74
    ensures s == Concat(Marked(ss, NowIndex(t)))
    ensures |s| == 74
    ensures forall p :: 0 <= p < 74 && p != NowIndex(t) ==> s[p] == Glyph(Filled(ss)[p])
    ensures s[NowIndex(t)] == Glyph(Now(Filled(ss)[NowIndex(t)]))
  {
    var i := TimeToIndex(RoundHour(t));
    if i > 0 {
      i := i - 1;
    }
    if Times.Hour(t) == 12 && 0 < Minute(t) < 30 {
      i := i + 1;
    }
    s := RenderWithNow(ss, i);
  }

  /** As written, a later day's 12:30 to 12:59 rounds to that day's 13:00,
      whose index is the template's length: the source indexes past the end. */
  lemma NowIndexAsWrittenLaterDay()
    ensures NowIndexAsWritten(Time(2, 45900)) == 74
    ensures NowIndex(Time(2, 45900)) == 73
  {
    assert RoundHour(Time(2, 45900)) == Time(2, 46800);
    assert Times.Hour(Time(2, 45900)) == 12 && Minute(Time(2, 45900)) == 45;
  }
}
