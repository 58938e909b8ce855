/** `getClassStyle`, the position and size of a card in the day column, over exact
  * rationals; the hover effects are not modelled. */
module Geometry {
  import opened Intervals
  import opened Timetable

  /** The grid starts at 8 AM and an hour is 80 pixels tall. */
  const StartHour: int := 8
  const HourHeight: real := 80.0

  /** `top` and `height` in pixels, `left` and `width` in percent of the day column. */
  datatype Style = Style(top: real, height: real, left: real, width: real)

  /** The vertical pixel offset of a time of day. */
  function PixelsAt(minutes: int): real
  {
    ((minutes - StartHour * 60) as real / 60.0) * HourHeight
  }

  /** `100 / totalOverlaps` when the class shares its group's columns, else the full width. */
  function WidthPercent(totalOverlaps: int): (r: real)
    ensures totalOverlaps > 1 ==> r * totalOverlaps as real == 100.0
    ensures totalOverlaps > 1 ==> 0.0 < r < 100.0
    ensures totalOverlaps <= 1 ==> r == 100.0
  {
    if totalOverlaps > 1 then 100.0 / totalOverlaps as real else 100.0
  }

  function ClassStyle(c: ClassWithPosition): Style
  {
    var width := WidthPercent(c.totalOverlaps);
    Style(
      PixelsAt(c.timeSlot.start),
      ((c.timeSlot.end - c.timeSlot.start) as real / 60.0) * HourHeight - 4.0,
      c.offsetIndex as real * width,
      width)
  }

  /** A card runs from its start line to 4 pixels above its end line. */
  lemma CardSpansItsSlot(c: ClassWithPosition)
    ensures ClassStyle(c).top == PixelsAt(c.timeSlot.start)
    ensures ClassStyle(c).top + ClassStyle(c).height + 4.0 == PixelsAt(c.timeSlot.end)
  {
  }

  /** Later start, lower card. */
  lemma PixelsMonotone(a: int, b: int)
    requires a <= b
    ensures PixelsAt(a) <= PixelsAt(b)
    ensures PixelsAt(b) - PixelsAt(a) == (b - a) as real * 4.0 / 3.0
  {
  }

  /** A column below the group's column count stays inside the day column. */
  lemma {:induction false} FitsInDayColumn(offset: int, total: int)
    requires 0 <= offset < total
    ensures 0.0 <= offset as real * WidthPercent(total)
    ensures offset as real * WidthPercent(total) + WidthPercent(total) <= 100.0
  {
    if total > 1 {
      var w := WidthPercent(total);
      assert (offset + 1) as real <= total as real;
      assert (offset + 1) as real * w <= total as real * w;
    }
  }

  /** Different columns of one width occupy disjoint horizontal bands. */
  lemma {:induction false} ColumnsDoNotMeet(o1: int, o2: int, w: real)
    requires o1 != o2 && w > 0.0
    ensures o1 as real * w + w <= o2 as real * w || o2 as real * w + w <= o1 as real * w
  {
    if o1 < o2 {
      assert (o1 + 1) as real <= o2 as real;
      assert (o1 + 1) as real * w <= o2 as real * w;
    } else {
      assert (o2 + 1) as real <= o1 as real;
      assert (o2 + 1) as real * w <= o1 as real * w;
    }
  }

  /** The horizontal bands of two cards do not meet. */
  predicate SideBySide(a: ClassWithPosition, b: ClassWithPosition)
  {
    var sa, sb := ClassStyle(a), ClassStyle(b);
    sa.left + sa.width <= sb.left || sb.left + sb.width <= sa.left
  }

  /** Where a card's horizontal band begins and how wide it is. */
  lemma StyleBand(c: ClassWithPosition, w: real)
    requires w == WidthPercent(c.totalOverlaps)
    ensures ClassStyle(c).left == c.offsetIndex as real * w && ClassStyle(c).width == w
  {
  }

  /** Two cards with the same column count and different columns inside it do not meet. */
  lemma DistinctColumnsSideBySide(a: ClassWithPosition, b: ClassWithPosition)
    requires a.totalOverlaps == b.totalOverlaps
    requires 0 <= a.offsetIndex < a.totalOverlaps && 0 <= b.offsetIndex < b.totalOverlaps
    requires a.offsetIndex != b.offsetIndex
    ensures SideBySide(a, b)
  {
    assert a.totalOverlaps > 1;
    var w := WidthPercent(a.totalOverlaps);
    assert w > 0.0;
    StyleBand(a, w);
    StyleBand(b, w);
    ColumnsDoNotMeet(a.offsetIndex, b.offsetIndex, w);
    var sa, sb := ClassStyle(a), ClassStyle(b);
    assert sa.left + sa.width <= sb.left || sb.left + sb.width <= sa.left;
  }

  /** A class from 9:00 to 10:30 sits 80 pixels down and is 116 pixels tall. */
  lemma NineToHalfPastTen(c: ClassWithPosition)
    requires c.timeSlot == TimeSlot(540, 630) && c.offsetIndex == 1 && c.totalOverlaps == 4
    ensures ClassStyle(c) == Style(80.0, 116.0, 25.0, 25.0)
  {
  }
}
