/** `marquee(the_text, width, counter)`: the text shown in a field of `width` characters
    at animation step `counter`. Text shorter than the field bounces between the edges
    inside padding; longer text scrolls back and forth under the field. */
module Marquee {
  import opened Notes

  /** Python `" " * k`: `k` spaces, and none at all when `k` is zero or negative. */
  function Spaces(k: int): (r: string)
    ensures |r| == Max(0, k)
    ensures forall i :: 0 <= i < |r| ==> r[i] == ' '
    decreases k
  {
    if k <= 0 then "" else Spaces(k - 1) + " "
  }

  /** How Python turns a slice bound into a position in a sequence of length `n`:
      a negative bound counts from the end, and the result is clamped to `[0, n]`. */
  function SliceBound(i: int, n: nat): (r: nat)
    ensures r <= n
    ensures 0 <= i <= n ==> r == i
  {
    if i < 0 then Max(0, i + n) else if n < i then n else i
  }

  /** Python `s[a:b]`: in-range bounds give Dafny's `s[a..b]`, and reversed bounds give "". */
  function PySlice(s: string, a: int, b: int): (r: string)
    ensures 0 <= a <= b <= |s| ==> r == s[a..b]
    ensures |r| == Max(0, SliceBound(b, |s|) - SliceBound(a, |s|))
  {
    var i, j := SliceBound(a, |s|), SliceBound(b, |s|);
    if i < j then s[i..j] else ""
  }

  /** The first branch of `marquee`, for text no longer than the field: shorter text
      is padded to the field width, text of exactly the field width gets one space. */
  function PadWindow(text: string, width: int, counter: int): (r: string)
    requires |text| <= width
    ensures |text| < width ==> |r| == width
    ensures |text| == width ==> r == " " + text
  {
    var cycleLength := Max(1, (width - |text|) * 2);
    var p := counter % cycleLength;
    var position := if p >= width - |text| then cycleLength - p else p;
    assert |text| < width ==> 0 <= position <= width - |text|;
    assert |text| == width ==> position == 1 && Spaces(position) == " ";
    Spaces(position) + text + Spaces(width - |text| - position)
  }

  /** Where the window starts in the second branch of `marquee`: `counter` runs over a
      cycle of twice the number of window positions, forward and then back. */
  function ScrollStart(text: string, width: int, counter: int): (r: int)
    requires width < |text|
    ensures 0 <= r <= |text| - width
  {
    var scrollLength := |text| - width + 1;
    var cycleLength := Max(1, 2 * scrollLength);
    var position := counter % cycleLength;
    if position < scrollLength then position else 2 * scrollLength - position - 1
  }

  /** The second branch of `marquee`, for text longer than the field: for a field of
      non-negative width, exactly the field width. */
  function ScrollWindow(text: string, width: int, counter: int): (r: string)
    requires width < |text|
    ensures 0 <= width ==> |r| == width
  {
    var startIdx := ScrollStart(text, width, counter);
    var result := PySlice(text, startIdx, startIdx + width);
    result + Spaces(width - |result|)
  }

  /** `r` is the `|r|`-character part of `text` that begins at `start`. */
  ghost predicate IsWindowOf(r: string, text: string, start: int) {
    0 <= start <= |text| - |r| && r == text[start..start + |r|]
  }

  /** For a field of non-negative width, the scroll branch shows the window at `ScrollStart`. */
  lemma ScrollWindowAtStart(text: string, width: int, counter: int)
    requires 0 <= width < |text|
    ensures 0 <= ScrollStart(text, width, counter) <= |text| - width
    ensures ScrollWindow(text, width, counter)
            == text[ScrollStart(text, width, counter)..ScrollStart(text, width, counter) + width]
  {
    var start := ScrollStart(text, width, counter);
    assert PySlice(text, start, start + width) == text[start..start + width];
    assert Spaces(0) == "";
    assert text[start..start + width] + "" == text[start..start + width];
  }

  /** `marquee` as written: the result fills the field exactly, except for text exactly
      as wide as the field, which comes out one character wider. */
  function Marquee(text: string, width: int, counter: int): (r: string)
    ensures 0 <= width && |text| != width ==> |r| == width
    ensures |text| == width ==> |r| == width + 1
  {
    if |text| <= width then PadWindow(text, width, counter) else ScrollWindow(text, width, counter)
  }

  /** Shorter text is padded to exactly the field width, with the text after
      `position` spaces for some `position` between 0 and the free room. */
  lemma MarqueeShort(text: string, width: int, counter: int)
    requires |text| < width
    ensures |Marquee(text, width, counter)| == width
    ensures exists position :: 0 <= position <= width - |text|
              && Marquee(text, width, counter) == Spaces(position) + text + Spaces(width - |text| - position)
  {
    var room := width - |text|;
    var p := counter % (2 * room);
    var position := if p >= room then 2 * room - p else p;
    assert 0 <= position <= room;
    assert Marquee(text, width, counter) == Spaces(position) + text + Spaces(room - position);
  }

  /** Every padding from 0 to the free room is shown: at step `position` the text sits
      after exactly `position` spaces. */
  lemma MarqueeShortReachesEveryPosition(text: string, width: int, position: int)
    requires |text| < width && 0 <= position <= width - |text|
    ensures Marquee(text, width, position) == Spaces(position) + text + Spaces(width - |text| - position)
  {
    var room := width - |text|;
    assert position % (2 * room) == position;
  }

  /** Text exactly as wide as the field comes out one space longer than the field:
      the cycle length is forced up to 1, so the position flips to 1 and the trailing
      padding `" " * -1` is empty. */
  lemma MarqueeExactWidth(text: string, counter: int)
    ensures Marquee(text, |text|, counter) == " " + text
    ensures |Marquee(text, |text|, counter)| == |text| + 1
  {
    assert counter % 1 == 0;
    assert Spaces(1) == " ";
  }

  /** Longer text shows a contiguous window of exactly the field width. */
  lemma MarqueeLong(text: string, width: int, counter: int)
    requires 0 <= width < |text|
    ensures |Marquee(text, width, counter)| == width
    ensures exists start :: IsWindowOf(Marquee(text, width, counter), text, start)
  {
    ScrollWindowAtStart(text, width, counter);
    assert IsWindowOf(Marquee(text, width, counter), text, ScrollStart(text, width, counter));
  }

  /** A position inside the cycle is its own remainder. */
  lemma ModInRange(a: int, m: int)
    requires 0 <= a < m
    ensures a % m == a
  {
  }

  /** The scroll runs forward and back: the window starting at `start` is shown at
      step `start` on the way forward and at step `2 * (|text| - width + 1) - 1 - start`
      on the way back. */
  lemma MarqueeLongPingPong(text: string, width: int, start: int)
    requires 0 <= width < |text| && 0 <= start <= |text| - width
    ensures Marquee(text, width, start) == text[start..start + width]
    ensures Marquee(text, width, 2 * (|text| - width + 1) - 1 - start) == text[start..start + width]
  {
    var scrollLength := |text| - width + 1;
    var back := 2 * scrollLength - 1 - start;
    ModInRange(start, 2 * scrollLength);
    ModInRange(back, 2 * scrollLength);
    assert ScrollStart(text, width, start) == start;
    assert ScrollStart(text, width, back) == start;
    ScrollWindowAtStart(text, width, start);
    ScrollWindowAtStart(text, width, back);
  }

  /** `PadWindow` with the bounce test `position > width - len(text)` instead of `>=`:
      identical whenever there is room to bounce, and no flip when there is none. */
  function PadWindowFixed(text: string, width: int, counter: int): string
    requires |text| <= width
  {
    var cycleLength := Max(1, (width - |text|) * 2);
    var p := counter % cycleLength;
    var position := if p > width - |text| then cycleLength - p else p;
    Spaces(position) + text + Spaces(width - |text| - position)
  }

  /** `marquee` with the exact-width case corrected. */
  function MarqueeFixed(text: string, width: int, counter: int): string {
    if |text| <= width then PadWindowFixed(text, width, counter) else ScrollWindow(text, width, counter)
  }

  /** The corrected marquee always fills the field exactly, and differs from the
      original only on text exactly as wide as the field, which it shows unpadded. */
  lemma MarqueeFixedWidth(text: string, width: int, counter: int)
    requires 0 <= width
    ensures |MarqueeFixed(text, width, counter)| == width
    ensures |text| == width ==> MarqueeFixed(text, width, counter) == text
    ensures |text| != width ==> MarqueeFixed(text, width, counter) == Marquee(text, width, counter)
  {
    if |text| < width {
      var room := width - |text|;
      var p := counter % (2 * room);
      assert p != room ==> (p > room <==> p >= room);
    } else if |text| == width {
      assert counter % 1 == 0;
      assert Spaces(0) == "";
      assert text + "" == text;
    } else {
      ScrollWindowAtStart(text, width, counter);
    }
  }
}
