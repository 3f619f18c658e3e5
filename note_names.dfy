/** The text shown as `last_note`: a pitch-class name followed by the octave number,
    `note_names[n % 12] + str(n // 12 - 1)` (so MIDI 60 is "C4" and 69 is "A4"). */
module NoteNames {
  import opened Notes

  const NOTE_NAMES: seq<string> := ["C", "C#", "D", "D#", "E", "F", "F#", "G", "G#", "A", "A#", "B"]

  predicate IsDigit(c: char) {
    '0' <= c <= '9'
  }

  function Digit(d: nat): (c: char)
    requires d < 10
    ensures IsDigit(c)
  {
    ('0' as int + d) as char
  }

  function DigitValue(c: char): (d: nat)
    requires IsDigit(c)
    ensures d < 10
  {
    c as int - '0' as int
  }

  /** Python `str(k)` for a non-negative `k`: its decimal digits, most significant first. */
  function NatToString(k: nat): (r: string)
    ensures 0 < |r| && forall i :: 0 <= i < |r| ==> IsDigit(r[i])
    ensures 1 < |r| ==> r[0] != '0'
    decreases k
  {
    if k < 10 then [Digit(k)] else NatToString(k / 10) + [Digit(k % 10)]
  }

  /** Python `str(k)`: a minus sign before the digits of `-k` when `k` is negative. */
  function IntToString(k: int): (r: string)
    ensures 0 < |r| && (r[0] == '-' || IsDigit(r[0]))
  {
    if k < 0 then "-" + NatToString(-k) else NatToString(k)
  }

  /** `note_names[n % 12] + str(n // 12 - 1)`. Python's `%` and `//` round toward minus
      infinity, which for the divisor 12 is what Dafny's `%` and `/` do. */
  function NoteName(n: int): (r: string)
    ensures 2 <= |r| && 'A' <= r[0] <= 'G'
    ensures 0 <= n < 128 ==> |r| <= 4
  {
    NOTE_NAMES[n % 12] + IntToString(n / 12 - 1)
  }

  /** Reads back a string of decimal digits. */
  function ParseNat(s: string): nat
    requires 0 < |s| && forall i :: 0 <= i < |s| ==> IsDigit(s[i])
    decreases |s|
  {
    if |s| == 1 then DigitValue(s[0])
    else ParseNat(s[..|s| - 1]) * 10 + DigitValue(s[|s| - 1])
  }

  /** Reads back an optionally signed decimal integer. */
  function ParseInt(s: string): Option<int> {
    if 0 < |s| && s[0] == '-' then
      if 1 < |s| && forall i :: 1 <= i < |s| ==> IsDigit(s[i]) then Some(-(ParseNat(s[1..]) as int)) else None
    else if 0 < |s| && forall i :: 0 <= i < |s| ==> IsDigit(s[i]) then Some(ParseNat(s))
    else None
  }

  /** The position of `name` in `NOTE_NAMES`. */
  function PitchClass(name: string): (r: Option<nat>)
    ensures r.Some? ==> r.value < 12 && NOTE_NAMES[r.value] == name
  {
    if name == "C" then Some(0) else if name == "C#" then Some(1)
    else if name == "D" then Some(2) else if name == "D#" then Some(3)
    else if name == "E" then Some(4) else if name == "F" then Some(5)
    else if name == "F#" then Some(6) else if name == "G" then Some(7)
    else if name == "G#" then Some(8) else if name == "A" then Some(9)
    else if name == "A#" then Some(10) else if name == "B" then Some(11)
    else None
  }

  /** Reads a displayed note name back into a MIDI note number. */
  function ParseNoteName(s: string): Option<int> {
    var k := if 2 <= |s| && s[1] == '#' then 2 else 1;
    if |s| < k then None
    else match (PitchClass(s[..k]), ParseInt(s[k..]))
      case (Some(c), Some(octave)) => Some((octave + 1) * 12 + c)
      case _ => None
  }

  lemma {:induction false} NatToStringRoundTrip(k: nat)
    ensures ParseNat(NatToString(k)) == k
    decreases k
  {
    if 10 <= k {
      var s := NatToString(k);
      assert s[..|s| - 1] == NatToString(k / 10);
      NatToStringRoundTrip(k / 10);
    }
  }

  lemma IntToStringRoundTrip(k: int)
    ensures ParseInt(IntToString(k)) == Some(k)
  {
    if k < 0 {
      var digits := NatToString(-k);
      var r := "-" + digits;
      assert r[1..] == digits;
      assert forall i :: 1 <= i < |r| ==> r[i] == digits[i - 1];
      NatToStringRoundTrip(-k);
    } else {
      NatToStringRoundTrip(k);
    }
  }

  /** Every name in the table reads back to its own position. */
  lemma PitchClassOfName(c: nat)
    requires c < 12
    ensures PitchClass(NOTE_NAMES[c]) == Some(c)
    ensures |NOTE_NAMES[c]| == 1 || (|NOTE_NAMES[c]| == 2 && NOTE_NAMES[c][1] == '#')
  {
  }

  /** A table name followed by a number splits back into the two. */
  lemma ParseNameThenNumber(c: nat, rest: string)
    requires c < 12 && 0 < |rest| && (rest[0] == '-' || IsDigit(rest[0]))
    ensures ParseNoteName(NOTE_NAMES[c] + rest)
            == match ParseInt(rest) case Some(o) => Some((o + 1) * 12 + c) case None => None
  {
    PitchClassOfName(c);
    var s := NOTE_NAMES[c] + rest;
    var k := |NOTE_NAMES[c]|;
    assert s[..k] == NOTE_NAMES[c] && s[k..] == rest;
    assert k == 1 ==> s[1] == rest[0];
  }

  /** A table name followed by `str` of an octave reads back to the note it names. */
  lemma NameAndOctaveRoundTrip(c: nat, octave: int)
    requires c < 12
    ensures ParseNoteName(NOTE_NAMES[c] + IntToString(octave)) == Some((octave + 1) * 12 + c)
  {
    IntToStringRoundTrip(octave);
    ParseNameThenNumber(c, IntToString(octave));
  }

  /** The displayed name determines the note: pitch class and octave read back to `n`. */
  lemma NoteNameRoundTrip(n: int)
    ensures ParseNoteName(NoteName(n)) == Some(n)
  {
    var c, octave := n % 12, n / 12 - 1;
    NameAndOctaveRoundTrip(c, octave);
    OctaveAndClass(n);
  }

  /** A note is twelve times one more than its octave, plus its pitch class. */
  lemma OctaveAndClass(n: int)
    ensures (n / 12 - 1 + 1) * 12 + n % 12 == n
  {
  }

  /** Different notes are shown under different names. */
  lemma NoteNameInjective(m: int, n: int)
    ensures NoteName(m) == NoteName(n) ==> m == n
  {
    NoteNameRoundTrip(m);
    NoteNameRoundTrip(n);
  }
}
