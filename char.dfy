// The slot character: a role (hour mark, edge, slot) and four flags, turned
// into one box-drawing glyph by first-match tables; and the two operations on
// lists of characters, Repeat and String.
module Chars {

  datatype Option<T> = None | Some(value: T)

  /** The role of a character; NoRole is Go's zero value of charType. */
  datatype Role = NoRole | HourMark | EdgeMark | SlotMark

  /** UnicodeChar: role plus the flags start, end, now and in (here `filled`). */
  datatype UnicodeChar = UnicodeChar(role: Role, start: bool, end: bool, now: bool, filled: bool)

  /** NewUnicodeChar: the zero value, no role and no flag. */
  function NewUnicodeChar(): (c: UnicodeChar)
    ensures c.role == NoRole && !c.start && !c.end && !c.now && !c.filled
    ensures Render(c) == ""
  {
    UnicodeChar(NoRole, false, false, false, false)
  }

  // ---------------------------------------------------------------------
  // Builders: each returns a copy with one thing changed
  // ---------------------------------------------------------------------

  function Start(c: UnicodeChar): (r: UnicodeChar)
    ensures r.start
    ensures r.role == c.role && r.end == c.end && r.now == c.now && r.filled == c.filled
  {
    c.(start := true)
  }

  function End(c: UnicodeChar): (r: UnicodeChar)
    ensures r.end
    ensures r.role == c.role && r.start == c.start && r.now == c.now && r.filled == c.filled
  {
    c.(end := true)
  }

  function Fill(c: UnicodeChar): (r: UnicodeChar)
    ensures r.filled
    ensures r.role == c.role && r.start == c.start && r.end == c.end && r.now == c.now
  {
    c.(filled := true)
  }

  function Now(c: UnicodeChar): (r: UnicodeChar)
    ensures r.now
    ensures r.role == c.role && r.start == c.start && r.end == c.end && r.filled == c.filled
  {
    c.(now := true)
  }

  function Hour(c: UnicodeChar): (r: UnicodeChar)
    ensures r.role == HourMark
    ensures r.start == c.start && r.end == c.end && r.now == c.now && r.filled == c.filled
  {
    c.(role := HourMark)
  }

  function Edge(c: UnicodeChar): (r: UnicodeChar)
    ensures r.role == EdgeMark
    ensures r.start == c.start && r.end == c.end && r.now == c.now && r.filled == c.filled
  {
    c.(role := EdgeMark)
  }

  function Slot(c: UnicodeChar): (r: UnicodeChar)
    ensures r.role == SlotMark
    ensures r.start == c.start && r.end == c.end && r.now == c.now && r.filled == c.filled
  {
    c.(role := SlotMark)
  }

  /** Setting a flag twice is setting it once, and the order of the flag
      setters does not matter. */
  lemma FlagSettersIdempotentAndCommute(c: UnicodeChar)
    ensures Start(Start(c)) == Start(c) && End(End(c)) == End(c)
    ensures Fill(Fill(c)) == Fill(c) && Now(Now(c)) == Now(c)
    ensures Start(End(c)) == End(Start(c)) && Start(Fill(c)) == Fill(Start(c))
    ensures Start(Now(c)) == Now(Start(c)) && End(Fill(c)) == Fill(End(c))
    ensures End(Now(c)) == Now(End(c)) && Fill(Now(c)) == Now(Fill(c))
  {
  }

  // ---------------------------------------------------------------------
  // Box-drawing geometry: what each glyph looks like, by its Unicode name
  // ---------------------------------------------------------------------

  datatype Weight = Absent | Light | Heavy

  /** The four arms of a box-drawing character. */
  datatype Arms = Arms(up: Weight, down: Weight, left: Weight, right: Weight)

  function Weigh(heavy: bool): Weight
  {
    if heavy then Heavy else Light
  }

  /** The arms of the box-drawing characters the timeline uses, read off their
      Unicode character names (U+2500 LIGHT HORIZONTAL and so on). */
  function ArmsOf(g: char): Option<Arms>
  {
    match g
    case '─' => Some(Arms(Absent, Absent, Light, Light))  // LIGHT HORIZONTAL
    case '━' => Some(Arms(Absent, Absent, Heavy, Heavy))  // HEAVY HORIZONTAL
    case '├' => Some(Arms(Light, Light, Absent, Light))  // LIGHT VERTICAL AND RIGHT
    case '┝' => Some(Arms(Light, Light, Absent, Heavy))  // VERTICAL LIGHT AND RIGHT HEAVY
    case '┠' => Some(Arms(Heavy, Heavy, Absent, Light))  // VERTICAL HEAVY AND RIGHT LIGHT
    case '┣' => Some(Arms(Heavy, Heavy, Absent, Heavy))  // HEAVY VERTICAL AND RIGHT
    case '┤' => Some(Arms(Light, Light, Light, Absent))  // LIGHT VERTICAL AND LEFT
    case '┥' => Some(Arms(Light, Light, Heavy, Absent))  // VERTICAL LIGHT AND LEFT HEAVY
    case '┨' => Some(Arms(Heavy, Heavy, Light, Absent))  // VERTICAL HEAVY AND LEFT LIGHT
    case '┫' => Some(Arms(Heavy, Heavy, Heavy, Absent))  // HEAVY VERTICAL AND LEFT
    case '┼' => Some(Arms(Light, Light, Light, Light))  // LIGHT VERTICAL AND HORIZONTAL
    case '┽' => Some(Arms(Light, Light, Heavy, Light))  // LEFT HEAVY AND RIGHT VERTICAL LIGHT
    case '┾' => Some(Arms(Light, Light, Light, Heavy))  // RIGHT HEAVY AND LEFT VERTICAL LIGHT
    case '┿' => Some(Arms(Light, Light, Heavy, Heavy))  // VERTICAL LIGHT AND HORIZONTAL HEAVY
    case '╂' => Some(Arms(Heavy, Heavy, Light, Light))  // VERTICAL HEAVY AND HORIZONTAL LIGHT
    case '╉' => Some(Arms(Heavy, Heavy, Heavy, Light))  // RIGHT LIGHT AND LEFT VERTICAL HEAVY
    case '╊' => Some(Arms(Heavy, Heavy, Light, Heavy))  // LEFT LIGHT AND RIGHT VERTICAL HEAVY
    case '╋' => Some(Arms(Heavy, Heavy, Heavy, Heavy))  // HEAVY VERTICAL AND HORIZONTAL
    case _ => None
  }

  /** How a character is meant to look: the vertical stroke is heavy at "now";
      a horizontal arm is heavy where the filled range runs. An hour mark that
      only starts a range has a light left arm, one that only ends a range a
      light right arm. An edge opens to the right when it starts the day or
      the afternoon and to the left otherwise. A slot is a horizontal line. */
  function Look(c: UnicodeChar): Arms
    requires c.role != NoRole
  {
    match c.role
    case HourMark =>
      Arms(Weigh(c.now), Weigh(c.now),
           Weigh(c.filled && !(c.start && !c.end)), Weigh(c.filled && !(c.end && !c.start)))
    case EdgeMark =>
      if c.start then Arms(Weigh(c.now), Weigh(c.now), Absent, Weigh(c.filled))
      else Arms(Weigh(c.now), Weigh(c.now), Weigh(c.filled), Absent)
    case SlotMark =>
      Arms(Absent, Absent, Weigh(c.filled), Weigh(c.filled))
  }

  // ---------------------------------------------------------------------
  // Glyph tables, first match wins
  // ---------------------------------------------------------------------

  function HourGlyph(c: UnicodeChar): (g: char)
    requires c.role == HourMark
    ensures ArmsOf(g) == Some(Look(c))
  {
    if c.now && c.filled && c.start && !c.end then '╊'
    else if c.now && c.filled && c.end && !c.start then '╉'
    else if c.now && c.filled then '╋'
    else if c.now then '╂'
    else if c.filled && c.start && !c.end then '┾'
    else if c.filled && c.end && !c.start then '┽'
    else if c.filled then '┿'
    else '┼'
  }

  /** The end flag is never consulted for an edge. */
  function EdgeGlyph(c: UnicodeChar): (g: char)
    requires c.role == EdgeMark
    ensures ArmsOf(g) == Some(Look(c))
  {
    if c.start && c.now && c.filled then '┣'
    else if c.start && c.now then '┠'
    else if c.start && c.filled then '┝'
    else if c.start then '├'
    else if c.now && c.filled then '┫'
    else if c.now then '┨'
    else if c.filled then '┥'
    else '┤'
  }

  /** A slot shows only whether it is filled. */
  function SlotGlyph(c: UnicodeChar): (g: char)
    requires c.role == SlotMark
    ensures ArmsOf(g) == Some(Look(c))
    ensures g == (if c.filled then '━' else '─')
  {
    if c.filled then '━' else '─'
  }

  /** The glyph of a character that has a role. */
  function Glyph(c: UnicodeChar): (g: char)
    requires c.role != NoRole
    ensures ArmsOf(g) == Some(Look(c))
  {
    match c.role
    case HourMark => HourGlyph(c)
    case EdgeMark => EdgeGlyph(c)
    case SlotMark => SlotGlyph(c)
  }

  /** UnicodeChar.String: nothing for a character without a role, otherwise
      exactly one glyph, drawn as Look says. */
  function Render(c: UnicodeChar): (s: string)
    ensures c.role == NoRole <==> s == ""
    ensures c.role != NoRole ==> |s| == 1 && ArmsOf(s[0]) == Some(Look(c))
  {
    if c.role == NoRole then "" else [Glyph(c)]
  }

  /** Characters that look alike render alike, and conversely: the glyph shows
      exactly the role-dependent look of a character. */
  lemma RenderShowsLook(c: UnicodeChar, d: UnicodeChar)
    requires c.role != NoRole && d.role != NoRole
    ensures Render(c) == Render(d) <==> Look(c) == Look(d)
  {
    if Look(c) == Look(d) {
      LookDeterminesGlyph(c, d);
    }
  }

  lemma LookDeterminesGlyph(c: UnicodeChar, d: UnicodeChar)
    requires c.role != NoRole && d.role != NoRole
    requires Look(c) == Look(d)
    ensures Glyph(c) == Glyph(d)
  {
    var g, h := Glyph(c), Glyph(d);
    assert ArmsOf(g) == ArmsOf(h);
    ArmsOfInjective(g, h);
  }

  /** No two box-drawing characters of the table share their arms. */
  lemma ArmsOfInjective(g: char, h: char)
    requires ArmsOf(g).Some? && ArmsOf(g) == ArmsOf(h)
    ensures g == h
  {
  }

  // ---------------------------------------------------------------------
  // Chars: lists of characters
  // ---------------------------------------------------------------------

  /** n copies of cc, one after another; nothing when n <= 0. */
  function Repeated<T>(cc: seq<T>, n: int): seq<T>
    decreases n
  {
    if n <= 0 then [] else Repeated(cc, n - 1) + cc
  }

  /** Element i of n copies of cc is element i mod |cc| of cc. */
  lemma {:induction false} RepeatedAt<T>(cc: seq<T>, n: int)
    ensures n <= 0 ==> Repeated(cc, n) == []
    ensures n > 0 ==> |Repeated(cc, n)| == |cc| * n
    ensures n > 0 ==> forall i :: 0 <= i < |cc| * n ==> Repeated(cc, n)[i] == cc[i % |cc|]
    decreases n
  {
    if n > 0 {
      RepeatedAt(cc, n - 1);
      var prev := Repeated(cc, n - 1);
      assert |prev| == |cc| * (n - 1);
      forall i | 0 <= i < |cc| * n
        ensures Repeated(cc, n)[i] == cc[i % |cc|]
      {
        if i < |prev| {
          assert Repeated(cc, n)[i] == prev[i];
        } else {
          var j := i - |prev|;
          assert Repeated(cc, n)[i] == cc[j];
          ModShift(j, |cc|, n - 1);
        }
      }
    }
  }

  lemma {:induction false} ModShift(j: int, m: int, k: nat)
    requires 0 <= j < m
    ensures (m * k + j) % m == j
  {
    if k > 0 {
      ModShift(j, m, k - 1);
      assert m * k + j == (m * (k - 1) + j) + m;
      ModAddDivisor(m * (k - 1) + j, m);
    }
  }

  lemma {:induction false} MulAtLeast(m: int, d: int)
    requires m > 0 && d >= 1
    ensures m * d >= m
    decreases d
  {
    if d > 1 {
      MulAtLeast(m, d - 1);
      assert m * d == m * (d - 1) + m;
    }
  }
  lemma ModAddDivisor(y: int, m: int)
    requires y >= 0 && m > 0
    ensures (y + m) % m == y % m
  {
    var q, r := y / m, y % m;
    var q2, r2 := (y + m) / m, (y + m) % m;
    assert y == m * q + r;
    assert y + m == m * q2 + r2;
    var d := q + 1 - q2;
    assert m * d == m * q + m - m * q2;
    assert m * d == r2 - r;
    if d >= 1 {
      MulAtLeast(m, d);
    } else if d <= -1 {
      MulAtLeast(m, -d);
    }
  }

  /** Chars.Repeat: append cc to an empty list n times. */
  method Repeat(cc: seq<UnicodeChar>, n: int) returns (repeated: seq<UnicodeChar>)
    ensures repeated == Repeated(cc, n)
    ensures n <= 0 ==> repeated == []
    ensures n > 0 ==> |repeated| == |cc| * n
    ensures n > 0 ==> forall i :: 0 <= i < |repeated| ==> repeated[i] == cc[i % |cc|]
  {
    RepeatedAt(cc, n);
    if n <= 0 {
      return [];
    }
    repeated := [];
    for i := 0 to n
      invariant repeated == Repeated(cc, i)
    {
      repeated := repeated + cc;
    }
  }

  /** The in-order concatenation of the characters' renderings. */
  function Concat(cc: seq<UnicodeChar>): string
  {
    if cc == [] then "" else Concat(cc[..|cc| - 1]) + Render(cc[|cc| - 1])
  }

  /** strings.Join with an empty separator. */
  function Join(ss: seq<string>): string
  {
    if ss == [] then "" else Join(ss[..|ss| - 1]) + ss[|ss| - 1]
  }

  lemma {:induction false} JoinRendered(cc: seq<UnicodeChar>, ss: seq<string>)
    requires |ss| == |cc|
    requires forall i :: 0 <= i < |cc| ==> ss[i] == Render(cc[i])
    ensures Join(ss) == Concat(cc)
    decreases |cc|
  {
    if cc != [] {
      JoinRendered(cc[..|cc| - 1], ss[..|ss| - 1]);
    }
  }

  /** Chars.String: render each character into a slice, then join. */
  method RenderAll(cc: seq<UnicodeChar>) returns (s: string)
    ensures s == Concat(cc)
  {
    var ss := new string[|cc|];
    for i := 0 to |cc|
      invariant forall k :: 0 <= k < i ==> ss[k] == Render(cc[k])
    {
      ss[i] := Render(cc[i]);
    }
    JoinRendered(cc, ss[..]);
    s := Join(ss[..]);
  }

  /** When every character has a role, the rendering has one glyph per
      character, in order. */
  lemma {:induction false} ConcatGlyphs(cc: seq<UnicodeChar>)
    requires forall i :: 0 <= i < |cc| ==> cc[i].role != NoRole
    ensures |Concat(cc)| == |cc|
    ensures forall i :: 0 <= i < |cc| ==> Concat(cc)[i] == Glyph(cc[i])
    decreases |cc|
  {
    if cc != [] {
      ConcatGlyphs(cc[..|cc| - 1]);
    }
  }
}
