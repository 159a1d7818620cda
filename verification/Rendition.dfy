/** Colours and attributes, and the control sequence that selects them. */
module Rendition {
  import opened Options

  datatype Attribute = Bold | Faint | Italic | Underlined | Blink | Inverse | Invisible | Strikethrough

  /** A colour: 0 for the default, a palette entry offset by 30 or 40, or 24 bits with a mark above them. */
  type Color = nat

  const TRUE_COLOR := 0x100_0000

  /** A parameter larger than this is not acted on. */
  const PARAM_MAX := 65535

  datatype Renditions = Renditions(fg: Color, bg: Color, attrs: set<Attribute>)

  const INITIAL := Plain(0)

  /** What an erased cell is drawn with. */
  function Plain(bg: Color): Renditions {
    Renditions(0, bg, {})
  }

  predicate IsTrueColor(c: Color) {
    c / TRUE_COLOR % 2 == 1
  }

  function MakeTrueColor(r: nat, g: nat, b: nat): Color
    requires r < 0x100 && g < 0x100 && b < 0x100
  {
    TRUE_COLOR + 0x1_0000 * r + 0x100 * g + b
  }

  function SetForeground(r: Renditions, num: int): Renditions {
    if 0 <= num <= 255 then r.(fg := 30 + num)
    else if num >= 0 && IsTrueColor(num) then r.(fg := num)
    else r
  }

  function SetBackground(r: Renditions, num: int): Renditions {
    if 0 <= num <= 255 then r.(bg := 40 + num)
    else if num >= 0 && IsTrueColor(num) then r.(bg := num)
    else r
  }

  function With(r: Renditions, attrs: set<Attribute>, on: bool): Renditions {
    r.(attrs := if on then r.attrs + attrs else r.attrs - attrs)
  }

  /** Apply one parameter of a rendition sequence. */
  function SetRendition(r: Renditions, num: nat): Renditions {
    if num == 0 then INITIAL
    else if num == 39 then r.(fg := 0)
    else if num == 49 then r.(bg := 0)
    else if 30 <= num <= 37 then r.(fg := num)
    else if 40 <= num <= 47 then r.(bg := num)
    else if 90 <= num <= 97 then r.(fg := num - 90 + 38)
    else if 100 <= num <= 107 then r.(bg := num - 100 + 48)
    else if num == 22 then With(r, {Bold, Faint}, false)
    else
      var on := num < 10;
      match num
      case 1 => With(r, {Bold}, on)
      case 2 => With(r, {Faint}, on)
      case 3 | 23 => With(r, {Italic}, on)
      case 4 | 24 => With(r, {Underlined}, on)
      case 5 | 25 => With(r, {Blink}, on)
      case 7 | 27 => With(r, {Inverse}, on)
      case 8 | 28 => With(r, {Invisible}, on)
      case 9 | 29 => With(r, {Strikethrough}, on)
      case _ => r
  }

  // ---------- writing a rendition as parameters ----------

  const ATTRIBUTES := [Bold, Faint, Italic, Underlined, Blink, Inverse, Invisible, Strikethrough]

  function Code(a: Attribute): nat {
    match a
    case Bold => 1
    case Faint => 2
    case Italic => 3
    case Underlined => 4
    case Blink => 5
    case Inverse => 7
    case Invisible => 8
    case Strikethrough => 9
  }

  function AttributeParams(attrs: set<Attribute>, order: seq<Attribute>): seq<int> {
    if order == [] then []
    else (if order[0] in attrs then [Code(order[0])] else []) + AttributeParams(attrs, order[1..])
  }

  /** Parameters that select a colour; `base` is 30 for the foreground and 40 for the background. */
  function ColorParams(c: Color, base: nat): seq<int> {
    if c == 0 then []
    else if IsTrueColor(c) then [base + 8, 2, c / 0x1_0000 % 0x100, c / 0x100 % 0x100, c % 0x100]
    else if c > base + 7 then [base + 8, 5, Received(c - base)]
    else [c]
  }

  /** A parameter as the receiving terminal reads it: one it will not act on reads as absent. */
  function Received(n: int): int {
    if n <= PARAM_MAX then n else -1
  }

  /** What SGR is given to select a rendition, from whatever was selected before. */
  function Sgr(r: Renditions): seq<int> {
    [0] + AttributeParams(r.attrs, ATTRIBUTES) + ColorParams(r.fg, 30) + ColorParams(r.bg, 40)
  }

  // ---------- reading them back ----------

  function GetParam(params: seq<int>, n: nat, default: int): int {
    var ret := if n < |params| then params[n] else default;
    if ret < 1 then default else ret
  }

  /** A colour component keeps only what a colour has room for below its mark. */
  function ReadTrueColor(r: int, g: int, b: int): int
    requires r >= 0 && g >= 0 && b >= 0
  {
    if r < 0x100 && g < 0x100 && b < 0x100 then MakeTrueColor(r, g, b)
    else OrColor(r, g, b)
  }

  /** Components too large for a byte run into each other bit by bit, as the shifts and ors do. */
  function OrColor(r: int, g: int, b: int): int
    requires r >= 0 && g >= 0 && b >= 0
  {
    if r <= PARAM_MAX && g <= PARAM_MAX && b <= PARAM_MAX then
      var v: bv32 := (0x100_0000 as bv32) | ((r as bv32) << 16) | ((g as bv32) << 8) | (b as bv32);
      var n := v as int;
      if n < 0x8000_0000 then n else n - 0x1_0000_0000
    else -1
  }

  /** Apply the parameters from the `i`th on. */
  function ApplySgr(r: Renditions, params: seq<int>, i: nat): Renditions
    requires i <= |params|
    decreases |params| - i
  {
    if i == |params| then r
    else
      var num := GetParam(params, i, 0);
      if (num == 38 || num == 48) && |params| - i >= 3 && GetParam(params, i + 1, -1) == 5 then
        var color := GetParam(params, i + 2, 0);
        ApplySgr(if num == 38 then SetForeground(r, color) else SetBackground(r, color), params, i + 3)
      else if (num == 38 || num == 48) && |params| - i >= 5 && GetParam(params, i + 1, -1) == 2 then
        var color := ReadTrueColor(GetParam(params, i + 2, 0), GetParam(params, i + 3, 0), GetParam(params, i + 4, 0));
        ApplySgr(if num == 38 then SetForeground(r, color) else SetBackground(r, color), params, i + 5)
      else
        ApplySgr(SetRendition(r, num), params, i + 1)
  }

  // ---------- the two agree exactly on the colours a terminal can be told ----------

  predicate CanonicalColor(c: Color, base: nat) {
    c == 0 || base <= c <= base + 255 || TRUE_COLOR <= c < 2 * TRUE_COLOR
  }

  predicate Canonical(r: Renditions) {
    CanonicalColor(r.fg, 30) && CanonicalColor(r.bg, 40)
  }

  /** Reading ignores what was read before: parameters from `i` on are a sequence of their own. */
  lemma {:induction false} ApplyRest(r: Renditions, params: seq<int>, i: nat, j: nat)
    requires i <= j <= |params|
    ensures ApplySgr(r, params, j) == ApplySgr(r, params[i..], j - i)
    decreases |params| - j
  {
    if j < |params| {
      var rest := params[i..];
      assert forall n | j <= n < |params| :: rest[n - i] == params[n];
      var num := GetParam(params, j, 0);
      if (num == 38 || num == 48) && |params| - j >= 3 && GetParam(params, j + 1, -1) == 5 {
        var color := GetParam(params, j + 2, 0);
        ApplyRest(if num == 38 then SetForeground(r, color) else SetBackground(r, color), params, i, j + 3);
      } else if (num == 38 || num == 48) && |params| - j >= 5 && GetParam(params, j + 1, -1) == 2 {
        var color := ReadTrueColor(GetParam(params, j + 2, 0), GetParam(params, j + 3, 0), GetParam(params, j + 4, 0));
        ApplyRest(if num == 38 then SetForeground(r, color) else SetBackground(r, color), params, i, j + 5);
      } else {
        ApplyRest(SetRendition(r, num), params, i, j + 1);
      }
    }
  }

  lemma ApplyOne(r: Renditions, num: nat, rest: seq<int>)
    requires num != 38 && num != 48
    ensures ApplySgr(r, [num] + rest, 0) == ApplySgr(SetRendition(r, num), rest, 0)
  {
    var params := [num] + rest;
    assert params[1..] == rest;
    ApplyRest(SetRendition(r, num), params, 1, 1);
  }

  function SetColor(r: Renditions, base: nat, num: int): Renditions {
    if base == 30 then SetForeground(r, num) else SetBackground(r, num)
  }

  lemma ApplyPalette(r: Renditions, base: nat, color: int, rest: seq<int>)
    requires base == 30 || base == 40
    ensures ApplySgr(r, [base + 8, 5, color] + rest, 0)
      == ApplySgr(SetColor(r, base, if color < 1 then 0 else color), rest, 0)
  {
    var params := [base + 8, 5, color] + rest;
    assert params[3..] == rest;
    ApplyRest(SetColor(r, base, if color < 1 then 0 else color), params, 3, 3);
  }

  lemma ApplyTrueColor(r: Renditions, base: nat, red: nat, green: nat, blue: nat, rest: seq<int>)
    requires base == 30 || base == 40
    requires red < 0x100 && green < 0x100 && blue < 0x100
    ensures ApplySgr(r, [base + 8, 2, red, green, blue] + rest, 0)
      == ApplySgr(SetColor(r, base, MakeTrueColor(red, green, blue)), rest, 0)
  {
    var params := [base + 8, 2, red, green, blue] + rest;
    assert params[5..] == rest;
    ApplyRest(SetColor(r, base, MakeTrueColor(red, green, blue)), params, 5, 5);
  }

  /** What the parameters of a colour do, whatever the colour. */
  function AfterColor(r: Renditions, c: Color, base: nat): Renditions
    requires base == 30 || base == 40
  {
    if c == 0 then r
    else if IsTrueColor(c) then SetColor(r, base, MakeTrueColor(c / 0x1_0000 % 0x100, c / 0x100 % 0x100, c % 0x100))
    else if c > base + 7 then SetColor(r, base, if Received(c - base) < 1 then 0 else Received(c - base))
    else SetRendition(r, c)
  }

  lemma ApplyColor(r: Renditions, c: Color, base: nat, rest: seq<int>)
    requires base == 30 || base == 40
    requires base == 40 && c == 38 ==> rest == []
    ensures ApplySgr(r, ColorParams(c, base) + rest, 0) == ApplySgr(AfterColor(r, c, base), rest, 0)
  {
    if c == 0 {
      assert [] + rest == rest;
    } else if IsTrueColor(c) {
      ApplyTrueColor(r, base, c / 0x1_0000 % 0x100, c / 0x100 % 0x100, c % 0x100, rest);
    } else if c > base + 7 {
      ApplyPalette(r, base, Received(c - base), rest);
    } else if c == 38 {
      assert [38] + rest == [38];
      assert ApplySgr(r, [38], 0) == ApplySgr(r, [38], 1);
    } else {
      ApplyOne(r, c, rest);
    }
  }

  lemma {:induction false} ApplyAttributes(r: Renditions, attrs: set<Attribute>, order: seq<Attribute>, rest: seq<int>)
    ensures ApplySgr(r, AttributeParams(attrs, order) + rest, 0)
         == ApplySgr(With(r, set a | a in order && a in attrs, true), rest, 0)
    decreases |order|
  {
    hide ApplySgr;
    var on := set a | a in order && a in attrs;
    if order == [] {
      assert [] + rest == rest && r.attrs + on == r.attrs;
    } else {
      var a, tail := order[0], AttributeParams(attrs, order[1..]);
      var onTail := set b | b in order[1..] && b in attrs;
      assert order == [a] + order[1..];
      if a in attrs {
        assert AttributeParams(attrs, order) + rest == [Code(a)] + (tail + rest);
        ApplyOne(r, Code(a), tail + rest);
        assert SetRendition(r, Code(a)) == With(r, {a}, true);
        ApplyAttributes(With(r, {a}, true), attrs, order[1..], rest);
        assert r.attrs + {a} + onTail == r.attrs + on;
      } else {
        assert AttributeParams(attrs, order) == tail;
        ApplyAttributes(r, attrs, order[1..], rest);
        assert onTail == on;
      }
    }
  }

  /** Whatever was selected before, the parameters of `r` select its attributes and what they can say of its colours. */
  lemma SgrResult(start: Renditions, r: Renditions)
    ensures ApplySgr(start, Sgr(r), 0) == AfterColor(AfterColor(INITIAL.(attrs := r.attrs), r.fg, 30), r.bg, 40)
  {
    var fg, bg := ColorParams(r.fg, 30), ColorParams(r.bg, 40);
    var attributes := AttributeParams(r.attrs, ATTRIBUTES);
    assert Sgr(r) == [0] + (attributes + (fg + bg));
    ApplyOne(start, 0, attributes + (fg + bg));
    ApplyAttributes(INITIAL, r.attrs, ATTRIBUTES, fg + bg);
    assert (set a | a in ATTRIBUTES && a in r.attrs) == r.attrs by {
      forall a: Attribute ensures a in ATTRIBUTES { EveryAttributeListed(a); }
    }
    var plain := INITIAL.(attrs := r.attrs);
    assert With(INITIAL, r.attrs, true) == plain;
    ApplyColor(plain, r.fg, 30, bg);
    assert bg + [] == bg;
    ApplyColor(AfterColor(plain, r.fg, 30), r.bg, 40, []);
  }

  lemma EveryAttributeListed(a: Attribute)
    ensures a in ATTRIBUTES
  {
    var i := match a
      case Bold => 0 case Faint => 1 case Italic => 2 case Underlined => 3
      case Blink => 4 case Inverse => 5 case Invisible => 6 case Strikethrough => 7;
    assert ATTRIBUTES[i] == a;
  }

  /** The three bytes of a 24-bit colour are all of it, as long as nothing lies above its mark. */
  lemma TrueColorBytes(c: Color)
    requires IsTrueColor(c)
    ensures var back := MakeTrueColor(c / 0x1_0000 % 0x100, c / 0x100 % 0x100, c % 0x100);
      && IsTrueColor(back) && 255 < back
      && TRUE_COLOR <= back < 2 * TRUE_COLOR
      && (TRUE_COLOR <= c < 2 * TRUE_COLOR <==> back == c)
      && c > 295
  {
    if TRUE_COLOR <= c < 2 * TRUE_COLOR {
      var high := c / 0x1_0000;
      assert high / 0x100 == 1 && high % 0x100 == high - 0x100;
      assert c / 0x100 == high * 0x100 + c / 0x100 % 0x100;
    }
  }

  /** The colour a reader ends up with is the colour written exactly when that colour can be told. */
  lemma ColorRoundTrip(r: Renditions, c: Color, base: nat)
    requires base == 30 || base == 40
    requires if base == 30 then r.fg == 0 else r.bg == 0
    ensures var r' := AfterColor(r, c, base);
      && ((if base == 30 then r'.fg else r'.bg) == c <==> CanonicalColor(c, base))
      && (CanonicalColor(c, base) ==> r' == if base == 30 then r.(fg := c) else r.(bg := c))
  {
    if IsTrueColor(c) {
      TrueColorBytes(c);
      hide IsTrueColor, MakeTrueColor, SetRendition;
    } else if c > base + 7 {
      assert c - base <= PARAM_MAX ==> !IsTrueColor(c - base);
      assert !(TRUE_COLOR <= c < 2 * TRUE_COLOR);
      hide IsTrueColor, MakeTrueColor, SetRendition;
    } else {
      assert !(TRUE_COLOR <= c < 2 * TRUE_COLOR);
    }
  }

  /**
   * Selecting a rendition reproduces it, whatever was selected before, exactly when both its
   * colours can be told: no other rendition survives the trip from any starting point.
   */
  lemma SgrRoundTrip(start: Renditions, r: Renditions)
    ensures ApplySgr(start, Sgr(r), 0) == r <==> Canonical(r)
  {
    SgrResult(start, r);
    var plain := INITIAL.(attrs := r.attrs);
    ColorRoundTrip(plain, r.fg, 30);
    var mid := AfterColor(plain, r.fg, 30);
    ColorRoundTrip(mid, r.bg, 40);
  }

  /** A colour component of 256 or more lands outside its byte: such a rendition is not reproduced. */
  lemma WideComponentIsLost()
    ensures var r := ApplySgr(INITIAL, [38, 2, 512, 0, 0], 0);
      r.fg == 0x300_0000 && !Canonical(r) && ApplySgr(INITIAL, Sgr(r), 0) == r.(fg := TRUE_COLOR)
  {
    var params := [38, 2, 512, 0, 0];
    var v: bv32 := (0x100_0000 as bv32) | ((512 as bv32) << 16) | ((0 as bv32) << 8) | (0 as bv32);
    assert v == 0x300_0000;
    assert OrColor(512, 0, 0) == 0x300_0000;
    var r := INITIAL.(fg := 0x300_0000);
    assert ApplySgr(INITIAL, params, 0) == ApplySgr(SetForeground(INITIAL, 0x300_0000), params, 5);
    assert ApplySgr(INITIAL, params, 0) == r;
    SgrResult(INITIAL, r);
  }
}
