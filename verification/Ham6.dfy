/** HAM6 lines of gbmlbm.c: an encoder that follows what its decoder will show. */
module Ham6 {
  import opened Bits

  type Nibble = x: int | 0 <= x < 16

  /** A colour of 4 bits a component. */
  datatype Colour = Colour(r: Nibble, g: Nibble, b: Nibble) {
    predicate Grey() { r == g == b }

    predicate TwoAlike() { r == g || g == b || b == r }
  }

  function Wrong(shown: Colour, wanted: Colour): nat {
    (if shown.r == wanted.r then 0 else 1) + (if shown.g == wanted.g then 0 else 1)
      + (if shown.b == wanted.b then 0 else 1)
  }

  // ---- what a code means ----

  /** The effect of a code on the colour shown: a grey of the palette, or one component modified. */
  function Apply(code: Byte, shown: Colour): Colour
    requires code < 0x40
  {
    var val := code % 16;
    if code < 0x10 then Colour(val, val, val)
    else if code < 0x20 then shown.(b := val)
    else if code < 0x30 then shown.(r := val)
    else shown.(g := val)
  }

  ghost predicate Codes(ham: seq<Byte>) { forall i :: 0 <= i < |ham| ==> ham[i] < 0x40 }

  /** The colour shown after n codes of a line; a line starts from black. */
  function Shown(ham: seq<Byte>, n: nat): Colour
    requires Codes(ham) && n <= |ham|
  {
    if n == 0 then Colour(0, 0, 0) else Apply(ham[n - 1], Shown(ham, n - 1))
  }

  lemma {:induction false} ShownKept(ham: seq<Byte>, ham': seq<Byte>, n: nat)
    requires Codes(ham) && Codes(ham') && n <= |ham| && n <= |ham'|
    requires forall i :: 0 <= i < n ==> ham[i] == ham'[i]
    ensures Shown(ham, n) == Shown(ham', n)
  {
    if n > 0 {
      ShownKept(ham, ham', n - 1);
    }
  }

  // ---- the decoder ----

  /** Entry v of a colour map of greys. */
  ghost predicate GreyAt(pal: seq<Byte>, v: Nibble, level: nat)
    requires |pal| >= 48
  {
    pal[3 * v] == pal[3 * v + 1] == pal[3 * v + 2] == level
  }

  /** The colour map the encoder writes: sixteen greys. */
  method GreyMap() returns (cmap: array<Byte>)
    ensures fresh(cmap) && cmap.Length == 48 && forall v: Nibble :: GreyAt(cmap[..], v, 0x11 * v)
  {
    cmap := new Byte[48];
    for v := 0 to 16
      invariant forall u: Nibble :: u < v ==> GreyAt(cmap[..], u, 0x11 * u)
    {
      ghost var was := cmap[..];
      cmap[3 * v], cmap[3 * v + 1], cmap[3 * v + 2] := 0x11 * v, 0x11 * v, 0x11 * v;
      forall u: Nibble | u < v
        ensures GreyAt(cmap[..], u, 0x11 * u)
      {
        assert GreyAt(was, u, 0x11 * u);
      }
    }
  }

  /** lbm_rhdr keeps the four top bits of the sixteen colours. */
  method NobblePalette(pal: array<Byte>)
    requires pal.Length >= 48 && forall v: Nibble :: GreyAt(pal[..], v, 0x11 * v)
    modifies pal
    ensures forall v: Nibble :: GreyAt(pal[..], v, 0x10 * v)
  {
    hide And;
    ghost var was := pal[..];
    for i := 0 to 48
      invariant forall k :: 0 <= k < pal.Length ==> pal[k] == if k < i then was[k] / 16 * 16 else was[k]
    {
      Nibbles(pal[i]);
      pal[i] := And(pal[i], 0xf0);
    }
    forall v: Nibble
      ensures GreyAt(pal[..], v, 0x10 * v)
    {
      assert GreyAt(was, v, 0x11 * v);
    }
  }

  lemma CodeParts(code: Byte)
    requires code < 0x40
    ensures And(code, 0x0f) == code % 16 && And(code, 0x30) == code / 16 * 16
  {
    hide And, Shl;
    Pow2Table();
    Nibbles(code);
    ShlTimes(code / 16, 4);
    ShlTimes(3, 4);
    AndHigh(code % 16, code / 16, 3, 4);
    ShlZero(2);
    AndLow(code / 16, 0, 2);
  }

  /** Pixel i of the decoded line is 16 times the colour shown, component by component. */
  ghost predicate Displays(data: seq<Byte>, ham: seq<Byte>, i: nat)
    requires Codes(ham) && i < |ham| && 3 * i + 2 < |data|
  {
    var c := Shown(ham, i + 1);
    data[3 * i] == 16 * c.b && data[3 * i + 1] == 16 * c.g && data[3 * i + 2] == 16 * c.r
  }

  /** The HAM6 branch of lbm_rdata, with the palette of greys. */
  method ReadHam6(ham: seq<Byte>, pal: seq<Byte>, data: array<Byte>)
    requires Codes(ham) && data.Length >= 3 * |ham|
    requires |pal| >= 48 && forall v: Nibble :: GreyAt(pal, v, 0x10 * v)
    modifies data
    ensures forall i: nat :: i < |ham| ==> Displays(data[..], ham, i)
  {
    hide Apply;
    var r: Byte, g: Byte, b: Byte := 0, 0, 0;
    for i := 0 to |ham|
      invariant r == 16 * Shown(ham, i).r && g == 16 * Shown(ham, i).g && b == 16 * Shown(ham, i).b
      invariant forall k: nat :: k < i ==> Displays(data[..], ham, k)
    {
      ghost var was, c := data[..], Apply(ham[i], Shown(ham, i));
      r, g, b := DecodePixel(ham[i], pal, r, g, b, Shown(ham, i));
      assert Shown(ham, i + 1) == c;
      data[3 * i] := b;
      data[3 * i + 1] := g;
      data[3 * i + 2] := r;
      forall k: nat | k < i
        ensures Displays(data[..], ham, k)
      {
        assert Displays(was, ham, k);
      }
    }
  }

  /** The switch of the HAM6 branch. */
  method DecodePixel(code: Byte, pal: seq<Byte>, r: Byte, g: Byte, b: Byte, ghost c: Colour)
    returns (r': Byte, g': Byte, b': Byte)
    requires code < 0x40 && r == 16 * c.r && g == 16 * c.g && b == 16 * c.b
    requires |pal| >= 48 && forall v: Nibble :: GreyAt(pal, v, 0x10 * v)
    ensures var c' := Apply(code, c); r' == 16 * c'.r && g' == 16 * c'.g && b' == 16 * c'.b
  {
    hide And, Shl;
    CodeParts(code);
    var val := And(code, 0x0f);
    Pow2Table();
    ShlTimes(val, 4);
    r', g', b' := r, g, b;
    var kind := And(code, 0x30);
    if kind == 0x00 {
      assert GreyAt(pal, val, 0x10 * val);
      r', g', b' := pal[val * 3], pal[val * 3 + 1], pal[val * 3 + 2];
    } else if kind == 0x10 {
      b' := Shl(val, 4);
    } else if kind == 0x20 {
      r' := Shl(val, 4);
    } else {
      g' := Shl(val, 4);
    }
  }

  // ---- the encoder ----

  /** The posdiff table, indexed by a difference truncated to a byte. */
  function AbsDiff(a: Nibble, b: Nibble): (d: nat)
    ensures d == if a < b then b - a else a - b
  {
    var i := (a - b) % 0x100;
    if i < 0x80 then i else 0x100 - i
  }

  lemma Modifies(c: Colour, p: Colour)
    ensures 0x10 <= Or(0x10, p.b) == 0x10 + p.b < 0x40 && Apply(Or(0x10, p.b), c) == c.(b := p.b)
    ensures 0x10 <= Or(0x20, p.r) == 0x20 + p.r < 0x40 && Apply(Or(0x20, p.r), c) == c.(r := p.r)
    ensures 0x10 <= Or(0x30, p.g) == 0x30 + p.g < 0x40 && Apply(Or(0x30, p.g), c) == c.(g := p.g)
  {
    ModifyByte(p.b, 1);
    ModifyByte(p.r, 2);
    ModifyByte(p.g, 3);
  }

  lemma ModifyByte(v: Nibble, kind: nat)
    requires kind < 4
    ensures Or(16 * kind, v) == 16 * kind + v && (16 * kind + v) % 16 == v
  {
    hide Or, Shl;
    Pow2Table();
    ShlTimes(kind, 4);
    OrJoin(v, kind, 4);
  }

  lemma Greys(c: Colour, p: Colour)
    ensures Apply(p.r, c) == Colour(p.r, p.r, p.r) && Apply(p.g, c) == Colour(p.g, p.g, p.g)
    ensures Apply(p.b, c) == Colour(p.b, p.b, p.b)
  {
  }

  /** No code leaves fewer components wrong. */
  ghost predicate BestCode(code: Byte, shown: Colour, wanted: Colour)
    requires code < 0x40
  {
    forall c: Byte :: c < 0x40 ==> Wrong(Apply(code, shown), wanted) <= Wrong(Apply(c, shown), wanted)
  }

  /** A grey mends every component it equals; a modification mends one. */
  function Least(shown: Colour, wanted: Colour): nat {
    if wanted.Grey() then 0
    else match Wrong(shown, wanted)
      case 3 => if wanted.TwoAlike() then 1 else 2
      case 2 => 1
      case _ => 0
  }

  lemma LeastWrong(shown: Colour, wanted: Colour, code: Byte)
    requires code < 0x40
    ensures Wrong(Apply(code, shown), wanted) >= Least(shown, wanted)
  {
  }

  /** The first pixel of a line is shown as a grey: the one two components share, or the mean. */
  function FirstGrey(wanted: Colour): Nibble {
    if wanted.r == wanted.g || wanted.r == wanted.b then wanted.r
    else if wanted.g == wanted.b then wanted.g
    else (wanted.r + wanted.g + wanted.b) / 3
  }

  method FirstPixel(wanted: Colour) returns (code: Byte)
    ensures code == FirstGrey(wanted)
    ensures wanted.TwoAlike() || 3 * code <= wanted.r + wanted.g + wanted.b < 3 * code + 3
    ensures Wrong(Apply(code, Colour(0, 0, 0)), wanted) <= 1 <==> wanted.TwoAlike()
  {
    var c := wanted;
    match (if c.r == c.g then 4 else 0) + (if c.g == c.b then 2 else 0) + (if c.b == c.r then 1 else 0)
    case 0 => code := (c.r + c.g + c.b) / 3;
    case 1 => code := c.r;
    case 2 => code := c.g;
    case 4 => code := c.r;
    case _ => code := c.r;
  }

  /** The switch of lbm_ham6 for a pixel after the first: wanted p, shown c before and c' after. */
  method NextPixel(c: Colour, p: Colour) returns (code: Byte, c': Colour)
    ensures code < 0x40 && c' == Apply(code, c)
    ensures Wrong(c', p) == Least(c, p) && Kind(c, p, code, c')
  {
    hide Apply, Or;
    Modifies(c, p);
    Greys(c, p);
    match (if c.r == p.r then 4 else 0) + (if c.g == p.g then 2 else 0) + (if c.b == p.b then 1 else 0)
    case 0 =>
      if (if p.r == p.g then 1 else 0) + (if p.g == p.b then 1 else 0) + (if p.b == p.r then 1 else 0) > 0 {
        code := if p.r == p.g then p.r else p.b;
        c' := Colour(code, code, code);
      } else if AbsDiff(c.r, p.r) >= AbsDiff(c.g, p.g) && AbsDiff(c.r, p.r) >= AbsDiff(c.b, p.b) {
        code, c' := Or(0x20, p.r), c.(r := p.r);
      } else if AbsDiff(c.g, p.g) >= AbsDiff(c.r, p.r) && AbsDiff(c.g, p.g) >= AbsDiff(c.b, p.b) {
        code, c' := Or(0x30, p.g), c.(g := p.g);
      } else {
        code, c' := Or(0x10, p.b), c.(b := p.b);
      }
    case 1 =>
      if p.r == p.g && p.g == p.b {
        code, c' := p.b, c.(r := p.b, g := p.b);
      } else if AbsDiff(c.r, p.r) >= AbsDiff(c.g, p.g) {
        code, c' := Or(0x20, p.r), c.(r := p.r);
      } else {
        code, c' := Or(0x30, p.g), c.(g := p.g);
      }
    case 2 =>
      if p.r == p.g && p.g == p.b {
        code, c' := p.g, c.(r := p.g, b := p.g);
      } else if AbsDiff(c.r, p.r) >= AbsDiff(c.b, p.b) {
        code, c' := Or(0x20, p.r), c.(r := p.r);
      } else {
        code, c' := Or(0x10, p.b), c.(b := p.b);
      }
    case 3 =>
      code, c' := Or(0x20, p.r), c.(r := p.r);
    case 4 =>
      if p.r == p.g && p.g == p.b {
        code, c' := p.r, c.(g := p.r, b := p.r);
      } else if AbsDiff(c.g, p.g) >= AbsDiff(c.b, p.b) {
        code, c' := Or(0x30, p.g), c.(g := p.g);
      } else {
        code, c' := Or(0x10, p.b), c.(b := p.b);
      }
    case 5 =>
      code, c' := Or(0x30, p.g), c.(g := p.g);
    case 6 =>
      code, c' := Or(0x10, p.b), c.(b := p.b);
    case _ =>
      code, c' := Or(0x10, p.b), c;
  }

  /** A pixel that is right already repeats its blue, a grey is used only where it mends two components or
      three, and else the component farthest off is modified. */
  ghost predicate Kind(c: Colour, p: Colour, code: Byte, c': Colour) {
    && (c == p ==> code == 0x10 + p.b && c' == p)
    && (code < 0x10 ==> Wrong(c, p) >= Wrong(c', p) + 2)
    && (code >= 0x10 && c != p ==> Farthest(c, p, c'))
  }

  /** The component modified is the one farthest off: red before green before blue. */
  ghost predicate Farthest(c: Colour, p: Colour, c': Colour) {
    var r, g, b := AbsDiff(c.r, p.r), AbsDiff(c.g, p.g), AbsDiff(c.b, p.b);
    c' == if r >= g && r >= b then c.(r := p.r) else if g >= b then c.(g := p.g) else c.(b := p.b)
  }

  /** The colour wanted for pixel i of a line of 24 bit pixels: the four top bits of each byte. */
  function Wanted(data: seq<Byte>, i: nat): Colour
    requires 3 * i + 2 < |data|
  {
    Colour(data[3 * i + 2] / 16, data[3 * i + 1] / 16, data[3 * i] / 16)
  }

  /** The whole line of codes follows the line of pixels. */
  ghost predicate Follows(data: seq<Byte>, ham: seq<Byte>) {
    && Codes(ham) && |data| >= 3 * |ham|
    && (ham != [] ==> ham[0] == FirstGrey(Wanted(data, 0)))
    && forall i :: 1 <= i < |ham| ==> FollowsAt(data, ham, i)
  }

  /** Pixel i > 0 gets the best code, and no component more than it must stays wrong. */
  ghost predicate FollowsAt(data: seq<Byte>, ham: seq<Byte>, i: nat)
    requires Codes(ham) && i < |ham| && |data| >= 3 * |ham|
  {
    var before, after, wanted := Shown(ham, i), Shown(ham, i + 1), Wanted(data, i);
    && Wrong(after, wanted) == Least(before, wanted)
    && Kind(before, wanted, ham[i], after)
  }

  lemma FollowsMore(data: seq<Byte>, ham: seq<Byte>, code: Byte)
    requires Follows(data, ham) && |data| >= 3 * |ham| + 3 && ham != [] && code < 0x40
    requires FollowsAt(data, ham + [code], |ham|)
    ensures Follows(data, ham + [code])
  {
    hide Farthest, BestCode;
    var ham' := ham + [code];
    forall i | 1 <= i < |ham|
      ensures FollowsAt(data, ham', i)
    {
      assert FollowsAt(data, ham, i);
      ShownKept(ham, ham', i);
      ShownKept(ham, ham', i + 1);
    }
  }

  lemma ThisFollows(data: seq<Byte>, ham: seq<Byte>, i: nat, after: Colour)
    requires Codes(ham) && i < |ham| && |data| >= 3 * |ham| && after == Apply(ham[i], Shown(ham, i))
    requires var before, wanted := Shown(ham, i), Wanted(data, i);
             && Wrong(after, wanted) == Least(before, wanted) && Kind(before, wanted, ham[i], after)
    ensures Shown(ham, i + 1) == after && FollowsAt(data, ham, i)
  {
  }

  /** lbm_ham6. */
  method EncodeHam6(data: seq<Byte>, ham: array<Byte>, n: nat)
    requires |data| >= 3 * n && ham.Length >= n
    modifies ham
    ensures Follows(data, ham[..n])
  {
    if n == 0 {
      return;
    }
    hide Follows, FollowsAt;
    var first := FirstPixel(Wanted(data, 0));
    var c := Colour(first, first, first);
    ham[0] := first;
    ghost var codes := [ham[0]];
    FollowsOne(data, first);
    for i := 1 to n
      invariant ham[..i] == codes && Follows(data, codes) && Codes(codes)
      invariant Shown(codes, i) == c
    {
      var p := Wanted(data, i);
      var code, c' := NextPixel(c, p);
      ShownKept(codes, codes + [code], i);
      ThisFollows(data, codes + [code], i, c');
      FollowsMore(data, codes, code);
      ham[i] := code;
      codes, c := codes + [code], c';
    }
  }

  lemma FollowsOne(data: seq<Byte>, first: Byte)
    requires |data| >= 3 && first == FirstGrey(Wanted(data, 0))
    ensures Codes([first]) && Follows(data, [first]) && Shown([first], 1) == Colour(first, first, first)
  {
    assert Shown([first], 0) == Colour(0, 0, 0);
  }

  // ---- how good the picture is ----

  /** For a pixel after the first: no other code would do better, and something wrong gets mended. */
  lemma EveryPixel(data: seq<Byte>, ham: seq<Byte>, i: nat)
    requires Follows(data, ham) && 1 <= i < |ham|
    ensures BestCode(ham[i], Shown(ham, i), Wanted(data, i))
    ensures var before, after, wanted := Shown(ham, i), Shown(ham, i + 1), Wanted(data, i);
            if before == wanted then after == wanted else Wrong(after, wanted) < Wrong(before, wanted)
  {
    assert FollowsAt(data, ham, i);
    forall code: Byte | code < 0x40
      ensures Wrong(Apply(ham[i], Shown(ham, i)), Wanted(data, i)) <= Wrong(Apply(code, Shown(ham, i)), Wanted(data, i))
    {
      LeastWrong(Shown(ham, i), Wanted(data, i), code);
    }
  }

  ghost predicate Alike(data: seq<Byte>, i: nat, j: nat)
    requires i <= j && |data| >= 3 * j
  {
    forall k :: i <= k < j ==> Wanted(data, k) == Wanted(data, i)
  }

  /** Three equal pixels, none of them the first of the line, end exact. */
  lemma {:induction false} ThreeAlike(data: seq<Byte>, ham: seq<Byte>, i: nat)
    requires Follows(data, ham) && 1 <= i && i + 3 <= |ham| && Alike(data, i, i + 3)
    ensures Shown(ham, i + 3) == Wanted(data, i)
  {
    hide BestCode, Apply, Shown;
    EveryPixel(data, ham, i);
    EveryPixel(data, ham, i + 1);
    EveryPixel(data, ham, i + 2);
    assert Wanted(data, i + 1) == Wanted(data, i) == Wanted(data, i + 2);
  }

  /** When three equal pixels at the start of a line end exact: the first grey must get one right. */
  predicate GoodStart(wanted: Colour) {
    wanted.TwoAlike() || (wanted.r + wanted.g + wanted.b) / 3 in {wanted.r, wanted.g, wanted.b}
  }

  lemma ThreeAtStart(data: seq<Byte>, ham: seq<Byte>)
    requires Follows(data, ham) && 3 <= |ham| && Alike(data, 0, 3)
    ensures Shown(ham, 3) == Wanted(data, 0) <==> GoodStart(Wanted(data, 0))
  {
    hide BestCode, Apply, Farthest;
    var wanted := Wanted(data, 0);
    FollowsOne(data, ham[0]);
    ShownKept(ham, [ham[0]], 1);
    assert FollowsAt(data, ham, 1) && FollowsAt(data, ham, 2);
    assert Wanted(data, 1) == wanted == Wanted(data, 2);
    WrongAtStart(wanted);
  }

  lemma WrongAtStart(wanted: Colour)
    ensures var v := FirstGrey(wanted); Wrong(Colour(v, v, v), wanted) <= 2 <==> GoodStart(wanted)
    ensures var v := FirstGrey(wanted); Wrong(Colour(v, v, v), wanted) == 3 ==> !wanted.TwoAlike()
  {
  }

  lemma FixBlue(c: Colour, p: Colour)
    requires AbsDiff(c.b, p.b) > AbsDiff(c.r, p.r) && AbsDiff(c.b, p.b) > AbsDiff(c.g, p.g)
    ensures Farthest(c, p, c.(b := p.b))
  {
  }

  lemma FixRed(c: Colour, p: Colour)
    requires AbsDiff(c.r, p.r) >= AbsDiff(c.b, p.b) && AbsDiff(c.r, p.r) >= AbsDiff(c.g, p.g)
    ensures Farthest(c, p, c.(r := p.r))
  {
  }

  /** Three equal pixels, of components 0, 1 and 5, whose codes end one component off. */
  lemma BadStart()
    ensures var data: seq<Byte>, ham: seq<Byte> := [0x50, 0x10, 0, 0x50, 0x10, 0, 0x50, 0x10, 0], [0x02, 0x15, 0x20];
            Follows(data, ham) && Alike(data, 0, 3) && Shown(ham, 3) != Wanted(data, 2)
  {
    var data: seq<Byte>, ham: seq<Byte> := [0x50, 0x10, 0, 0x50, 0x10, 0, 0x50, 0x10, 0], [0x02, 0x15, 0x20];
    hide Farthest;
    assert Shown(ham, 0) == Colour(0, 0, 0);
    assert Shown(ham, 1) == Colour(2, 2, 2);
    assert Wanted(data, 1) == Wanted(data, 2) == Colour(0, 1, 5);
    FixBlue(Colour(2, 2, 2), Colour(0, 1, 5));
    ThisFollows(data, ham, 1, Colour(2, 2, 5));
    FixRed(Colour(2, 2, 5), Colour(0, 1, 5));
    ThisFollows(data, ham, 2, Colour(0, 2, 5));
  }

  /** The code is determined by the colour shown before and the one wanted. */
  lemma OneCode(c: Colour, p: Colour, code: Byte, code': Byte)
    requires code < 0x40 && Wrong(Apply(code, c), p) == Least(c, p) && Kind(c, p, code, Apply(code, c))
    requires code' < 0x40 && Wrong(Apply(code', c), p) == Least(c, p) && Kind(c, p, code', Apply(code', c))
    ensures code == code'
  {
    hide Apply, Farthest, Least;
    MendsOne(c, p, code);
    MendsOne(c, p, code');
    if c != p && code >= 0x10 {
      Changes(c, p, Apply(code, c), Apply(code', c));
      OneChange(c, code, code');
    }
  }

  /** A modification mends at most one component; a grey that leaves at most one wrong is the one that
      most components share. */
  lemma MendsOne(c: Colour, p: Colour, code: Byte)
    requires code < 0x40
    ensures code >= 0x10 ==> Wrong(c, p) <= Wrong(Apply(code, c), p) + 1
    ensures code < 0x10 && Wrong(Apply(code, c), p) <= 1 ==> code == if p.r == p.g then p.r else p.b
  {
  }

  lemma Changes(c: Colour, p: Colour, c': Colour, c'': Colour)
    requires c != p && Farthest(c, p, c') && Farthest(c, p, c'')
    ensures c' == c'' != c
  {
  }

  lemma OneChange(c: Colour, code: Byte, code': Byte)
    requires 0x10 <= code < 0x40 && 0x10 <= code' < 0x40 && Apply(code, c) == Apply(code', c) != c
    ensures code == code'
  {
  }

  /** So a line of pixels has one line of codes. */
  lemma {:induction false} OneLine(data: seq<Byte>, ham: seq<Byte>, ham': seq<Byte>, n: nat)
    requires Follows(data, ham) && Follows(data, ham') && n <= |ham| == |ham'|
    ensures ham[..n] == ham'[..n]
  {
    hide Kind, Least, Apply;
    if n > 0 {
      OneLine(data, ham, ham', n - 1);
      forall i | 0 <= i < n - 1
        ensures ham[i] == ham'[i]
      {
        assert ham[..n - 1][i] == ham'[..n - 1][i];
      }
      ShownKept(ham, ham', n - 1);
      if n > 1 {
        assert FollowsAt(data, ham, n - 1) && FollowsAt(data, ham', n - 1);
        OneCode(Shown(ham, n - 1), Wanted(data, n - 1), ham[n - 1], ham'[n - 1]);
      }
    }
  }

  /** Four equal pixels end exact wherever they are. */
  lemma FourAlike(data: seq<Byte>, ham: seq<Byte>, i: nat)
    requires Follows(data, ham) && i + 4 <= |ham| && Alike(data, i, i + 4)
    ensures Shown(ham, i + 4) == Wanted(data, i)
  {
    assert Wanted(data, i + 1) == Wanted(data, i);
    ThreeAlike(data, ham, i + 1);
  }

  ghost predicate ThirdAlike(data: seq<Byte>, i: nat)
    requires i >= 2 && |data| >= 3 * i + 3
  {
    Wanted(data, i - 2) == Wanted(data, i - 1) == Wanted(data, i)
  }

  /** The first pixel of a line is exact if it is grey, and two equal ones if two components are alike. */
  lemma {:induction false} FirstTwo(data: seq<Byte>, ham: seq<Byte>)
    requires Follows(data, ham) && ham != []
    ensures Shown(ham, 1) == Wanted(data, 0) <==> Wanted(data, 0).Grey()
    ensures |ham| >= 2 && Alike(data, 0, 2) ==> (Shown(ham, 2) == Wanted(data, 0) <==> Wanted(data, 0).TwoAlike())
  {
    hide BestCode, Apply, Farthest;
    FollowsOne(data, ham[0]);
    ShownKept(ham, [ham[0]], 1);
    if |ham| >= 2 && Alike(data, 0, 2) {
      assert FollowsAt(data, ham, 1);
      assert Wanted(data, 1) == Wanted(data, 0);
      WrongAtStart(Wanted(data, 0));
    }
  }

  /** Encoded and decoded, the last of three equal pixels shows the four top bits of its components,
      except where it is the third of the line and starts badly; so do the pixels before it there if
      they are grey, or equal with two components alike. */
  method RoundTrip(data: seq<Byte>, n: nat) returns (shown: array<Byte>)
    requires |data| >= 3 * n
    ensures shown.Length == 3 * n
    ensures forall i: nat :: 3 <= i < n && ThirdAlike(data, i) ==> SameTopBits(data, shown[..], i)
    ensures n >= 3 && Alike(data, 0, 3) ==> (SameTopBits(data, shown[..], 2) <==> GoodStart(Wanted(data, 0)))
    ensures n >= 2 && Alike(data, 0, 2) ==> (SameTopBits(data, shown[..], 1) <==> Wanted(data, 0).TwoAlike())
    ensures n >= 1 ==> (SameTopBits(data, shown[..], 0) <==> Wanted(data, 0).Grey())
  {
    var ham := new Byte[n];
    EncodeHam6(data, ham, n);
    var cmap := GreyMap();
    NobblePalette(cmap);
    shown := new Byte[3 * n];
    ReadHam6(ham[..], cmap[..], shown);
    assert ham[..] == ham[..n];
    forall i: nat | i < n
      ensures SameTopBits(data, shown[..], i) <==> Shown(ham[..], i + 1) == Wanted(data, i)
      ensures 3 <= i && ThirdAlike(data, i) ==> SameTopBits(data, shown[..], i)
    {
      AsShown(data, ham[..], shown[..], i);
      if 3 <= i && ThirdAlike(data, i) {
        ThreeAlike(data, ham[..], i - 2);
      }
    }
    if n >= 1 {
      FirstTwo(data, ham[..]);
    }
    if n >= 3 && Alike(data, 0, 3) {
      ThreeAtStart(data, ham[..]);
    }
  }

  /** A pixel shows the four top bits if the colour the codes show is the colour wanted. */
  lemma AsShown(data: seq<Byte>, ham: seq<Byte>, shown: seq<Byte>, i: nat)
    requires Codes(ham) && i < |ham| && 3 * i + 2 < |data| && 3 * i + 2 < |shown| && Displays(shown, ham, i)
    ensures SameTopBits(data, shown, i) <==> Shown(ham, i + 1) == Wanted(data, i)
  {
    hide Shown;
    var c, w := Shown(ham, i + 1), Wanted(data, i);
    if SameTopBits(data, shown, i) {
      assert shown[3 * i] == 16 * w.b && shown[3 * i + 1] == 16 * w.g && shown[3 * i + 2] == 16 * w.r;
      assert c == w;
    }
  }

  ghost predicate SameTopBits(data: seq<Byte>, shown: seq<Byte>, i: nat)
    requires 3 * i + 2 < |data| && 3 * i + 2 < |shown|
  {
    forall k :: 3 * i <= k < 3 * i + 3 ==> shown[k] == data[k] / 16 * 16
  }
}
