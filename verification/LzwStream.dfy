/** What a GIF code stream means (GIF89a, Appendix F), independently of how gbmgif.c writes or reads
    one.

    An epoch is the list of codes since the last clear code. Code First() + n of an epoch stands for
    the string of its n-th code followed by the first pixel of the string of its next code, so the
    whole dictionary is determined by the codes alone. */
module LzwStream {
  import opened Bits

  const MAX_CODES := 4096

  /** The numbers fixed by the image header: pixel values are below `colours`, `clear` is the clear
      code and `initSize` the width in bits of the first code. */
  datatype Format = Format(colours: nat, clear: nat, initSize: nat) {
    ghost predicate Valid() {
      && colours <= clear && 4 <= clear <= 512
      && 3 <= initSize <= 10 && Pow2(initSize) == 2 * clear
    }

    function Eoi(): nat { clear + 1 }

    function First(): nat { clear + 2 }
  }

  function Last<T>(s: seq<T>): T
    requires s != []
  {
    s[|s| - 1]
  }

  function Init<T>(s: seq<T>): seq<T>
    requires s != []
  {
    s[..|s| - 1]
  }

  // ---- strings ----

  /** May c come after i other codes of an epoch? The entry that the next code completes counts. */
  ghost predicate LegalAt(f: Format, i: nat, c: nat) {
    c < f.colours || (f.First() <= c < f.First() + i && c < MAX_CODES)
  }

  ghost predicate Legal(f: Format, e: seq<nat>) {
    f.Valid() && forall i :: 0 <= i < |e| ==> LegalAt(f, i, e[i])
  }

  /** The epoch e may go on with code a. */
  ghost predicate Pending(f: Format, e: seq<nat>, a: nat)
    ensures Pending(f, e, a) ==> Legal(f, e + [a])
  {
    Legal(f, e) && LegalAt(f, |e|, a)
  }

  /** The first pixel of the string of code c. */
  ghost function Head(f: Format, e: seq<nat>, c: nat): nat
    requires Legal(f, e) && (c < f.colours || f.First() <= c < f.First() + |e|)
  {
    if c < f.colours then c else Head(f, e, e[c - f.First()])
  }

  /** The string of code c. */
  ghost function Str(f: Format, e: seq<nat>, c: nat): (s: seq<nat>)
    requires Legal(f, e) && (c < f.colours || f.First() <= c < f.First() + |e| - 1)
    ensures 1 <= |s| <= c + 2 && s[0] == Head(f, e, c)
    ensures |s| == 1 <==> c < f.colours
  {
    if c < f.colours then [c]
    else
      var n := c - f.First();
      Str(f, e, e[n]) + [Head(f, e, e[n + 1])]
  }

  lemma {:induction false} HeadPrefix(f: Format, e: seq<nat>, e': seq<nat>, c: nat)
    requires e <= e' && Legal(f, e') && (c < f.colours || f.First() <= c < f.First() + |e|)
    ensures Legal(f, e) && Head(f, e, c) == Head(f, e', c)
    decreases c
  {
    if c >= f.colours {
      HeadPrefix(f, e, e', e[c - f.First()]);
    }
  }

  /** Later codes do not change the strings already defined. */
  lemma {:induction false} StrPrefix(f: Format, e: seq<nat>, e': seq<nat>, c: nat)
    requires e <= e' && Legal(f, e') && (c < f.colours || f.First() <= c < f.First() + |e| - 1)
    ensures Legal(f, e) && Str(f, e, c) == Str(f, e', c)
    decreases c
  {
    if c >= f.colours {
      var n := c - f.First();
      StrPrefix(f, e, e', e[n]);
      HeadPrefix(f, e, e', e[n + 1]);
    }
  }

  /** Dictionary entry n, that of code First() + n: the code of its string but the last pixel, and
      that pixel. */
  ghost function Entry(f: Format, e: seq<nat>, n: nat): (nat, nat)
    requires Legal(f, e) && n < |e| - 1
  {
    (e[n], Head(f, e, e[n + 1]))
  }

  /** No two dictionary entries of the epoch are the same (string, pixel) pair. */
  ghost predicate EntriesDiffer(f: Format, e: seq<nat>)
    requires Legal(f, e)
  {
    forall m, n :: 0 <= m < n < |e| - 1 ==> Entry(f, e, m) != Entry(f, e, n)
  }

  /** Then no two codes spell the same string: codes and strings correspond one to one. */
  lemma {:induction false} StringsDistinct(f: Format, e: seq<nat>, c: nat, d: nat)
    requires Legal(f, e) && EntriesDiffer(f, e)
    requires c < f.colours || f.First() <= c < f.First() + |e| - 1
    requires d < f.colours || f.First() <= d < f.First() + |e| - 1
    requires Str(f, e, c) == Str(f, e, d)
    ensures c == d
    decreases c
  {
    if c < f.colours {
      assert Str(f, e, c) == [c] && Str(f, e, d) == [d];
    } else {
      var m, n := c - f.First(), d - f.First();
      StrUnsnoc(f, e, c);
      StrUnsnoc(f, e, d);
      StringsDistinct(f, e, e[m], e[n]);
      SameEntry(f, e, m, n);
    }
  }

  lemma SameEntry(f: Format, e: seq<nat>, m: nat, n: nat)
    requires Legal(f, e) && EntriesDiffer(f, e) && m < |e| - 1 && n < |e| - 1
    requires e[m] == e[n] && Head(f, e, e[m + 1]) == Head(f, e, e[n + 1])
    ensures m == n
  {
    assert Entry(f, e, m) == Entry(f, e, n);
  }

  lemma {:induction false} StrUnsnoc(f: Format, e: seq<nat>, c: nat)
    requires Legal(f, e) && f.First() <= c < f.First() + |e| - 1
    ensures var n := c - f.First();
            Init(Str(f, e, c)) == Str(f, e, e[n]) && Last(Str(f, e, c)) == Head(f, e, e[n + 1])
  {
    assert c >= f.colours;
  }

  // ---- code streams ----

  /** The codes since the last clear code. */
  ghost function Epoch(f: Format, cs: seq<nat>): seq<nat> {
    if cs == [] || Last(cs) == f.clear then [] else Epoch(f, Init(cs)) + [Last(cs)]
  }

  /** A stream starts with a clear code, clear codes may come at any time, and every other code is
      defined when it comes. */
  ghost predicate WellFormed(f: Format, cs: seq<nat>) {
    && f.Valid()
    && (cs != [] ==>
          && WellFormed(f, Init(cs))
          && (Last(cs) != f.clear ==> Init(cs) != [] && LegalAt(f, |Epoch(f, Init(cs))|, Last(cs))))
  }

  lemma {:induction false} EpochLegal(f: Format, cs: seq<nat>)
    requires WellFormed(f, cs)
    ensures Legal(f, Epoch(f, cs))
  {
    if cs != [] && Last(cs) != f.clear {
      EpochLegal(f, Init(cs));
    }
  }

  /** The pixels a stream spells. */
  ghost function Text(f: Format, cs: seq<nat>): seq<nat>
    requires WellFormed(f, cs)
  {
    if cs == [] then []
    else if Last(cs) == f.clear then Text(f, Init(cs))
    else
      EpochLegal(f, cs);
      Text(f, Init(cs)) + Str(f, Epoch(f, cs), Last(cs))
  }

  /** Every epoch up to here has distinct entries and leaves room in the dictionary, and a clear code comes
      only after a pixel and only when one dictionary entry is left. */
  ghost predicate Frugal(f: Format, cs: seq<nat>)
    requires WellFormed(f, cs)
  {
    EpochLegal(f, cs);
    && EntriesDiffer(f, Epoch(f, cs)) && f.First() + |Epoch(f, cs)| <= MAX_CODES
    && (cs != [] ==> Frugal(f, Init(cs)))
    && (|cs| > 1 && Last(cs) == f.clear ==> EpochFull(f, Epoch(f, Init(cs))))
  }

  ghost predicate EpochFull(f: Format, e: seq<nat>) {
    e != [] && NextFree(f, |e|) == MAX_CODES - 1 && Last(e) < f.colours
  }

  // ---- code widths ----

  /** The code the next dictionary entry gets after k codes of an epoch; MAX_CODES when the dictionary
      is full. */
  function NextFree(f: Format, k: nat): nat {
    if k == 0 then f.First() else if f.First() + k - 1 < MAX_CODES then f.First() + k - 1 else MAX_CODES
  }

  /** The least width, from w up to 12, in which `free` can be written. */
  function WidthFor(w: nat, free: nat): nat
    decreases 12 - w
  {
    if w >= 12 || free < Pow2(w) then w else WidthFor(w + 1, free)
  }

  /** The width of the code that follows k codes of an epoch. */
  function Width(f: Format, k: nat): nat { WidthFor(f.initSize, NextFree(f, k)) }

  lemma {:induction false} WidthForIs(w0: nat, w: nat, free: nat)
    requires w0 <= w <= 12
    requires w == 12 || free < Pow2(w)
    requires w == w0 || free >= Pow2(w - 1)
    ensures WidthFor(w0, free) == w
    decreases w - w0
  {
    if w0 < w {
      Pow2Monotone(w0, w - 1);
      WidthForIs(w0 + 1, w, free);
    }
  }

  lemma {:induction false} WidthForRange(w: nat, free: nat)
    requires w <= 12
    ensures w <= WidthFor(w, free) <= 12
    ensures WidthFor(w, free) == 12 || free < Pow2(WidthFor(w, free))
    ensures WidthFor(w, free) == w || free >= Pow2(WidthFor(w, free) - 1)
    decreases 12 - w
  {
    if w < 12 && free >= Pow2(w) {
      WidthForRange(w + 1, free);
    }
  }

  lemma WidthStart(f: Format)
    requires f.Valid()
    ensures Width(f, 0) == Width(f, 1) == f.initSize
  {
  }

  /** The width grows by one exactly when the next free code no longer fits, up to 12 bits. */
  lemma WidthStep(f: Format, k: nat)
    requires f.Valid()
    ensures f.initSize <= Width(f, k) <= 12
    ensures Width(f, k + 1) ==
              if NextFree(f, k + 1) >= Pow2(Width(f, k)) && Width(f, k) < 12 then Width(f, k) + 1 else Width(f, k)
  {
    var w, free, free' := Width(f, k), NextFree(f, k), NextFree(f, k + 1);
    WidthForRange(f.initSize, free);
    assert free <= free' <= free + 1;
    if free' >= Pow2(w) && w < 12 {
      Pow2Monotone(w, w);
      assert free' < Pow2(w + 1);
      WidthForIs(f.initSize, w + 1, free');
    } else {
      WidthForIs(f.initSize, w, free');
    }
  }

  /** Every code that may come next, and the clear and end codes, fit the current width. */
  lemma CodeFits(f: Format, k: nat, c: nat)
    requires f.Valid() && (LegalAt(f, k, c) || c <= f.Eoi())
    ensures c < Pow2(Width(f, k))
  {
    WidthForRange(f.initSize, NextFree(f, k));
    Pow2Monotone(f.initSize, Width(f, k));
    Pow2Table();
  }

  /** The bits of a stream: every code least significant bit first, in the width of the moment. */
  ghost function StreamBits(f: Format, cs: seq<nat>): seq<bool> {
    if cs == [] then []
    else StreamBits(f, Init(cs)) + LowBits(Last(cs), Width(f, |Epoch(f, Init(cs))|))
  }

  // ---- prefixes ----

  lemma {:induction false} PrefixWellFormed(f: Format, cs: seq<nat>, i: nat)
    requires WellFormed(f, cs) && i <= |cs|
    ensures WellFormed(f, cs[..i])
    ensures Text(f, cs[..i]) <= Text(f, cs) && StreamBits(f, cs[..i]) <= StreamBits(f, cs)
    decreases |cs|
  {
    if i == |cs| {
      assert cs[..i] == cs;
    } else {
      PrefixWellFormed(f, Init(cs), i);
      assert Init(cs)[..i] == cs[..i];
    }
  }

  /** What one more code adds. */
  lemma Snoc(f: Format, cs: seq<nat>, c: nat)
    requires WellFormed(f, cs)
    requires c != f.clear ==> cs != [] && LegalAt(f, |Epoch(f, cs)|, c)
    ensures WellFormed(f, cs + [c])
    ensures Epoch(f, cs + [c]) == if c == f.clear then [] else Epoch(f, cs) + [c]
    ensures Legal(f, Epoch(f, cs + [c]))
    ensures Text(f, cs + [c]) == Text(f, cs) + if c == f.clear then [] else Str(f, Epoch(f, cs + [c]), c)
    ensures StreamBits(f, cs + [c]) == StreamBits(f, cs) + LowBits(c, Width(f, |Epoch(f, cs)|))
  {
    assert Init(cs + [c]) == cs && Last(cs + [c]) == c;
    EpochLegal(f, cs + [c]);
  }

  // ---- longest matches ----

  /** A defined code whose string goes on after the string of c with pixel v descends from an entry of
      these two. */
  lemma {:induction false} EntryOf(f: Format, e: seq<nat>, s: seq<nat>, d: nat) returns (m: nat)
    requires Legal(f, e) && (d < f.colours || f.First() <= d < f.First() + |e| - 1)
    requires s != [] && s < Str(f, e, d)
    ensures m < |e| - 1 && Str(f, e, e[m]) == s && Entry(f, e, m).1 == Str(f, e, d)[|s|]
    decreases d
  {
    m := d - f.First();
    StrUnsnoc(f, e, d);
    var t := Init(Str(f, e, d));
    assert Str(f, e, d) == t + [Last(Str(f, e, d))];
    if s != t {
      assert s < t;
      m := EntryOf(f, e, s, e[m]);
    }
  }

  /** Each code of such a stream is the longest match: unless a clear code follows, no code defined by
      then stands for more of the pixels that are still to come. */
  lemma LongestMatch(f: Format, cs: seq<nat>, i: nat, d: nat)
    requires WellFormed(f, cs) && Frugal(f, cs) && i + 1 < |cs| && cs[i] != f.clear && cs[i + 1] != f.clear
    ensures var e := Epoch(f, cs[..i + 1]);
            && WellFormed(f, cs[..i]) && Legal(f, e) && e != [] && Last(e) == cs[i]
            && (d < f.colours || f.First() <= d < f.First() + |e| - 1 ==>
                  Text(f, cs[..i]) + Str(f, e, d) <= Text(f, cs) ==> |Str(f, e, d)| <= |Str(f, e, Last(e))|)
  {
    var a, b, c := cs[..i], cs[..i + 1], cs[..i + 2];
    FrugalPrefix(f, cs, i);
    FrugalPrefix(f, cs, i + 1);
    FrugalPrefix(f, cs, i + 2);
    PrefixWellFormed(f, cs, i + 2);
    assert Init(b) == a && Last(b) == cs[i] && Init(c) == b && Last(c) == cs[i + 1];
    EpochLegal(f, b);
    EpochLegal(f, c);
    var e, e' := Epoch(f, b), Epoch(f, c);
    if (d < f.colours || f.First() <= d < f.First() + |e| - 1) && Text(f, a) + Str(f, e, d) <= Text(f, cs) {
      NoLonger(f, e, e', d, Text(f, a), Text(f, cs));
    }
  }

  lemma {:induction false} NoLonger(f: Format, e: seq<nat>, e': seq<nat>, d: nat, before: seq<nat>, text: seq<nat>)
    requires Legal(f, e) && Legal(f, e') && EntriesDiffer(f, e') && e != [] && e' != [] && e' == e + [Last(e')]
    requires d < f.colours || f.First() <= d < f.First() + |e| - 1
    requires before + Str(f, e, d) <= text
    requires before + Str(f, e, Last(e)) + Str(f, e', Last(e')) <= text
    ensures |Str(f, e, d)| <= |Str(f, e, Last(e))|
  {
    var s, t, v := Str(f, e, Last(e)), Str(f, e, d), Head(f, e', Last(e'));
    if |t| > |s| {
      assert text[|before|..][..|t|] == t && text[|before|..][..|s|] == s;
      assert text[|before| + |s|] == v;
      var m := EntryOf(f, e, s, d);
      HeadPrefix(f, e, e', Last(e));
      forall n: nat | n < |e| - 1
        ensures Entry(f, e', n) == Entry(f, e, n)
      {
        HeadPrefix(f, e, e', e[n + 1]);
      }
      assert Entry(f, e', |e| - 1) == (Last(e), v);
      StringsDistinct(f, e, e[m], Last(e));
    }
  }

  /** In such a stream a clear code after the first comes exactly when 4096 - First codes have come since
      the one before, and no epoch is longer. */
  lemma ClearWhenFull(f: Format, cs: seq<nat>, i: nat)
    requires WellFormed(f, cs) && Frugal(f, cs) && 0 < i < |cs|
    ensures cs[i] == f.clear <==> f.First() + |Epoch(f, cs[..i])| == 4096
    ensures cs[i] == f.clear ==> cs[i - 1] < f.colours
    ensures f.First() + |Epoch(f, cs[..i])| <= 4096
  {
    FrugalPrefix(f, cs, i);
    FrugalPrefix(f, cs, i + 1);
    var a, b := cs[..i], cs[..i + 1];
    assert Init(b) == a && Last(b) == cs[i] && Last(a) == cs[i - 1];
  }

  lemma {:induction false} FrugalPrefix(f: Format, cs: seq<nat>, i: nat)
    requires WellFormed(f, cs) && Frugal(f, cs) && i <= |cs|
    ensures WellFormed(f, cs[..i]) && Frugal(f, cs[..i])
    decreases |cs|
  {
    PrefixWellFormed(f, cs, i);
    if i == |cs| {
      assert cs[..i] == cs;
    } else {
      FrugalPrefix(f, Init(cs), i);
      assert Init(cs)[..i] == cs[..i];
    }
  }
}
