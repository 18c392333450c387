/** There is one way to write a text as the GIF encoder does: its rules leave no choice of codes. */
module LzwUnique {
  import opened LzwStream
  import opened GifEncoder

  /** A stream as the writer leaves it: no repeated entry, clear codes when the dictionary is full and only
      then, and a last epoch that is not full. */
  ghost predicate Complete(f: Format, cs: seq<nat>) {
    WellFormed(f, cs) && cs != [] && Frugal(f, cs) && f.First() + |Epoch(f, cs)| < MAX_CODES
  }

  /** What code i of a stream does to its text. */
  lemma CodeInText(f: Format, cs: seq<nat>, i: nat)
    requires WellFormed(f, cs) && i < |cs| && cs[i] != f.clear
    ensures i > 0 && WellFormed(f, cs[..i])
    ensures var e := Epoch(f, cs[..i]);
            && Pending(f, e, cs[i]) && Epoch(f, cs[..i + 1]) == e + [cs[i]]
            && Text(f, cs[..i]) + Str(f, e + [cs[i]], cs[i]) <= Text(f, cs)
  {
    PrefixWellFormed(f, cs, i);
    PrefixWellFormed(f, cs, i + 1);
    EpochLegal(f, cs[..i]);
    assert Init(cs[..i + 1]) == cs[..i] && Last(cs[..i + 1]) == cs[i];
  }

  /** Two codes that stand for prefixes of the same pixels start with the same pixel, so it does not matter
      which of them completes the last entry. */
  lemma SameStart(f: Format, e: seq<nat>, c: nat, d: nat, before: seq<nat>, text: seq<nat>)
    requires Pending(f, e, c) && Pending(f, e, d)
    requires c < f.colours || f.First() <= c < f.First() + |e|
    requires d < f.colours || f.First() <= d < f.First() + |e|
    requires before + Str(f, e + [c], c) <= text && before + Str(f, e + [d], d) <= text
    ensures Str(f, e + [c], d) == Str(f, e + [d], d)
  {
    hide Str, Head, Entry;
    FirstPixelOf(before, Str(f, e + [c], c), text);
    FirstPixelOf(before, Str(f, e + [d], d), text);
    SameEntries(f, e, c, d, d);
  }

  lemma FirstPixelOf(before: seq<nat>, s: seq<nat>, text: seq<nat>)
    requires s != [] && before + s <= text
    ensures text[|before|] == s[0]
  {
    assert (before + s)[|before|] == s[0];
  }

  lemma SameLength(before: seq<nat>, s: seq<nat>, t: seq<nat>, text: seq<nat>)
    requires |s| == |t| && before + s <= text && before + t <= text
    ensures s == t
  {
    assert before + s == text[..|before| + |s|] == before + t;
    assert s == (before + s)[|before|..] && t == (before + t)[|before|..];
  }

  /** A code that no clear code follows is at least as long as any other that may come in its place. */
  lemma NoneLonger(f: Format, cs: seq<nat>, i: nat, d: nat)
    requires Complete(f, cs) && i < |cs| && cs[i] != f.clear && (i + 1 < |cs| ==> cs[i + 1] != f.clear)
    requires WellFormed(f, cs[..i]) && Pending(f, Epoch(f, cs[..i]), d)
    requires Text(f, cs[..i]) + Str(f, Epoch(f, cs[..i]) + [d], d) <= Text(f, cs)
    ensures var e := Epoch(f, cs[..i]);
            Pending(f, e, cs[i]) && |Str(f, e + [d], d)| <= |Str(f, e + [cs[i]], cs[i])|
  {
    CodeInText(f, cs, i);
    var e := Epoch(f, cs[..i]);
    SameStart(f, e, cs[i], d, Text(f, cs[..i]), Text(f, cs));
    if i + 1 < |cs| {
      LongestMatch(f, cs, i, d);
    } else {
      assert cs[..i + 1] == cs;
      assert Init(cs) == cs[..i];
    }
  }

  /** Two streams that agree up to code i have the same code there. */
  lemma SameNext(f: Format, cs: seq<nat>, cs': seq<nat>, i: nat)
    requires Complete(f, cs) && Complete(f, cs') && Text(f, cs) == Text(f, cs')
    requires 0 < i < |cs| && i < |cs'| && cs[..i] == cs'[..i]
    ensures cs[i] == cs'[i]
  {
    hide Str, Text, Frugal, EntriesDiffer, WellFormed;
    ClearWhenFull(f, cs, i);
    ClearWhenFull(f, cs', i);
    if cs[i] != f.clear {
      CodeInText(f, cs, i);
      CodeInText(f, cs', i);
      Following(f, cs, i);
      Following(f, cs', i);
      var e, before, text := Epoch(f, cs[..i]), Text(f, cs[..i]), Text(f, cs);
      SameStart(f, e, cs[i], cs'[i], before, text);
      if f.First() + |e| + 1 == MAX_CODES {
        OnePixelHere(f, e, cs[i], cs'[i], before, text);
      } else {
        NoneLonger(f, cs, i, cs'[i]);
        NoneLonger(f, cs', i, cs[i]);
        NoRepeats(f, cs, i + 1);
        SameCode(f, e, cs[i], cs'[i], before, text);
      }
    }
  }

  lemma NoRepeats(f: Format, cs: seq<nat>, i: nat)
    requires Complete(f, cs) && i <= |cs|
    ensures Legal(f, Epoch(f, cs[..i])) && EntriesDiffer(f, Epoch(f, cs[..i]))
  {
    FrugalPrefix(f, cs, i);
    EpochLegal(f, cs[..i]);
  }

  /** After a code other than clear comes a clear code exactly if the dictionary is full. */
  lemma Following(f: Format, cs: seq<nat>, i: nat)
    requires Complete(f, cs) && 0 < i < |cs| && cs[i] != f.clear
    ensures if f.First() + |Epoch(f, cs[..i])| + 1 == MAX_CODES then cs[i] < f.colours
            else i + 1 < |cs| ==> cs[i + 1] != f.clear
  {
    CodeInText(f, cs, i);
    if i + 1 < |cs| {
      ClearWhenFull(f, cs, i + 1);
    } else {
      assert cs[..i + 1] == cs;
    }
  }

  lemma OnePixelHere(f: Format, e: seq<nat>, c: nat, d: nat, before: seq<nat>, text: seq<nat>)
    requires Pending(f, e, c) && Pending(f, e, d) && c < f.colours && d < f.colours
    requires before + Str(f, e + [c], c) <= text && before + Str(f, e + [d], d) <= text
    ensures c == d
  {
    assert Str(f, e + [c], c) == [c] && Str(f, e + [d], d) == [d];
    assert text[|before|] == c && text[|before|] == d;
  }

  lemma SameCode(f: Format, e: seq<nat>, c: nat, d: nat, before: seq<nat>, text: seq<nat>)
    requires Pending(f, e, c) && Pending(f, e, d) && EntriesDiffer(f, e + [c])
    requires c < f.colours || f.First() <= c < f.First() + |e|
    requires d < f.colours || f.First() <= d < f.First() + |e|
    requires before + Str(f, e + [c], c) <= text && before + Str(f, e + [d], d) <= text
    requires |Str(f, e + [c], c)| == |Str(f, e + [d], d)| && Str(f, e + [c], d) == Str(f, e + [d], d)
    ensures c == d
  {
    hide Str, Head, EntriesDiffer;
    SameLength(before, Str(f, e + [c], c), Str(f, e + [d], d), text);
    StringsDistinct(f, e + [c], c, d);
  }

  lemma {:induction false} SamePrefix(f: Format, cs: seq<nat>, cs': seq<nat>, n: nat)
    requires Complete(f, cs) && Complete(f, cs') && Text(f, cs) == Text(f, cs') && n <= |cs| && n <= |cs'|
    ensures cs[..n] == cs'[..n]
  {
    if n == 1 {
      StartsWithClear(f, cs);
      StartsWithClear(f, cs');
    } else if n > 1 {
      SamePrefix(f, cs, cs', n - 1);
      SameNext(f, cs, cs', n - 1);
      assert cs[..n] == cs[..n - 1] + [cs[n - 1]] && cs'[..n] == cs'[..n - 1] + [cs'[n - 1]];
    }
  }

  lemma StartsWithClear(f: Format, cs: seq<nat>)
    requires WellFormed(f, cs) && cs != []
    ensures cs[0] == f.clear
  {
    PrefixWellFormed(f, cs, 1);
    assert Init(cs[..1]) == [] && Last(cs[..1]) == cs[0];
  }

  /** A stream that goes on spells more. */
  lemma NothingMore(f: Format, cs: seq<nat>, cs': seq<nat>)
    requires Complete(f, cs) && Complete(f, cs') && cs <= cs' && Text(f, cs) == Text(f, cs')
    ensures cs == cs'
  {
    var n := |cs|;
    if n < |cs'| {
      assert cs'[..n] == cs;
      ClearWhenFull(f, cs', n);
      CodeInText(f, cs', n);
    }
  }

  /** The pixels determine the codes. */
  lemma OneStream(f: Format, cs: seq<nat>, cs': seq<nat>)
    requires Complete(f, cs) && Complete(f, cs') && Text(f, cs) == Text(f, cs')
    ensures cs == cs'
  {
    if |cs| <= |cs'| {
      NotLonger(f, cs, cs');
    } else {
      NotLonger(f, cs', cs);
    }
  }

  lemma NotLonger(f: Format, cs: seq<nat>, cs': seq<nat>)
    requires Complete(f, cs) && Complete(f, cs') && Text(f, cs) == Text(f, cs') && |cs| <= |cs'|
    ensures cs == cs'
  {
    SamePrefix(f, cs, cs', |cs|);
    assert cs[..|cs|] == cs;
    NothingMore(f, cs, cs');
  }
}
