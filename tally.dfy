/** The first step of the dominant-colour kernel: a walk over the decoded
    RGBA buffer, four channel values at a time, that counts how often each
    RGB triple occurs. The alpha value of every pixel is dropped. */
module PixelTally {
  import opened ColorKey

  /** The RGB triples of the first `n` pixels of the buffer, in buffer
      order. Pixel k is made of channel values 4k, 4k+1 and 4k+2; value
      4k+3 is its alpha and is not read. */
  function PixelsPrefix(buf: seq<Byte>, n: nat): (px: seq<Rgb>)
    requires 4 * n <= |buf|
    ensures |px| == n
  {
    if n == 0 then []
    else
      var i := 4 * (n - 1);
      PixelsPrefix(buf, n - 1) + [Rgb(buf[i], buf[i + 1], buf[i + 2])]
  }

  /** The RGB triples of all pixels of a buffer of whole pixels. */
  function Pixels(buf: seq<Byte>): (px: seq<Rgb>)
    requires |buf| % 4 == 0
    ensures 4 * |px| == |buf|
  {
    PixelsPrefix(buf, |buf| / 4)
  }

  /** Pixel k of the buffer is made of channel values 4k, 4k+1 and 4k+2. */
  lemma {:induction false} PixelsAt(buf: seq<Byte>, n: nat, k: nat)
    requires 4 * n <= |buf| && k < n
    ensures PixelsPrefix(buf, n)[k] == Rgb(buf[4 * k], buf[4 * k + 1], buf[4 * k + 2])
  {
    if k < n - 1 {
      PixelsAt(buf, n - 1, k);
    }
  }

  /** The number of pixels whose triple is exactly `c`. */
  function Count(px: seq<Rgb>, c: Rgb): (n: nat)
    ensures n <= |px|
  {
    if px == [] then 0
    else Count(px[..|px| - 1], c) + (if px[|px| - 1] == c then 1 else 0)
  }

  /** The tally the kernel is meant to build: one entry per colour that
      occurs, holding the number of its pixels. */
  function TallyOf(px: seq<Rgb>): map<Rgb, nat>
  {
    map c | c in px :: Count(px, c)
  }

  /** What one step of the walk does to the tally: count `c` once more. */
  function Bump(t: map<Rgb, nat>, c: Rgb): (t': map<Rgb, nat>)
    ensures t'.Keys == t.Keys + {c}
    ensures t'[c] == if c in t then t[c] + 1 else 1
    ensures forall d :: d in t && d != c ==> t'[d] == t[d]
  {
    if c in t then t[c := t[c] + 1] else t[c := 1]
  }

  /** The sum of all counts of a tally. */
  ghost function Total(t: map<Rgb, nat>): nat
    decreases |t|
  {
    if t == map[] then 0
    else
      var c :| c in t;
      assert |(t - {c}).Keys| < |t.Keys| by { assert (t - {c}).Keys == t.Keys - {c}; }
      t[c] + Total(t - {c})
  }

  /** Builds the record of how often each colour appears (the `for` loop
      stepping `i` by 4 over the buffer). */
  method Tally(pixelData: seq<Byte>) returns (record: map<Rgb, nat>)
    requires |pixelData| % 4 == 0
    ensures record == TallyOf(Pixels(pixelData))
  {
    ghost var n := |pixelData| / 4;
    assert 4 * n == |pixelData|;
    record := map[];
    var i := 0;
    ghost var seen: seq<Rgb> := [];
    while i < |pixelData|
      invariant 4 * |seen| == i <= |pixelData|
      invariant seen == PixelsPrefix(pixelData, |seen|)
      invariant record == TallyOf(seen)
    {
      var rgbColor := Rgb(pixelData[i], pixelData[i + 1], pixelData[i + 2]);
      TallyStep(seen, rgbColor, record);
      // the record is tested for truthiness: an absent key or a zero count
      if rgbColor in record && record[rgbColor] != 0 {
        record := record[rgbColor := record[rgbColor] + 1];
      } else {
        record := record[rgbColor := 1];
      }
      seen := seen + [rgbColor];
      i := i + 4;
    }
    assert |seen| == n;
  }

  /** One turn of the walk in `Tally`: the entry of the next pixel's colour
      is present exactly when its count is not zero, and either branch of
      the update gives the tally of one more pixel. */
  lemma TallyStep(seen: seq<Rgb>, c: Rgb, record: map<Rgb, nat>)
    requires record == TallyOf(seen)
    ensures c in record && record[c] != 0 ==> record[c := record[c] + 1] == TallyOf(seen + [c])
    ensures !(c in record && record[c] != 0) ==> record[c := 1] == TallyOf(seen + [c])
  {
    if c in record {
      CountPositiveIffOccurs(seen, c);
    }
    TallyOfSnoc(seen, c);
  }

  /** A colour is counted at all exactly when some pixel has it. */
  lemma {:induction false} CountPositiveIffOccurs(px: seq<Rgb>, c: Rgb)
    ensures Count(px, c) > 0 <==> c in px
  {
    if px != [] {
      var init := px[..|px| - 1];
      assert px == init + [px[|px| - 1]];
      CountPositiveIffOccurs(init, c);
    }
  }

  /** Count agrees with the multiplicity of `c` in the multiset of pixels:
      exact equality of triples, no bucketing. */
  lemma {:induction false} CountIsMultiplicity(px: seq<Rgb>, c: Rgb)
    ensures Count(px, c) == multiset(px)[c]
  {
    if px != [] {
      var init := px[..|px| - 1];
      assert px == init + [px[|px| - 1]];
      CountIsMultiplicity(init, c);
    }
  }

  /** Count's own recurrence read at `px + [x]`: a definitional reading aid
      that Dafny proves by unfolding `Count` once. */
  lemma CountSnoc(px: seq<Rgb>, x: Rgb, c: Rgb)
    ensures Count(px + [x], c) == Count(px, c) + (if x == c then 1 else 0)
  {
  }

  /** Counting one more pixel bumps exactly that pixel's entry. */
  lemma TallyOfSnoc(px: seq<Rgb>, x: Rgb)
    ensures TallyOf(px + [x]) == Bump(TallyOf(px), x)
  {
    var s, t := px + [x], TallyOf(px);
    forall c ensures Count(s, c) == Count(px, c) + (if x == c then 1 else 0) {
      CountSnoc(px, x, c);
    }
    CountPositiveIffOccurs(px, x);
    assert TallyOf(s).Keys == Bump(t, x).Keys;
  }

  /** Every key of the tally is the triple of at least one pixel, and every
      pixel's triple is a key: the domain of `TallyOf` restated over pixel
      indices, a definitional reading aid. */
  lemma TallyKeysArePixels(px: seq<Rgb>, c: Rgb)
    ensures c in TallyOf(px) <==> exists k :: 0 <= k < |px| && px[k] == c
  {
  }

  /** No entry of the tally holds a zero count; each holds its exact count. */
  lemma TallyCounts(px: seq<Rgb>, c: Rgb)
    requires c in TallyOf(px)
    ensures TallyOf(px)[c] == multiset(px)[c] > 0
  {
    CountPositiveIffOccurs(px, c);
    CountIsMultiplicity(px, c);
  }

  /** Total does not depend on which key is taken first. */
  lemma {:induction false} TotalRemove(t: map<Rgb, nat>, c: Rgb)
    requires c in t
    ensures Total(t) == t[c] + Total(t - {c})
    decreases |t|
  {
    var d :| d in t && Total(t) == t[d] + Total(t - {d});
    if d != c {
      assert (t - {d}).Keys == t.Keys - {d};
      assert (t - {c}).Keys == t.Keys - {c};
      TotalRemove(t - {d}, c);
      TotalRemove(t - {c}, d);
      assert t - {d} - {c} == t - {c} - {d};
    }
  }

  lemma TotalBump(t: map<Rgb, nat>, c: Rgb)
    ensures Total(Bump(t, c)) == Total(t) + 1
  {
    var t' := Bump(t, c);
    TotalRemove(t', c);
    if c in t {
      TotalRemove(t, c);
      assert t' - {c} == t - {c};
    } else {
      assert t' - {c} == t;
    }
  }

  /** The counts of the tally add up to the number of pixels. */
  lemma {:induction false} TallySum(px: seq<Rgb>)
    ensures Total(TallyOf(px)) == |px|
  {
    if px == [] {
      assert TallyOf(px) == map[];
    } else {
      var init, x := px[..|px| - 1], px[|px| - 1];
      assert px == init + [x];
      TallySum(init);
      TallyOfSnoc(init, x);
      TotalBump(TallyOf(init), x);
    }
  }

  /** Two buffers that differ only in alpha values have the same pixels,
      hence the same tally. */
  lemma AlphaIgnored(a: seq<Byte>, b: seq<Byte>)
    requires |a| == |b| && |a| % 4 == 0
    requires forall j :: 0 <= j < |a| && j % 4 != 3 ==> a[j] == b[j]
    ensures Pixels(a) == Pixels(b)
    ensures TallyOf(Pixels(a)) == TallyOf(Pixels(b))
  {
    AlphaIgnoredPrefix(a, b, |a| / 4);
  }

  lemma {:induction false} AlphaIgnoredPrefix(a: seq<Byte>, b: seq<Byte>, n: nat)
    requires |a| == |b| && 4 * n <= |a|
    requires forall j :: 0 <= j < |a| && j % 4 != 3 ==> a[j] == b[j]
    ensures PixelsPrefix(a, n) == PixelsPrefix(b, n)
  {
    if n > 0 {
      var i := 4 * (n - 1);
      assert i % 4 == 0 && (i + 1) % 4 == 1 && (i + 2) % 4 == 2;
      assert a[i] == b[i] && a[i + 1] == b[i + 1] && a[i + 2] == b[i + 2];
      AlphaIgnoredPrefix(a, b, n - 1);
    }
  }

  /** An image whose every pixel has colour `c` tallies to one entry. */
  lemma {:induction false} UniformTally(px: seq<Rgb>, c: Rgb)
    requires px != []
    requires forall k :: 0 <= k < |px| ==> px[k] == c
    ensures TallyOf(px) == map[c := |px|]
  {
    var init := px[..|px| - 1];
    assert px == init + [c];
    TallyOfSnoc(init, c);
    if init != [] {
      UniformTally(init, c);
    } else {
      assert TallyOf(init) == map[];
    }
  }
}
