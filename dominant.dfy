/** The second and third steps of the dominant-colour kernel: keep the
    colours that appear more than a fixed number of times, order them by
    descending count and answer with the first one. Where the kernel reads
    the first element of an empty list and crashes, the model answers with
    an explicit failure. */
module DominantColor {
  import opened ColorKey
  import opened PixelTally

  /** A colour must appear strictly more often than this to be a candidate. */
  const Threshold: nat := 100

  datatype Error = NoDominantColor

  datatype Result<T> = Success(value: T) | Failure(error: Error)

  /** One element of the `colors` list: the returned string, the colour and
      its count. */
  datatype Candidate = Candidate(color: string, rgb: Rgb, count: nat)

  /** `c` passes the threshold filter of the tally `t`. */
  predicate Significant(t: map<Rgb, nat>, c: Rgb) {
    c in t && t[c] > Threshold
  }

  /** `c` is a candidate whose count no entry of `t` exceeds. */
  predicate IsDominant(t: map<Rgb, nat>, c: Rgb) {
    Significant(t, c) && forall d :: d in t ==> t[d] <= t[c]
  }

  /** The element is the tally's entry for its colour, with its string. */
  predicate Describes(t: map<Rgb, nat>, x: Candidate) {
    x.rgb in t && x.count == t[x.rgb] && x.color == ColorString(x.rgb)
  }

  predicate SortedByCountDesc(s: seq<Candidate>) {
    forall i, j :: 0 <= i < j < |s| ==> s[i].count >= s[j].count
  }

  /** Collects the candidates (the `for ... in` loop over the record). The
      order in which keys are visited is not modelled: any order may be
      taken. */
  method Candidates(record: map<Rgb, nat>) returns (colors: seq<Candidate>)
    ensures forall x :: x in colors ==> Describes(record, x) && x.count > Threshold
    ensures forall c :: Significant(record, c) ==> Candidate(ColorString(c), c, record[c]) in colors
    ensures forall j, k :: 0 <= j < k < |colors| ==> colors[j].rgb != colors[k].rgb
  {
    colors := [];
    var remaining := record.Keys;
    while remaining != {}
      invariant remaining <= record.Keys
      invariant forall x :: x in colors ==> Describes(record, x) && x.count > Threshold && x.rgb !in remaining
      invariant forall c :: Significant(record, c) && c !in remaining ==> Candidate(ColorString(c), c, record[c]) in colors
      invariant forall j, k :: 0 <= j < k < |colors| ==> colors[j].rgb != colors[k].rgb
      decreases remaining
    {
      var rgbColor :| rgbColor in remaining;
      var count := record[rgbColor];
      if count > Threshold {
        colors := colors + [Candidate(ColorString(rgbColor), rgbColor, count)];
      }
      remaining := remaining - {rgbColor};
    }
  }

  /** Sorts by descending count (`colors.sort((a, b) => b.count - a.count)`),
      in place, by insertion. */
  method SortByCountDesc(a: array<Candidate>)
    modifies a
    ensures SortedByCountDesc(a[..])
    ensures multiset(a[..]) == old(multiset(a[..]))
  {
    for i := 0 to a.Length
      invariant SortedByCountDesc(a[..i])
      invariant multiset(a[..]) == old(multiset(a[..]))
    {
      InsertAt(a, i);
    }
    assert a[..a.Length] == a[..];
  }

  /** Moves `a[i]` left past every element of smaller count, so that the
      sorted prefix grows by one. */
  method InsertAt(a: array<Candidate>, i: nat)
    requires i < a.Length && SortedByCountDesc(a[..i])
    modifies a
    ensures SortedByCountDesc(a[..i + 1])
    ensures a[i + 1..] == old(a[i + 1..])
    ensures multiset(a[..]) == old(multiset(a[..]))
  {
    var j := i;
    while j > 0 && a[j - 1].count < a[j].count
      invariant 0 <= j <= i
      invariant forall p, q :: 0 <= p < q <= i && p != j && q != j ==> a[p].count >= a[q].count
      invariant forall q :: j < q <= i ==> a[j].count > a[q].count
      invariant forall q :: i < q < a.Length ==> a[q] == old(a[q])
      invariant multiset(a[..]) == old(multiset(a[..]))
    {
      SwapAdjacent(a, j);
      j := j - 1;
    }
    assert a[i + 1..] == old(a[i + 1..]);
  }

  method SwapAdjacent(a: array<Candidate>, j: nat)
    requires 0 < j < a.Length
    modifies a
    ensures a[..] == old(a[..])[j - 1 := old(a[j])][j := old(a[j - 1])]
    ensures multiset(a[..]) == old(multiset(a[..]))
  {
    a[j - 1], a[j] := a[j], a[j - 1];
  }

  /** Keeps the candidates of the record, sorts them and takes the first
      (`colors[0]`); an empty list of candidates is the failure the kernel
      runs into when it reads `.color` of `undefined`. */
  method MostAppearing(record: map<Rgb, nat>) returns (r: Result<Candidate>)
    ensures r.Failure? <==> forall c :: c in record ==> record[c] <= Threshold
    ensures r.Success? ==> Describes(record, r.value) && IsDominant(record, r.value.rgb)
  {
    var colors := Candidates(record);
    var sorted := new Candidate[|colors|](k requires 0 <= k < |colors| => colors[k]);
    assert sorted[..] == colors;
    SortByCountDesc(sorted);
    if sorted.Length == 0 {
      return Failure(NoDominantColor);
    }
    var mostAppearingColor := sorted[0];
    assert mostAppearingColor in multiset(colors);
    forall d | d in record ensures record[d] <= mostAppearingColor.count {
      if record[d] > Threshold {
        var x := Candidate(ColorString(d), d, record[d]);
        assert x in multiset(sorted[..]);
        var k :| 0 <= k < sorted.Length && sorted[k] == x;
        assert k == 0 || sorted[..][0].count >= sorted[..][k].count;
      }
    }
    r := Success(mostAppearingColor);
  }

  /** The whole kernel: the colour string of a most frequent colour that
      appears more than `Threshold` times, or `NoDominantColor`. */
  method GetMostAppearingColor(pixelData: seq<Byte>) returns (r: Result<string>)
    requires |pixelData| % 4 == 0
    ensures r.Failure? <==> forall c :: Count(Pixels(pixelData), c) <= Threshold
    ensures r.Success? ==> exists c :: r.value == ColorString(c) && IsMostAppearing(Pixels(pixelData), c)
    ensures |pixelData| <= 4 * Threshold ==> r.Failure?
  {
    var colorShowTimeRecord := Tally(pixelData);
    var mostAppearingColor := MostAppearing(colorShowTimeRecord);
    ghost var px := Pixels(pixelData);
    match mostAppearingColor
    case Failure(e) =>
      forall c ensures Count(px, c) <= Threshold {
        CountPositiveIffOccurs(px, c);
        if c in px {
          assert c in colorShowTimeRecord && colorShowTimeRecord[c] == Count(px, c);
        }
      }
      r := Failure(e);
    case Success(x) =>
      assert x.rgb in px && colorShowTimeRecord[x.rgb] == Count(px, x.rgb);
      forall d ensures Count(px, d) <= Count(px, x.rgb) {
        CountPositiveIffOccurs(px, d);
        if d in px {
          assert d in colorShowTimeRecord && colorShowTimeRecord[d] == Count(px, d);
        }
      }
      r := Success(x.color);
  }

  /** `c` occurs in the pixels more than `Threshold` times and no colour
      occurs more often. */
  ghost predicate IsMostAppearing(px: seq<Rgb>, c: Rgb) {
    c in px && Count(px, c) > Threshold && forall d :: Count(px, d) <= Count(px, c)
  }

  /** An image filled with one colour over more than `Threshold` pixels has
      that colour as its most appearing one, and only that colour. */
  lemma UniformImageDominant(px: seq<Rgb>, c: Rgb)
    requires |px| > Threshold
    requires forall k :: 0 <= k < |px| ==> px[k] == c
    ensures IsMostAppearing(px, c)
    ensures forall d :: IsMostAppearing(px, d) ==> d == c
  {
    UniformTally(px, c);
    assert Count(px, c) == TallyOf(px)[c] == |px|;
    forall d ensures Count(px, d) <= Count(px, c) && (d != c ==> Count(px, d) == 0) {
      CountPositiveIffOccurs(px, d);
    }
  }
}
