/** The `Image` record and the in-place `binarization` threshold. */
module Imaging {
  import opened Base

  /** Range of a C `int`. */
  predicate IsInt(x: int)
  {
    -0x8000_0000 <= x < 0x8000_0000
  }

  /** An image: its dimensions and its buffer of `width * height * channels` samples. */
  class Image {
    var width: int
    var height: int
    var channels: int
    var data: array<Byte>

    /** Number of samples `binarization` visits: `width * height * channels`, none when that is not positive. */
    function SampleCount(): nat
      reads this
    {
      var n := width * height * channels;
      if n > 0 then n else 0
    }

    /**
     * The dimensions are C ints, `width * height * channels` is evaluated
     * without overflow, and the buffer holds that many samples.
     */
    ghost predicate Valid()
      reads this
    {
      && IsInt(width) && IsInt(height) && IsInt(channels)
      && IsInt(width * height) && IsInt(width * height * channels)
      && SampleCount() <= data.Length
    }

    /**
     * The fields as `open_image` fills them from a loaded buffer: C int
     * dimensions whose product fits in an int, and a buffer of at least
     * that many samples.
     */
    constructor (width: int, height: int, channels: int, data: array<Byte>)
      requires IsInt(width) && IsInt(height) && IsInt(channels)
      requires IsInt(width * height) && IsInt(width * height * channels)
      requires width * height * channels <= data.Length
      ensures Valid()
      ensures this.width == width && this.height == height && this.channels == channels && this.data == data
    {
      this.width := width;
      this.height := height;
      this.channels := channels;
      this.data := data;
    }
  }

  /** One sample after thresholding: white above the threshold, black otherwise. */
  function Threshold(v: Byte, threshold: int): Byte
  {
    if v > threshold then 255 else 0
  }

  /** Every sample of `s` thresholded, in order. */
  function Binarized(s: seq<Byte>, threshold: int): seq<Byte>
  {
    if s == [] then [] else Binarized(s[..|s| - 1], threshold) + [Threshold(s[|s| - 1], threshold)]
  }

  /** Each output sample depends only on the input sample at the same index. */
  lemma {:induction false} BinarizedAt(s: seq<Byte>, threshold: int, i: int)
    requires 0 <= i < |s|
    ensures |Binarized(s, threshold)| == |s|
    ensures Binarized(s, threshold)[i] == Threshold(s[i], threshold)
  {
    var n := |s| - 1;
    if i < n {
      BinarizedAt(s[..n], threshold, i);
    } else if n > 0 {
      BinarizedAt(s[..n], threshold, 0);
    }
  }

  /** Binarising keeps the length and leaves only black (0) and white (255) samples. */
  lemma BinarizedIsBlackOrWhite(s: seq<Byte>, threshold: int)
    ensures |Binarized(s, threshold)| == |s|
    ensures forall i :: 0 <= i < |s| ==> Binarized(s, threshold)[i] == 0 || Binarized(s, threshold)[i] == 255
  {
    if s != [] {
      BinarizedAt(s, threshold, 0);
    }
    forall i | 0 <= i < |s| ensures Binarized(s, threshold)[i] == Threshold(s[i], threshold) {
      BinarizedAt(s, threshold, i);
    }
  }

  /**
   * Binarising twice is binarising once, for every threshold: in 0..254 the
   * values 0 and 255 map to themselves, and outside that range the first
   * pass leaves only the one value the second pass produces.
   */
  lemma BinarizedIdempotent(s: seq<Byte>, threshold: int)
    ensures Binarized(Binarized(s, threshold), threshold) == Binarized(s, threshold)
  {
    var b := Binarized(s, threshold);
    BinarizedIsBlackOrWhite(s, threshold);
    BinarizedIsBlackOrWhite(b, threshold);
    BinarizedExtremes(s, threshold);
    forall i | 0 <= i < |b| ensures Binarized(b, threshold)[i] == b[i] {
      BinarizedAt(b, threshold, i);
    }
  }

  /** A threshold of 255 or more blackens every sample; a negative one whitens every sample. */
  lemma BinarizedExtremes(s: seq<Byte>, threshold: int)
    ensures |Binarized(s, threshold)| == |s|
    ensures threshold >= 255 ==> forall i :: 0 <= i < |s| ==> Binarized(s, threshold)[i] == 0
    ensures threshold < 0 ==> forall i :: 0 <= i < |s| ==> Binarized(s, threshold)[i] == 255
  {
    BinarizedIsBlackOrWhite(s, threshold);
    forall i | 0 <= i < |s| ensures Binarized(s, threshold)[i] == Threshold(s[i], threshold) {
      BinarizedAt(s, threshold, i);
    }
  }

  /** Thresholding one more sample extends the thresholded prefix by that sample. */
  lemma BinarizedNext(s: seq<Byte>, threshold: int, i: nat)
    requires i < |s|
    ensures Binarized(s[..i + 1], threshold) == Binarized(s[..i], threshold) + [Threshold(s[i], threshold)]
  {
    assert s[..i + 1][..i] == s[..i];
  }

  /**
   * `binarization`: thresholds the first `width * height * channels`
   * samples in place. A null image is left alone; the dimensions, the
   * buffer reference and the samples past the count are not touched.
   */
  method Binarization(image: Image?, threshold: int)
    requires image != null ==> image.Valid()
    modifies if image != null then {image.data} else {}
    ensures image != null ==> unchanged(image)
    ensures image != null ==>
      && image.data[..image.SampleCount()] == Binarized(old(image.data[..image.SampleCount()]), threshold)
      && image.data[image.SampleCount()..] == old(image.data[image.SampleCount()..])
  {
    if image == null {
      return;
    }
    var data := image.data;
    ghost var before := data[..];
    ghost var count := image.SampleCount();
    var n := image.width * image.height * image.channels;
    assert count == if n > 0 then n else 0;
    var i := 0;
    while i < n
      invariant 0 <= i <= count
      invariant data[..i] == Binarized(before[..i], threshold)
      invariant data[i..] == before[i..]
    {
      BinarizedNext(before, threshold, i);
      assert data[i] == before[i];
      data[i] := if data[i] > threshold then 255 else 0;
      assert data[..i + 1] == data[..i] + [data[i]];
      i := i + 1;
    }
    assert i == count;
  }
}
