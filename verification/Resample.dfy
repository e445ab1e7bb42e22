/** Linear resampling of PCM16 audio, with exact positions i * from / to in place of float64 ones. */
module Resampling {
  import opened Arithmetic
  import opened Seqs

  type Sample = x: int | -0x8000 <= x < 0x8000

  // ---------- little-endian PCM16 ----------

  function Decode(lo: Byte, hi: Byte): Sample {
    if hi < 128 then lo + 256 * hi else lo + 256 * hi - 65536
  }

  function LowByte(s: Sample): Byte {
    s % 256
  }

  function HighByte(s: Sample): Byte {
    s / 256 % 256
  }

  lemma DecodeEncode(s: Sample)
    ensures Decode(LowByte(s), HighByte(s)) == s
  {
    if s >= 0 {
      DivModUnique(s / 256, 256, 0, s / 256);
    } else {
      DivModUnique(s / 256, 256, -1, s / 256 + 256);
    }
  }

  lemma EncodeDecode(lo: Byte, hi: Byte)
    ensures LowByte(Decode(lo, hi)) == lo && HighByte(Decode(lo, hi)) == hi
  {
    var q := if hi < 128 then hi else hi - 256;
    DivModUnique(Decode(lo, hi), 256, q, lo);
    DivModUnique(q, 256, if hi < 128 then 0 else -1, hi);
  }

  /** The bytes of a sample, low byte first, modulo 2^16. */
  ghost predicate IsSample(s: int, first: int, second: int) {
    first + 256 * second == s || first + 256 * second == s + 0x10000
  }

  function Samples(data: Bytes): (r: seq<Sample>)
    ensures |r| == |data| / 2
  {
    seq(|data| / 2, i requires 0 <= i < |data| / 2 => Decode(data[2 * i], data[2 * i + 1]))
  }

  function SampleBytes(samples: seq<Sample>): (r: Bytes)
    ensures |r| == 2 * |samples|
  {
    seq(2 * |samples|, i requires 0 <= i < 2 * |samples| =>
      if i % 2 == 0 then LowByte(samples[i / 2]) else HighByte(samples[i / 2]))
  }

  lemma LowByteFirst(samples: seq<Sample>)
    ensures forall i :: 0 <= i < |samples| ==>
              IsSample(samples[i], SampleBytes(samples)[2 * i], SampleBytes(samples)[2 * i + 1])
  {
    forall i | 0 <= i < |samples|
      ensures IsSample(samples[i], SampleBytes(samples)[2 * i], SampleBytes(samples)[2 * i + 1])
    {
      DecodeEncode(samples[i]);
    }
  }

  lemma SamplesOfBytes(samples: seq<Sample>)
    ensures Samples(SampleBytes(samples)) == samples
  {
    forall i | 0 <= i < |samples| ensures Samples(SampleBytes(samples))[i] == samples[i] {
      DecodeEncode(samples[i]);
    }
  }

  lemma BytesOfSamples(data: Bytes)
    requires |data| % 2 == 0
    ensures SampleBytes(Samples(data)) == data
  {
    forall i | 0 <= i < |data| ensures SampleBytes(Samples(data))[i] == data[i] {
      EncodeDecode(data[2 * (i / 2)], data[2 * (i / 2) + 1]);
    }
  }

  // ---------- interpolation ----------

  /** The value at position num/den. */
  function Interpolate(samples: seq<Sample>, num: int, den: nat): Sample
    requires samples != [] && den > 0
  {
    if num <= 0 then samples[0]
    else if num >= (|samples| - 1) * den then samples[|samples| - 1]
    else
      InsideLast(num, den, |samples| - 1);
      Between(samples[num / den], samples[num / den + 1], num % den, den)
  }

  lemma InsideLast(num: nat, den: nat, last: nat)
    requires den > 0 && num < last * den
    ensures num / den < last
  {
    QuotientAtLeast(num, den, last);
  }

  /** `v` is the value `num/den` samples into `samples`: linear between two samples and truncated, constant from the
      last sample on. */
  ghost predicate IsInterpolated(v: int, samples: seq<Sample>, num: nat, den: nat)
    requires samples != [] && den > 0
  {
    var k := num / den;
    if k + 1 >= |samples| then v == samples[|samples| - 1]
    else LiesAt(v, samples[k], samples[k + 1], num % den, den)
  }

  lemma InterpolateExactly(samples: seq<Sample>, num: nat, den: nat)
    requires samples != [] && den > 0
    ensures IsInterpolated(Interpolate(samples, num, den), samples, num, den)
  {
    var k := num / den;
    QuotientAtLeast(num, den, 0);
    QuotientAtLeast(num, den, |samples| - 1);
    if num == 0 {
      DivModUnique(0, den, 0, 0);
      if |samples| > 1 {
        LiesAtStart(samples[0], samples[0], samples[1], den);
      }
    } else if num < (|samples| - 1) * den {
      BetweenExactly(samples[k], samples[k + 1], num % den, den);
    }
  }

  lemma InterpolatedUnique(v: int, w: int, samples: seq<Sample>, num: nat, den: nat)
    requires samples != [] && den > 0
    requires IsInterpolated(v, samples, num, den) && IsInterpolated(w, samples, num, den)
    ensures v == w
  {
    var k := num / den;
    if k + 1 < |samples| {
      LiesAtUnique(v, w, samples[k], samples[k + 1], num % den, den);
    }
  }

  /** `out` is `samples` resampled: floor(n * to / from) samples, the i-th one taken at position i * from / to. */
  ghost predicate IsResampled(out: seq<Sample>, samples: seq<Sample>, fromRate: nat, toRate: nat)
    requires fromRate > 0 && toRate > 0 && samples != []
  {
    && |out| * fromRate <= |samples| * toRate < |out| * fromRate + fromRate
    && forall i :: 0 <= i < |out| ==> IsSampleAt(out[i], samples, i, fromRate, toRate)
  }

  ghost predicate IsSampleAt(v: int, samples: seq<Sample>, i: nat, fromRate: nat, toRate: nat)
    requires fromRate > 0 && toRate > 0 && samples != []
  {
    i * fromRate >= 0 && IsInterpolated(v, samples, i * fromRate, toRate)
  }

  lemma LengthUnique(m: nat, n: nat, fromRate: nat, product: int)
    requires m * fromRate <= product < m * fromRate + fromRate
    requires n * fromRate <= product < n * fromRate + fromRate
    ensures m == n
  {
    if m < n {
      StrictlyMore(m, n, fromRate);
    } else if n < m {
      StrictlyMore(n, m, fromRate);
    }
  }

  /** That determines the output. */
  lemma ResampledUnique(out: seq<Sample>, other: seq<Sample>, samples: seq<Sample>, fromRate: nat, toRate: nat)
    requires fromRate > 0 && toRate > 0 && samples != []
    requires IsResampled(out, samples, fromRate, toRate) && IsResampled(other, samples, fromRate, toRate)
    ensures out == other
  {
    LengthUnique(|out|, |other|, fromRate, |samples| * toRate);
    forall i | 0 <= i < |out| ensures out[i] == other[i] {
      assert IsSampleAt(out[i], samples, i, fromRate, toRate) && IsSampleAt(other[i], samples, i, fromRate, toRate);
      InterpolatedUnique(out[i], other[i], samples, i * fromRate, toRate);
    }
  }

  /** At every rate each source position lies inside the input. */
  lemma SourceInRange(out: seq<Sample>, samples: seq<Sample>, fromRate: nat, toRate: nat, i: nat)
    requires fromRate > 0 && toRate > 0 && samples != []
    requires IsResampled(out, samples, fromRate, toRate) && i < |out|
    ensures 0 <= i * fromRate / toRate < |samples|
  {
    ProductNonNegative(i, fromRate);
    StrictlyMore(i, |out|, fromRate);
    QuotientAtLeast(i * fromRate, toRate, 0);
    InsideLast(i * fromRate, toRate, |samples|);
  }

  ghost predicate Amid(v: int, a: int, b: int) {
    if a <= b then a <= v <= b else b <= v <= a
  }

  /** Each output sample lies between its source sample and the next one (or the last, at the end). */
  lemma OutputBetweenNeighbours(out: seq<Sample>, samples: seq<Sample>, fromRate: nat, toRate: nat, i: nat)
    requires fromRate > 0 && toRate > 0 && samples != []
    requires IsResampled(out, samples, fromRate, toRate) && i < |out|
    ensures var k := i * fromRate / toRate;
            && 0 <= k < |samples|
            && Amid(out[i], samples[k], samples[if k + 1 < |samples| then k + 1 else k])
  {
    SourceInRange(out, samples, fromRate, toRate, i);
    assert IsSampleAt(out[i], samples, i, fromRate, toRate);
    var k, r := i * fromRate / toRate, i * fromRate % toRate;
    if k + 1 < |samples| {
      BetweenExactly(samples[k], samples[k + 1], r, toRate);
      LiesAtUnique(out[i], Between(samples[k], samples[k + 1], r, toRate), samples[k], samples[k + 1], r, toRate);
    }
  }

  // ---------- whole-number rate ratios ----------

  /** A position that falls on a sample takes its value. */
  lemma OnSample(v: int, samples: seq<Sample>, j: nat, den: nat)
    requires den > 0 && j < |samples|
    requires j * den >= 0 && IsInterpolated(v, samples, j * den, den)
    ensures v == samples[j]
  {
    DivModUnique(j * den, den, j, 0);
    if j + 1 < |samples| {
      LiesAtStart(v, samples[j], samples[j + 1], den);
    }
  }

  lemma Rearrange(j: nat, k: nat, f: nat)
    ensures j * (k * f) == j * k * f
    ensures j * k * f == j * f * k
  {}

  /** Lowering the rate by the factor `k` keeps every k-th sample. */
  lemma Decimation(out: seq<Sample>, samples: seq<Sample>, rate: nat, k: nat)
    requires rate > 0 && k > 0 && samples != []
    requires k * rate > 0 && IsResampled(out, samples, k * rate, rate)
    ensures |out| == |samples| / k
    ensures forall j :: 0 <= j < |out| ==> 0 <= j * k < |samples| && out[j] == samples[j * k]
  {
    var n := |samples|;
    QuotientBounds(n, k);
    DecimatedLength(n, rate, k, |out|);
    forall j | 0 <= j < |out| ensures 0 <= j * k < n && out[j] == samples[j * k] {
      ProductNonNegative(j, k);
      StrictlyMore(j, n / k, k);
      Rearrange(j, k, rate);
      assert IsSampleAt(out[j], samples, j, k * rate, rate);
      OnSample(out[j], samples, j * k, rate);
    }
  }

  lemma DecimatedLength(n: nat, rate: nat, k: nat, length: nat)
    requires rate > 0 && k > 0
    requires length * (k * rate) <= n * rate < length * (k * rate) + k * rate
    ensures length == n / k
  {
    var q, r := n / k, n % k;
    assert n == q * k + r;
    Distribute(q * k, r, rate);
    Rearrange(q, k, rate);
    ProductNonNegative(r, rate);
    StrictlyMore(r, k, rate);
    LengthUnique(length, q, k * rate, n * rate);
  }

  /** Raising the rate by the factor `k` keeps every sample, `k` positions apart. */
  lemma Expansion(out: seq<Sample>, samples: seq<Sample>, rate: nat, k: nat)
    requires rate > 0 && k > 0 && samples != []
    requires k * rate > 0 && IsResampled(out, samples, rate, k * rate)
    ensures |out| == |samples| * k
    ensures forall j :: 0 <= j < |samples| ==> 0 <= j * k < |out| && out[j * k] == samples[j]
  {
    var n := |samples|;
    Rearrange(n, k, rate);
    ProductNonNegative(n, k);
    LengthUnique(|out|, n * k, rate, n * (k * rate));
    forall j | 0 <= j < n ensures 0 <= j * k < |out| && out[j * k] == samples[j] {
      ProductNonNegative(j, k);
      StrictlyMore(j, n, k);
      Rearrange(j, k, rate);
      assert IsSampleAt(out[j * k], samples, j * k, rate, k * rate);
      OnSample(out[j * k], samples, j, k * rate);
    }
  }

  // ---------- the resampler ----------

  datatype Result = Ok(data: Bytes) | InvalidRates | OddLength

  /** The result of Resample on any input. */
  ghost predicate Resampled(result: Result, data: Bytes, fromRate: int, toRate: int) {
    if fromRate == toRate then result == Ok(data)
    else if fromRate <= 0 || toRate <= 0 then result == InvalidRates
    else if |data| % 2 != 0 then result == OddLength
    else if data == [] then result == Ok([])
    else exists out :: IsResampled(out, Samples(data), fromRate, toRate) && result == Ok(SampleBytes(out))
  }

  /** `wide` holds `samples` at every k-th place. */
  ghost predicate Spread(wide: seq<Sample>, samples: seq<Sample>, k: nat) {
    && |wide| == |samples| * k
    && forall j :: 0 <= j < |samples| ==> 0 <= j * k < |wide| && wide[j * k] == samples[j]
  }

  lemma UpSpreads(data: Bytes, rate: nat, k: nat, up: Result) returns (wide: seq<Sample>)
    requires rate > 0 && k > 0 && |data| % 2 == 0 && data != [] && rate < k * rate
    requires Resampled(up, data, rate, k * rate)
    ensures Spread(wide, Samples(data), k) && up == Ok(SampleBytes(wide))
  {
    wide :| IsResampled(wide, Samples(data), rate, k * rate) && up == Ok(SampleBytes(wide));
    Expansion(wide, Samples(data), rate, k);
  }

  lemma Gathers(narrow: seq<Sample>, wide: seq<Sample>, samples: seq<Sample>, rate: nat, k: nat)
    requires rate > 0 && k > 0 && wide != [] && rate < k * rate && Spread(wide, samples, k)
    requires IsResampled(narrow, wide, k * rate, rate)
    ensures narrow == samples
  {
    Decimation(narrow, wide, rate, k);
    DivModUnique(|samples| * k, k, |samples|, 0);
  }

  lemma DownGathers(wide: seq<Sample>, samples: seq<Sample>, rate: nat, k: nat, down: Result)
    requires rate > 0 && k > 0 && samples != [] && rate < k * rate && Spread(wide, samples, k)
    requires Resampled(down, SampleBytes(wide), k * rate, rate)
    ensures down == Ok(SampleBytes(samples))
  {
    StrictlyMore(0, |samples|, k);
    SamplesOfBytes(wide);
    var narrow :| IsResampled(narrow, wide, k * rate, rate) && down == Ok(SampleBytes(narrow));
    Gathers(narrow, wide, samples, rate, k);
  }

  /** Resampling up by a whole factor and back down is the identity on every even-length buffer. */
  lemma UpAndDownIsIdentity(data: Bytes, rate: nat, k: nat, up: Result, down: Result)
    requires rate > 0 && k > 0 && |data| % 2 == 0
    requires Resampled(up, data, rate, k * rate)
    ensures up.Ok?
    ensures Resampled(down, up.data, k * rate, rate) ==> down == Ok(data)
  {
    if rate != k * rate {
      StrictlyMore(0, k, rate);
      if data != [] {
        Distribute(k - 1, 1, rate);
        ProductNonNegative(k - 1, rate);
        var wide := UpSpreads(data, rate, k, up);
        if Resampled(down, up.data, k * rate, rate) {
          DownGathers(wide, Samples(data), rate, k, down);
          BytesOfSamples(data);
        }
      }
    }
  }

  class LinearResampler {
    constructor () {}

    method Resample(data: Bytes, fromRate: int, toRate: int) returns (result: Result)
      ensures Resampled(result, data, fromRate, toRate)
      ensures fromRate == toRate ==> result == Ok(data)
      ensures result == InvalidRates <==> fromRate != toRate && (fromRate <= 0 || toRate <= 0)
      ensures result == OddLength <==> fromRate != toRate && fromRate > 0 && toRate > 0 && |data| % 2 == 1
    {
      if fromRate == toRate {
        return Ok(data);
      }
      if fromRate <= 0 || toRate <= 0 {
        return InvalidRates;
      }
      if |data| % 2 != 0 {
        return OddLength;
      }
      var samples := BytesToSamples(data);
      if |samples| == 0 {
        return Ok([]);
      }
      ProductNonNegative(|samples|, toRate);
      QuotientAtLeast(|samples| * toRate, fromRate, 0);
      QuotientBounds(|samples| * toRate, fromRate);
      var outLen := |samples| * toRate / fromRate;
      if outLen == 0 {
        assert IsResampled([], samples, fromRate, toRate);
        assert SampleBytes([]) == [];
        return Ok([]);
      }
      var out := new Sample[outLen](_ => 0);
      for i := 0 to outLen
        invariant forall j :: 0 <= j < i ==> IsSampleAt(out[j], samples, j, fromRate, toRate)
      {
        ProductNonNegative(i, fromRate);
        InterpolateExactly(samples, i * fromRate, toRate);
        out[i] := Interpolate(samples, i * fromRate, toRate);
      }
      var bytes := SamplesToBytes(out[..]);
      assert IsResampled(out[..], samples, fromRate, toRate);
      return Ok(bytes);
    }
  }

  method BytesToSamples(data: Bytes) returns (r: seq<Sample>)
    ensures r == Samples(data)
    ensures |r| == |data| / 2
    ensures forall i :: 0 <= i < |r| ==> IsSample(r[i], data[2 * i], data[2 * i + 1])
  {
    var samples := new Sample[|data| / 2](_ => 0);
    for i := 0 to samples.Length
      invariant forall j :: 0 <= j < i ==> samples[j] == Decode(data[2 * j], data[2 * j + 1])
    {
      samples[i] := Decode(data[2 * i], data[2 * i + 1]);
    }
    r := samples[..];
  }

  method SamplesToBytes(samples: seq<Sample>) returns (r: Bytes)
    ensures r == SampleBytes(samples)
    ensures |r| == 2 * |samples|
    ensures forall i :: 0 <= i < |samples| ==> IsSample(samples[i], r[2 * i], r[2 * i + 1])
  {
    var data := new Byte[2 * |samples|](_ => 0);
    for i := 0 to |samples|
      invariant forall j :: 0 <= j < 2 * i ==>
        data[j] == if j % 2 == 0 then LowByte(samples[j / 2]) else HighByte(samples[j / 2])
    {
      data[2 * i] := LowByte(samples[i]);
      data[2 * i + 1] := HighByte(samples[i]);
    }
    r := data[..];
    assert r == SampleBytes(samples);
    LowByteFirst(samples);
  }
}
