/** The spectral block of an .sp file: where it starts
    (`find_spectral_data_start`, sp_to_ascii.py lines 45-58) and the loop
    that reads its intensities (lines 174-186). */
module Spectrum {
  import opened Base
  import opened ByteSource

  /** Python's `int(x)`: truncation toward zero. */
  function Truncate(x: real): (n: int)
    ensures x >= 0.0 ==> n as real <= x < n as real + 1.0
    ensures x < 0.0 ==> n as real - 1.0 < x <= n as real
  {
    if x >= 0.0 then x.Floor else -((-x).Floor)
  }

  /** `int((end - start) / interval + 1)` in exact arithmetic. */
  function PointCount(start: real, end: real, interval: real): int
    requires interval != 0.0
  {
    Truncate((end - start) / interval + 1.0)
  }

  /** Lines 45-58: the whole length when the bounds are not all set, else
      `len - 8 * numPoints` raised to 0. */
  function DataStart(len: nat, bounded: bool, numPoints: int): nat
  {
    if !bounded then len else Max(0, len - 8 * numPoints)
  }

  /** The start is never before the file and, when the file is long enough,
      leaves room for exactly `numPoints` doubles at its end; a negative
      count puts it past the end. */
  lemma DataStartMeaning(len: nat, bounded: bool, numPoints: int)
    ensures !bounded ==> DataStart(len, bounded, numPoints) == len
    ensures bounded && 0 <= 8 * numPoints <= len ==> DataStart(len, bounded, numPoints) + 8 * numPoints == len
    ensures bounded && 8 * numPoints > len ==> DataStart(len, bounded, numPoints) == 0
    ensures bounded && numPoints < 0 ==> DataStart(len, bounded, numPoints) > len
  {
  }

  /** An entry of the spectrum: a wavelength and its intensity. */
  datatype Point = Point(wavelength: real, intensity: real)

  /** The wavelength of the `k`-th double: the loop adds the interval once
      per successful read. */
  function WavelengthAt(x0: real, dx: real, k: nat): real
  {
    x0 + k as real * dx
  }

  /** The filter at line 182. */
  predicate Plausible(v: real) { 0.0 <= v < 1000000.0 }

  /** The 8 bytes of the `k`-th double after `start` are in the buffer. */
  predicate BlockFits(data: seq<Byte>, start: nat, k: nat)
  {
    start + 8 * k + 8 <= |data|
  }

  function Block(data: seq<Byte>, start: nat, k: nat): seq<Byte>
    requires BlockFits(data, start, k)
  {
    data[start + 8 * k..start + 8 * k + 8]
  }

  /** The points read from the `k`-th double on, out of `n`: a short read
      ends the loop, implausible values are skipped, and the `k`-th double
      belongs to wavelength `x0 + k * dx`. */
  function PointsFrom(data: seq<Byte>, start: nat, k: nat, n: int, x0: real, dx: real, f64: seq<Byte> -> real)
    : seq<Point>
    decreases n - k
  {
    if n <= k || !BlockFits(data, start, k) then []
    else
      var v := f64(Block(data, start, k));
      (if Plausible(v) then [Point(WavelengthAt(x0, dx, k), v)] else []) + PointsFrom(data, start, k + 1, n, x0, dx, f64)
  }

  /** One step of the loop. */
  lemma PointsFromStep(data: seq<Byte>, start: nat, k: nat, n: int, x0: real, dx: real, f64: seq<Byte> -> real)
    requires k < n && BlockFits(data, start, k)
    ensures var v := f64(data[start + 8 * k..start + 8 * k + 8]);
      PointsFrom(data, start, k, n, x0, dx, f64) ==
        (if Plausible(v) then [Point(WavelengthAt(x0, dx, k), v)] else []) + PointsFrom(data, start, k + 1, n, x0, dx, f64)
    ensures WavelengthAt(x0, dx, k + 1) == WavelengthAt(x0, dx, k) + dx
  {
  }

  /** Lines 174-186: the loop accumulates the wavelength step by step. */
  method DecodeSpectrum(data: seq<Byte>, start: nat, n: int, x0: real, dx: real, f64: seq<Byte> -> real)
    returns (points: seq<Point>)
    ensures points == PointsFrom(data, start, 0, n, x0, dx, f64)
  {
    points := [];
    var wavelength := x0;
    var k: nat := 0;
    while k < n
      invariant wavelength == WavelengthAt(x0, dx, k)
      invariant points + PointsFrom(data, start, k, n, x0, dx, f64) == PointsFrom(data, start, 0, n, x0, dx, f64)
      decreases n - k
    {
      var i := start + 8 * k;
      if i + 8 > |data| {
        break;
      }
      PointsFromStep(data, start, k, n, x0, dx, f64);
      var intensity := f64(data[i..i + 8]);
      if 0.0 <= intensity < 1000000.0 {
        points := points + [Point(wavelength, intensity)];
      }
      wavelength := wavelength + dx;
      k := k + 1;
    }
  }

  /** Every point comes from a double that fits in the buffer, has passed
      the filter, and sits at the wavelength of its index. */
  lemma {:induction false} PointsAreReadings(data: seq<Byte>, start: nat, k: nat, n: int, x0: real, dx: real,
                                             f64: seq<Byte> -> real, p: Point)
    requires p in PointsFrom(data, start, k, n, x0, dx, f64)
    ensures exists j: nat :: (k <= j < n && BlockFits(data, start, j) &&
      p == Point(WavelengthAt(x0, dx, j), f64(Block(data, start, j))) && Plausible(p.intensity))
    decreases n - k
  {
    var v := f64(Block(data, start, k));
    if Plausible(v) && p == Point(WavelengthAt(x0, dx, k), v) {
    } else {
      PointsAreReadings(data, start, k + 1, n, x0, dx, f64, p);
    }
  }

  /** Every plausible double before the first short read is a point. */
  lemma {:induction false} ReadingsArePoints(data: seq<Byte>, start: nat, k: nat, n: int, x0: real, dx: real,
                                             f64: seq<Byte> -> real, j: nat)
    requires k <= j < n && BlockFits(data, start, j) && Plausible(f64(Block(data, start, j)))
    ensures Point(WavelengthAt(x0, dx, j), f64(Block(data, start, j))) in PointsFrom(data, start, k, n, x0, dx, f64)
    decreases n - k
  {
    assert BlockFits(data, start, k);
    var v := f64(Block(data, start, k));
    var head := if Plausible(v) then [Point(WavelengthAt(x0, dx, k), v)] else [];
    var rest := PointsFrom(data, start, k + 1, n, x0, dx, f64);
    assert PointsFrom(data, start, k, n, x0, dx, f64) == head + rest;
    if j > k {
      ReadingsArePoints(data, start, k + 1, n, x0, dx, f64, j);
    } else {
      assert Point(WavelengthAt(x0, dx, j), f64(Block(data, start, j))) == (head + rest)[0];
    }
  }

  /** At most one point per double: no more than `n`, and no more than the
      buffer holds from `start`. */
  lemma {:induction false} PointCountBound(data: seq<Byte>, start: nat, k: nat, n: int, x0: real, dx: real,
                                           f64: seq<Byte> -> real)
    ensures |PointsFrom(data, start, k, n, x0, dx, f64)| <= Max(0, n - k)
    ensures 8 * |PointsFrom(data, start, k, n, x0, dx, f64)| <= Max(0, |data| - start - 8 * k)
    decreases n - k
  {
    if k < n && BlockFits(data, start, k) {
      PointCountBound(data, start, k + 1, n, x0, dx, f64);
    }
  }

  /** With a positive step no point lies below the wavelength of the index
      the reading starts from. */
  lemma {:induction false} WavelengthsFrom(data: seq<Byte>, start: nat, k: nat, n: int, x0: real, dx: real,
                                           f64: seq<Byte> -> real)
    requires dx > 0.0
    ensures forall i :: 0 <= i < |PointsFrom(data, start, k, n, x0, dx, f64)| ==> PointsFrom(data, start, k, n, x0, dx, f64)[i].wavelength >= WavelengthAt(x0, dx, k)
    decreases n - k
  {
    if k < n && BlockFits(data, start, k) {
      WavelengthsFrom(data, start, k + 1, n, x0, dx, f64);
      var rest := PointsFrom(data, start, k + 1, n, x0, dx, f64);
      var here := WavelengthAt(x0, dx, k);
      assert WavelengthAt(x0, dx, k + 1) == here + dx;
      PointsFromStep(data, start, k, n, x0, dx, f64);
      var ps := PointsFrom(data, start, k, n, x0, dx, f64);
      forall i | 0 <= i < |ps| ensures ps[i].wavelength >= here {
        if ps != rest && i > 0 {
          assert ps[i] == rest[i - 1];
        }
      }
    }
  }

  /** Strictly increasing wavelengths. */
  predicate Ascending(ps: seq<Point>)
  {
    forall i, j :: 0 <= i < j < |ps| ==> ps[i].wavelength < ps[j].wavelength
  }

  lemma AscendingCons(p: Point, rest: seq<Point>)
    requires Ascending(rest)
    requires forall i :: 0 <= i < |rest| ==> p.wavelength < rest[i].wavelength
    ensures Ascending([p] + rest)
  {
    var ps := [p] + rest;
    forall i, j | 0 <= i < j < |ps| ensures ps[i].wavelength < ps[j].wavelength {
      assert ps[j] == rest[j - 1];
      if i > 0 { assert ps[i] == rest[i - 1]; }
    }
  }

  /** With a positive step the wavelengths strictly increase. */
  lemma {:induction false} WavelengthsIncrease(data: seq<Byte>, start: nat, k: nat, n: int, x0: real, dx: real,
                                               f64: seq<Byte> -> real)
    requires dx > 0.0
    ensures Ascending(PointsFrom(data, start, k, n, x0, dx, f64))
    decreases n - k
  {
    if k < n && BlockFits(data, start, k) {
      WavelengthsIncrease(data, start, k + 1, n, x0, dx, f64);
      WavelengthsFrom(data, start, k + 1, n, x0, dx, f64);
      var rest := PointsFrom(data, start, k + 1, n, x0, dx, f64);
      var here := WavelengthAt(x0, dx, k);
      assert WavelengthAt(x0, dx, k + 1) == here + dx;
      PointsFromStep(data, start, k, n, x0, dx, f64);
      var v := f64(Block(data, start, k));
      if Plausible(v) {
        AscendingCons(Point(here, v), rest);
      }
    }
  }

  /** The indices of the doubles that become points, from the `k`-th on. */
  function KeptIndices(data: seq<Byte>, start: nat, k: nat, n: int, f64: seq<Byte> -> real): seq<nat>
    decreases n - k
  {
    if n <= k || !BlockFits(data, start, k) then []
    else (if Plausible(f64(Block(data, start, k))) then [k] else []) + KeptIndices(data, start, k + 1, n, f64)
  }

  /** The kept indices are doubles that fit, from `k` on and below the count. */
  lemma {:induction false} KeptIndicesBounds(data: seq<Byte>, start: nat, k: nat, n: int, f64: seq<Byte> -> real)
    ensures forall i :: 0 <= i < |KeptIndices(data, start, k, n, f64)| ==>
      k <= KeptIndices(data, start, k, n, f64)[i] < n && BlockFits(data, start, KeptIndices(data, start, k, n, f64)[i])
    decreases n - k
  {
    if k < n && BlockFits(data, start, k) {
      KeptIndicesBounds(data, start, k + 1, n, f64);
      var rest := KeptIndices(data, start, k + 1, n, f64);
      if Plausible(f64(Block(data, start, k))) {
        var idx := [k] + rest;
        assert KeptIndices(data, start, k, n, f64) == idx;
        forall i | 0 <= i < |idx| ensures k <= idx[i] < n && BlockFits(data, start, idx[i]) {
          if i > 0 { assert idx[i] == rest[i - 1]; }
        }
      } else {
        assert KeptIndices(data, start, k, n, f64) == rest;
      }
    }
  }

  /** The kept indices strictly increase. */
  lemma {:induction false} KeptIndicesAscending(data: seq<Byte>, start: nat, k: nat, n: int, f64: seq<Byte> -> real)
    ensures forall i, j :: 0 <= i < j < |KeptIndices(data, start, k, n, f64)| ==>
      KeptIndices(data, start, k, n, f64)[i] < KeptIndices(data, start, k, n, f64)[j]
    decreases n - k
  {
    if k < n && BlockFits(data, start, k) {
      KeptIndicesAscending(data, start, k + 1, n, f64);
      var rest := KeptIndices(data, start, k + 1, n, f64);
      if Plausible(f64(Block(data, start, k))) {
        KeptIndicesBounds(data, start, k + 1, n, f64);
        var idx := [k] + rest;
        assert KeptIndices(data, start, k, n, f64) == idx;
        forall i, j | 0 <= i < j < |idx| ensures idx[i] < idx[j] {
          assert idx[j] == rest[j - 1];
          if i > 0 { assert idx[i] == rest[i - 1]; }
        }
      } else {
        assert KeptIndices(data, start, k, n, f64) == rest;
      }
    }
  }

  /** Lines 179-184 in read order, whatever the sign of the interval: the
      `i`-th point is the reading of the `i`-th kept double, at the
      wavelength of that double's index. */
  lemma {:induction false} PointsInReadOrder(data: seq<Byte>, start: nat, k: nat, n: int, x0: real, dx: real,
                                             f64: seq<Byte> -> real)
    ensures |PointsFrom(data, start, k, n, x0, dx, f64)| == |KeptIndices(data, start, k, n, f64)|
    ensures forall i :: 0 <= i < |KeptIndices(data, start, k, n, f64)| ==>
      BlockFits(data, start, KeptIndices(data, start, k, n, f64)[i]) &&
      PointsFrom(data, start, k, n, x0, dx, f64)[i] ==
        Point(WavelengthAt(x0, dx, KeptIndices(data, start, k, n, f64)[i]),
              f64(Block(data, start, KeptIndices(data, start, k, n, f64)[i])))
    decreases n - k
  {
    KeptIndicesBounds(data, start, k, n, f64);
    if k < n && BlockFits(data, start, k) {
      PointsInReadOrder(data, start, k + 1, n, x0, dx, f64);
      var ps := PointsFrom(data, start, k, n, x0, dx, f64);
      var rest := PointsFrom(data, start, k + 1, n, x0, dx, f64);
      var idx := KeptIndices(data, start, k, n, f64);
      var restIdx := KeptIndices(data, start, k + 1, n, f64);
      if Plausible(f64(Block(data, start, k))) {
        assert ps == [Point(WavelengthAt(x0, dx, k), f64(Block(data, start, k)))] + rest;
        assert idx == [k] + restIdx;
        forall i | 1 <= i < |idx| ensures ps[i] == rest[i - 1] && idx[i] == restIdx[i - 1] { }
      } else {
        assert ps == rest && idx == restIdx;
      }
    }
  }

  /** Strictly decreasing wavelengths. */
  predicate Descending(ps: seq<Point>)
  {
    forall i, j :: 0 <= i < j < |ps| ==> ps[i].wavelength > ps[j].wavelength
  }

  /** A later index lies further along the axis in the direction of the step. */
  lemma WavelengthOrder(x0: real, dx: real, a: nat, b: nat)
    requires a < b
    ensures dx < 0.0 ==> WavelengthAt(x0, dx, a) > WavelengthAt(x0, dx, b)
    ensures dx > 0.0 ==> WavelengthAt(x0, dx, a) < WavelengthAt(x0, dx, b)
  {
    var m := (b - a) as real;
    assert WavelengthAt(x0, dx, b) == WavelengthAt(x0, dx, a) + m * dx;
    assert m >= 1.0;
    if dx < 0.0 {
      assert m * dx <= dx by { assert m * dx - dx == (m - 1.0) * dx; }
    } else if dx > 0.0 {
      assert m * dx >= dx by { assert m * dx - dx == (m - 1.0) * dx; }
    }
  }

  /** With a negative step the wavelengths strictly decrease. */
  lemma WavelengthsDecrease(data: seq<Byte>, start: nat, k: nat, n: int, x0: real, dx: real,
                            f64: seq<Byte> -> real)
    requires dx < 0.0
    ensures Descending(PointsFrom(data, start, k, n, x0, dx, f64))
  {
    var ps := PointsFrom(data, start, k, n, x0, dx, f64);
    var idx := KeptIndices(data, start, k, n, f64);
    PointsInReadOrder(data, start, k, n, x0, dx, f64);
    KeptIndicesAscending(data, start, k, n, f64);
    forall i, j | 0 <= i < j < |ps| ensures ps[i].wavelength > ps[j].wavelength {
      WavelengthOrder(x0, dx, idx[i], idx[j]);
    }
  }
}
