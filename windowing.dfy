/** Sliding-window slicing of one labelled accelerometer recording: the
    `while` loop that walks an offset through the records of one source,
    takes a window of `w` records at each offset, turns it into one feature
    row and one label, and advances by half a window. */
module Windowing {

  /** One accelerometer reading, one row of a recording. Its fields are
      defined in a library that is not part of this model; the three axes
      `x, y, z` as `real` values are the model's assumption, and they are
      only carried around. */
  datatype AccelData = AccelData(x: real, y: real, z: real)

  /** A contiguous run of readings handed to the feature extractor. */
  type Window = seq<AccelData>

  /** The `[f32; 6]` summary the extractor computes from one window. */
  type FeatureRow = s: seq<real> | |s| == 6 witness [0.0, 0.0, 0.0, 0.0, 0.0, 0.0]

  /** Distance between the starts of consecutive windows: half a window. */
  function Stride(w: nat): nat
  {
    w / 2
  }

  /** The offsets, from `i` on, at which the slicer takes a window of `w`
      records out of a recording of `n` records: `i`, `i + w/2`, `i + 2(w/2)`,
      ..., as long as the whole window fits. */
  function Starts(n: nat, w: nat, i: nat): (r: seq<nat>)
    requires w >= 2
    ensures forall k :: 0 <= k < |r| ==> i <= r[k] && r[k] + w <= n
    ensures i + w <= n <==> |r| > 0
    decreases n - i
  {
    if i + w <= n then [i] + Starts(n, w, i + Stride(w)) else []
  }

  /** The `k`-th window start from `i` on is `i + k * (w/2)`. */
  lemma {:induction false} StartsAt(n: nat, w: nat, i: nat, k: nat)
    requires w >= 2 && k < |Starts(n, w, i)|
    ensures Starts(n, w, i)[k] == i + k * Stride(w)
    decreases k
  {
    if k > 0 {
      StartsAt(n, w, i + Stride(w), k - 1);
      assert k * Stride(w) == (k - 1) * Stride(w) + Stride(w);
    }
  }

  /** The windows the slicer takes from `data`, from offset `i` on, in order. */
  function Windows(data: seq<AccelData>, w: nat, i: nat): (ws: seq<Window>)
    requires w >= 2
    ensures |ws| == |Starts(|data|, w, i)|
    ensures forall k :: 0 <= k < |ws| ==> |ws[k]| == w
  {
    var st := Starts(|data|, w, i);
    seq(|st|, k requires 0 <= k < |st| => data[st[k] .. st[k] + w])
  }

  /** The feature rows of a run of windows, one per window, in order. */
  function Extracted(extract: Window -> FeatureRow, ws: seq<Window>): seq<FeatureRow>
  {
    seq(|ws|, k requires 0 <= k < |ws| => extract(ws[k]))
  }

  /** `n` copies of `x`. */
  function Repeat<T>(x: T, n: nat): seq<T>
  {
    seq(n, _ => x)
  }

  /** The closed-form number of windows of a recording of `n` records. */
  function WindowCount(n: nat, w: nat): nat
    requires w >= 2
  {
    if n >= w then (n - w) / Stride(w) + 1 else 0
  }

  /** Euclidean division by `s` of `a >= s` is one more than that of `a - s`. */
  lemma DivStep(a: int, s: int)
    requires 0 < s <= a
    ensures a / s == (a - s) / s + 1
  {
    var q, r := (a - s) / s, (a - s) % s;
    assert a == (q + 1) * s + r;
    DivUnique(a, s, q + 1, r);
  }

  /** Euclidean division is determined by quotient and remainder. */
  lemma DivUnique(a: int, s: int, q: int, r: int)
    requires 0 < s && 0 <= r < s && a == q * s + r
    ensures a / s == q
  {
    var q', r' := a / s, a % s;
    assert a == q' * s + r';
    if q' > q {
      MulAtLeast(q' - q, s);
    } else if q' < q {
      MulAtLeast(q - q', s);
    }
  }

  /** A positive multiple of `s` is at least `s`. */
  lemma {:induction false} MulAtLeast(d: int, s: int)
    requires d >= 1 && s >= 0
    ensures d * s >= s
    decreases d
  {
    if d > 1 {
      MulAtLeast(d - 1, s);
      assert d * s == (d - 1) * s + s;
    }
  }

  /** The number of window starts from `i` on, in closed form. */
  lemma {:induction false} StartsCount(n: nat, w: nat, i: nat)
    requires w >= 2
    ensures |Starts(n, w, i)| == if i + w <= n then (n - w - i) / Stride(w) + 1 else 0
    decreases n - i
  {
    if i + w <= n {
      var s := Stride(w);
      StartsCount(n, w, i + s);
      if i + s + w <= n {
        DivStep(n - w - i, s);
      } else {
        DivUnique(n - w - i, s, 0, n - w - i);
      }
    }
  }

  /** A recording of `n` records yields exactly `WindowCount(n, w)` windows:
      `(n - w) / (w/2) + 1` when `n >= w`, and none otherwise. */
  lemma WindowCountExact(data: seq<AccelData>, w: nat)
    requires w >= 2
    ensures |Windows(data, w, 0)| == WindowCount(|data|, w)
    ensures |data| < w <==> Windows(data, w, 0) == []
  {
    StartsCount(|data|, w, 0);
  }

  /** Window `k` lies inside the recording, has exactly `w` records, and is
      the slice starting at `k * (w/2)`. */
  lemma WindowAt(data: seq<AccelData>, w: nat, k: nat)
    requires w >= 2 && k < |Windows(data, w, 0)|
    ensures k * Stride(w) + w <= |data|
    ensures Windows(data, w, 0)[k] == data[k * Stride(w) .. k * Stride(w) + w]
  {
    StartsAt(|data|, w, 0, k);
  }

  /** Window starts strictly ascend: a later window starts further on. */
  lemma StartsAscend(n: nat, w: nat, i: nat, k: nat, k': nat)
    requires w >= 2 && k < k' < |Starts(n, w, i)|
    ensures Starts(n, w, i)[k] < Starts(n, w, i)[k']
  {
    var s := Stride(w);
    StartsAt(n, w, i, k);
    StartsAt(n, w, i, k');
    MulAtLeast(k' - k, s);
    assert k' * s == k * s + (k' - k) * s;
  }

  /** Taking one window from offset `i` leaves the windows from `i + w/2` on. */
  lemma WindowsUnfold(data: seq<AccelData>, w: nat, i: nat)
    requires w >= 2 && i + w <= |data|
    ensures Windows(data, w, i) == [data[i .. i + w]] + Windows(data, w, i + Stride(w))
  {
    var st, st' := Starts(|data|, w, i), Starts(|data|, w, i + Stride(w));
    assert st == [i] + st';
  }

  /** With `w < 2` the stride is zero: an offset whose window fits stays
      where it is and still fits, so the slicer never stops. This is why
      every member of this module asks for `w >= 2`. */
  lemma SmallWindowNeverAdvances(n: nat, w: nat, i: nat)
    requires w < 2 && i + w <= n
    ensures i + Stride(w) == i && i + Stride(w) + w <= n
  {
  }

  /** The slicing loop for one source labelled `activity`: appends one feature
      row per window to `features0` and `activity` once per window to
      `labels0`, and drops the partial tail. */
  method SlideWindows(data: seq<AccelData>, w: nat, activity: nat, extract: Window -> FeatureRow,
                      features0: seq<FeatureRow>, labels0: seq<nat>)
    returns (features: seq<FeatureRow>, labels: seq<nat>)
    requires w >= 2
    ensures features == features0 + Extracted(extract, Windows(data, w, 0))
    ensures labels == labels0 + Repeat(activity, WindowCount(|data|, w))
    ensures |features| - |features0| == |labels| - |labels0| == WindowCount(|data|, w)
  {
    features, labels := features0, labels0;
    var i := 0;
    while i + w <= |data|
      invariant features + Extracted(extract, Windows(data, w, i))
             == features0 + Extracted(extract, Windows(data, w, 0))
      invariant |features| >= |features0|
      invariant labels == labels0 + Repeat(activity, |features| - |features0|)
      decreases |data| - i
    {
      var window := data[i .. i + w];
      var feat := extract(window);
      WindowsUnfold(data, w, i);
      assert Extracted(extract, Windows(data, w, i))
          == [feat] + Extracted(extract, Windows(data, w, i + Stride(w)));
      features := features + [feat];
      labels := labels + [activity];
      i := i + Stride(w);
    }
    WindowCountExact(data, w);
  }
}
