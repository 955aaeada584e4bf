/** The four row and column statistics kernels of HistogramWindow.cpp. */
module RowColStats {
  import opened Bytes
  import opened LineStatistics

  datatype PixelFormat = Mono8 | Mono16 | BGR | BGRU | RGB | RGBU

  /** Rows of pixels, one every stride bytes. */
  datatype Image = Image(rows: nat, cols: nat, stride: nat, format: PixelFormat, data: seq<Byte>)

  function BytesPerPixel(f: PixelFormat): nat {
    match f
    case Mono8 => 1
    case Mono16 => 2
    case BGR | RGB => 3
    case BGRU | RGBU => 4
  }

  predicate IsImage(im: Image) {
    im.cols * BytesPerPixel(im.format) <= im.stride && im.rows * im.stride <= |im.data|
  }

  lemma PixelInData(im: Image, x: nat, y: nat)
    requires IsImage(im) && x < im.cols && y < im.rows
    ensures y * im.stride + BytesPerPixel(im.format) * x + BytesPerPixel(im.format) <= |im.data|
  {
    var n := BytesPerPixel(im.format);
    Multiplied(x + 1, im.cols, n);
    Multiplied(y + 1, im.rows, im.stride);
  }

  /** The byte at an offset within a pixel. */
  function ByteAt(im: Image, x: nat, y: nat, offset: nat): (b: nat)
    requires IsImage(im) && x < im.cols && y < im.rows && offset < BytesPerPixel(im.format)
    ensures b <= 0xFF
  {
    PixelInData(im, x, y);
    im.data[y * im.stride + BytesPerPixel(im.format) * x + offset] as nat
  }

  /** Little-endian where a sample has two bytes. */
  function MonoPixel(im: Image, x: nat, y: nat): nat
    requires IsImage(im) && x < im.cols && y < im.rows
  {
    match im.format
    case Mono8 => ByteAt(im, x, y, 0)
    case Mono16 => 0x100 * ByteAt(im, x, y, 1) + ByteAt(im, x, y, 0)
    case _ => 0
  }

  const GREY := 0
  const RED := 1
  const GREEN := 2
  const BLUE := 3

  function Grey(red: nat, green: nat, blue: nat): nat {
    (blue + 6 * green + 3 * red) / 10
  }

  /** The samples of a pixel: grey, red, green, blue. */
  function ColorPixel(im: Image, x: nat, y: nat): (s: seq<nat>)
    requires IsImage(im) && x < im.cols && y < im.rows
    ensures |s| == 4
  {
    match im.format
    case BGR | BGRU =>
      var b, g, r := ByteAt(im, x, y, 0), ByteAt(im, x, y, 1), ByteAt(im, x, y, 2);
      [Grey(r, g, b), r, g, b]
    case RGB | RGBU =>
      var r, g, b := ByteAt(im, x, y, 0), ByteAt(im, x, y, 1), ByteAt(im, x, y, 2);
      [Grey(r, g, b), r, g, b]
    case _ => [0, 0, 0, 0]
  }

  function MonoRow(im: Image, y: nat): (l: Line)
    requires IsImage(im) && y < im.rows
    ensures |l| == im.cols
  {
    seq(im.cols, x requires 0 <= x < im.cols => MonoPixel(im, x, y))
  }

  function MonoGrid(im: Image): (g: Grid)
    requires IsImage(im)
    ensures IsGrid(g, im.rows, im.cols)
    ensures forall y, x :: 0 <= y < im.rows && 0 <= x < im.cols ==> g[y][x] == MonoPixel(im, x, y)
  {
    seq(im.rows, y requires 0 <= y < im.rows => MonoRow(im, y))
  }

  function ChannelRow(im: Image, y: nat, c: nat): (l: Line)
    requires IsImage(im) && y < im.rows && c < 4
    ensures |l| == im.cols
  {
    seq(im.cols, x requires 0 <= x < im.cols => ColorPixel(im, x, y)[c])
  }

  function ChannelGrid(im: Image, c: nat): (g: Grid)
    requires IsImage(im) && c < 4
    ensures IsGrid(g, im.rows, im.cols)
    ensures forall y, x :: 0 <= y < im.rows && 0 <= x < im.cols ==> g[y][x] == ColorPixel(im, x, y)[c]
  {
    seq(im.rows, y requires 0 <= y < im.rows => ChannelRow(im, y, c))
  }

  // ---------------------------------------------------------------------------
  // The vectors of one channel
  // ---------------------------------------------------------------------------

  datatype Vectors = Vectors(max: Line, mean: Line, min: Line)

  predicate Sized(v: Vectors, n: nat) {
    |v.max| == |v.mean| == |v.min| == n
  }

  function Resized(v: Line, n: nat): (r: Line)
    ensures |r| == n && forall i :: 0 <= i < n ==> r[i] == if i < |v| then v[i] else 0
  {
    if n <= |v| then v[..n] else v + seq(n - |v|, _ => 0)
  }

  function ResizedVectors(v: Vectors, n: nat): (r: Vectors)
    ensures Sized(r, n)
  {
    Vectors(Resized(v.max, n), Resized(v.mean, n), Resized(v.min, n))
  }

  /** The entry of a line of n samples of which some have been scanned; nothing is stored
      before the first. */
  function WithSeen(v: Vectors, k: nat, seen: Line, n: nat): (r: Vectors)
    requires Sized(v, |v.max|) && k < |v.max| && n > 0
    ensures Sized(r, |v.max|)
  {
    if seen == [] then v
    else Vectors(v.max[k := Greatest(seen)], v.mean[k := Sum(seen) % TWO_TO_THE_32 / n], v.min[k := Least(seen)])
  }

  function WithLine(v: Vectors, k: nat, line: Line): (r: Vectors)
    requires Sized(v, |v.max|) && k < |v.max|
    ensures Sized(r, |v.max|)
  {
    if line == [] then v
    else Vectors(v.max[k := Greatest(line)], v.mean[k := Mean32(line)], v.min[k := Least(line)])
  }

  function Filled(v: Vectors, g: Grid, k: nat): (r: Vectors)
    requires k <= |g| && Sized(v, |g|)
    ensures Sized(r, |g|)
  {
    if k == 0 then v else WithLine(Filled(v, g, k - 1), k - 1, g[k - 1])
  }

  /** The statistics of every line of a grid. */
  function LineStats(g: Grid): Vectors
    requires forall k :: 0 <= k < |g| ==> g[k] != []
  {
    Vectors(Greatests(g), Means(g), Leasts(g))
  }

  /** What the vectors hold in the end: the statistics of every line or, if the lines have no
      samples, what they held before. */
  ghost predicate Describes(v: Vectors, g: Grid, was: Vectors)
    requires Sized(was, |g|)
  {
    && ((forall k :: 0 <= k < |g| ==> g[k] != []) ==> v == LineStats(g))
    && ((forall k :: 0 <= k < |g| ==> g[k] == []) ==> v == was)
  }

  lemma {:induction false} FilledSoFar(v: Vectors, g: Grid, k: nat)
    requires k <= |g| && Sized(v, |g|)
    ensures var r := Filled(v, g, k);
      forall j :: 0 <= j < |g| ==>
        if j < k && g[j] != [] then r.max[j] == Greatest(g[j]) && r.mean[j] == Mean32(g[j]) && r.min[j] == Least(g[j])
        else r.max[j] == v.max[j] && r.mean[j] == v.mean[j] && r.min[j] == v.min[j]
  {
    hide Greatest, Mean32, Least;
    if k == 0 {
    } else {
      FilledSoFar(v, g, k - 1);
    }
  }

  lemma FilledDescribes(v: Vectors, g: Grid)
    requires Sized(v, |g|)
    ensures Describes(Filled(v, g, |g|), g, v)
  {
    hide Greatest, Mean32, Least, Filled;
    FilledSoFar(v, g, |g|);
    var r := Filled(v, g, |g|);
    if forall k :: 0 <= k < |g| ==> g[k] != [] {
      assert r.max == Greatests(g) && r.mean == Means(g) && r.min == Leasts(g);
    }
    if forall k :: 0 <= k < |g| ==> g[k] == [] {
      assert r.max == v.max && r.mean == v.mean && r.min == v.min;
    }
  }

  class ChannelStats {
    var vecMax: Line
    var vecMean: Line
    var vecMin: Line

    function View(): Vectors
      reads this
    {
      Vectors(vecMax, vecMean, vecMin)
    }

    method Resize(newSize: nat)
      modifies this
      ensures View() == ResizedVectors(old(View()), newSize)
    {
      if |vecMax| != newSize { vecMax := Resized(vecMax, newSize); }
      if |vecMean| != newSize { vecMean := Resized(vecMean, newSize); }
      if |vecMin| != newSize { vecMin := Resized(vecMin, newSize); }
    }

    method Clear()
      modifies this
      ensures View() == Vectors([], [], [])
    {
      vecMax, vecMean, vecMin := [], [], [];
    }

    method Store(k: nat, max: nat, mean: nat, min: nat)
      requires Sized(View(), |vecMax|) && k < |vecMax|
      modifies this
      ensures View() == Vectors(old(vecMax)[k := max], old(vecMean)[k := mean], old(vecMin)[k := min])
    {
      vecMax := vecMax[k := max];
      vecMin := vecMin[k := min];
      vecMean := vecMean[k := mean];
    }
  }

  // ---------------------------------------------------------------------------
  // One sample
  // ---------------------------------------------------------------------------

  /** The running statistics of the samples seen. */
  ghost predicate Tracks(seen: Line, minVal: nat, maxVal: nat, accumVal: nat) {
    && accumVal == Sum(seen) % TWO_TO_THE_32
    && (seen != [] ==> minVal == Least(seen) && maxVal == Greatest(seen))
  }

  lemma WrappedSum(a: nat, v: nat)
    ensures (a % TWO_TO_THE_32 + v) % TWO_TO_THE_32 == (a + v) % TWO_TO_THE_32
  {
    var m := TWO_TO_THE_32;
    assert a == m * (a / m) + a % m;
    WrapsOff(a % m + v, a / m);
  }

  lemma {:induction false} WrapsOff(a: nat, k: nat)
    ensures (TWO_TO_THE_32 * k + a) % TWO_TO_THE_32 == a % TWO_TO_THE_32
  {
    if k == 0 {
    } else {
      WrapsOff(a, k - 1);
      assert TWO_TO_THE_32 * k + a == TWO_TO_THE_32 + (TWO_TO_THE_32 * (k - 1) + a);
    }
  }

  method AddSample(currPixVal: nat, first: bool, minWas: nat, maxWas: nat, accumWas: nat, ghost seen: Line)
      returns (minVal: nat, maxVal: nat, accumVal: nat)
    requires Tracks(seen, minWas, maxWas, accumWas) && (first <==> seen == [])
    ensures Tracks(seen + [currPixVal], minVal, maxVal, accumVal)
  {
    minVal, maxVal := minWas, maxWas;
    if first {
      minVal, maxVal := currPixVal, currPixVal;
    }
    accumVal := (accumWas + currPixVal) % TWO_TO_THE_32;
    if minVal > currPixVal {
      minVal := currPixVal;
    } else if maxVal < currPixVal {
      maxVal := currPixVal;
    }
    WrappedSum(Sum(seen), currPixVal);
    assert (seen + [currPixVal])[..|seen|] == seen;
  }

  // ---------------------------------------------------------------------------
  // Monochrome
  // ---------------------------------------------------------------------------

  class Stats {
    const grey: ChannelStats
    const red: ChannelStats
    const green: ChannelStats
    const blue: ChannelStats

    ghost predicate Distinct() {
      grey != red && grey != green && grey != blue && red != green && red != blue && green != blue
    }

    constructor ()
      ensures Distinct() && fresh(grey) && fresh(red) && fresh(green) && fresh(blue)
    {
      grey, red, green, blue := new ChannelStats, new ChannelStats, new ChannelStats, new ChannelStats;
    }
  }

  /** The vectors of a channel when y samples of a line have been scanned. */
  function Scanned(v: Vectors, k: nat, line: Line, y: nat): (r: Vectors)
    requires Sized(v, |v.max|) && k < |v.max| && y <= |line|
    ensures Sized(r, |v.max|)
  {
    if y == 0 then v else WithSeen(v, k, line[..y], |line|)
  }

  /** Storing after one more sample. */
  lemma ScannedOneMore(v: Vectors, k: nat, line: Line, y: nat, minVal: nat, maxVal: nat, accumVal: nat)
    requires Sized(v, |v.max|) && k < |v.max| && y < |line|
    requires Tracks(line[..y + 1], minVal, maxVal, accumVal)
    ensures var u := Scanned(v, k, line, y);
      Scanned(v, k, line, y + 1) == Vectors(u.max[k := maxVal], u.mean[k := accumVal / |line|], u.min[k := minVal])
  {
    hide Least, Greatest, Sum;
    var u := Scanned(v, k, line, y);
    assert u.max[k := maxVal] == v.max[k := maxVal];
    assert u.min[k := minVal] == v.min[k := minVal];
    assert u.mean[k := accumVal / |line|] == v.mean[k := accumVal / |line|];
  }

  lemma NothingTracked()
    ensures Tracks([], 0, 0, 0)
  {
  }

  lemma AllScanned(v: Vectors, k: nat, line: Line)
    requires Sized(v, |v.max|) && k < |v.max|
    ensures Scanned(v, k, line, |line|) == WithLine(v, k, line)
  {
    assert line[..|line|] == line;
  }

  lemma OneMoreSample(line: Line, y: nat)
    requires y < |line|
    ensures line[..y + 1] == line[..y] + [line[y]]
  {
  }

  lemma NothingScanned(v: Vectors, k: nat, line: Line)
    requires Sized(v, |v.max|) && k < |v.max|
    ensures Scanned(v, k, line, 0) == v
  {
  }

  /** The inner loop of column mode. */
  method MonoColumnLine(im: Image, x: nat, grey: ChannelStats, ghost line: Line)
    requires IsImage(im) && x < im.cols && Sized(grey.View(), im.cols)
    requires |line| == im.rows && forall y :: 0 <= y < im.rows ==> line[y] == MonoPixel(im, x, y)
    modifies grey
    ensures grey.View() == WithLine(old(grey.View()), x, line)
  {
    hide Tracks, Scanned, MonoPixel, WithLine;
    ghost var was := grey.View();
    var minVal: nat, maxVal: nat, accumVal: nat := 0, 0, 0;
    NothingTracked();
    NothingScanned(was, x, line);
    for y := 0 to im.rows
      invariant Tracks(line[..y], minVal, maxVal, accumVal)
      invariant grey.View() == Scanned(was, x, line, y)
    {
      var currPixVal := MonoPixel(im, x, y);
      OneMoreSample(line, y);
      minVal, maxVal, accumVal := AddSample(currPixVal, y == 0, minVal, maxVal, accumVal, line[..y]);
      ScannedOneMore(was, x, line, y, minVal, maxVal, accumVal);
      grey.Store(x, maxVal, accumVal / im.rows, minVal);
    }
    AllScanned(was, x, line);
  }

  /** The inner loop of row mode. */
  method MonoRowLine(im: Image, y: nat, grey: ChannelStats, ghost line: Line)
    requires IsImage(im) && y < im.rows && Sized(grey.View(), im.rows)
    requires |line| == im.cols && forall x :: 0 <= x < im.cols ==> line[x] == MonoPixel(im, x, y)
    modifies grey
    ensures grey.View() == WithLine(old(grey.View()), y, line)
  {
    hide Tracks, Scanned, MonoPixel, WithLine;
    ghost var was := grey.View();
    var minVal: nat, maxVal: nat, accumVal: nat := 0, 0, 0;
    NothingTracked();
    NothingScanned(was, y, line);
    for x := 0 to im.cols
      invariant Tracks(line[..x], minVal, maxVal, accumVal)
      invariant grey.View() == Scanned(was, y, line, x)
    {
      var currPixVal := MonoPixel(im, x, y);
      OneMoreSample(line, x);
      minVal, maxVal, accumVal := AddSample(currPixVal, x == 0, minVal, maxVal, accumVal, line[..x]);
      ScannedOneMore(was, y, line, x, minVal, maxVal, accumVal);
      grey.Store(y, maxVal, accumVal / im.cols, minVal);
    }
    AllScanned(was, y, line);
  }

  method CalculateMonoColumn(im: Image, stats: Stats)
    requires IsImage(im) && stats.Distinct()
    modifies stats.grey, stats.red, stats.green, stats.blue
    ensures Describes(stats.grey.View(), Columns(MonoGrid(im), im.rows, im.cols),
                      ResizedVectors(old(stats.grey.View()), im.cols))
    ensures stats.red.View() == stats.green.View() == stats.blue.View() == Vectors([], [], [])
  {
    hide MonoPixel, WithLine, Describes;
    stats.red.Clear();
    stats.green.Clear();
    stats.blue.Clear();
    stats.grey.Resize(im.cols);
    ghost var was, g := stats.grey.View(), Columns(MonoGrid(im), im.rows, im.cols);
    for x := 0 to im.cols
      invariant stats.grey.View() == Filled(was, g, x)
      invariant stats.red.View() == stats.green.View() == stats.blue.View() == Vectors([], [], [])
    {
      MonoColumnLine(im, x, stats.grey, g[x]);
    }
    FilledDescribes(was, g);
  }

  method CalculateMonoRow(im: Image, stats: Stats)
    requires IsImage(im) && stats.Distinct()
    modifies stats.grey, stats.red, stats.green, stats.blue
    ensures Describes(stats.grey.View(), MonoGrid(im), ResizedVectors(old(stats.grey.View()), im.rows))
    ensures stats.red.View() == stats.green.View() == stats.blue.View() == Vectors([], [], [])
  {
    hide MonoPixel, WithLine, Describes;
    stats.red.Clear();
    stats.green.Clear();
    stats.blue.Clear();
    stats.grey.Resize(im.rows);
    ghost var was, g := stats.grey.View(), MonoGrid(im);
    for y := 0 to im.rows
      invariant stats.grey.View() == Filled(was, g, y)
      invariant stats.red.View() == stats.green.View() == stats.blue.View() == Vectors([], [], [])
    {
      MonoRowLine(im, y, stats.grey, g[y]);
    }
    FilledDescribes(was, g);
  }

  // ---------------------------------------------------------------------------
  // Colour: four samples a pixel
  // ---------------------------------------------------------------------------

  ghost predicate AllTrack(seen: seq<Line>, minVal: seq<nat>, maxVal: seq<nat>, accumVal: seq<nat>) {
    && |seen| == |minVal| == |maxVal| == |accumVal| == 4
    && forall c :: 0 <= c < 4 ==> Tracks(seen[c], minVal[c], maxVal[c], accumVal[c])
  }

  ghost function Seen(lines: seq<Line>, n: nat): (s: seq<Line>)
    requires |lines| == 4 && forall c :: 0 <= c < 4 ==> n <= |lines[c]|
    ensures |s| == 4 && forall c :: 0 <= c < 4 ==> s[c] == lines[c][..n]
  {
    seq(4, c requires 0 <= c < 4 => lines[c][..n])
  }

  method AddColorSample(currPixVal: seq<nat>, minWas: seq<nat>, maxWas: seq<nat>, accumWas: seq<nat>,
                        ghost lines: seq<Line>, n: nat)
      returns (minVal: seq<nat>, maxVal: seq<nat>, accumVal: seq<nat>)
    requires |lines| == 4 == |currPixVal| && forall c :: 0 <= c < 4 ==> n < |lines[c]| && lines[c][n] == currPixVal[c]
    requires AllTrack(Seen(lines, n), minWas, maxWas, accumWas)
    ensures AllTrack(Seen(lines, n + 1), minVal, maxVal, accumVal)
  {
    hide Tracks;
    minVal, maxVal, accumVal := minWas, maxWas, accumWas;
    for i := 0 to 4
      invariant |minVal| == |maxVal| == |accumVal| == 4
      invariant forall c :: 0 <= c < i ==> Tracks(lines[c][..n + 1], minVal[c], maxVal[c], accumVal[c])
      invariant forall c :: i <= c < 4 ==> Tracks(lines[c][..n], minVal[c], maxVal[c], accumVal[c])
    {
      OneMoreSample(lines[i], n);
      var l, h, a := AddSample(currPixVal[i], n == 0, minVal[i], maxVal[i], accumVal[i], lines[i][..n]);
      minVal, maxVal, accumVal := minVal[i := l], maxVal[i := h], accumVal[i := a];
    }
  }

  /** The vectors of the four channels when n samples of each line have been scanned. */
  ghost predicate AllScannedTo(stats: Stats, was: seq<Vectors>, k: nat, lines: seq<Line>, n: nat)
    requires |was| == |lines| == 4
    requires forall c :: 0 <= c < 4 ==> Sized(was[c], |was[c].max|) && k < |was[c].max| && n <= |lines[c]|
    reads stats.grey, stats.red, stats.green, stats.blue
  {
    && stats.grey.View() == Scanned(was[GREY], k, lines[GREY], n)
    && stats.red.View() == Scanned(was[RED], k, lines[RED], n)
    && stats.green.View() == Scanned(was[GREEN], k, lines[GREEN], n)
    && stats.blue.View() == Scanned(was[BLUE], k, lines[BLUE], n)
  }

  method StoreSample(channel: ChannelStats, k: nat, count: nat, minVal: nat, maxVal: nat, accumVal: nat,
                     ghost was: Vectors, ghost line: Line, ghost n: nat)
    requires Sized(was, |was.max|) && k < |was.max| && n < |line| == count
    requires channel.View() == Scanned(was, k, line, n) && Tracks(line[..n + 1], minVal, maxVal, accumVal)
    modifies channel
    ensures channel.View() == Scanned(was, k, line, n + 1)
  {
    ScannedOneMore(was, k, line, n, minVal, maxVal, accumVal);
    channel.Store(k, maxVal, accumVal / count, minVal);
  }

  /** The four groups of stores at the end of the inner loop. */
  method StoreAll(stats: Stats, k: nat, count: nat, minVal: seq<nat>, maxVal: seq<nat>, accumVal: seq<nat>,
                  ghost was: seq<Vectors>, ghost lines: seq<Line>, ghost n: nat)
    requires stats.Distinct() && count > 0 && |was| == |lines| == 4
    requires forall c :: 0 <= c < 4 ==> Sized(was[c], |was[c].max|) && k < |was[c].max| && n < |lines[c]| == count
    requires AllScannedTo(stats, was, k, lines, n)
    requires AllTrack(Seen(lines, n + 1), minVal, maxVal, accumVal)
    modifies stats.grey, stats.red, stats.green, stats.blue
    ensures AllScannedTo(stats, was, k, lines, n + 1)
  {
    hide Tracks, Scanned;
    StoreSample(stats.grey, k, count, minVal[GREY], maxVal[GREY], accumVal[GREY], was[GREY], lines[GREY], n);
    StoreSample(stats.red, k, count, minVal[RED], maxVal[RED], accumVal[RED], was[RED], lines[RED], n);
    StoreSample(stats.green, k, count, minVal[GREEN], maxVal[GREEN], accumVal[GREEN], was[GREEN], lines[GREEN], n);
    StoreSample(stats.blue, k, count, minVal[BLUE], maxVal[BLUE], accumVal[BLUE], was[BLUE], lines[BLUE], n);
  }

  ghost predicate AllSized(was: seq<Vectors>, n: nat) {
    |was| == 4 && forall c :: 0 <= c < 4 ==> Sized(was[c], n)
  }

  ghost function Views(stats: Stats): (v: seq<Vectors>)
    reads stats.grey, stats.red, stats.green, stats.blue
    ensures |v| == 4
  {
    [stats.grey.View(), stats.red.View(), stats.green.View(), stats.blue.View()]
  }

  ghost predicate AllWithLine(now: seq<Vectors>, was: seq<Vectors>, k: nat, lines: seq<Line>)
    requires |now| == |lines| == |was| == 4 && AllSized(was, |was[0].max|) && k < |was[0].max|
  {
    forall c :: 0 <= c < 4 ==> now[c] == WithLine(was[c], k, lines[c])
  }

  lemma NothingSeenYet(stats: Stats, was: seq<Vectors>, k: nat, lines: seq<Line>)
    requires was == Views(stats) && |lines| == 4 && AllSized(was, |was[0].max|) && k < |was[0].max|
    ensures AllScannedTo(stats, was, k, lines, 0) && AllTrack(Seen(lines, 0), [0, 0, 0, 0], [0, 0, 0, 0], [0, 0, 0, 0])
  {
    assert forall c :: 0 <= c < 4 ==> lines[c][..0] == [];
  }

  lemma EverythingSeen(stats: Stats, was: seq<Vectors>, k: nat, lines: seq<Line>, n: nat)
    requires |was| == |lines| == 4 && AllSized(was, |was[0].max|) && k < |was[0].max|
    requires forall c :: 0 <= c < 4 ==> |lines[c]| == n
    requires AllScannedTo(stats, was, k, lines, n)
    ensures AllWithLine(Views(stats), was, k, lines)
  {
    hide Scanned, WithLine;
    AllScanned(was[GREY], k, lines[GREY]);
    AllScanned(was[RED], k, lines[RED]);
    AllScanned(was[GREEN], k, lines[GREEN]);
    AllScanned(was[BLUE], k, lines[BLUE]);
  }

  /** The inner loop of column mode. */
  method ColorColumnLine(im: Image, x: nat, stats: Stats, ghost lines: seq<Line>)
    requires IsImage(im) && stats.Distinct() && x < im.cols && AllSized(Views(stats), im.cols)
    requires |lines| == 4
    requires forall c :: 0 <= c < 4 ==> |lines[c]| == im.rows
    requires forall c, y :: 0 <= c < 4 && 0 <= y < im.rows ==> lines[c][y] == ColorPixel(im, x, y)[c]
    modifies stats.grey, stats.red, stats.green, stats.blue
    ensures AllWithLine(Views(stats), old(Views(stats)), x, lines)
  {
    hide AllTrack, AllScannedTo, ColorPixel, AllWithLine;
    ghost var was := Views(stats);
    var minVal, maxVal, accumVal := [0, 0, 0, 0], [0, 0, 0, 0], [0, 0, 0, 0];
    NothingSeenYet(stats, was, x, lines);
    for y := 0 to im.rows
      invariant AllTrack(Seen(lines, y), minVal, maxVal, accumVal)
      invariant AllScannedTo(stats, was, x, lines, y)
    {
      var currPixVal := ColorPixel(im, x, y);
      minVal, maxVal, accumVal := AddColorSample(currPixVal, minVal, maxVal, accumVal, lines, y);
      StoreAll(stats, x, im.rows, minVal, maxVal, accumVal, was, lines, y);
    }
    EverythingSeen(stats, was, x, lines, im.rows);
  }

  /** The inner loop of row mode. */
  method ColorRowLine(im: Image, y: nat, stats: Stats, ghost lines: seq<Line>)
    requires IsImage(im) && stats.Distinct() && y < im.rows && AllSized(Views(stats), im.rows)
    requires |lines| == 4
    requires forall c :: 0 <= c < 4 ==> |lines[c]| == im.cols
    requires forall c, x :: 0 <= c < 4 && 0 <= x < im.cols ==> lines[c][x] == ColorPixel(im, x, y)[c]
    modifies stats.grey, stats.red, stats.green, stats.blue
    ensures AllWithLine(Views(stats), old(Views(stats)), y, lines)
  {
    hide AllTrack, AllScannedTo, ColorPixel, AllWithLine;
    ghost var was := Views(stats);
    var minVal, maxVal, accumVal := [0, 0, 0, 0], [0, 0, 0, 0], [0, 0, 0, 0];
    NothingSeenYet(stats, was, y, lines);
    for x := 0 to im.cols
      invariant AllTrack(Seen(lines, x), minVal, maxVal, accumVal)
      invariant AllScannedTo(stats, was, y, lines, x)
    {
      var currPixVal := ColorPixel(im, x, y);
      minVal, maxVal, accumVal := AddColorSample(currPixVal, minVal, maxVal, accumVal, lines, x);
      StoreAll(stats, y, im.cols, minVal, maxVal, accumVal, was, lines, x);
    }
    EverythingSeen(stats, was, y, lines, im.cols);
  }

  /** The vectors of every channel after k lines of its grid. */
  ghost predicate AllFilled(now: seq<Vectors>, was: seq<Vectors>, grids: seq<Grid>, k: nat)
    requires |now| == |was| == |grids| == 4
    requires forall c :: 0 <= c < 4 ==> k <= |grids[c]| && Sized(was[c], |grids[c]|)
  {
    forall c :: 0 <= c < 4 ==> now[c] == Filled(was[c], grids[c], k)
  }

  lemma FillOneMore(now: seq<Vectors>, before: seq<Vectors>, was: seq<Vectors>, grids: seq<Grid>, k: nat,
                    lines: seq<Line>)
    requires |now| == |before| == |was| == |grids| == |lines| == 4
    requires forall c :: 0 <= c < 4 ==> k < |grids[c]| == |grids[0]| && lines[c] == grids[c][k]
    requires AllSized(was, |grids[0]|) && AllFilled(before, was, grids, k) && AllWithLine(now, before, k, lines)
    ensures AllFilled(now, was, grids, k + 1)
  {
    hide WithLine;
  }

  ghost predicate AllDescribe(now: seq<Vectors>, grids: seq<Grid>, was: seq<Vectors>)
    requires |now| == |was| == |grids| == 4 && forall c :: 0 <= c < 4 ==> Sized(was[c], |grids[c]|)
  {
    forall c :: 0 <= c < 4 ==> Describes(now[c], grids[c], was[c])
  }

  lemma AllFilledDescribe(now: seq<Vectors>, was: seq<Vectors>, grids: seq<Grid>, n: nat)
    requires |now| == |was| == |grids| == 4 && forall c :: 0 <= c < 4 ==> |grids[c]| == n && Sized(was[c], n)
    requires AllFilled(now, was, grids, n)
    ensures AllDescribe(now, grids, was)
  {
    hide Describes, Filled;
    forall c | 0 <= c < 4 ensures Describes(now[c], grids[c], was[c]) {
      FilledDescribes(was[c], grids[c]);
    }
  }

  ghost function AllResized(was: seq<Vectors>, n: nat): (r: seq<Vectors>)
    requires |was| == 4
    ensures AllSized(r, n)
  {
    seq(4, c requires 0 <= c < 4 => ResizedVectors(was[c], n))
  }

  method ResizeAll(stats: Stats, n: nat)
    requires stats.Distinct()
    modifies stats.grey, stats.red, stats.green, stats.blue
    ensures Views(stats) == AllResized(old(Views(stats)), n)
  {
    stats.grey.Resize(n);
    stats.red.Resize(n);
    stats.green.Resize(n);
    stats.blue.Resize(n);
  }

  ghost function ChannelGrids(im: Image): (g: seq<Grid>)
    requires IsImage(im)
    ensures |g| == 4 && forall c :: 0 <= c < 4 ==> g[c] == ChannelGrid(im, c)
  {
    [ChannelGrid(im, GREY), ChannelGrid(im, RED), ChannelGrid(im, GREEN), ChannelGrid(im, BLUE)]
  }

  ghost function ChannelColumns(im: Image): (g: seq<Grid>)
    requires IsImage(im)
    ensures |g| == 4 && forall c :: 0 <= c < 4 ==> g[c] == Columns(ChannelGrid(im, c), im.rows, im.cols)
  {
    seq(4, c requires 0 <= c < 4 => Columns(ChannelGrid(im, c), im.rows, im.cols))
  }

  ghost function LinesAt(grids: seq<Grid>, k: nat): (l: seq<Line>)
    requires |grids| == 4 && forall c :: 0 <= c < 4 ==> k < |grids[c]|
    ensures |l| == 4 && forall c :: 0 <= c < 4 ==> l[c] == grids[c][k]
  {
    seq(4, c requires 0 <= c < 4 => grids[c][k])
  }

  method CalculateColorColumn(im: Image, stats: Stats)
    requires IsImage(im) && stats.Distinct()
    modifies stats.grey, stats.red, stats.green, stats.blue
    ensures AllDescribe(Views(stats), ChannelColumns(im), AllResized(old(Views(stats)), im.cols))
  {
    hide Filled, AllWithLine, ColorPixel, Describes, ChannelColumns, AllResized;
    ResizeAll(stats, im.cols);
    ghost var was, grids := Views(stats), ChannelColumns(im);
    NothingFilled(was, grids);
    for x := 0 to im.cols
      invariant AllSized(Views(stats), im.cols) && AllFilled(Views(stats), was, grids, x)
    {
      ghost var before := Views(stats);
      ColorColumnLine(im, x, stats, LinesAt(grids, x));
      FillOneMore(Views(stats), before, was, grids, x, LinesAt(grids, x));
    }
    AllFilledDescribe(Views(stats), was, grids, im.cols);
  }

  method CalculateColorRow(im: Image, stats: Stats)
    requires IsImage(im) && stats.Distinct()
    modifies stats.grey, stats.red, stats.green, stats.blue
    ensures AllDescribe(Views(stats), ChannelGrids(im), AllResized(old(Views(stats)), im.rows))
  {
    hide Filled, AllWithLine, ColorPixel, Describes, ChannelGrids, AllResized;
    ResizeAll(stats, im.rows);
    ghost var was, grids := Views(stats), ChannelGrids(im);
    NothingFilled(was, grids);
    for y := 0 to im.rows
      invariant AllSized(Views(stats), im.rows) && AllFilled(Views(stats), was, grids, y)
    {
      ghost var before := Views(stats);
      ColorRowLine(im, y, stats, LinesAt(grids, y));
      FillOneMore(Views(stats), before, was, grids, y, LinesAt(grids, y));
    }
    AllFilledDescribe(Views(stats), was, grids, im.rows);
  }

  lemma NothingFilled(was: seq<Vectors>, grids: seq<Grid>)
    requires |was| == |grids| == 4 && forall c :: 0 <= c < 4 ==> Sized(was[c], |grids[c]|)
    ensures AllFilled(was, was, grids, 0)
  {
  }

  // ---------------------------------------------------------------------------
  // Grey
  // ---------------------------------------------------------------------------

  function Min(a: nat, b: nat): nat { if a < b then a else b }

  function Max(a: nat, b: nat): nat { if a < b then b else a }

  lemma GreyIsBetween(red: nat, green: nat, blue: nat, lo: nat, hi: nat)
    requires lo <= red <= hi && lo <= green <= hi && lo <= blue <= hi
    ensures lo <= Grey(red, green, blue) <= hi
  {
  }

  /** Grey lies within the extremes of the three channels, on every line. */
  lemma GreyWithinChannels(red: Line, green: Line, blue: Line, grey: Line)
    requires |red| == |green| == |blue| == |grey| > 0
    requires forall i :: 0 <= i < |grey| ==> grey[i] == Grey(red[i], green[i], blue[i])
    ensures Min(Least(red), Min(Least(green), Least(blue))) <= Least(grey)
    ensures Greatest(grey) <= Max(Greatest(red), Max(Greatest(green), Greatest(blue)))
  {
    hide Least, Greatest, Grey;
    ExtremesAreExtreme(red);
    ExtremesAreExtreme(green);
    ExtremesAreExtreme(blue);
    ExtremesAreExtreme(grey);
    var lo := Min(Least(red), Min(Least(green), Least(blue)));
    var hi := Max(Greatest(red), Max(Greatest(green), Greatest(blue)));
    forall i | 0 <= i < |grey| ensures lo <= grey[i] <= hi {
      assert red[i] in red && green[i] in green && blue[i] in blue;
      GreyIsBetween(red[i], green[i], blue[i], lo, hi);
    }
  }

  /** The grey samples of a colour image are those of the other three channels. */
  lemma GreyOfChannels(im: Image, x: nat, y: nat)
    requires IsImage(im) && x < im.cols && y < im.rows
    ensures ChannelGrid(im, GREY)[y][x]
         == Grey(ChannelGrid(im, RED)[y][x], ChannelGrid(im, GREEN)[y][x], ChannelGrid(im, BLUE)[y][x])
  {
  }

  /** So, for a colour image with rows, grey minima and maxima of column mode lie within the
      extremes stored for the three channels of the same column. */
  lemma GreyColumnsWithinChannels(im: Image, x: nat)
    requires IsImage(im) && x < im.cols && im.rows > 0
    ensures var g := ChannelColumns(im);
      && Min(Least(g[RED][x]), Min(Least(g[GREEN][x]), Least(g[BLUE][x]))) <= Least(g[GREY][x])
      && Greatest(g[GREY][x]) <= Max(Greatest(g[RED][x]), Max(Greatest(g[GREEN][x]), Greatest(g[BLUE][x])))
  {
    hide Least, Greatest, ColorPixel, Grey;
    forall y | 0 <= y < im.rows
      ensures ChannelGrid(im, GREY)[y][x]
           == Grey(ChannelGrid(im, RED)[y][x], ChannelGrid(im, GREEN)[y][x], ChannelGrid(im, BLUE)[y][x])
    {
      GreyOfChannels(im, x, y);
    }
    var g := ChannelColumns(im);
    GreyWithinChannels(g[RED][x], g[GREEN][x], g[BLUE][x], g[GREY][x]);
  }

  /** And those of row mode within the extremes of the same row. */
  lemma GreyRowsWithinChannels(im: Image, y: nat)
    requires IsImage(im) && y < im.rows && im.cols > 0
    ensures var g := ChannelGrids(im);
      && Min(Least(g[RED][y]), Min(Least(g[GREEN][y]), Least(g[BLUE][y]))) <= Least(g[GREY][y])
      && Greatest(g[GREY][y]) <= Max(Greatest(g[RED][y]), Max(Greatest(g[GREEN][y]), Greatest(g[BLUE][y])))
  {
    hide Least, Greatest, ColorPixel, Grey;
    forall x | 0 <= x < im.cols
      ensures ChannelGrid(im, GREY)[y][x]
           == Grey(ChannelGrid(im, RED)[y][x], ChannelGrid(im, GREEN)[y][x], ChannelGrid(im, BLUE)[y][x])
    {
      GreyOfChannels(im, x, y);
    }
    var g := ChannelGrids(im);
    GreyWithinChannels(g[RED][y], g[GREEN][y], g[BLUE][y], g[GREY][y]);
  }

  // ---------------------------------------------------------------------------
  // The two modes on the same image
  // ---------------------------------------------------------------------------

  lemma MonoPixelFits(im: Image, x: nat, y: nat)
    requires IsImage(im) && x < im.cols && y < im.rows
    ensures MonoPixel(im, x, y) <= if im.format == Mono8 then WHITE_8 else WHITE_16
  {
    hide IsImage, ByteAt;
  }

  lemma LinesFit(g: Grid, n: nat, white: nat)
    requires white * n < TWO_TO_THE_32 && forall k :: 0 <= k < |g| ==> |g[k]| == n
    requires forall k, i :: 0 <= k < |g| && 0 <= i < n ==> g[k][i] <= white
    ensures NoOverflow(g)
  {
    hide Sum;
    forall k | 0 <= k < |g| ensures Sum(g[k]) < TWO_TO_THE_32 {
      SumBounds(g[k], 0, white);
    }
  }

  /** Lines of up to 65537 samples, or 16843009 of eight bits, never overflow. */
  function LongestLine(f: PixelFormat): nat {
    if f == Mono8 then 16843009 else 65537
  }

  lemma MonoLinesFit(im: Image)
    requires IsImage(im) && im.rows <= LongestLine(im.format) && im.cols <= LongestLine(im.format)
    ensures NoOverflow(MonoGrid(im)) && NoOverflow(Columns(MonoGrid(im), im.rows, im.cols))
  {
    hide MonoPixel, NoOverflow;
    var g := MonoGrid(im);
    var white := if im.format == Mono8 then WHITE_8 else WHITE_16;
    forall y, x | 0 <= y < im.rows && 0 <= x < im.cols ensures MonoPixel(im, x, y) <= white {
      MonoPixelFits(im, x, y);
    }
    WhiteFits(im.format, im.cols);
    WhiteFits(im.format, im.rows);
    LinesFit(g, im.cols, white);
    LinesFit(Columns(g, im.rows, im.cols), im.rows, white);
  }

  lemma WhiteFits(f: PixelFormat, n: nat)
    requires n <= LongestLine(f)
    ensures (if f == Mono8 then WHITE_8 else WHITE_16) * n < TWO_TO_THE_32
  {
  }

  /** What the two modes store for the same image, if no line overflows: the same least minimum
      and greatest maximum, and means that account for the same total. */
  lemma ModesAgree(im: Image)
    requires IsImage(im) && 0 < im.rows && 0 < im.cols
    requires NoOverflow(MonoGrid(im)) && NoOverflow(Columns(MonoGrid(im), im.rows, im.cols))
    ensures var col := LineStats(Columns(MonoGrid(im), im.rows, im.cols));
      var row := LineStats(MonoGrid(im));
      var total := Total(MonoGrid(im));
      && |col.min| == |col.max| == im.cols && |row.min| == |row.max| == im.rows
      && Least(col.min) == Least(row.min) && Greatest(col.max) == Greatest(row.max)
      && im.rows * Sum(col.mean) <= total < im.rows * Sum(col.mean) + im.rows * im.cols
      && im.cols * Sum(row.mean) <= total < im.cols * Sum(row.mean) + im.rows * im.cols
  {
    hide MonoGrid, Columns, Sum, Total, Least, Greatest, Means, Leasts, Greatests;
    var g := MonoGrid(im);
    ExtremesAgree(g, im.rows, im.cols);
    MeansAgree(g, im.rows, im.cols);
  }
}
