/** The scene renderer of src/renderer.rs: the recursive colour estimate of
    a ray, the average over the samples of a pixel, and the byte layout of
    the image. The random draws are parameters. */
module Rendering {

  import opened RealArith
  import opened Vector
  import opened Rays
  import opened Materials
  import opened Hittables
  import opened Cameras
  import Spheres
  import MovingSpheres

  /** `SceneSettings`: image size, samples per pixel and the bounce limit. */
  datatype SceneSettings = SceneSettings(width: int, height: int, spp: int, maxBounce: int)

  /** `Scene`: the settings and the root of the hierarchy. */
  datatype Scene = Scene(settings: SceneSettings, bvh: Hittable)

  /** The interval the scene is queried on: `(0.0001, f32::MAX)`. */
  const TMin: real := 0.0001
  const F32Max: real := 340282346638528859811704183484516925440.0

  const White: Vec3 := Vec3(1.0, 1.0, 1.0)
  const SkyBlue: Vec3 := Vec3(0.5, 0.7, 1.0)

  /** The blend parameter of the background: the height of the normalised
      direction moved from [-1, 1] to [0, 1]. */
  function SkyParameter(ray: Ray): real {
    0.5 * (Normalize(ray.direction).y + 1.0)
  }

  /** The background gradient: white blended towards sky blue by the
      height of the direction. Its blue channel is always full, so the sky
      is never black. */
  function Sky(ray: Ray): (c: Vec3)
    ensures c.z == 1.0
  {
    var t := SkyParameter(ray);
    Add(Scale(White, 1.0 - t), Scale(SkyBlue, t))
  }

  /** `Renderer::color`. `samples(d)` is the point `random_in_unit_sphere()`
      returns to the scatter at bounce `d`. A miss, or a hit at the bounce
      limit, shows the sky; a hit below the limit is attenuated by the
      scattered ray's colour, or is black when the surface absorbs. */
  function Color(scene: Scene, ray: Ray, depth: int, samples: int -> Vec3): (c: Vec3)
    ensures Hit(scene.bvh, ray, TMin, F32Max).None? ==> c == Sky(ray)
    ensures Hit(scene.bvh, ray, TMin, F32Max).Some? && depth >= scene.settings.maxBounce ==> c == Sky(ray)
    ensures Hit(scene.bvh, ray, TMin, F32Max).Some? && depth < scene.settings.maxBounce ==>
              var record := Hit(scene.bvh, ray, TMin, F32Max).value;
              ScatterRay(record.material, ray, record, samples(depth)).None? ==> c == Zero
    decreases scene.settings.maxBounce - depth
  {
    match Hit(scene.bvh, ray, TMin, F32Max)
    case Some(record) =>
      if depth < scene.settings.maxBounce then
        match ScatterRay(record.material, ray, record, samples(depth))
        case Some(Scatter(attenuation, Some(scattered))) =>
          Mul(attenuation, Color(scene, scattered, depth + 1, samples))
        case _ => Zero
      else Sky(ray)
    case None => Sky(ray)
  }

  /** A hit below the bounce limit that scatters continues with the
      scattered ray one bounce deeper, attenuated by the material's albedo. */
  lemma ColorFollowsScatter(scene: Scene, ray: Ray, depth: int, samples: int -> Vec3)
    requires depth < scene.settings.maxBounce
    requires Hit(scene.bvh, ray, TMin, F32Max).Some?
    requires var record := Hit(scene.bvh, ray, TMin, F32Max).value;
             ScatterRay(record.material, ray, record, samples(depth)).Some?
    ensures var record := Hit(scene.bvh, ray, TMin, F32Max).value;
            var s := ScatterRay(record.material, ray, record, samples(depth)).value;
            Color(scene, ray, depth, samples) ==
              Mul(record.material.albedo, Color(scene, s.ray.value, depth + 1, samples))
  {
  }

  predicate InUnitCube(v: Vec3) {
    0.0 <= v.x <= 1.0 && 0.0 <= v.y <= 1.0 && 0.0 <= v.z <= 1.0
  }

  /** A surface that reflects at most what it receives on every channel. */
  predicate AlbedoBounded(m: Material) {
    m.Dielectric? || InUnitCube(m.albedo)
  }

  /** Every primitive of the hierarchy has a bounded albedo. */
  predicate AlbedosBounded(h: Hittable)
    decreases h
  {
    match h
    case SphereShape(s) => AlbedoBounded(s.material)
    case MovingShape(m) => AlbedoBounded(m.material)
    case NullNode(_) => true
    case BvhNode(left, right, _) => AlbedosBounded(left) && AlbedosBounded(right)
  }

  /** The square root is exact on every non-negative number. */
  ghost predicate SqrtExact() {
    forall x :: 0.0 <= x ==> ExactSqrtAt(x)
  }

  /** With an exact square root every primitive is consistent under
      narrowing, so the nearest-hit theorem of the scan applies to any list
      of primitives. */
  lemma PrimitivesConsistentUnderExactSqrt(h: Hittable, ray: Ray, tMin: real, tMax: real)
    requires SqrtExact() && !h.BvhNode?
    ensures ShrinkConsistent(h, ray, tMin, tMax)
  {
    var d := if h.SphereShape? then Spheres.Discriminant(h.sphere, ray)
             else if h.MovingShape? then Spheres.Discriminant(MovingSpheres.At(h.moving, ray.time), ray)
             else 0.0;
    if 0.0 < d {
      assert ExactSqrtAt(d);
    }
    PrimitivesShrinkConsistent(h, ray, tMin, tMax);
  }

  /** Every material of a tree whose albedos are bounded is bounded. */
  lemma {:induction false} PrimitiveMaterialBounded(h: Hittable, m: Material)
    requires AlbedosBounded(h) && HasMaterial(h, m)
    ensures AlbedoBounded(m)
    decreases h
  {
    match h
    case SphereShape(_) =>
    case MovingShape(_) =>
    case BvhNode(left, right, _) =>
      if HasMaterial(left, m) {
        PrimitiveMaterialBounded(left, m);
      } else {
        PrimitiveMaterialBounded(right, m);
      }
  }

  /** In a tree whose albedos are bounded, the material of any hit has a
      bounded albedo, since it is the material of one of the primitives. */
  lemma HitMaterialBounded(h: Hittable, ray: Ray, tMin: real, tMax: real)
    requires AlbedosBounded(h)
    ensures Hit(h, ray, tMin, tMax).Some? ==> AlbedoBounded(Hit(h, ray, tMin, tMax).value.material)
  {
    HitMaterialIsPrimitive(h, ray, tMin, tMax);
    if Hit(h, ray, tMin, tMax).Some? {
      PrimitiveMaterialBounded(h, Hit(h, ray, tMin, tMax).value.material);
    }
  }

  /** With an exact square root the background lies in the unit cube. */
  lemma SkyBounded(ray: Ray)
    requires SqrtExact()
    ensures InUnitCube(Sky(ray))
  {
    NormalizedHeightBounded(ray.direction);
    BlendBounded(SkyParameter(ray));
  }

  /** The blend of white and sky blue at a parameter in [0, 1] lies in the
      unit cube. */
  lemma BlendBounded(t: real)
    requires 0.0 <= t <= 1.0
    ensures InUnitCube(Add(Scale(White, 1.0 - t), Scale(SkyBlue, t)))
  {
  }

  /** With an exact square root, the height of a normalised direction lies
      in [-1, 1]; the zero direction normalises to zero. */
  lemma NormalizedHeightBounded(d: Vec3)
    requires SqrtExact()
    ensures -1.0 <= Normalize(d).y <= 1.0
  {
    if d == Zero {
      NormalizeZero();
    } else {
      SquaredLengthNonNegative(d);
      ExactAt(SquaredLength(d));
      UnitHeightBounded(d);
    }
  }

  /** The zero direction normalises to zero, since division by zero yields zero. */
  lemma NormalizeZero()
    ensures Normalize(Zero) == Zero
  {
    ZeroDivided(Length(Zero));
  }

  lemma ZeroDivided(b: real)
    ensures Divide(0.0, b) == 0.0
  {
    if b != 0.0 {
      assert 0.0 / b == 0.0 * (1.0 / b);
    }
  }

  lemma ExactAt(x: real)
    requires SqrtExact() && 0.0 <= x
    ensures ExactSqrtAt(x)
  {
  }

  lemma UnitHeightBounded(d: Vec3)
    requires d != Zero && ExactSqrtAt(SquaredLength(d))
    ensures -1.0 <= Normalize(d).y <= 1.0
  {
    var n := Normalize(d);
    NormalizeIsUnit(d);
    SquareNonNegative(n.x);
    SquareNonNegative(n.z);
    SquareAtMostOne(n.y);
  }

  lemma SquaredLengthNonNegative(v: Vec3)
    ensures 0.0 <= SquaredLength(v)
  {
    SquareNonNegative(v.x);
    SquareNonNegative(v.y);
    SquareNonNegative(v.z);
  }

  lemma SquareAtMostOne(y: real)
    requires Square(y) <= 1.0
    ensures -1.0 <= y <= 1.0
  {
  }

  /** The estimate never leaves the unit cube: a surface reflects at most
      what it receives, and the sky is bounded. This holds at every depth,
      whatever the samples. */
  lemma {:induction false} ColorBounded(scene: Scene, ray: Ray, depth: int, samples: int -> Vec3)
    requires SqrtExact() && AlbedosBounded(scene.bvh)
    ensures InUnitCube(Color(scene, ray, depth, samples))
    decreases scene.settings.maxBounce - depth
  {
    SkyBounded(ray);
    var answer := Hit(scene.bvh, ray, TMin, F32Max);
    if answer.Some? && depth < scene.settings.maxBounce {
      var record := answer.value;
      var s := ScatterRay(record.material, ray, record, samples(depth));
      if s.Some? {
        HitMaterialBounded(scene.bvh, ray, TMin, F32Max);
        ColorFollowsScatter(scene, ray, depth, samples);
        ColorBounded(scene, s.value.ray.value, depth + 1, samples);
        ProductBounded(record.material.albedo, Color(scene, s.value.ray.value, depth + 1, samples));
      }
    }
  }

  lemma ProductBounded(a: Vec3, c: Vec3)
    requires InUnitCube(a) && InUnitCube(c)
    ensures InUnitCube(Mul(a, c))
  {
    UnitProduct(a.x, c.x);
    UnitProduct(a.y, c.y);
    UnitProduct(a.z, c.z);
  }

  /** The draws of one sample of one pixel, keyed by column, row and sample
      index: the jitter inside the pixel, the point `random_in_unit_disk()`
      returns to the lens, and the scatter samples of each bounce. */
  datatype Draws = Draws(jitter: (int, int, int) -> (real, real),
                         disk: (int, int, int) -> Vec3,
                         bounce: (int, int, int) -> int -> Vec3)

  /** The primary ray of sample `k` of pixel `(i, j)`: the camera ray
      through `((i + du) / width, (j + dv) / height)`. */
  function SampleRay(scene: Scene, camera: Camera, draws: Draws, i: int, j: int, k: int): Ray {
    var (du, dv) := draws.jitter(i, j, k);
    GetRay(camera, Divide(i as real + du, scene.settings.width as real),
           Divide(j as real + dv, scene.settings.height as real), draws.disk(i, j, k))
  }

  /** The body of the sample loop: the colour estimate of sample `k` of
      pixel `(i, j)`, by column, row and sample index. The per-pixel
      functions below take it as a parameter; in the renderer it is this
      function. */
  function Tracer(scene: Scene, camera: Camera, draws: Draws): (int, int, int) -> Vec3 {
    (i, j, k) => Color(scene, SampleRay(scene, camera, draws, i, j, k), 0, draws.bounce(i, j, k))
  }

  /** The sum of the colours of the first `n` samples of pixel `(i, j)`. */
  function SampleSum(trace: (int, int, int) -> Vec3, i: int, j: int, n: nat): Vec3 {
    if n == 0 then Zero else Add(SampleSum(trace, i, j, n - 1), trace(i, j, n - 1))
  }

  /** `x as u8` for a channel value: truncation, saturating at 0 and 255. */
  function ToByte(x: real): (b: int)
    ensures 0 <= b <= 255
    ensures 0.0 <= x < 256.0 ==> b as real <= x < b as real + 1.0
    ensures x < 0.0 ==> b == 0
    ensures 256.0 <= x ==> b == 255
  {
    if x < 0.0 then 0 else if x >= 256.0 then 255 else x.Floor
  }

  function Nat(n: int): nat {
    if n < 0 then 0 else n
  }

  /** The gamma correction: the square root of each channel. */
  function Gamma(v: Vec3): Vec3 {
    Vec3(Sqrt(v.x), Sqrt(v.y), Sqrt(v.z))
  }

  /** Each channel scaled by 255.99 and cast to a byte, red first. */
  function Quantize(v: Vec3): (b: seq<int>)
    ensures |b| == 3
  {
    [ToByte(255.99 * v.x), ToByte(255.99 * v.y), ToByte(255.99 * v.z)]
  }

  /** The colour of pixel `(i, j)`: the average of its `spp` samples, then
      the gamma correction. */
  function PixelColor(trace: (int, int, int) -> Vec3, spp: int, i: int, j: int): Vec3 {
    Gamma(DivScalar(SampleSum(trace, i, j, Nat(spp)), spp as real))
  }

  /** The three bytes of pixel `(i, j)`, red first. */
  function PixelBytes(trace: (int, int, int) -> Vec3, spp: int, i: int, j: int): (b: seq<int>)
    ensures |b| == 3
  {
    Quantize(PixelColor(trace, spp, i, j))
  }

  /** The sample loop of `render_to_pixels`: the colours of the `spp`
      samples of pixel `(i, j)` accumulated with `+=`, none when `spp` is not
      positive. */
  method SumSamples(trace: (int, int, int) -> Vec3, spp: int, i: int, j: int) returns (col: MutableVector)
    ensures fresh(col) && col.Value() == SampleSum(trace, i, j, Nat(spp))
  {
    col := new MutableVector(Zero);
    var k := 0;
    while k < spp
      invariant 0 <= k && (k == 0 || k <= spp)
      invariant col.Value() == SampleSum(trace, i, j, k)
    {
      var c := trace(i, j, k);
      col.AddAssign(c);
      k := k + 1;
    }
    assert k == Nat(spp);
  }

  /** The end of the per-pixel work: the sum divided by the count with
      `/=`, replaced by its channel-wise square root, and cast to bytes.
      `col` is left holding the gamma-corrected average. */
  method Average(col: MutableVector, spp: int) returns (rgb: seq<int>)
    modifies col
    ensures col.Value() == Gamma(DivScalar(old(col.Value()), spp as real))
    ensures rgb == Quantize(col.Value())
  {
    col.DivAssignScalar(spp as real);
    col.x, col.y, col.z := Sqrt(col.x), Sqrt(col.y), Sqrt(col.z);
    rgb := [ToByte(255.99 * col.x), ToByte(255.99 * col.y), ToByte(255.99 * col.z)];
  }

  /** The per-pixel work of `render_to_pixels`. */
  method PixelEstimate(trace: (int, int, int) -> Vec3, spp: int, i: int, j: int) returns (rgb: seq<int>)
    ensures rgb == PixelBytes(trace, spp, i, j)
  {
    var col := SumSamples(trace, spp, i, j);
    rgb := Average(col, spp);
  }

  /** Each channel of the sum of `n` samples of a bounded scene lies in
      [0, n]. */
  lemma {:induction false} SampleSumBounded(scene: Scene, camera: Camera, draws: Draws, i: int, j: int, n: nat)
    requires SqrtExact() && AlbedosBounded(scene.bvh)
    ensures var s := SampleSum(Tracer(scene, camera, draws), i, j, n);
            0.0 <= s.x <= n as real && 0.0 <= s.y <= n as real && 0.0 <= s.z <= n as real
  {
    if n > 0 {
      SampleSumBounded(scene, camera, draws, i, j, n - 1);
      ColorBounded(scene, SampleRay(scene, camera, draws, i, j, n - 1), 0, draws.bounce(i, j, n - 1));
    }
  }

  /** With at least one sample, the gamma-corrected colour of every pixel of
      a bounded scene lies in the unit cube, so no channel saturates the
      byte cast. */
  lemma PixelColorBounded(scene: Scene, camera: Camera, draws: Draws, i: int, j: int)
    requires SqrtExact() && AlbedosBounded(scene.bvh) && 0 < scene.settings.spp
    ensures InUnitCube(PixelColor(Tracer(scene, camera, draws), scene.settings.spp, i, j))
  {
    var n := scene.settings.spp as real;
    var s := SampleSum(Tracer(scene, camera, draws), i, j, scene.settings.spp);
    SampleSumBounded(scene, camera, draws, i, j, scene.settings.spp);
    AverageRoot(s.x, n);
    AverageRoot(s.y, n);
    AverageRoot(s.z, n);
  }

  lemma AverageRoot(s: real, n: real)
    requires SqrtExact() && 0.0 < n && 0.0 <= s <= n
    ensures 0.0 <= Sqrt(Divide(s, n)) <= 1.0
  {
    DivideByPositive(0.0, s, n);
    DivideByPositive(s, n, n);
    var a := Divide(s, n);
    assert ExactSqrtAt(a);
    RootAtMostOne(Sqrt(a));
  }

  lemma RootAtMostOne(r: real)
    requires 0.0 <= r && Square(r) <= 1.0
    ensures r <= 1.0
  {
  }

  /** The bytes of every pixel, by column and row. */
  function Pixels(trace: (int, int, int) -> Vec3, spp: int): (int, int) -> seq<int> {
    (i, j) => PixelBytes(trace, spp, i, j)
  }

  /** The bytes of the first `m` pixels of row `j`. */
  function RowPrefix(pixel: (int, int) -> seq<int>, j: int, m: nat): seq<int> {
    if m == 0 then [] else RowPrefix(pixel, j, m - 1) + pixel(m - 1, j)
  }

  /** The rows are emitted from `height - 1` down to 0. */
  function RowOf(settings: SceneSettings, r: int): int {
    settings.height - 1 - r
  }

  /** The bytes of the first `n` rows emitted. */
  function Image(settings: SceneSettings, pixel: (int, int) -> seq<int>, n: nat): seq<int> {
    if n == 0 then []
    else Image(settings, pixel, n - 1) + RowPrefix(pixel, RowOf(settings, n - 1), Nat(settings.width))
  }

  /** The pixels of row `j`, from the left: the inner `flat_map` of
      `render_to_pixels`, with `pixel(i, j)` the bytes of pixel `(i, j)`. */
  method RenderRow(settings: SceneSettings, pixel: (int, int) -> seq<int>, j: int) returns (row: seq<int>)
    ensures row == RowPrefix(pixel, j, Nat(settings.width))
  {
    row := [];
    var i := 0;
    while i < settings.width
      invariant 0 <= i && (i == 0 || i <= settings.width)
      invariant row == RowPrefix(pixel, j, i)
    {
      row := row + pixel(i, j);
      i := i + 1;
    }
    assert i == Nat(settings.width);
  }

  /** `render_to_pixels`: rows from the top, pixels from the left, three
      channels each. A width or height that is not positive gives no
      pixels, as the empty ranges do. In the renderer `pixel` is
      `Pixels(Tracer(scene, camera, draws), spp)`, whose every value
      `PixelEstimate` computes. */
  method RenderToPixels(settings: SceneSettings, pixel: (int, int) -> seq<int>) returns (pixels: seq<int>)
    ensures pixels == Image(settings, pixel, Nat(settings.height))
  {
    var height := settings.height;
    pixels := [];
    var j := height - 1;
    while j >= 0
      invariant j < height && (j == height - 1 || -1 <= j)
      invariant pixels == Image(settings, pixel, height - 1 - j)
      decreases j
    {
      assert j == RowOf(settings, height - 1 - j);
      var row := RenderRow(settings, pixel, j);
      pixels := pixels + row;
      j := j - 1;
    }
    assert height - 1 - j == Nat(height);
  }

  /** Byte offset of channel `ch` of the `i`-th pixel of the `r`-th emitted row. */
  function Offset(width: nat, r: int, i: int, ch: int): int {
    3 * (r * width + i) + ch
  }

  /** A row prefix of pixels of three bytes each holds pixel `i` at `3 * i`. */
  lemma {:induction false} RowLayout(pixel: (int, int) -> seq<int>, j: int, m: nat)
    requires forall i, j :: |pixel(i, j)| == 3
    ensures |RowPrefix(pixel, j, m)| == 3 * m
    ensures forall i, ch :: 0 <= i < m && 0 <= ch < 3 ==> RowPrefix(pixel, j, m)[3 * i + ch] == pixel(i, j)[ch]
  {
    if m > 0 {
      RowLayout(pixel, j, m - 1);
      var before := RowPrefix(pixel, j, m - 1);
      var row := RowPrefix(pixel, j, m);
      assert row == before + pixel(m - 1, j);
      forall i, ch | 0 <= i < m && 0 <= ch < 3
        ensures row[3 * i + ch] == pixel(i, j)[ch]
      {
        if i < m - 1 {
          assert row[3 * i + ch] == before[3 * i + ch];
        } else {
          assert row[3 * i + ch] == pixel(m - 1, j)[ch];
        }
      }
    }
  }

  lemma OffsetBounds(width: nat, n: nat, r: int, i: int, ch: int)
    requires 0 <= r < n && 0 <= i < width && 0 <= ch < 3
    ensures 0 <= Offset(width, r, i, ch) < 3 * (n * width)
  {
    MulNonNegative(r, width);
    MulMonotone(r + 1, n, width);
    assert r * width + width == (r + 1) * width;
  }

  lemma MulNonNegative(a: nat, b: nat)
    ensures 0 <= a * b
  {
  }

  lemma MulMonotone(a: int, b: int, c: nat)
    requires a <= b
    ensures a * c <= b * c
  {
    MulNonNegative(b - a, c);
    assert b * c - a * c == (b - a) * c;
  }

  /** The first `n` rows of pixels of three bytes each hold `3 * n * width`
      bytes, channel `ch` of pixel `(i, height - 1 - r)` at
      `3 * (r * width + i) + ch`. */
  lemma {:induction false} ImageLayout(settings: SceneSettings, pixel: (int, int) -> seq<int>, n: nat)
    requires forall i, j :: |pixel(i, j)| == 3
    ensures |Image(settings, pixel, n)| == 3 * (n * Nat(settings.width))
    ensures forall r, i, ch :: 0 <= r < n && 0 <= i < Nat(settings.width) && 0 <= ch < 3 ==>
              0 <= Offset(Nat(settings.width), r, i, ch) < |Image(settings, pixel, n)| &&
              Image(settings, pixel, n)[Offset(Nat(settings.width), r, i, ch)] == pixel(i, RowOf(settings, r))[ch]
  {
    var w := Nat(settings.width);
    if n > 0 {
      ImageLayout(settings, pixel, n - 1);
      RowLayout(pixel, RowOf(settings, n - 1), w);
      var before := Image(settings, pixel, n - 1);
      var row := RowPrefix(pixel, RowOf(settings, n - 1), w);
      var image := Image(settings, pixel, n);
      assert image == before + row;
      assert |before| == 3 * ((n - 1) * w);
      assert n * w == (n - 1) * w + w;
      forall r, i, ch | 0 <= r < n && 0 <= i < w && 0 <= ch < 3
        ensures 0 <= Offset(w, r, i, ch) < |image|
        ensures image[Offset(w, r, i, ch)] == pixel(i, RowOf(settings, r))[ch]
      {
        OffsetBounds(w, n, r, i, ch);
        var off := Offset(w, r, i, ch);
        if r < n - 1 {
          OffsetBounds(w, n - 1, r, i, ch);
          assert image[off] == before[off];
        } else {
          assert r * w == (n - 1) * w;
          assert off == |before| + (3 * i + ch);
          assert image[off] == row[3 * i + ch];
        }
      }
    }
  }

  /** The rendered image has `3 * width * height` bytes, channel `ch` of
      pixel `(i, j)` at `3 * ((height - 1 - j) * width + i) + ch`. */
  lemma RenderedLayout(settings: SceneSettings, trace: (int, int, int) -> Vec3)
    ensures |Image(settings, Pixels(trace, settings.spp), Nat(settings.height))| ==
            3 * (Nat(settings.height) * Nat(settings.width))
    ensures forall i, j, ch :: 0 <= i < Nat(settings.width) && 0 <= j < settings.height && 0 <= ch < 3 ==>
              var off := Offset(Nat(settings.width), settings.height - 1 - j, i, ch);
              0 <= off < |Image(settings, Pixels(trace, settings.spp), Nat(settings.height))| &&
              Image(settings, Pixels(trace, settings.spp), Nat(settings.height))[off] ==
                PixelBytes(trace, settings.spp, i, j)[ch]
  {
    var pixel := Pixels(trace, settings.spp);
    assert forall i, j :: |pixel(i, j)| == 3;
    ImageLayout(settings, pixel, Nat(settings.height));
    forall i, j, ch | 0 <= i < Nat(settings.width) && 0 <= j < settings.height && 0 <= ch < 3
      ensures var off := Offset(Nat(settings.width), settings.height - 1 - j, i, ch);
              0 <= off < |Image(settings, pixel, Nat(settings.height))| &&
              Image(settings, pixel, Nat(settings.height))[off] == PixelBytes(trace, settings.spp, i, j)[ch]
    {
      assert RowOf(settings, settings.height - 1 - j) == j;
    }
  }
}
