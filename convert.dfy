/**
 * The conversion pipeline around the chunk engine: textures are decoded, fitted to a size
 * and block-compressed by a codec (the `image` and `directxtex` libraries, kept abstract
 * here), effect tiles are packed into one canvas, and a stage container is produced by
 * splicing the new textures into a fixed template.
 */
module Convert {
  import opened Common
  import opened Files
  import opened Locate
  import opened Paths
  import Decimal

  /** The block-compressed DXGI formats the converter asks for. */
  datatype Format = BC1 | BC3

  /** A decoded RGBA8 image: `width * height` pixels of four bytes, row by row. */
  datatype Image = Image(width: nat, height: nat, rgba: seq<byte>)

  /** A block-compressed texture (`ScratchImage`); its blocks are the codec's business. */
  datatype Texture = Texture(width: nat, height: nat, format: Format, blocks: seq<byte>)

  predicate WellSized(img: Image) {
    |img.rgba| == img.width * img.height * 4
  }

  /**
   * The image and texture libraries: decoding a file to RGBA8, Lanczos3 resizing to an
   * exact size, block compression of raw RGBA8 pixels, and DDS serialisation.
   */
  datatype Codec = Codec(
    open: string -> Result<Image>,
    resize: (Image, nat, nat) -> Image,
    compress: (nat, nat, Format, seq<byte>) -> Result<Texture>,
    saveDds: Texture -> Result<seq<byte>>)
  {
    /** What the libraries promise: decoded and resized images hold exactly their pixels. */
    ghost predicate Valid() {
      && (forall p :: open(p).Ok? ==> WellSized(open(p).value))
      && (forall img, w, h :: resize(img, w, h).width == w && resize(img, w, h).height == h && WellSized(resize(img, w, h)))
    }
  }

  // ---------------------------------------------------------------------------------------
  // convert_dds, convert_bg, convert_jk

  /**
   * `resize_if_needed`, and the same decision in `convert_dds`: resize only when the image
   * does not already have the requested size.
   */
  function Fit(c: Codec, img: Image, width: nat, height: nat): (r: Image)
    ensures img.width == width && img.height == height ==> r == img
    ensures (img.width != width || img.height != height) ==> r == c.resize(img, width, height)
    ensures c.Valid() && WellSized(img) ==> r.width == width && r.height == height && WellSized(r)
  {
    if img.width != width || img.height != height then c.resize(img, width, height) else img
  }

  const InvalidDimensions := "Invalid dimensions: width and height must be greater than 0"

  /**
   * `convert_dds`: refuse a zero dimension before anything is decoded; otherwise decode,
   * fit to the requested size and compress at exactly that size.
   */
  function ConvertDds(c: Codec, inPath: string, width: u32, height: u32, format: Format): (r: Result<Texture>)
    ensures width == 0 || height == 0 ==> r == Err(InvalidDimensions)
    ensures width > 0 && height > 0 && c.open(inPath).Err? ==> r == Err(c.open(inPath).msg)
    ensures width > 0 && height > 0 && c.open(inPath).Ok? && c.Valid() ==>
      r == c.compress(width, height, format, Fit(c, c.open(inPath).value, width, height).rgba)
  {
    if width == 0 || height == 0 then Err(InvalidDimensions)
    else
      match c.open(inPath)
      case Err(e) => Err(e)
      case Ok(rgbaImage) =>
        var processed := Fit(c, rgbaImage, width, height);
        c.compress(processed.width, processed.height, format, processed.rgba)
  }

  /** `convert_bg`: a 1920x1080 BC1 background. */
  function ConvertBg(c: Codec, inPath: string): (r: Result<Texture>)
    ensures c.open(inPath).Err? ==> r == Err(c.open(inPath).msg)
    ensures c.open(inPath).Ok? && c.Valid() ==>
      r == c.compress(1920, 1080, BC1, Fit(c, c.open(inPath).value, 1920, 1080).rgba)
  {
    ConvertDds(c, inPath, 1920, 1080, BC1)
  }

  /** `convert_jk`: a 300x300 BC1 jacket. */
  function ConvertJk(c: Codec, inPath: string): (r: Result<Texture>)
    ensures c.open(inPath).Err? ==> r == Err(c.open(inPath).msg)
    ensures c.open(inPath).Ok? && c.Valid() ==>
      r == c.compress(300, 300, BC1, Fit(c, c.open(inPath).value, 300, 300).rgba)
  {
    ConvertDds(c, inPath, 300, 300, BC1)
  }

  /** `save_dds_blob`: serialise a texture, prefixing a failure with its context. */
  function SaveDdsBlob(c: Codec, texture: Texture): (r: Result<seq<byte>>)
    ensures c.saveDds(texture).Ok? <==> r.Ok?
    ensures r.Ok? ==> r.value == c.saveDds(texture).value
    ensures r.Err? ==> r.msg == "Failed to save DDS blob: " + c.saveDds(texture).msg
  {
    match c.saveDds(texture)
    case Ok(blob) => Ok(blob)
    case Err(e) => Err("Failed to save DDS blob: " + e)
  }

  // ---------------------------------------------------------------------------------------
  // convert_fx: the tile canvas

  const TILE: nat := 256
  const CANVAS: nat := 512

  /** One RGBA8 pixel. */
  datatype Rgba = Rgba(r: byte, g: byte, b: byte, a: byte)

  /** The zero pixel a new image buffer is filled with. */
  const Transparent := Rgba(0, 0, 0, 0)

  function Channel(p: Rgba, ch: nat): byte
    requires ch < 4
  {
    if ch == 0 then p.r else if ch == 1 then p.g else if ch == 2 then p.b else p.a
  }

  /** The raw pixels of one 256x256 tile. */
  predicate IsTile(pixels: seq<byte>) {
    |pixels| == 256 * 256 * 4
  }

  predicate AllTiles(tiles: seq<seq<byte>>) {
    forall k :: 0 <= k < |tiles| ==> IsTile(tiles[k])
  }

  /** Pixel (x, y) of a tile, read from offset `(y * 256 + x) * 4`. */
  function TilePixel(pixels: seq<byte>, x: nat, y: nat): Rgba
    requires IsTile(pixels) && x < TILE && y < TILE
  {
    var i := (y * 256 + x) * 4;
    Rgba(pixels[i], pixels[i + 1], pixels[i + 2], pixels[i + 3])
  }

  /** The placement rank of the quadrant holding canvas pixel (x, y): 0 1 on top, 2 3 below. */
  function Quadrant(x: nat, y: nat): nat {
    (if y < TILE then 0 else 2) + (if x < TILE then 0 else 1)
  }

  /** A canvas coordinate relative to its quadrant. */
  function Local(v: nat): nat {
    if v < TILE then v else v - TILE
  }

  /**
   * The packed canvas: quadrant `k` shows tile `k` if there is one and stays transparent
   * otherwise.
   */
  function CompositePixel(tiles: seq<seq<byte>>, x: nat, y: nat): Rgba
    requires AllTiles(tiles) && x < CANVAS && y < CANVAS
  {
    var k := Quadrant(x, y);
    if k < |tiles| then TilePixel(tiles[k], Local(x), Local(y)) else Transparent
  }

  /** The `k`-th tile lands at offset `((k % 2) * 256, (k / 2) * 256)`, unchanged. */
  lemma TilePlacement(tiles: seq<seq<byte>>, k: nat, x: nat, y: nat)
    requires AllTiles(tiles) && k < |tiles| && k < 4 && x < TILE && y < TILE
    ensures CompositePixel(tiles, (k % 2) * TILE + x, (k / 2) * TILE + y) == TilePixel(tiles[k], x, y)
  {
  }

  /** Quadrant `k` is exactly the square at offset `((k % 2) * 256, (k / 2) * 256)`. */
  lemma QuadrantRegion(k: nat, x: nat, y: nat)
    requires k < 4 && x < CANVAS && y < CANVAS
    ensures Quadrant(x, y) == k <==>
      (k % 2) * TILE <= x < (k % 2) * TILE + TILE && (k / 2) * TILE <= y < (k / 2) * TILE + TILE
  {
  }


  /** Adding a tile changes only the next free quadrant. */
  lemma CompositeExtend(tiles: seq<seq<byte>>, pixels: seq<byte>, x: nat, y: nat)
    requires AllTiles(tiles) && IsTile(pixels) && x < CANVAS && y < CANVAS && Quadrant(x, y) != |tiles|
    ensures AllTiles(tiles + [pixels])
    ensures CompositePixel(tiles + [pixels], x, y) == CompositePixel(tiles, x, y)
  {
    var k := Quadrant(x, y);
    if k < |tiles| {
      assert (tiles + [pixels])[k] == tiles[k];
    }
  }

  /** `into_raw` of the packed canvas: pixel (x, y) at offset `(y * 512 + x) * 4`. */
  function CompositeRaw(tiles: seq<seq<byte>>): (raw: seq<byte>)
    requires AllTiles(tiles)
    ensures |raw| == CANVAS * CANVAS * 4
  {
    seq(CANVAS * CANVAS * 4, j requires 0 <= j < CANVAS * CANVAS * 4 =>
      RawIndexBounds(j);
      Channel(CompositePixel(tiles, (j / 4) % CANVAS, (j / 4) / CANVAS), j % 4))
  }

  /** `into_raw` of a 512x512 image buffer, row by row. */
  function RawBytes(canvas: array2<Rgba>): (raw: seq<byte>)
    requires canvas.Length0 == CANVAS && canvas.Length1 == CANVAS
    reads canvas
    ensures |raw| == CANVAS * CANVAS * 4
  {
    seq(CANVAS * CANVAS * 4, j requires 0 <= j < CANVAS * CANVAS * 4 reads canvas =>
      RawIndexBounds(j);
      Channel(canvas[(j / 4) % CANVAS, (j / 4) / CANVAS], j % 4))
  }

  lemma RawIndexBounds(j: int)
    requires 0 <= j < CANVAS * CANVAS * 4
    ensures (j / 4) / CANVAS < CANVAS
  {
  }

  /** The 512x512 buffer holds the packed canvas of `tiles`, pixel for pixel. */
  ghost predicate Shows(canvas: array2<Rgba>, tiles: seq<seq<byte>>)
    reads canvas
  {
    && canvas.Length0 == CANVAS && canvas.Length1 == CANVAS && AllTiles(tiles)
    && forall x, y :: 0 <= x < CANVAS && 0 <= y < CANVAS ==> canvas[x, y] == CompositePixel(tiles, x, y)
  }

  /** A buffer that shows the packed canvas pixel for pixel has the packed canvas's raw bytes. */
  lemma RawOfComposite(canvas: array2<Rgba>, tiles: seq<seq<byte>>)
    requires canvas.Length0 == CANVAS && canvas.Length1 == CANVAS && AllTiles(tiles)
    requires Shows(canvas, tiles)
    ensures RawBytes(canvas) == CompositeRaw(tiles)
  {
  }

  /** The raw canvas is the packed canvas written out row by row, four channels per pixel. */
  lemma RowMajor(tiles: seq<seq<byte>>, x: nat, y: nat, ch: nat)
    requires AllTiles(tiles) && x < CANVAS && y < CANVAS && ch < 4
    ensures (y * CANVAS + x) * 4 + ch < CANVAS * CANVAS * 4
    ensures CompositeRaw(tiles)[(y * CANVAS + x) * 4 + ch] == Channel(CompositePixel(tiles, x, y), ch)
  {
    var j := (y * CANVAS + x) * 4 + ch;
    assert j / 4 == y * CANVAS + x;
    assert j % 4 == ch;
    assert (j / 4) % CANVAS == x && (j / 4) / CANVAS == y;
  }

  /** Quadrants without a tile keep the buffer's zero bytes in every channel of the raw canvas. */
  lemma UnfilledTransparent(tiles: seq<seq<byte>>, x: nat, y: nat, ch: nat)
    requires AllTiles(tiles) && x < CANVAS && y < CANVAS && ch < 4 && Quadrant(x, y) >= |tiles|
    ensures (y * CANVAS + x) * 4 + ch < CANVAS * CANVAS * 4
    ensures CompositeRaw(tiles)[(y * CANVAS + x) * 4 + ch] == 0
  {
    RowMajor(tiles, x, y, ch);
  }

  // ---------------------------------------------------------------------------------------
  // convert_fx: which inputs become tiles

  /** The paths of the entries that are given, in order; `None` entries are skipped. */
  function Present(entries: seq<Option<string>>): (paths: seq<string>)
    ensures |paths| <= |entries|
    decreases |entries|
  {
    if entries == [] then []
    else
      var last := entries[|entries| - 1];
      Present(entries[..|entries| - 1]) + (if last.Some? then [last.value] else [])
  }

  /** No path is present exactly when every entry is `None`. */
  lemma {:induction false} PresentEmpty(entries: seq<Option<string>>)
    ensures Present(entries) == [] <==> forall i :: 0 <= i < |entries| ==> entries[i].None?
    decreases |entries|
  {
    if entries != [] {
      var init := entries[..|entries| - 1];
      PresentEmpty(init);
      assert forall i :: 0 <= i < |init| ==> init[i] == entries[i];
    }
  }

  /** `Present` of a concatenation is the concatenation of the `Present`s. */
  lemma {:induction false} PresentAppend(a: seq<Option<string>>, b: seq<Option<string>>)
    ensures Present(a + b) == Present(a) + Present(b)
    decreases |b|
  {
    if b != [] {
      assert (a + b)[..|a + b| - 1] == a + b[..|b| - 1];
      PresentAppend(a, b[..|b| - 1]);
    } else {
      assert a + b == a;
    }
  }

  /**
   * Decode and fit each path to a 256x256 tile, in order, stopping at the first failure
   * and reporting it.
   */
  function LoadTiles(c: Codec, paths: seq<string>): (r: Result<seq<seq<byte>>>)
    ensures r.Ok? ==> |r.value| == |paths|
    ensures r.Ok? && c.Valid() ==> AllTiles(r.value)
    decreases |paths|
  {
    if paths == [] then Ok([])
    else
      var prefix := paths[..|paths| - 1];
      match LoadTiles(c, prefix)
      case Err(e) => Err(e)
      case Ok(tiles) =>
        match c.open(paths[|paths| - 1])
        case Err(e) => Err(e)
        case Ok(img) => Ok(tiles + [Fit(c, img, TILE, TILE).rgba])
  }

  /**
   * Loading succeeds exactly when every path opens; tile `i` is then path `i` fitted to
   * 256x256, and a failure is the error of the first path that does not open.
   */
  lemma {:induction false} LoadTilesSpec(c: Codec, paths: seq<string>)
    ensures LoadTiles(c, paths).Ok? <==> forall i :: 0 <= i < |paths| ==> c.open(paths[i]).Ok?
    ensures LoadTiles(c, paths).Ok? ==>
      forall i :: 0 <= i < |paths| ==> LoadTiles(c, paths).value[i] == Fit(c, c.open(paths[i]).value, TILE, TILE).rgba
    ensures LoadTiles(c, paths).Err? ==> exists i ::
      && 0 <= i < |paths| && c.open(paths[i]).Err? && LoadTiles(c, paths).msg == c.open(paths[i]).msg
      && (forall j :: 0 <= j < i ==> c.open(paths[j]).Ok?)
    decreases |paths|
  {
    if paths != [] {
      var n := |paths| - 1;
      var prefix := paths[..n];
      LoadTilesSpec(c, prefix);
      assert forall i :: 0 <= i < n ==> prefix[i] == paths[i];
      if LoadTiles(c, prefix).Err? {
        var i :| && 0 <= i < n && c.open(prefix[i]).Err? && LoadTiles(c, prefix).msg == c.open(prefix[i]).msg
          && (forall j :: 0 <= j < i ==> c.open(prefix[j]).Ok?);
        assert c.open(paths[i]).Err?;
      } else if c.open(paths[n]).Err? {
        assert forall j :: 0 <= j < n ==> c.open(paths[j]).Ok?;
      }
    }
  }

  /** Loading one more path after a successful prefix: the new tile, or that path's error. */
  lemma LoadTilesSnoc(c: Codec, paths: seq<string>, p: string)
    requires LoadTiles(c, paths).Ok?
    ensures c.open(p).Err? ==> LoadTiles(c, paths + [p]) == Err(c.open(p).msg)
    ensures c.open(p).Ok? ==>
      LoadTiles(c, paths + [p]) == Ok(LoadTiles(c, paths).value + [Fit(c, c.open(p).value, TILE, TILE).rgba])
  {
    assert (paths + [p])[..|paths|] == paths;
  }

  /** Once a prefix of the paths fails, later paths are never decoded: the error stays. */
  lemma {:induction false} LoadTilesKeepsError(c: Codec, a: seq<string>, b: seq<string>)
    requires LoadTiles(c, a).Err?
    ensures LoadTiles(c, a + b) == LoadTiles(c, a)
    decreases |b|
  {
    if b != [] {
      assert (a + b)[..|a + b| - 1] == a + b[..|b| - 1];
      LoadTilesKeepsError(c, a, b[..|b| - 1]);
    } else {
      assert a + b == a;
    }
  }

  /** One more entry adds its path when it is given and nothing when it is `None`. */
  lemma PresentStep(entries: seq<Option<string>>, k: nat)
    requires k < |entries|
    ensures entries[k].None? ==> Present(entries[..k + 1]) == Present(entries[..k])
    ensures entries[k].Some? ==> Present(entries[..k + 1]) == Present(entries[..k]) + [entries[k].value]
  {
    assert entries[..k + 1][..k] == entries[..k];
  }

  /** An error while loading the tiles of a prefix of the entries is the error for all of them. */
  lemma FirstErrorStops(c: Codec, entries: seq<Option<string>>, k: nat)
    requires k <= |entries| && LoadTiles(c, Present(entries[..k])).Err?
    ensures LoadTiles(c, Present(entries)) == LoadTiles(c, Present(entries[..k]))
  {
    PresentAppend(entries[..k], entries[k..]);
    assert entries[..k] + entries[k..] == entries;
    LoadTilesKeepsError(c, Present(entries[..k]), Present(entries[k..]));
  }

  /** The first (at most) four entries, as `iter().take(4)` yields them. */
  function FirstFour(entries: seq<Option<string>>): (r: seq<Option<string>>)
    ensures |r| <= 4 && |r| <= |entries| && r == entries[..|r|]
    ensures |entries| >= 4 ==> |r| == 4
    ensures |entries| < 4 ==> r == entries
  {
    entries[..Min(|entries|, 4)]
  }

  /** What `convert_fx` returns: the tiles of the present inputs among the first four, packed and compressed as BC3. */
  function FxResult(c: Codec, inPaths: seq<Option<string>>): Result<Texture>
    requires c.Valid()
  {
    match LoadTiles(c, Present(FirstFour(inPaths)))
    case Err(e) => Err(e)
    case Ok(tiles) => c.compress(CANVAS, CANVAS, BC3, CompositeRaw(tiles))
  }

  /** `FxResult` once the tiles are known. */
  lemma FxResultOfTiles(c: Codec, inPaths: seq<Option<string>>, tiles: seq<seq<byte>>)
    requires c.Valid() && LoadTiles(c, Present(FirstFour(inPaths))) == Ok(tiles)
    ensures AllTiles(tiles) && FxResult(c, inPaths) == c.compress(CANVAS, CANVAS, BC3, CompositeRaw(tiles))
  {
  }

  /** At most four inputs become tiles, and only entries among the first four count. */
  lemma FxUsesAtMostFour(c: Codec, inPaths: seq<Option<string>>)
    requires c.Valid()
    ensures |Present(FirstFour(inPaths))| <= 4
    ensures FxResult(c, inPaths) == FxResult(c, FirstFour(inPaths))
  {
    assert FirstFour(FirstFour(inPaths)) == FirstFour(inPaths);
  }

  /**
   * The `k`-th present input (counting from 0, skipping `None` entries) is fitted to
   * 256x256 and occupies the square at offset `((k % 2) * 256, (k / 2) * 256)`.
   */
  lemma FxTilePlacement(c: Codec, inPaths: seq<Option<string>>, k: nat, x: nat, y: nat)
    requires c.Valid()
    requires LoadTiles(c, Present(FirstFour(inPaths))).Ok?
    requires k < |Present(FirstFour(inPaths))| && x < TILE && y < TILE
    ensures c.open(Present(FirstFour(inPaths))[k]).Ok?
    ensures var tiles := LoadTiles(c, Present(FirstFour(inPaths))).value;
      CompositePixel(tiles, (k % 2) * TILE + x, (k / 2) * TILE + y) ==
      TilePixel(Fit(c, c.open(Present(FirstFour(inPaths))[k]).value, TILE, TILE).rgba, x, y)
  {
    var tiles := LoadTiles(c, Present(FirstFour(inPaths))).value;
    LoadTilesSpec(c, Present(FirstFour(inPaths)));
    TilePlacement(tiles, k, x, y);
  }

  /**
   * `convert_fx`: open each present entry among the first four, fit it to 256x256, copy it
   * pixel by pixel into the next quadrant of a zeroed 512x512 buffer, stop after four tiles,
   * and compress the buffer as BC3.
   */
  method ConvertFx(c: Codec, inPaths: seq<Option<string>>) returns (r: Result<Texture>)
    requires c.Valid()
    ensures r == FxResult(c, inPaths)
  {
    var canvas := NewCanvas();
    var failure, tiles := PlaceTiles(c, canvas, inPaths);
    if failure.Some? {
      return Err(failure.value);
    }
    r := CompressCanvas(c, inPaths, canvas, tiles);
  }

  /**
   * After `k` of the first four entries: the tiles opened so far are `tiles`, and the canvas
   * shows them packed.
   */
  ghost predicate Placed(c: Codec, canvas: array2<Rgba>, inPaths: seq<Option<string>>, k: nat, tiles: seq<seq<byte>>)
    reads canvas
  {
    && k <= |FirstFour(inPaths)|
    && LoadTiles(c, Present(FirstFour(inPaths)[..k])) == Ok(tiles)
    && Shows(canvas, tiles)
  }

  /**
   * The loop of `convert_fx` over the first four entries: each present one is opened and
   * placed in the next quadrant; the loop stops at the first failure or after four tiles.
   */
  method PlaceTiles(c: Codec, canvas: array2<Rgba>, inPaths: seq<Option<string>>)
    returns (failure: Option<string>, ghost tiles: seq<seq<byte>>)
    requires c.Valid() && Shows(canvas, [])
    modifies canvas
    ensures failure.Some? ==> FxResult(c, inPaths) == Err(failure.value)
    ensures failure.None? ==> Placed(c, canvas, inPaths, |FirstFour(inPaths)|, tiles)
  {
    var count: nat := 0;
    tiles := [];
    var entries := FirstFour(inPaths);
    var k := 0;
    while k < |entries|
      invariant 0 <= k <= |entries|
      invariant count == |tiles| <= k
      invariant Placed(c, canvas, inPaths, k, tiles)
    {
      failure, tiles, count := PlaceEntry(c, canvas, inPaths, k, tiles, count);
      if failure.Some? {
        return;
      }
      k := k + 1;
      if count >= 4 {
        break;
      }
    }
    assert k == |entries|;
    failure := None;
  }

  /** `ImageBuffer::new(512, 512)`: every pixel zero, which is the packed canvas of no tiles. */
  method NewCanvas() returns (canvas: array2<Rgba>)
    ensures fresh(canvas) && Shows(canvas, [])
  {
    canvas := new Rgba[CANVAS, CANVAS]((x, y) => Transparent);
  }

  /** The end of `convert_fx`: the raw bytes of the finished canvas, compressed as BC3. */
  method CompressCanvas(c: Codec, inPaths: seq<Option<string>>, canvas: array2<Rgba>, ghost tiles: seq<seq<byte>>)
    returns (r: Result<Texture>)
    requires c.Valid() && Placed(c, canvas, inPaths, |FirstFour(inPaths)|, tiles)
    ensures r == FxResult(c, inPaths)
  {
    var entries := FirstFour(inPaths);
    assert entries[..|entries|] == entries;
    var pixelData := RawBytes(canvas);
    RawOfComposite(canvas, tiles);
    FxResultOfTiles(c, inPaths, tiles);
    r := c.compress(CANVAS, CANVAS, BC3, pixelData);
  }

  /**
   * One round of `convert_fx`'s loop: a `None` entry is skipped; a given one is opened
   * (its error ends the conversion), fitted to 256x256 and copied into the next quadrant.
   */
  method PlaceEntry(c: Codec, canvas: array2<Rgba>, inPaths: seq<Option<string>>, k: nat,
                    ghost tiles: seq<seq<byte>>, count: nat)
    returns (failure: Option<string>, ghost tiles': seq<seq<byte>>, count': nat)
    requires c.Valid() && k < |FirstFour(inPaths)| && count == |tiles| < 4
    requires Placed(c, canvas, inPaths, k, tiles)
    modifies canvas
    ensures failure.Some? ==> FxResult(c, inPaths) == Err(failure.value)
    ensures failure.None? ==> Placed(c, canvas, inPaths, k + 1, tiles') && count' == |tiles'| <= count + 1
  {
    var entries := FirstFour(inPaths);
    PresentStep(entries, k);
    if entries[k].None? {
      return None, tiles, count;
    }
    var inputPath := entries[k].value;
    LoadTilesSnoc(c, Present(entries[..k]), inputPath);
    var decoded := c.open(inputPath);
    if decoded.Err? {
      FirstErrorStops(c, entries, k + 1);
      return Some(decoded.msg), tiles, count;
    }
    var img := Fit(c, decoded.value, TILE, TILE);
    CopyTile(canvas, tiles, img.rgba, count);
    failure, tiles', count' := None, tiles + [img.rgba], count + 1;
  }

  /**
   * Part way through copying the tile `pixels` into quadrant `|tiles|`: the canvas pixels of
   * that quadrant before (`row`, `col`) in row-major order already show the new tile, and
   * every other pixel still shows the packed canvas of `tiles`.
   */
  ghost predicate FilledTo(canvas: array2<Rgba>, tiles: seq<seq<byte>>, pixels: seq<byte>, row: nat, col: nat)
    requires canvas.Length0 == CANVAS && canvas.Length1 == CANVAS
    requires AllTiles(tiles) && AllTiles(tiles + [pixels])
    reads canvas
  {
    forall xx, yy :: 0 <= xx < CANVAS && 0 <= yy < CANVAS ==>
      canvas[xx, yy] ==
        if Quadrant(xx, yy) == |tiles| && (yy < row || (yy == row && xx < col)) then CompositePixel(tiles + [pixels], xx, yy)
        else CompositePixel(tiles, xx, yy)
  }

  /**
   * The body of `convert_fx`'s loop for one more tile: copy it pixel by pixel, through
   * `put_pixel`, into quadrant `|tiles|` of the canvas.
   */
  method CopyTile(canvas: array2<Rgba>, ghost tiles: seq<seq<byte>>, pixels: seq<byte>, count: nat)
    requires canvas.Length0 == CANVAS && canvas.Length1 == CANVAS
    requires AllTiles(tiles) && count == |tiles| < 4 && IsTile(pixels)
    requires forall x, y :: 0 <= x < CANVAS && 0 <= y < CANVAS ==> canvas[x, y] == CompositePixel(tiles, x, y)
    modifies canvas
    ensures AllTiles(tiles + [pixels])
    ensures forall x, y :: 0 <= x < CANVAS && 0 <= y < CANVAS ==> canvas[x, y] == CompositePixel(tiles + [pixels], x, y)
  {
    ghost var next := tiles + [pixels];
    assert forall t :: 0 <= t < |next| ==> IsTile(next[t]);
    var i := count;
    var offsetX := (i % 2) * TILE;
    var offsetY := (i / 2) * TILE;
    forall xx, yy | 0 <= xx < CANVAS && 0 <= yy < CANVAS && Quadrant(xx, yy) == i
      ensures offsetY <= yy
    {
      QuadrantRegion(i, xx, yy);
    }
    for y := 0 to TILE
      invariant FilledTo(canvas, tiles, pixels, offsetY + y, 0)
    {
      CopyRow(canvas, tiles, pixels, count, y);
    }
    forall xx, yy | 0 <= xx < CANVAS && 0 <= yy < CANVAS
      ensures canvas[xx, yy] == CompositePixel(next, xx, yy)
    {
      QuadrantRegion(i, xx, yy);
      if Quadrant(xx, yy) != i {
        CompositeExtend(tiles, pixels, xx, yy);
      }
    }
  }

  /** Row `y` of the tile, copied into its row of quadrant `|tiles|`. */
  method CopyRow(canvas: array2<Rgba>, ghost tiles: seq<seq<byte>>, pixels: seq<byte>, count: nat, y: nat)
    requires canvas.Length0 == CANVAS && canvas.Length1 == CANVAS
    requires AllTiles(tiles) && AllTiles(tiles + [pixels]) && count == |tiles| < 4 && IsTile(pixels) && y < TILE
    requires FilledTo(canvas, tiles, pixels, (count / 2) * TILE + y, 0)
    modifies canvas
    ensures FilledTo(canvas, tiles, pixels, (count / 2) * TILE + y + 1, 0)
  {
    ghost var next := tiles + [pixels];
    var i := count;
    var offsetX := (i % 2) * TILE;
    var outY := (i / 2) * TILE + y;
    for x := 0 to TILE
      invariant FilledTo(canvas, tiles, pixels, outY, offsetX + x)
    {
      var outX := offsetX + x;
      var inIdx := (y * TILE + x) * 4;
      var pixel := Rgba(pixels[inIdx], pixels[inIdx + 1], pixels[inIdx + 2], pixels[inIdx + 3]);
      TilePlacement(next, i, x, y);
      QuadrantRegion(i, outX, outY);
      label Before:
      canvas[outX, outY] := pixel;
      forall xx, yy | 0 <= xx < CANVAS && 0 <= yy < CANVAS
        ensures canvas[xx, yy] ==
          if Quadrant(xx, yy) == i && (yy < outY || (yy == outY && xx < outX + 1)) then CompositePixel(next, xx, yy)
          else CompositePixel(tiles, xx, yy)
      {
        if xx != outX || yy != outY {
          assert canvas[xx, yy] == old@Before(canvas[xx, yy]);
        }
      }
    }
    forall xx, yy | 0 <= xx < CANVAS && 0 <= yy < CANVAS && Quadrant(xx, yy) == i
      ensures offsetX <= xx < offsetX + TILE
    {
      QuadrantRegion(i, xx, yy);
    }
  }

  // ---------------------------------------------------------------------------------------
  // extract_afb

  const NoDdsChunks := "No .dds chunks found in the file"

  /** The base name of the chunk files: the input's file stem, or "chunk" when it has none. */
  function BaseName(inPath: string): (base: string)
    ensures base != ""
    ensures FileName(inPath).Some? ==> base == Stem(FileName(inPath).value)
    ensures FileName(inPath).None? ==> base == "chunk"
  {
    FileStem(inPath).GetOr("chunk")
  }

  /**
   * `extract_afb`: read the container, refuse it when the locator finds no DDS chunk, and
   * otherwise write the chunks to `outDir` as `<stem>_0001.dds`, `<stem>_0002.dds`, ...
   */
  method ExtractAfb(source: FileSystem, inPath: string, outDir: FileSystem) returns (r: Result<()>)
    modifies outDir
    ensures inPath !in old(source.files) ==> r == Err(NotFound(inPath)) && outDir.files == old(outDir.files)
    ensures inPath in old(source.files) && ChunksFrom(old(source.files[inPath]), DDS_HEADER, DDS_STOP_SIGN, 0) == [] ==>
      r == Err(NoDdsChunks) && outDir.files == old(outDir.files)
    ensures inPath in old(source.files) && ChunksFrom(old(source.files[inPath]), DDS_HEADER, DDS_STOP_SIGN, 0) != [] ==>
      var data := old(source.files[inPath]);
      var chunks := ChunksFrom(data, DDS_HEADER, DDS_STOP_SIGN, 0);
      var k := FirstRefused(outDir.refused, BaseName(inPath), ".dds", |chunks|, 0);
      && InBounds(|data|, chunks)
      && outDir.files == Written(old(outDir.files), data, BaseName(inPath), ".dds", chunks, k)
      && (r.Ok? <==> k == |chunks|)
      && (r.Err? ==> r.msg == CannotCreate(ChunkFileName(BaseName(inPath), k, ".dds")))
  {
    var read := source.ReadFile(inPath);
    if read.Err? {
      return Err(read.msg);
    }
    var data := read.value;
    var chunks := LocateDdsChunks(data);
    if chunks == [] {
      return Err(NoDdsChunks);
    }
    var baseName := BaseName(inPath);
    r := ExtractChunks(data, outDir, baseName, ".dds", chunks);
  }

  /**
   * A container `<dir>/<stem>.<ext>` unpacks to `<stem>_0001.dds`, `<stem>_0002.dds`, ...
   * (the sample `test_assets/test.afb` to `test_0001.dds` and `test_0002.dds`).
   */
  lemma ChunkNamesOfContainer(dir: string, stem: string, ext: string)
    requires stem != "" && NoSeparator(stem) && ext != "" && NoSeparator(ext)
    requires forall j :: 0 <= j < |ext| ==> ext[j] != '.'
    ensures BaseName(dir + "/" + stem + "." + ext) == stem
    ensures ChunkFileName(stem, 0, ".dds") == stem + "_" + "0001" + ".dds"
    ensures ChunkFileName(stem, 1, ".dds") == stem + "_" + "0002" + ".dds"
  {
    ContainerStem(dir, stem, ext);
    Decimal.FirstTwoPadded();
  }

  lemma ContainerStem(dir: string, stem: string, ext: string)
    requires stem != "" && NoSeparator(stem) && ext != "" && NoSeparator(ext)
    requires forall j :: 0 <= j < |ext| ==> ext[j] != '.'
    ensures BaseName(dir + "/" + stem + "." + ext) == stem
  {
    var name := stem + "." + ext;
    assert NoSeparator(name) by {
      forall i | 0 <= i < |name|
        ensures !IsSeparator(name[i])
      {
        if i > |stem| {
          assert name[i] == ext[i - |stem| - 1];
        }
      }
    }
    assert |name| > 2;
    assert dir + "/" + stem + "." + ext == dir + ['/'] + name;
    FileNameOfJoin(dir, '/', name);
    StemOfExtension(stem, ext);
  }

  // ---------------------------------------------------------------------------------------
  // convert_stage

  /**
   * The embedded stage assets: the template stage container with the two chunk ranges that
   * are replaced, the stand-in effects texture and the fixed second container.
   */
  datatype Assets = Assets(stDummy: seq<byte>, stChunks: seq<Chunk>, fxDummy: seq<byte>, nfDummy: seq<byte>)
  {
    /** The chunk list is ascending and inside the template, with a slot for each of the two replacements. */
    predicate Valid() {
      WellFormed(|stDummy|, stChunks) && |stChunks| <= 2
    }
  }

  /** Some entry of the effects list is given (`iter().any(Option::is_some)`). */
  predicate AnyPresent(entries: seq<Option<string>>) {
    exists i :: 0 <= i < |entries| && entries[i].Some?
  }

  /**
   * The replacement list `convert_stage` splices into the template: the background DDS,
   * then the effects DDS when some effect is given and the stand-in otherwise; the first
   * conversion or serialisation error instead.
   */
  function StageReplacements(c: Codec, assets: Assets, bgPath: string, fxPaths: seq<Option<string>>): (r: Result<seq<Replacement>>)
    requires c.Valid()
    ensures ConvertBg(c, bgPath).Err? ==> r == Err(ConvertBg(c, bgPath).msg)
    ensures ConvertBg(c, bgPath).Ok? && SaveDdsBlob(c, ConvertBg(c, bgPath).value).Err? ==>
      r == Err(SaveDdsBlob(c, ConvertBg(c, bgPath).value).msg)
    ensures AnyPresent(fxPaths) && FxResult(c, fxPaths).Err? ==> r.Err?
    ensures r.Ok? ==>
      && |r.value| == 2 && r.value[0].Some? && r.value[1].Some?
      && ConvertBg(c, bgPath).Ok? && r.value[0].value == SaveDdsBlob(c, ConvertBg(c, bgPath).value).value
    ensures r.Ok? && !AnyPresent(fxPaths) ==> r.value[1].value == assets.fxDummy
    ensures r.Ok? && AnyPresent(fxPaths) ==>
      && FxResult(c, fxPaths).Ok? && SaveDdsBlob(c, FxResult(c, fxPaths).value).Ok?
      && r.value[1].value == SaveDdsBlob(c, FxResult(c, fxPaths).value).value
    ensures ConvertBg(c, bgPath).Ok? && SaveDdsBlob(c, ConvertBg(c, bgPath).value).Ok? ==>
      var bgBlob := SaveDdsBlob(c, ConvertBg(c, bgPath).value).value;
      && (!AnyPresent(fxPaths) ==> r == Ok([Some(bgBlob), Some(assets.fxDummy)]))
      && (AnyPresent(fxPaths) && FxResult(c, fxPaths).Err? ==> r == Err(FxResult(c, fxPaths).msg))
      && (AnyPresent(fxPaths) && FxResult(c, fxPaths).Ok? && SaveDdsBlob(c, FxResult(c, fxPaths).value).Err? ==>
            r == Err(SaveDdsBlob(c, FxResult(c, fxPaths).value).msg))
      && (AnyPresent(fxPaths) && FxResult(c, fxPaths).Ok? && SaveDdsBlob(c, FxResult(c, fxPaths).value).Ok? ==>
            r == Ok([Some(bgBlob), Some(SaveDdsBlob(c, FxResult(c, fxPaths).value).value)]))
  {
    match ConvertBg(c, bgPath)
    case Err(e) => Err(e)
    case Ok(bg) =>
      match SaveDdsBlob(c, bg)
      case Err(e) => Err(e)
      case Ok(bgBlob) =>
        if AnyPresent(fxPaths) then
          match FxResult(c, fxPaths)
          case Err(e) => Err(e)
          case Ok(fx) =>
            match SaveDdsBlob(c, fx)
            case Err(e) => Err(e)
            case Ok(fxBlob) => Ok([Some(bgBlob), Some(fxBlob)])
        else Ok([Some(bgBlob), Some(assets.fxDummy)])
  }

  /** The template with its chunks replaced by `repl`. */
  function SplicedStage(assets: Assets, repl: seq<Replacement>): seq<byte>
    requires assets.Valid() && |repl| == 2
  {
    FitsSliceable(|assets.stDummy|, assets.stChunks, repl, 0);
    Splice(assets.stDummy, assets.stChunks, repl, 0)
  }

  /**
   * `convert_stage`: build the replacements, splice them into the template at `stOut`, and
   * only then write the fixed second container to `nfOut`. A conversion error leaves the
   * file system untouched; a failure to create `nfOut` leaves the spliced `stOut` in place.
   */
  method ConvertStage(c: Codec, assets: Assets, fs: FileSystem, bgPath: string, fxPaths: seq<Option<string>>,
                      stOut: string, nfOut: string)
    returns (r: Result<()>)
    requires c.Valid() && assets.Valid()
    modifies fs
    ensures StageReplacements(c, assets, bgPath, fxPaths).Err? ==>
      r == Err(StageReplacements(c, assets, bgPath, fxPaths).msg) && fs.files == old(fs.files)
    ensures StageReplacements(c, assets, bgPath, fxPaths).Ok? && stOut in fs.refused ==>
      r == Err(CannotCreate(stOut)) && fs.files == old(fs.files)
    ensures StageReplacements(c, assets, bgPath, fxPaths).Ok? && stOut !in fs.refused && nfOut in fs.refused ==>
      && r == Err(CannotCreate(nfOut))
      && fs.files == old(fs.files)[stOut := SplicedStage(assets, StageReplacements(c, assets, bgPath, fxPaths).value)]
    ensures StageReplacements(c, assets, bgPath, fxPaths).Ok? && stOut !in fs.refused && nfOut !in fs.refused ==>
      && r == Ok(())
      && fs.files == old(fs.files)[stOut := SplicedStage(assets, StageReplacements(c, assets, bgPath, fxPaths).value)][nfOut := assets.nfDummy]
  {
    var bgTexture := ConvertBg(c, bgPath);
    if bgTexture.Err? {
      return Err(bgTexture.msg);
    }
    var bgDds := SaveDdsBlob(c, bgTexture.value);
    if bgDds.Err? {
      return Err(bgDds.msg);
    }
    var fxBuffer: seq<byte>;
    if AnyPresent(fxPaths) {
      var fxTexture := ConvertFx(c, fxPaths);
      if fxTexture.Err? {
        return Err(fxTexture.msg);
      }
      var fxDds := SaveDdsBlob(c, fxTexture.value);
      if fxDds.Err? {
        return Err(fxDds.msg);
      }
      fxBuffer := fxDds.value;
    } else {
      fxBuffer := assets.fxDummy;
    }
    var replacements := [Some(bgDds.value), Some(fxBuffer)];
    assert StageReplacements(c, assets, bgPath, fxPaths) == Ok(replacements);
    FitsSliceable(|assets.stDummy|, assets.stChunks, replacements, 0);
    var spliced := ReplaceChunks(assets.stDummy, fs, stOut, assets.stChunks, replacements);
    if spliced.Err? {
      return Err(spliced.msg);
    }
    var nf := fs.Write(nfOut, assets.nfDummy);
    if nf.Err? {
      return Err(nf.msg);
    }
    return Ok(());
  }

  /**
   * `any(Option::is_some)` looks at the whole list, while only the first four entries can
   * become tiles. Among those four, a given entry is exactly one that becomes a tile, so any
   * tile implies `any`; the converse fails for an entry given only past the fourth (see
   * `AnyPresentWithoutTile` and `EffectsBeyondFourGiveBlankCanvas`).
   */
  lemma AnyPresentIffSomePath(entries: seq<Option<string>>)
    ensures AnyPresent(entries) <==> Present(entries) != []
    ensures AnyPresent(FirstFour(entries)) <==> Present(FirstFour(entries)) != []
    ensures Present(FirstFour(entries)) != [] ==> AnyPresent(entries)
  {
    PresentEmpty(entries);
    var four := FirstFour(entries);
    PresentEmpty(four);
    if Present(four) != [] {
      var i :| 0 <= i < |four| && four[i].Some?;
      assert entries[i] == four[i];
    }
  }

  /** Four `None` entries followed by a given one: `any` holds, yet no input becomes a tile. */
  lemma AnyPresentWithoutTile(p: string)
    ensures var entries := [None, None, None, None, Some(p)];
      AnyPresent(entries) && Present(FirstFour(entries)) == []
  {
    var entries: seq<Option<string>> := [None, None, None, None, Some(p)];
    assert entries[4].Some?;
    var four := FirstFour(entries);
    assert four == [None, None, None, None];
    PresentEmpty(four);
  }

  /**
   * With the template's two chunks, the stage container is the template with the first
   * chunk replaced by the background and the second by the effects payload.
   */
  lemma {:induction false} StageLayout(assets: Assets, bg: seq<byte>, fx: seq<byte>)
    requires assets.Valid() && |assets.stChunks| == 2
    ensures var st, c0, c1 := assets.stDummy, assets.stChunks[0], assets.stChunks[1];
      SplicedStage(assets, [Some(bg), Some(fx)]) ==
        st[..c0.start] + bg + st[c0.end..c1.start] + fx + st[c1.end..]
  {
    var st, cs := assets.stDummy, assets.stChunks;
    var repl: seq<Replacement> := [Some(bg), Some(fx)];
    FitsSliceable(|st|, cs, repl, 0);
    assert |cs[1..][1..]| == 0 && |repl[1..][1..]| == 0;
    assert cs[1..][0] == cs[1] && repl[1..][0] == Some(fx);
    assert Splice(st, cs[1..][1..], repl[1..][1..], cs[1].end) == st[cs[1].end..];
    assert Splice(st, cs[1..], repl[1..], cs[0].end) == st[cs[0].end..cs[1].start] + fx + st[cs[1].end..];
    assert st[0..cs[0].start] == st[..cs[0].start];
  }

  /**
   * Effects given only beyond the fourth entry are never opened, yet they still select the
   * converted canvas over the stand-in: the effects slot is then a fully transparent canvas.
   */
  lemma EffectsBeyondFourGiveBlankCanvas(c: Codec, assets: Assets, bgPath: string, fxPaths: seq<Option<string>>)
    requires c.Valid() && AnyPresent(fxPaths)
    requires forall i :: 0 <= i < |fxPaths| && i < 4 ==> fxPaths[i].None?
    ensures FxResult(c, fxPaths) == c.compress(CANVAS, CANVAS, BC3, CompositeRaw([]))
    ensures forall j :: 0 <= j < |CompositeRaw([])| ==> CompositeRaw([])[j] == 0
    ensures StageReplacements(c, assets, bgPath, fxPaths).Ok? ==>
      StageReplacements(c, assets, bgPath, fxPaths).value[1].value ==
        SaveDdsBlob(c, c.compress(CANVAS, CANVAS, BC3, CompositeRaw([])).value).value
  {
    var entries := FirstFour(fxPaths);
    PresentEmpty(entries);
    forall j | 0 <= j < |CompositeRaw([])|
      ensures CompositeRaw([])[j] == 0
    {
      RawIndexBounds(j);
    }
  }
}
