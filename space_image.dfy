/** The Space Image Format: an image is a run of pixel digits cut into layers of 25 by 6
    pixels. Its checksum comes from the layer with the fewest '0' pixels, and it is rendered
    by stacking the layers, '2' being transparent. */
module SpaceImage {
  import opened Outcomes

  const Width := 25
  const Height := 6
  /** Pixels per layer. */
  const LayerSize := Width * Height

  /** The layers laid end to end. */
  function Concat(layers: seq<seq<char>>): (img: seq<char>)
  {
    if layers == [] then [] else layers[0] + Concat(layers[1..])
  }

  /** `img.chunks(25 * 6)`: consecutive layers of `LayerSize` pixels, the last one shorter
      when the image does not fill it. */
  function Layers(img: seq<char>): (layers: seq<seq<char>>)
    ensures Concat(layers) == img
    ensures forall k :: 0 <= k < |layers| ==> 0 < |layers[k]| <= LayerSize
    ensures forall k :: 0 <= k < |layers| - 1 ==> |layers[k]| == LayerSize
    decreases |img|
  {
    if img == [] then []
    else if |img| <= LayerSize then [img]
    else
      var rest := Layers(img[LayerSize..]);
      assert img == img[..LayerSize] + img[LayerSize..];
      [img[..LayerSize]] + rest
  }

  /** An image that fills its last layer is cut into whole layers only. */
  lemma {:induction false} WholeLayers(img: seq<char>)
    requires |img| % LayerSize == 0
    ensures forall k :: 0 <= k < |Layers(img)| ==> |Layers(img)[k]| == LayerSize
    decreases |img|
  {
    if |img| > LayerSize {
      WholeLayers(img[LayerSize..]);
    }
  }

  /** Layers as `chunks` produces them: none empty, every one but the last full. */
  ghost predicate Chunked(layers: seq<seq<char>>)
  {
    (forall k :: 0 <= k < |layers| ==> 0 < |layers[k]| <= LayerSize)
    && forall k :: 0 <= k < |layers| - 1 ==> |layers[k]| == LayerSize
  }

  /** Cutting the concatenation of chunked layers gives the layers back. */
  lemma {:induction false} LayersOfConcat(layers: seq<seq<char>>)
    requires Chunked(layers)
    ensures Layers(Concat(layers)) == layers
  {
    if layers != [] {
      var img := Concat(layers);
      if |layers| == 1 {
        assert Concat(layers[1..]) == [];
        assert img == layers[0];
      } else {
        var rest := layers[1..];
        assert Chunked(rest);
        assert rest[0] == layers[1];
        ConcatNonEmpty(rest);
        assert img[..LayerSize] == layers[0] && img[LayerSize..] == Concat(rest);
        LayersOfConcat(rest);
      }
    }
  }

  /** Layers that are not all empty lay out to a nonempty image. */
  lemma ConcatNonEmpty(layers: seq<seq<char>>)
    requires layers != [] && layers[0] != []
    ensures Concat(layers) != []
  {
    assert Concat(layers)[0] == layers[0][0];
  }

  /** How many pixels of `layer` have colour `c`. */
  function Count(layer: seq<char>, c: char): (n: nat)
    ensures n <= |layer|
  {
    if layer == [] then 0 else Count(layer[1..], c) + if layer[0] == c then 1 else 0
  }

  /** The number of '1' pixels times the number of '2' pixels. */
  function Score(layer: seq<char>): nat
  {
    Count(layer, '1') * Count(layer, '2')
  }

  /** Layer `k` has the fewest '0' pixels, and every earlier layer has strictly more. */
  ghost predicate FirstFewest(layers: seq<seq<char>>, k: nat)
  {
    k < |layers|
    && (forall j :: 0 <= j < |layers| ==> Count(layers[k], '0') <= Count(layers[j], '0'))
    && forall j :: 0 <= j < k ==> Count(layers[k], '0') < Count(layers[j], '0')
  }

  /** `min_by_key` on the '0' counts: a left fold that replaces the best layer so far only
      by one with strictly fewer zeros, so the first of equal minima wins. */
  function FewestZeros(layers: seq<seq<char>>): (k: nat)
    requires layers != []
    ensures FirstFewest(layers, k)
  {
    if |layers| == 1 then 0
    else
      var init := layers[..|layers| - 1];
      var best := FewestZeros(init);
      assert forall j :: 0 <= j < |init| ==> init[j] == layers[j];
      if Count(layers[|layers| - 1], '0') < Count(layers[best], '0') then |layers| - 1 else best
  }

  /** Only one layer is the first with the fewest zeros. */
  lemma FirstFewestUnique(layers: seq<seq<char>>, k: nat, k': nat)
    requires FirstFewest(layers, k) && FirstFewest(layers, k')
    ensures k == k'
  {
    var zeros, zeros' := Count(layers[k], '0'), Count(layers[k'], '0');
    assert zeros == zeros';
  }

  /** The checksum of the image: the score of the first layer with the fewest '0' pixels.
      An empty image has no layers and no checksum, where the source unwraps `None`. */
  function Checksum(img: seq<char>): (r: Option<nat>)
    ensures r.None? <==> img == []
    ensures r.Some? ==> exists k: nat :: FirstFewest(Layers(img), k) && r.value == Score(Layers(img)[k])
  {
    var layers := Layers(img);
    if layers == [] then None
    else
      var k := FewestZeros(layers);
      Some(Score(layers[k]))
  }

  /** The colour a pixel is rendered in: the colour of the first layer not transparent ('2')
      there, or '2' when every layer is. `None` when a layer is too short to hold the pixel
      and every layer above it is transparent there, where the source indexes past the end
      of that layer. */
  function Pixel(layers: seq<seq<char>>, i: nat): (r: Option<char>)
  {
    if layers == [] then Some('2')
    else if i >= |layers[0]| then None
    else if layers[0][i] != '2' then Some(layers[0][i])
    else Pixel(layers[1..], i)
  }

  /** The first layer that is not transparent at a pixel decides its colour. */
  lemma {:induction false} PixelFirstOpaque(layers: seq<seq<char>>, i: nat, k: nat)
    requires k < |layers| && i < |layers[k]| && layers[k][i] != '2'
    requires forall j :: 0 <= j < k ==> i < |layers[j]| && layers[j][i] == '2'
    ensures Pixel(layers, i) == Some(layers[k][i])
  {
    if k > 0 {
      PixelFirstOpaque(layers[1..], i, k - 1);
    }
  }

  /** A pixel transparent in every layer stays '2'. */
  lemma {:induction false} PixelTransparent(layers: seq<seq<char>>, i: nat)
    requires forall j :: 0 <= j < |layers| ==> i < |layers[j]| && layers[j][i] == '2'
    ensures Pixel(layers, i) == Some('2')
  {
    if layers != [] {
      PixelTransparent(layers[1..], i);
    }
  }

  /** A rendered pixel has the colour of some layer there. */
  lemma {:induction false} PixelFromLayer(layers: seq<seq<char>>, i: nat)
    requires Pixel(layers, i).Some? && Pixel(layers, i) != Some('2')
    ensures exists k :: 0 <= k < |layers| && i < |layers[k]| && layers[k][i] == Pixel(layers, i).value
  {
    if layers[0][i] == '2' {
      PixelFromLayer(layers[1..], i);
      var k :| 0 <= k < |layers[1..]| && i < |layers[1..][k]| && layers[1..][k][i] == Pixel(layers, i).value;
      assert layers[k + 1] == layers[1..][k];
    }
  }

  /** Adding a layer underneath: only a pixel still transparent takes the new layer's
      colour. */
  lemma {:induction false} PixelBelow(layers: seq<seq<char>>, layer: seq<char>, i: nat)
    ensures Pixel(layers + [layer], i) ==
      if Pixel(layers, i) == Some('2') then (if i < |layer| then Some(layer[i]) else None)
      else Pixel(layers, i)
  {
    if layers == [] {
      assert [] + [layer] == [layer];
      assert [layer][1..] == [];
    } else {
      assert (layers + [layer])[1..] == layers[1..] + [layer];
      PixelBelow(layers[1..], layer, i);
    }
  }

  /** Once a pixel is opaque, or the rendering has failed there, the layers underneath
      change nothing. */
  lemma {:induction false} PixelSettled(layers: seq<seq<char>>, below: seq<seq<char>>, i: nat)
    requires Pixel(layers, i) != Some('2')
    ensures Pixel(layers + below, i) == Pixel(layers, i)
  {
    if layers != [] {
      assert (layers + below)[1..] == layers[1..] + below;
      if i < |layers[0]| && layers[0][i] == '2' {
        PixelSettled(layers[1..], below, i);
      }
    }
  }

  /** An image of whole layers renders every pixel. */
  lemma {:induction false} PixelWholeLayers(layers: seq<seq<char>>, i: nat)
    requires i < LayerSize && forall k :: 0 <= k < |layers| ==> |layers[k]| == LayerSize
    ensures Pixel(layers, i).Some?
  {
    if layers != [] {
      PixelWholeLayers(layers[1..], i);
    }
  }

  /** An image that fills its last layer renders every pixel. */
  lemma RenderWhole(img: seq<char>, i: nat)
    requires |img| % LayerSize == 0 && i < LayerSize
    ensures Pixel(Layers(img), i).Some?
  {
    WholeLayers(img);
    PixelWholeLayers(Layers(img), i);
  }

  /** The compositing loop of `main`: starting from an all-transparent picture, each layer in
      turn fills the pixels still transparent. `None` where the source would index past the
      end of a short last layer. */
  method Render(img: seq<char>) returns (r: Option<seq<char>>)
    ensures r.None? <==> exists i :: 0 <= i < LayerSize && Pixel(Layers(img), i).None?
    ensures r.Some? ==> |r.value| == LayerSize && forall i :: 0 <= i < LayerSize ==> Pixel(Layers(img), i) == Some(r.value[i])
  {
    var layers := Layers(img);
    var rendered := new char[LayerSize](_ => '2');
    for k := 0 to |layers|
      invariant forall i :: 0 <= i < LayerSize ==> Pixel(layers[..k], i) == Some(rendered[i])
    {
      var layer := layers[k];
      assert layers[..k + 1] == layers[..k] + [layer];
      for i := 0 to LayerSize
        invariant forall q :: 0 <= q < i ==> Pixel(layers[..k + 1], q) == Some(rendered[q])
        invariant forall q :: i <= q < LayerSize ==> Pixel(layers[..k], q) == Some(rendered[q])
      {
        PixelBelow(layers[..k], layer, i);
        if rendered[i] == '2' {
          if i >= |layer| {
            assert Pixel(layers[..k + 1], i) == None;
            PixelSettled(layers[..k + 1], layers[k + 1..], i);
            assert layers[..k + 1] + layers[k + 1..] == layers;
            assert Pixel(Layers(img), i).None?;
            assert exists j :: 0 <= j < LayerSize && Pixel(Layers(img), j).None?;
            return None;
          }
          rendered[i] := layer[i];
        }
      }
    }
    assert layers[..|layers|] == layers;
    return Some(rendered[..]);
  }
}
