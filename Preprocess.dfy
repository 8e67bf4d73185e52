/** bitmapToByteBuffer: the camera frame, already scaled to InputSize x
    InputSize ARGB pixels, packed into the inference engine's input buffer as
    three bytes (red, green, blue) per pixel. */
module Preprocess {
  import opened Detections

  /** Bits 16..23 of an ARGB pixel. Java shifts arithmetically, but the mask
      keeps only bits below the sign, so a logical shift gives the same byte. */
  function Red(pixel: bv32): bv8 { ((pixel >> 16) & 0xFF) as bv8 }

  function Green(pixel: bv32): bv8 { ((pixel >> 8) & 0xFF) as bv8 }

  function Blue(pixel: bv32): bv8 { (pixel & 0xFF) as bv8 }

  /** The bytes written for `pixels`, in order: red, green, blue for each pixel. */
  function PackRgb(pixels: seq<bv32>): (bytes: seq<bv8>)
    ensures |bytes| == 3 * |pixels|
  {
    if pixels == [] then []
    else
      var last := pixels[|pixels| - 1];
      PackRgb(pixels[..|pixels| - 1]) + [Red(last), Green(last), Blue(last)]
  }

  /** Byte 3k, 3k+1 and 3k+2 of the buffer are the red, green and blue of pixel k. */
  lemma {:induction false} PackRgbAt(pixels: seq<bv32>, k: int)
    requires 0 <= k < |pixels|
    ensures PackRgb(pixels)[3 * k] == Red(pixels[k])
    ensures PackRgb(pixels)[3 * k + 1] == Green(pixels[k])
    ensures PackRgb(pixels)[3 * k + 2] == Blue(pixels[k])
    decreases |pixels|
  {
    var init := pixels[..|pixels| - 1];
    if k < |pixels| - 1 {
      PackRgbAt(init, k);
      assert init[k] == pixels[k];
    }
  }

  /** The three channels put back in place give the pixel without its alpha byte. */
  lemma Recombine(p: bv32)
    ensures ((Red(p) as bv32) << 16) | ((Green(p) as bv32) << 8) | (Blue(p) as bv32) == p & 0x00FF_FFFF
  {
  }

  /** Clearing the alpha byte changes no channel. */
  lemma ChannelsIgnoreAlpha(p: bv32)
    ensures Red(p) == Red(p & 0x00FF_FFFF) && Green(p) == Green(p & 0x00FF_FFFF) && Blue(p) == Blue(p & 0x00FF_FFFF)
  {
  }

  /** Equal channels mean equal colour. */
  lemma SameChannelsSameColour(p: bv32, q: bv32)
    requires Red(p) == Red(q) && Green(p) == Green(q) && Blue(p) == Blue(q)
    ensures p & 0x00FF_FFFF == q & 0x00FF_FFFF
  {
    Recombine(p);
    Recombine(q);
  }

  /** Equal colour means equal channels. */
  lemma SameColourSameChannels(p: bv32, q: bv32)
    requires p & 0x00FF_FFFF == q & 0x00FF_FFFF
    ensures Red(p) == Red(q) && Green(p) == Green(q) && Blue(p) == Blue(q)
  {
    ChannelsIgnoreAlpha(p);
    ChannelsIgnoreAlpha(q);
  }

  /** The pixel that three bytes from position 3k describe, alpha cleared. */
  function Unpack(bytes: seq<bv8>, k: int): bv32
    requires 0 <= k && 3 * k + 2 < |bytes|
  {
    ((bytes[3 * k] as bv32) << 16) | ((bytes[3 * k + 1] as bv32) << 8) | (bytes[3 * k + 2] as bv32)
  }

  /** Packing keeps the colour and drops only the alpha byte. */
  lemma UnpackPackRgb(pixels: seq<bv32>, k: int)
    requires 0 <= k < |pixels|
    ensures Unpack(PackRgb(pixels), k) == pixels[k] & 0x00FF_FFFF
  {
    PackRgbAt(pixels, k);
    Recombine(pixels[k]);
  }

  /** Two pixels give the same bytes exactly when they differ at most in alpha. */
  lemma PackRgbForgetsAlpha(p: bv32, q: bv32)
    ensures PackRgb([p]) == PackRgb([q]) <==> p & 0x00FF_FFFF == q & 0x00FF_FFFF
  {
    assert [p][..0] == [] && [q][..0] == [];
    assert PackRgb([p]) == [Red(p), Green(p), Blue(p)];
    assert PackRgb([q]) == [Red(q), Green(q), Blue(q)];
    if PackRgb([p]) == PackRgb([q]) {
      assert PackRgb([p])[0] == PackRgb([q])[0] && PackRgb([p])[1] == PackRgb([q])[1] && PackRgb([p])[2] == PackRgb([q])[2];
      SameChannelsSameColour(p, q);
    }
    if p & 0x00FF_FFFF == q & 0x00FF_FFFF {
      SameColourSameChannels(p, q);
    }
  }

  /** A java.nio.ByteBuffer reduced to what is used here: storage and a write position. */
  class ByteBuffer {
    var data: array<bv8>
    var position: nat

    /** allocateDirect: a zero-filled buffer of the given capacity, positioned at 0. */
    constructor Allocate(capacity: nat)
      ensures fresh(data)
      ensures data.Length == capacity && position == 0
      ensures forall i :: 0 <= i < capacity ==> data[i] == 0
    {
      data := new bv8[capacity](_ => 0);
      position := 0;
    }

    /** put(byte): writes at the position and advances it. A full buffer is
        an overflow in Java; the model requires room. */
    method Put(b: bv8)
      requires position < data.Length
      modifies this, data
      ensures data == old(data) && position == old(position) + 1
      ensures data[..] == old(data[..])[old(position) := b]
    {
      data[position] := b;
      position := position + 1;
    }

    /** rewind: position back to 0, contents untouched. */
    method Rewind()
      modifies this
      ensures data == old(data) && position == 0
    {
      position := 0;
    }
  }

  /** Packing one more pixel appends its three bytes. */
  lemma PackRgbSnoc(pixels: seq<bv32>, i: nat)
    requires i < |pixels|
    ensures PackRgb(pixels[..i + 1]) == PackRgb(pixels[..i]) + [Red(pixels[i]), Green(pixels[i]), Blue(pixels[i])]
  {
    assert pixels[..i + 1][..i] == pixels[..i];
  }

  /** Three consecutive writes from position p extend the prefix up to p by the three bytes. */
  lemma ThreeWrites(data: seq<bv8>, p: nat, r: bv8, g: bv8, b: bv8)
    requires p + 3 <= |data|
    ensures data[p := r][p + 1 := g][p + 2 := b][..p + 3] == data[..p] + [r, g, b]
  {
  }

  /** bitmapToByteBuffer: packs every pixel, then rewinds the buffer for reading. */
  method BitmapToByteBuffer(pixels: seq<bv32>) returns (buffer: ByteBuffer)
    requires |pixels| == InputSize * InputSize
    ensures fresh(buffer) && fresh(buffer.data)
    ensures buffer.data.Length == InputSize * InputSize * 3
    ensures buffer.data[..] == PackRgb(pixels)
    ensures buffer.position == 0
  {
    buffer := new ByteBuffer.Allocate(InputSize * InputSize * 3);
    for i := 0 to |pixels|
      invariant fresh(buffer) && fresh(buffer.data)
      invariant buffer.data.Length == InputSize * InputSize * 3
      invariant buffer.position == 3 * i
      invariant buffer.data[..buffer.position] == PackRgb(pixels[..i])
    {
      var pixel := pixels[i];
      ghost var before := buffer.data[..];
      PackRgbSnoc(pixels, i);
      buffer.Put(Red(pixel));
      buffer.Put(Green(pixel));
      buffer.Put(Blue(pixel));
      ThreeWrites(before, 3 * i, Red(pixel), Green(pixel), Blue(pixel));
    }
    assert pixels[..|pixels|] == pixels;
    assert buffer.data[..] == buffer.data[..buffer.position];
    buffer.Rewind();
  }
}
