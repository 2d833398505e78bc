/**
 * The pixel work of the photo drop handler: nothing happens until an atlas
 * has been loaded; then the photo's buffer is mapped through the atlas in
 * place and the brightness pass is run over the mapped buffer.
 */
module Pipeline {
  import opened Rgba
  import opened LutAtlas
  import opened ColorTransform
  import opened Bloom

  datatype Option<T> = None | Some(value: T)

  /**
   * The drop handler on a decoded photo buffer, given the atlas if one has
   * been loaded. Without an atlas the handler returns at once: the buffer is
   * untouched and no extraction buffer exists. With one, the buffer holds
   * the mapped photo and the result is a new buffer holding the bright
   * pixels of the mapped photo.
   */
  method OnDrop(data: array<Byte>, lut: Option<seq<Byte>>) returns (bright: Option<array<Byte>>)
    requires data.Length % 4 == 0
    requires lut.Some? ==> |lut.value| == AtlasBytes
    modifies data
    ensures lut.None? ==> bright.None? && data[..] == old(data[..])
    ensures lut.Some? ==> bright.Some? && fresh(bright.value) && bright.value.Length == data.Length
    ensures lut.Some? ==> LutMapped(lut.value, old(data[..]), data[..], data.Length / 4)
    ensures lut.Some? ==> Extracted(data[..], bright.value[..], data.Length / 4)
  {
    if lut.None? {
      return None;
    }
    ApplyLut(data, lut.value);
    var extracted := BrightPass(data);
    bright := Some(extracted);
  }
}
