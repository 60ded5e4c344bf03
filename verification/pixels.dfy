/** The colour value shared by the sorter and the pixelation engine. */
module Pixels {

  /** One pixel: a fixed-length tuple of integer channels (RGB or RGBA);
      channel 0 comes first. */
  type Pixel = seq<int>
}
