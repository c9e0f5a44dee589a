/** Sizes the JPEG standard fixes (jpeglib.h). */
module JpegLib {
  const DCTSIZE2 := 64
  const NUM_ARITH_TBLS := 16
  const NUM_HUFF_TBLS := 4
  const MAX_COMPS_IN_SCAN := 4
  const MAX_COMPONENTS := 10
}
