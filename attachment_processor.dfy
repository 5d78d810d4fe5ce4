/**
 * The two decisions of the Android attachment processor that do not depend
 * on pixels: the power-of-two subsampling factor passed to the bitmap
 * decoder (`calculateInSampleSize`) and the output format (`selectFormat`).
 */
module AttachmentProcessor {
  import opened Kotlin

  ghost predicate IsPowerOfTwo(n: int)
    decreases if n > 0 then n else 0
  {
    n == 1 || (n > 1 && n % 2 == 0 && IsPowerOfTwo(n / 2))
  }

  /** The loop condition: both halved dimensions, divided by `sample`, still reach the request. */
  predicate KeepsDoubling(halfHeight: int, halfWidth: int, reqHeight: int, reqWidth: int, sample: int)
    requires sample >= 1
  {
    KDiv(halfHeight, sample) >= reqHeight && KDiv(halfWidth, sample) >= reqWidth
  }

  /** A quotient of at least one means the divisor is at most the dividend. */
  lemma DivisorAtMost(h: int, s: int)
    requires s >= 1 && KDiv(h, s) >= 1
    ensures s <= h
  {
    if h < 0 {
      assert false;
    }
    var q := h / s;
    assert q * s <= h;
    assert q * s == (q - 1) * s + s;
    MulSigns(q - 1, s);
  }

  /** One more doubling keeps the factor a power of two within `Int`, and moves it closer to the bound. */
  lemma DoublingStep(halfHeight: int, halfWidth: int, reqHeight: int, reqWidth: int, sample: int)
    requires 1 <= sample && IsPowerOfTwo(sample) && reqHeight >= 1 && halfHeight < 0x4000_0000
    requires KeepsDoubling(halfHeight, halfWidth, reqHeight, reqWidth, sample)
    ensures 2 * sample <= INT_MAX && IsPowerOfTwo(2 * sample) && (2 * sample) / 2 == sample
    ensures 0 <= halfHeight - sample && halfHeight - 2 * sample < halfHeight - sample
  {
    DivisorAtMost(halfHeight, sample);
  }

  /**
   * `calculateInSampleSize`: start at 1 and, when the original exceeds the
   * request in either dimension, double while both halved dimensions divided
   * by the factor still reach the request. The result is the first power of
   * two at which that fails, so it is the largest that keeps the decoded
   * image at least as large as requested; it never overflows an `Int`.
   */
  method CalculateInSampleSize(originalWidth: int, originalHeight: int, reqWidth: int, reqHeight: int)
    returns (inSampleSize: int)
    requires InInt(originalWidth) && InInt(originalHeight)
    requires 1 <= reqWidth <= INT_MAX && 1 <= reqHeight <= INT_MAX
    ensures InInt(inSampleSize) && inSampleSize >= 1 && IsPowerOfTwo(inSampleSize)
    ensures originalHeight <= reqHeight && originalWidth <= reqWidth ==> inSampleSize == 1
    ensures inSampleSize > 1 ==>
      KeepsDoubling(KDiv(originalHeight, 2), KDiv(originalWidth, 2), reqHeight, reqWidth, inSampleSize / 2)
    ensures originalHeight > reqHeight || originalWidth > reqWidth ==>
      !KeepsDoubling(KDiv(originalHeight, 2), KDiv(originalWidth, 2), reqHeight, reqWidth, inSampleSize)
  {
    inSampleSize := 1;
    if originalHeight > reqHeight || originalWidth > reqWidth {
      var halfHeight := KDiv(originalHeight, 2);
      var halfWidth := KDiv(originalWidth, 2);
      assert halfHeight < 0x4000_0000;
      while KeepsDoubling(halfHeight, halfWidth, reqHeight, reqWidth, inSampleSize)
        invariant 1 <= inSampleSize <= INT_MAX && IsPowerOfTwo(inSampleSize)
        invariant inSampleSize > 1 ==> KeepsDoubling(halfHeight, halfWidth, reqHeight, reqWidth, inSampleSize / 2)
        decreases halfHeight - inSampleSize
      {
        DoublingStep(halfHeight, halfWidth, reqHeight, reqWidth, inSampleSize);
        inSampleSize := inSampleSize * 2;
      }
    }
    inSampleSize := Max(inSampleSize, 1);
  }

  datatype CompressFormat = PNG | JPEG

  /** `FormatInfo`: the compressor, the MIME type and the file extension. */
  datatype FormatInfo = FormatInfo(compressFormat: CompressFormat, mimeType: string, extension: string)

  /**
   * `selectFormat`: PNG, which keeps transparency, exactly when the bitmap
   * has alpha; JPEG otherwise. MIME type and extension match the format.
   */
  function SelectFormat(hasAlpha: bool): (f: FormatInfo)
    ensures f.compressFormat == PNG <==> hasAlpha
    ensures f.compressFormat == PNG ==> f.mimeType == "image/png" && f.extension == "png"
    ensures f.compressFormat == JPEG ==> f.mimeType == "image/jpeg" && f.extension == "jpg"
  {
    if hasAlpha then FormatInfo(PNG, "image/png", "png") else FormatInfo(JPEG, "image/jpeg", "jpg")
  }
}
