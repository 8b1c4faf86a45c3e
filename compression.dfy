// The compression step of the image inliner: which codec library is used
// and when the original bytes are used instead.

module Compression {
  import opened Wrappers
  import opened Base64

  type Bytes = seq<Byte>

  /** The codec library found when the script starts: sharp, else jimp, else none. */
  datatype Backend = Sharp | Jimp | NoCodec

  /** The library is chosen by whether loading sharp, then jimp, succeeds. */
  function ProbeBackend(sharpLoads: bool, jimpLoads: bool): (b: Backend)
    ensures b == Sharp <==> sharpLoads
    ensures b == Jimp <==> !sharpLoads && jimpLoads
    ensures b == NoCodec <==> !sharpLoads && !jimpLoads
  {
    if sharpLoads then Sharp else if jimpLoads then Jimp else NoCodec
  }

  /**
   * What a call into the chosen library does with one file: the JPEG it
   * re-encodes at quality 85, already resized to 1920 pixels wide when the
   * image was wider, or an exception.
   */
  datatype CodecOutcome = Encoded(bytes: Bytes) | Threw

  /**
   * The bytes `compressImage` resolves to. `attempt` is what the chosen
   * library does with the file and is not consulted without one; `original`
   * is what reading the file gives, `None` when the read throws, in which
   * case the promise rejects and the result is `None` too.
   */
  function Compress(backend: Backend, attempt: CodecOutcome, original: Option<Bytes>): (r: Option<Bytes>)
  {
    if backend != NoCodec && attempt.Encoded? then Some(attempt.bytes) else original
  }

  /**
   * `compressImage` step by step: the chosen library's result unless it
   * threw, then the original file.
   */
  method CompressImage(backend: Backend, attempt: CodecOutcome, original: Option<Bytes>) returns (r: Option<Bytes>)
    ensures r == Compress(backend, attempt, original)
  {
    var compressed := false;
    if backend == Sharp || backend == Jimp {
      match attempt
      case Encoded(bytes) =>
        r := Some(bytes);
        compressed := true;
      case Threw =>
    }
    if !compressed {
      r := original;
    }
  }

  /** Without a library, or when the library throws, the original bytes are used. */
  lemma CompressFallsBack(backend: Backend, attempt: CodecOutcome, original: Option<Bytes>)
    requires backend == NoCodec || attempt == Threw
    ensures Compress(backend, attempt, original) == original
  {
  }

  /** The bytes come either from the library's output or from the file itself, and from the library only when there is one and it returned. */
  lemma {:induction false} CompressSource(backend: Backend, attempt: CodecOutcome, original: Option<Bytes>)
    ensures var r := Compress(backend, attempt, original);
      r.Some? ==> (original == r) || (backend != NoCodec && attempt == Encoded(r.value))
    ensures var r := Compress(backend, attempt, original);
      r != original ==> backend != NoCodec && attempt.Encoded?
  {
  }

  /** Compression fails only when the original file cannot be read either. */
  lemma {:induction false} CompressFails(backend: Backend, attempt: CodecOutcome, original: Option<Bytes>)
    ensures Compress(backend, attempt, original).None? <==>
      original.None? && (backend == NoCodec || attempt == Threw)
  {
  }
}
