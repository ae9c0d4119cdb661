/**
 * The algorithm table of server/app.js: three codecs keyed by name, each
 * returning its output together with size statistics. The zlib routines
 * themselves are not interpreted; they are supplied as a `CodecFunctions` value.
 */
module Codecs {
  import opened Wrappers
  import opened Text

  newtype byte = x: int | 0 <= x < 256

  type Bytes = seq<byte>

  datatype Algorithm = Gzip | Deflate | Brotli

  /** The table key of an algorithm. */
  function Key(a: Algorithm): string {
    match a
    case Gzip => "gzip"
    case Deflate => "deflate"
    case Brotli => "brotli"
  }

  /** `Object.keys(algorithms)`, in the table's order. */
  const Keys: seq<string> := ["gzip", "deflate", "brotli"]

  /** The algorithm used when a compress request names none. */
  const DefaultKey: string := "gzip"

  /** The label reported in the stats: the key in capitals. */
  function Label(a: Algorithm): (r: string)
    ensures r == AsciiUpper(Key(a))
  {
    match a
    case Gzip => "GZIP"
    case Deflate => "DEFLATE"
    case Brotli => "BROTLI"
  }

  /** An own-key lookup in the algorithm table. */
  function ParseAlgorithm(key: string): (r: Option<Algorithm>)
    ensures r.Some? <==> key in Keys
    ensures r.Some? ==> Key(r.value) == key
  {
    if key == "gzip" then Some(Gzip)
    else if key == "deflate" then Some(Deflate)
    else if key == "brotli" then Some(Brotli)
    else None
  }

  lemma KeysAreExactlyTheAlgorithms()
    ensures forall a: Algorithm :: Key(a) in Keys && ParseAlgorithm(Key(a)) == Some(a)
    ensures forall k :: k in Keys ==> ParseAlgorithm(k).Some?
  {
  }

  /**
   * The library routines behind the table: `compress` stands for gzip, deflate
   * or brotli compression at the settings the table passes; `decompress` for
   * gunzip, inflate or brotli decompression, which rejects malformed input
   * with a message.
   */
  datatype CodecFunctions = CodecFunctions(
    compress: (Algorithm, Bytes) -> Bytes,
    decompress: (Algorithm, Bytes) -> Result<Bytes, string>)

  datatype CompressStats = CompressStats(algorithm: string, originalSize: nat, compressedSize: nat)

  datatype DecompressStats = DecompressStats(algorithm: string, compressedSize: nat, decompressedSize: nat)

  datatype Compressed = Compressed(output: Bytes, stats: CompressStats)

  datatype Decompressed = Decompressed(output: Bytes, stats: DecompressStats)

  /** `algorithms[key].compress(buffer)`. */
  function RunCompress(codecs: CodecFunctions, a: Algorithm, input: Bytes): (r: Compressed)
    ensures r.output == codecs.compress(a, input)
    ensures r.stats.algorithm == AsciiUpper(Key(a))
    ensures r.stats.originalSize == |input| && r.stats.compressedSize == |r.output|
  {
    var output := codecs.compress(a, input);
    Compressed(output, CompressStats(Label(a), |input|, |output|))
  }

  /** `algorithms[key].decompress(buffer)`; a codec failure rejects with the codec's message. */
  function RunDecompress(codecs: CodecFunctions, a: Algorithm, input: Bytes): (r: Result<Decompressed, string>)
    ensures r.Ok? <==> codecs.decompress(a, input).Ok?
    ensures r.Err? ==> r.error == codecs.decompress(a, input).error
    ensures r.Ok? ==> r.value.output == codecs.decompress(a, input).value
    ensures r.Ok? ==> r.value.stats.algorithm == AsciiUpper(Key(a))
    ensures r.Ok? ==> r.value.stats.compressedSize == |input| && r.value.stats.decompressedSize == |r.value.output|
  {
    match codecs.decompress(a, input)
    case Ok(output) => Ok(Decompressed(output, DecompressStats(Label(a), |input|, |output|)))
    case Err(message) => Err(message)
  }
}
