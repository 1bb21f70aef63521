/** The whole decompressor: unpack the archive's bytes into codes, then decode them. */
module Decompressor {
  import opened Results
  import opened CodeUnpacker
  import opened DictionaryDecoder

  /** The text an archive stands for; a leftover byte is reported before any decoding. */
  function Decompressed(archive: seq<Byte>): (r: Result<Text>)
    ensures |archive| % 3 == 1 ==> r == Failure(InvalidData)
    ensures |archive| % 3 != 1 ==> Unpacked(archive).Success? && r == Decoded(Unpacked(archive).value)
  {
    match Unpacked(archive)
    case Failure(e) => Failure(e)
    case Success(codes) => Decoded(codes)
  }

  /** Reads the codes of the archive into a fresh list and decodes that list. */
  method Decompress(archive: seq<Byte>) returns (r: Result<Text>)
    ensures r == Decompressed(archive)
  {
    var codes := ReadCodes(archive);
    if codes.Failure? {
      return Failure(codes.error);
    }
    var archiveCodes := new CodeList(codes.value);
    r := DecodeToText(archiveCodes);
  }

  /** Decompressing the bytes a compatible encoder packs from a code sequence is
      decoding that code sequence. */
  lemma DecompressPacked(codes: seq<int>)
    requires AllCodes(codes)
    ensures Decompressed(Packed(codes)) == Decoded(codes)
  {
    UnpackPacked(codes);
  }

  /** How a decompression ends: an empty archive has no first code, a leftover byte is
      invalid data, and a successful decompression only yields characters below 4096,
      since every code, the first one included, fits in 12 bits. */
  lemma DecompressedOutcome(archive: seq<Byte>)
    ensures |archive| == 0 ==> Decompressed(archive) == Failure(EmptyInput)
    ensures |archive| % 3 == 1 ==> Decompressed(archive) == Failure(InvalidData)
    ensures Decompressed(archive).Success? ==>
      forall j :: 0 <= j < |Decompressed(archive).value| ==> 0 <= Decompressed(archive).value[j] < CodeLimit
  {
    if Decompressed(archive).Success? {
      var codes := Unpacked(archive).value;
      DecodedAlphabet(codes);
    }
  }
}
