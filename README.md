# LZW decompressor (12-bit fixed width), modelled in Dafny

`decompressor.py` turns an LZW archive into text in two stages.

1. `read_codes` reads the archive three bytes at a time. A group of three bytes holds
   two 12-bit codes. A final group of two bytes holds one code padded to 16 bits. A
   single leftover byte is an error.
2. `decode_to_text` rebuilds the text with an adaptive dictionary. The dictionary is
   seeded with the 256 single-character entries. Every code after the first adds one
   entry at key `dict_size`. The counter `dict_size` goes back from 4096 to 256.

`decompress` composes the two stages.

The model has four modules:

- `Results` holds the error variants that stand for the exceptions `read_codes` and `decode_to_text` raise.
- `CodeUnpacker` models `read_codes`. `Unpacked` is the function over bytes (`seq<bv8>`).
  `ReadCodes` is the chunk loop, proved equal to `Unpacked`. The bit operations use
  16-bit bit-vectors with Python's operator precedence.
- `DictionaryDecoder` models `decode_to_text`. `State` holds the dictionary (a `map`),
  the counter, the previous entry and the text written so far. `Step` is one loop
  iteration. `Run` is the loop. `Decoded` is the whole decode. `DecodeToText` is the
  imperative loop. It works on a mutable `CodeList`, because `pop(0)` shortens the
  caller's list. It is proved equal to `Decoded`.
- `Decompressor` models `decompress` as `Decompress`, which calls `ReadCodes` and then
  `DecodeToText`.

Text is a sequence of Unicode code points (`seq<int>`). Python's `chr(c)` is the
one-element sequence `[c]` for `0 <= c <= 0x10FFFF`, and an error otherwise.

Three behaviours of `decode_to_text` that are easy to miss:

- The first code goes through `chr` and is not looked up in the dictionary. So a first
  code of 256 or more is accepted, and its character can reappear through later entries
  (`DecodedAlphabet`).
- A wrap only rewinds the counter. It never clears the dictionary. After a wrap, every
  key in 256–4095 still resolves to whatever entry it last held. A code equal to the
  counter then resolves to that old entry. It does not go through the
  previous-entry-plus-first-character rule (`StaleEntryAfterWrap`).
- An empty code list fails at `pop(0)`. The model reports this as its own error,
  `EmptyInput`, and not as invalid data.

## Model

| member | source | states |
|---|---|---|
| `CodeUnpacker.FirstCode` | decompressor.py:30-32 | the first code of a full group is `b0*16 + b1/16`, which is below 4096 |
| `CodeUnpacker.SecondCode` | decompressor.py:36-38 | the second code of a full group is `(b1 mod 16)*256 + b2`, which is below 4096 |
| `CodeUnpacker.PaddedCode` | decompressor.py:47 | the code of a final two-byte group is `(b0 mod 16)*256 + b1`, which is below 4096 |
| `CodeUnpacker.Unpacked` | decompressor.py:22-55 | unpacking succeeds exactly when the length is not 1 mod 3; a failure is `InvalidData`; on success there are `2*(n/3) + (1 if n%3==2)` codes and every code is below 4096 |
| `CodeUnpacker.ReadCodes` | decompressor.py:14-55 | the chunk loop returns exactly `Unpacked(archive)` |
| `CodeUnpacker.UnpackConcat` | decompressor.py:25-53 | whole 3-byte groups unpack independently: their codes come first, in order, and the rest decides success |
| `CodeUnpacker.FullGroup` | decompressor.py:26-42 | a full group `[b0,b1,b2]` yields exactly two codes, `b0*16 + b1/16` then `(b1 mod 16)*256 + b2`, ahead of the rest |
| `CodeUnpacker.DanglingByte` | decompressor.py:50-51 | one byte left after whole groups gives `InvalidData` and no codes, whatever came before |
| `CodeUnpacker.PaddingNibbleIgnored` | decompressor.py:44-48 | the top nibble of the padding byte does not affect the result; the last code is `(b0 mod 16)*256 + b1` |
| `CodeUnpacker.UnpackExamples` | decompressor.py:26-51 | `AB CD EF` gives `ABC, DEF`; `0A BC` and `7A BC` both give `ABC`; a trailing single byte gives `InvalidData` |
| `CodeUnpacker.UnpackPacked` | decompressor.py:25-53 | unpacking inverts 12-bit packing: for every sequence of codes below 4096, `Unpacked(Packed(codes)) == Success(codes)` |
| `DictionaryDecoder.Chr` | decompressor.py:70 | `chr` succeeds exactly on 0..0x10FFFF and gives that one character |
| `DictionaryDecoder.InitialDictionary` | decompressor.py:65-66 | the seeded dictionary's keys are exactly 0..255 |
| `DictionaryDecoder.Initial` | decompressor.py:65-72 | the state after the first code satisfies the loop invariant `Valid` |
| `DictionaryDecoder.Learn` | decompressor.py:84-92 | an insertion keeps `Valid` (base entries intact, counter in [256, 4095], entries non-empty); it writes `previous + entry[0]` at the counter, its key set becomes the old one plus the counter, every other entry is left alone, moves the counter to `dict_size + 1` with 4096 going back to 256, and appends the entry to the text |
| `DictionaryDecoder.Step` | decompressor.py:75-92 | a step succeeds exactly when the code is a key or equals the counter; otherwise the error is `UnknownCode(code)`; a key decodes to its entry, the counter code decodes to `previous + previous[0]`; `Valid` is kept and the text grows by the decoded entry |
| `DictionaryDecoder.Run` | decompressor.py:75-92 | the loop keeps `Valid`; the text is only appended to, at least one character per code |
| `DictionaryDecoder.Decoded` | decompressor.py:57-94 | an empty list gives `EmptyInput`; a first code outside `chr`'s range gives `BadCharacter`; success yields at least one character per code, starting with the first code's character |
| `DictionaryDecoder.CodeList.PopFront` | decompressor.py:70 | `pop(0)` returns the head and removes it from the caller's list; on an empty list it fails and changes nothing |
| `DictionaryDecoder.DecodeToText` | decompressor.py:57-94 | the imperative loop returns exactly `Decoded` of the list it was given, and leaves the caller's list without its first code |
| `DictionaryDecoder.RunAppend` | decompressor.py:75-92 | running two pieces in turn is running their concatenation; a failure in the first piece is the result |
| `DictionaryDecoder.RunStopsAtError` | decompressor.py:80-81 | once an unknown code aborts the loop over a prefix of the codes, the loop over the whole list ends in the same failure: no later code changes the outcome |
| `DictionaryDecoder.DecodedPrefix` | decompressor.py:70-94 | the text of a prefix is a prefix of the whole text; a failing prefix makes the whole decode fail the same way, so no partial text is returned |
| `DictionaryDecoder.StepShape` | decompressor.py:84-89 | each successful step is one insertion: the counter moves to `256 + (n+1) mod 3840` and the key set grows only by the old counter |
| `DictionaryDecoder.CounterAndKeys` | decompressor.py:65-89 | after n codes following the first, the counter is `256 + n mod 3840` and the keys are exactly 0 .. `256 + min(n, 3840)` - 1; the first reset comes at the 3840th insertion |
| `DictionaryDecoder.ShapeAccepts` | decompressor.py:76-81 | in a state after n insertions, the next code is accepted exactly when it is in 0 .. `256 + min(n+1, 3840)` - 1 |
| `DictionaryDecoder.AcceptedCodes` | decompressor.py:76-89 | after a wrap, every code in 0..4095 resolves; before it, exactly the keys so far and the next key do; negative codes and codes of 4096 or more never do |
| `DictionaryDecoder.StepAlphabet` | decompressor.py:76-92 | a step keeps every character of the entries, the previous entry and the text a byte value or the first code |
| `DictionaryDecoder.RunAlphabet` | decompressor.py:75-92 | the loop keeps the same alphabet |
| `DictionaryDecoder.DecodedAlphabet` | decompressor.py:66-94 | every output character is a byte value (0..255) or the first code's character |
| `DictionaryDecoder.SingleCode` | decompressor.py:70-72 | a single code decodes to its own character and the dictionary stays as seeded |
| `DictionaryDecoder.SelfReferentialCode` | decompressor.py:76-92 | through the counter-code rule (the code equals `dict_size` and is not yet a key), `[65, 256]` decodes to `AAA` on the first step and `[65, 66, 257]` to `ABBB` after key 256 = `AB` has been learned |
| `DictionaryDecoder.KeyLearnedOneStepEarlier` | decompressor.py:76-92 | after `65, 65` key 256 already holds `AA` and the counter is 257, so in `[65, 65, 256]` code 256 resolves by lookup, giving `AAAA` |
| `DictionaryDecoder.AfterAs` | decompressor.py:76-92 | after `B` and k copies of `A` (k up to 3840), the text is `B` then k `A`s, the previous entry is `A`, and key 256 still holds `BA` |
| `DictionaryDecoder.StaleEntryAfterWrap` | decompressor.py:76-89 | after `B` and 3840 `A`s the counter is back at 256, and code 256 decodes to the stale entry `BA`, not `AA` |
| `Decompressor.Decompressed` | decompressor.py:96-102 | an archive whose length is 1 mod 3 fails with `InvalidData` before any decoding; any other archive unpacks, and its outcome is `Decoded` of the unpacked codes |
| `Decompressor.Decompress` | decompressor.py:96-102 | decompression returns exactly the decode of the unpacked codes; a leftover byte fails before any decoding |
| `Decompressor.DecompressPacked` | decompressor.py:96-102 | decompressing the packing of any 12-bit code sequence is decoding that sequence |
| `Decompressor.DecompressedOutcome` | decompressor.py:96-102 | an empty archive gives `EmptyInput`; a length of 1 mod 3 gives `InvalidData`; every output character is below 4096 |

## Left out

- File I/O: `read_codes` opens a path and reads it in chunks of three bytes. The model takes the archive's bytes as a sequence, sliced the same way (a short read happens only at end of file).
- `extract` only writes the decompressed text to an output file.
- `test` and its call at module level use fixed paths and print their result.
- Exception classes and messages are modelled as `Error` variants: `InvalidData`, `EmptyInput`, `BadCharacter`, `UnknownCode`. The missing `f` prefix in the unknown-code message is not modelled.
- The `StringIO` buffer is modelled as an append-only sequence of code points.
- Unicode strings: text is a sequence of code points, so `chr` of a surrogate code point is just that number.
- The compressor is not part of this model. `Packed` is the byte packing a compatible encoder uses. It is the inverse against which unpacking is proved. The LZW round trip from text to codes and back is not stated.
