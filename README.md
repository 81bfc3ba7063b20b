# bin_to_coe: firmware image to Xilinx COE text

`bin_to_coe.py` converts the compiled firmware image `firmware.bin` into
`firmware.coe`. A Xilinx memory-initialisation (COE) file is what the FPGA
tools use to preload the soft RISC-V core's instruction memory. The script
writes two header lines, `memory_initialization_radix=16;` and
`memory_initialization_vector=`. It then writes one line per byte of the
image: the byte as two lower-case, zero-padded hex digits, followed by `,`.
The last byte is followed by `;` instead.

This project models that encoder in the module `BinToCoe` (`bin_to_coe.dfy`):

- `Hex2` is the `02x` formatting of one byte. `ParseHex2` is its inverse.
- `Entry`, `Vector` and `EncodeCoe` are the pure specification of the text
  the script passes to `f.write`.
- `EmitCoe` is the script's loop. The file handle is modelled as a string that
  each `write` appends to. The method is proved to produce `EncodeCoe(data)`.
- `DecodeCoe` strips the header, parses the entries and checks the
  terminators. The two round-trip lemmas show that it accepts exactly the
  texts the encoder produces and recovers the bytes from them.

A byte is modelled as `byte`, an integer newtype with range 0..255, which is
what an element of a Python `bytes` value is.

## Model

| member | source | states |
|---|---|---|
| BinToCoe.Hex2 | bin_to_coe.py:22 | a byte is written as exactly two lower-case hex digits whose value (high digit × 16 + low digit) is the byte; the first digit is `0` exactly when the byte is below 0x10 (zero padding) |
| BinToCoe.ParseHex2Inverse | bin_to_coe.py:22 | reading two hex digits back gives byte `b` if and only if the string is the `02x` form of `b`, so the formatting is injective and invertible |
| BinToCoe.Hex2Examples | bin_to_coe.py:22 | 0x0a is written `0a`, 0xff is written `ff`, 0x00 is written `00` |
| BinToCoe.Entry | bin_to_coe.py:22-28 | one line of the vector is four characters: two hex digits that read back as the byte, then `;` exactly when the byte is the last one and `,` otherwise, then a newline |
| BinToCoe.Vector | bin_to_coe.py:20-28 | the vector section holds exactly four characters per input byte |
| BinToCoe.EncodeCoe | bin_to_coe.py:16-28 | the output length is the header length plus 4 × the number of bytes; it starts with `memory_initialization_radix=16;\n` followed by `memory_initialization_vector=\n`; an empty input yields just these two lines |
| BinToCoe.EmitCoe | bin_to_coe.py:15-28 | the loop that writes the header, then per byte its hex digits with `;\n` when `i + 1 >= len` and `,\n` otherwise, produces exactly the specified text |
| BinToCoe.VectorEntryAt | bin_to_coe.py:20-28 | the k-th four-character entry of the vector section is the entry for the k-th input byte, ending in `;` exactly when it is the last byte |
| BinToCoe.EncodeCoeEntryAt | bin_to_coe.py:20-28 | entries appear in input order: line k after the header is the hex of `data[k]` followed by `;\n` if k is the last index and `,\n` otherwise |
| BinToCoe.VectorSemicolonOnlyAtEnd | bin_to_coe.py:25-28 | inside the vector section, a character is `;` if and only if it is the last entry's terminator |
| BinToCoe.EncodeCoeSemicolonOnlyAtEnd | bin_to_coe.py:20-28 | after the header, `;` appears exactly once for a non-empty input, as the terminator of the final entry, and never for an empty input |
| BinToCoe.DecodeVector | bin_to_coe.py:20-28 | parsing the vector section of a non-empty input gives back that input |
| BinToCoe.DecodeEncode | bin_to_coe.py:16-28 | round trip: decoding the encoder's output gives back the original bytes exactly, including the empty input |
| BinToCoe.DecodeEntriesSound | bin_to_coe.py:20-28 | any vector section the parser accepts is non-empty and is exactly the encoding of the bytes it returns |
| BinToCoe.EncodeDecode | bin_to_coe.py:16-28 | the decoder accepts only texts the encoder produces: a decoded text re-encodes to itself |

## Left out

- Reading `firmware.bin`, the existence check and `sys.exit(1)` (bin_to_coe.py:4-11): filesystem I/O. The model takes the bytes as its input.
- Opening and writing `firmware.coe`, the success and error messages and the exception handler (bin_to_coe.py:14-15, 30-35): I/O and error plumbing. The model returns the text that would be written. A failure part-way through writing, which would leave a truncated file, is not modelled.
- Newline translation: the output file is opened in text mode (bin_to_coe.py:15), so on a platform whose line separator is `\r\n` each `\n` becomes two bytes on disk. The model, and the length stated by `EncodeCoe`, describe the text passed to `f.write`, not the bytes on disk.
- `main.c` is not part of this model. It is the UART echo firmware: volatile memory-mapped register polling with unbounded busy-waits and an echo loop that never ends. It has no data transformation that can be stated apart from the peripheral.
