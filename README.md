# RFID2 NDEF text driver — Dafny model

This project models the core of the M5Stack RFID2 driver (`Rfid2.cpp`): the
code that stores a short text on an NFC Forum Type 2 tag as one NDEF text
record and reads it back.

- **Write path** (`rfid2WriteText`). The driver rejects a text longer than
  240 bytes. Otherwise it builds the frame
  `03 L D1 01 P 'T' 02 'e' 'n' text FE` in a byte array. `L = n + 7` is the
  TLV length and `P = n + 3` is the payload length. It then writes the frame
  in zero-padded 4-byte chunks to pages 4, 5, 6, … and stops at the first
  page the card refuses.
- **Read path** (`rfid2ReadText`). The driver reads a 16-byte burst at
  page 4. From the TLV length byte it computes `needed = 2 + L + 1`. It then
  reads more 16-byte bursts at pages 8, 12, … into a 64-byte array until
  `needed` bytes are gathered or the array is full. Next it checks the TLV
  tag, the record header, the type length, the type `'T'`, and the
  payload/language lengths. Finally it copies the text out byte by byte.

The MFRC522 library is modelled as a page store (`Mfrc522.Card`). It has a
byte memory and a ghost log of every call with its outcome: presence wait,
page write, burst read, `PICC_HaltA`, `PCD_StopCrypto1`. Each library call
may succeed or fail without the driver being able to tell in advance.

Modules:

- `Bytes`: the byte type.
- `NdefText`: pure specification of the frame, the chunking, the burst
  arithmetic and the decoding, with the round-trip lemmas.
- `Mfrc522`: the card.
- `Rfid2`: the driver class `Driver` (the `initialized` flag, `Begin`,
  `WriteText`, `ReadText`), the array-filling methods `BuildFrame` and
  `ParseText`, and trace predicates with lemmas about the calls each session
  makes.
- `ReadAsWritten`: the read path as written, where it indexes past the bytes it
  read.

Where the code does less than a Type 2 tag reader might be expected to, the model
follows the code:

- All four header mismatches give the one error "no ndef" (`NoNdef`). There
  is no separate "not a text record" error.
- A presence timeout returns without `PICC_HaltA`.
- The too-long path calls `PICC_HaltA` but not `PCD_StopCrypto1` (line 48).
- A refused page write reports only the library status, not the page.
- The text offsets are relative to the start of the gathered bytes: the text
  starts at `7 + langLen`.
- The decoding never checks the TLV length against the payload length
  (`NdefText.IgnoresTlvLength`), and never checks the terminator byte
  (`NdefText.DecodePrefix`).

## Model

| member | source | states |
|---|---|---|
| `NdefText.Frame` | Rfid2.cpp:51-66 | the frame for an n-byte text (n ≤ 240) has n + 10 bytes; its TLV length byte equals the frame length minus 3 (the record's size); the payload length byte is the TLV length minus 4; both fit a byte |
| `NdefText.PageCount` | Rfid2.cpp:68-70 | the loop `i = 0, 4, 8, … < totalLen` makes the least number of page writes whose pages hold `totalLen` bytes (ceil(totalLen / 4)) |
| `NdefText.WrittenBytes` | Rfid2.cpp:70-76 | the first k chunks hold 4k bytes; byte i is `ndef[i]` below `totalLen` and 0x00 at or beyond it |
| `NdefText.ChunksPadFrame` | Rfid2.cpp:68-84 | all chunks together are exactly the frame followed by zero padding to a whole page |
| `NdefText.Stored` | Rfid2.cpp:68-84 | after k successful page writes the memory keeps its size and every byte outside pages 4 … 4+k-1 |
| `NdefText.StoredStep` | Rfid2.cpp:76 | writing chunk k to page 4 + k turns the memory after k writes into the memory after k + 1 writes |
| `NdefText.AccumulatedBounds` | Rfid2.cpp:118-133 | from any whole number of bursts, the loop ends on a multiple of 16 no larger than 64; it ends with at least `needed` bytes or a full array, and it never reads a burst once `needed` is covered |
| `NdefText.ReadLength` | Rfid2.cpp:115-133 | the bytes gathered with every burst succeeding: 16 ≤ readBytes ≤ 64, a multiple of 16, ≥ needed or = 64, and only the first burst when needed ≤ 16 |
| `NdefText.ReadLengthClosedForm` | Rfid2.cpp:117-133 | readBytes is 16 when needed ≤ 16, 64 when needed > 48, and otherwise needed rounded up to a multiple of 16 |
| `NdefText.DecodeText` | Rfid2.cpp:138-158 | "no ndef" exactly when byte 0, 2, 3 or 5 is wrong, whatever the length bytes say; "bad payload" exactly when the header is right and payloadLen < 1 + (status & 0x3F); "truncated" exactly when the header and lengths are right but the record (6 + payloadLen bytes) runs past the gathered bytes, so every well-formed record that fits is decoded; a decoded text lies inside the gathered bytes, has length payloadLen − 1 − langLen, and is the slice from 7 + langLen; no other errors |
| `NdefText.DecodeFrame` | Rfid2.cpp:138-158 | decoding the frame built at lines 51-66 gives back the text, for every text the write path accepts |
| `NdefText.IgnoresTlvLength` | Rfid2.cpp:138-155 | changing the TLV length byte (offset 1) never changes the decoding result: only the payload length at offset 4 bounds the text |
| `NdefText.DecodePrefix` | Rfid2.cpp:151-155 | decoding looks only at the first 6 + payloadLen bytes: the terminator and anything after it are never consulted |
| `NdefText.HelloExample` | Rfid2.cpp:51-84 | "hello" is framed as 03 0C D1 01 08 54 02 65 6E 68 65 6C 6C 6F FE; it takes 4 pages (one pad byte) and one burst, and decodes back; a 37-byte frame takes 10 page writes; a TLV length of 20 takes 2 bursts |
| `NdefText.StoredHoldsFrame` | Rfid2.cpp:68-84 | after every page of the frame is written, memory from byte 16 on starts with the frame |
| `NdefText.DecodeFramePrefix` | Rfid2.cpp:138-158 | bytes that agree with the frame as far as both go decode to the text when the text's last byte was gathered, and to a truncation error otherwise |
| `NdefText.WriteThenRead` | Rfid2.cpp:44-158 | after the whole frame is written, the read path computes needed = n + 10; it returns the text when n ≤ 55 and reports truncation when n ≥ 56 |
| `NdefText.ReadBackFrame` | Rfid2.cpp:115-158 | any tag whose bytes from address 16 start with the frame of an n-byte text reads back the text when n ≤ 55 and a truncation error otherwise; the TLV length byte gives needed = n + 10 |
| `Mfrc522.Card.constructor` | Rfid2.cpp:7 | a card with the given memory and an empty call log |
| `Mfrc522.Card.PcdInit` | Rfid2.cpp:13 | logs the reader initialisation |
| `Mfrc522.Card.WaitForCard` | Rfid2.cpp:19-28 | logs one presence wait with its outcome (found or timed out) |
| `Mfrc522.Card.UltralightWrite` | Rfid2.cpp:76 | on success the page lay in memory and now holds the 4 buffer bytes while nothing else changes; on failure memory is unchanged; the call is logged |
| `Mfrc522.Card.Read` | Rfid2.cpp:107 | on success `buffer[0..16)` holds the 16 bytes of pages p … p+3; memory never changes; the call is logged |
| `Mfrc522.Card.HaltA` | Rfid2.cpp:48 | logs one `PICC_HaltA` |
| `Mfrc522.Card.StopCrypto1` | Rfid2.cpp:81 | logs one `PCD_StopCrypto1` |
| `Rfid2.WriteSessionCalls` | Rfid2.cpp:37-88 | the session ends in one of four ways. Timeout: nothing follows the presence wait. Too long: only `PICC_HaltA` follows. Otherwise nothing but page writes come between the answer and the final `PICC_HaltA`, `PCD_StopCrypto1`. Write i puts chunk i of the frame on page 4 + i. On success all ceil(totalLen/4) writes succeed; on a transfer error at least one write was made and only the last one, the refused one, failed |
| `Rfid2.ReadSessionCalls` | Rfid2.cpp:98-136 | timeout exactly when nothing follows the presence wait. Otherwise nothing but bursts come between the answer and the final `PICC_HaltA`, `PCD_StopCrypto1`. Burst i reads page 4 + 4i. On a transfer error at least one burst was issued and the last burst was refused; otherwise none was. With every burst succeeding there are readBytes/16 of them, just one when needed ≤ 16. A refused burst was issued only because the message was not yet covered |
| `Rfid2.WrittenTextReadsBack` | Rfid2.cpp:30-160 | a successful `WriteText` then a `ReadText` whose bursts all succeed returns the written text when it is at most 55 bytes, and a truncation error otherwise |
| `Rfid2.BuildFrame` | Rfid2.cpp:51-66 | fills a fresh array of `totalLen` bytes with exactly `Frame(text)` |
| `Rfid2.FillChunk` | Rfid2.cpp:71-74 | the 4-byte buffer holds frame bytes 4k … 4k+3, with 0x00 past the end of the frame |
| `Rfid2.ParseText` | Rfid2.cpp:138-158 | the header checks, length checks and byte-by-byte copy give exactly `DecodeText` of the gathered bytes |
| `Rfid2.Driver.constructor` | Rfid2.cpp:7-8 | the driver starts uninitialised, bound to its card |
| `Rfid2.Driver.Begin` | Rfid2.cpp:11-17 | sets `initialized`, returns true, and makes one `PCD_Init` call |
| `Rfid2.Driver.WriteText` | Rfid2.cpp:30-88 | uninitialised: "not init" with no card call. Otherwise the session is one of: timeout (nothing written); too long (halt only); chunk k refused (pages 4 … 4+k−1 hold chunks 0 … k−1, then halt and stop); success (all ceil(totalLen/4) chunks stored from page 4, then halt and stop, returns true) |
| `Rfid2.Driver.WritePages` | Rfid2.cpp:68-84 | writes chunk k to page 4 + k in order; ends at the first refusal, having stored exactly the chunks before it, or after all chunks |
| `Rfid2.Driver.WriteChunk` | Rfid2.cpp:71-83 | one pass of the loop: on success the memory after k chunks becomes the memory after k + 1 and one successful write is logged; on refusal memory is unchanged and the refused write of chunk k to page 4 + k is logged |
| `Rfid2.Driver.ReadText` | Rfid2.cpp:91-160 | uninitialised: "not init" with no card call. Otherwise: timeout; or burst k refused (halt, stop, error); or every burst read (halt, stop) and the result is `DecodeText` of the readBytes bytes from page 4 on. Memory is never changed |
| `Rfid2.Driver.ReadBursts` | Rfid2.cpp:115-133 | copies each burst to `data[readBytes ..]`. With all bursts read it stops at exactly `ReadLength(needed)` bytes, which equal the tag's bytes from page 4 on. A refused burst ends it early |
| `ReadAsWritten.TextWindowAsWritten` | Rfid2.cpp:138-155 | the window the copy loop reads as written. It fails exactly on the header and payload errors. The corrected decoding succeeds exactly when the window ends inside the gathered bytes, and then returns that window |
| `ReadAsWritten.AsWrittenTextOverrunsData` | Rfid2.cpp:115-155 | a first burst `03 00 D1 01 FF 54 02 00…` is read alone (needed = 3), yet the loop as written reads `data[9..261)`, past the 64-byte array; the corrected decoding reports truncation |
| `ReadAsWritten.EmptyTextLanguageOverrun` | Rfid2.cpp:145-155 | for a first burst `03 00 D1 01 40 54 3F 00…` (a 63-byte language code, an empty text) one burst is read and the window as written is empty at (70, 70), so the source returns ""; the corrected decoding reports truncation |
| `ReadAsWritten.AsWrittenLongTextOverruns` | Rfid2.cpp:44-155 | for every accepted text of 56 bytes or more the read gathers 64 bytes, but the window as written ends at n + 9 > 64; the corrected decoding reports truncation |

## Findings

| source | as written | input that shows it | evidently intended | confidence | as-written member | corrected member |
|---|---|---|---|---|---|---|
| Rfid2.cpp:151-155 | the text is copied from `data[7+langLen .. 6+payloadLen)` and that window is never compared with `readBytes` or with the 64-byte `data` array | a tag whose first burst is `03 00 D1 01 FF 54 02 00 …`: the TLV length 0 makes `needed` 3, so only 16 bytes are read, but the loop reads `data[9]` … `data[260]` | reject the record (a truncation error) when `6 + payloadLen > readBytes`, so the text comes only from bytes read from the tag. The correction also rejects a record whose text is empty but whose language code runs past the bytes read (first burst `03 00 D1 01 40 54 3F 00…`), which the source returns as "" (`ReadAsWritten.EmptyTextLanguageOverrun`) | high; not executed | `ReadAsWritten.AsWrittenTextOverrunsData` | `NdefText.DecodeText` |
| Rfid2.cpp:45 | the write path accepts texts up to 240 bytes, but the read path gathers at most 64 bytes (line 115), so the text of a longer frame runs past `data` | any 56-byte text: it is written as a 66-byte frame, the read stops at 64 bytes, and the loop reads `data[9]` … `data[64]` | a written text is either read back or reported as truncated, never read out of bounds | medium; not executed | `ReadAsWritten.AsWrittenLongTextOverruns` | `Rfid2.WrittenTextReadsBack` |

With the bound check, a write followed by a read returns the text for every
text of at most 55 bytes. That is one byte more than the 54 bytes for which
the whole frame fits in 64: the terminator at offset n + 9 is never read.

## Left out

- NdefText.DecodeText: a record with an empty text whose language code ends past the gathered bytes is reported as truncated, where the source returns "" (`ReadAsWritten.EmptyTextLanguageOverrun`). The bound covers the whole record, so no byte beyond those read is consulted.
- Rfid2.Driver.WriteText: requires the tag memory to hold at least pages 0-3 (16 bytes). Every Type 2 tag has these reserved pages, and the model of a failed write needs them to describe the memory.
- `rfid2Begin`'s `Wire.begin()` and the I2C bus setup are not modelled; `PCD_Init` is a logged call.
- `waitForCard`'s polling of `PICC_IsNewCardPresent`/`PICC_ReadCardSerial`, every 50 ms for up to 3000 ms, is one call that nondeterministically finds a card or times out. Clocks and delays are not modelled.
- Library status codes and `GetStatusCodeName` are reduced to one `Transfer` error. The `errMsg`/`out` pointers and their null checks are the returned `Outcome`/`Result`. The message strings ("not init", "timeout", "too long", "no ndef", "bad payload") are the `Error` constructors.
- A refused page write is modelled as leaving the tag memory unchanged. A real tag may have partly written the page.
- `MIFARE_Read` is modelled as failing for a page range outside the memory. The library's roll-over past the last page and its two CRC bytes (`buffer[16..18)`) are not modelled.
- Bytes of `data[64]` beyond `readBytes` are uninitialised in the source. The corrected decoding never reads them, so their values are not modelled.
- Each transfer loop is a method of its own (`WritePages`, `ReadBursts`), and so are one pass of the write loop (`WriteChunk`) and its buffer-filling inner loop (`FillChunk`). On a refused page or burst the caller makes the `PICC_HaltA`/`PCD_StopCrypto1` calls that the source makes inside the loop; the sequence of calls is the same.
- The text is a byte sequence. UTF-8 is not validated, and the status byte's UTF-16 bit is ignored, as in the source.
- The three-byte TLV length form (`buffer[1] == 0xFF`) is not handled by the source. Only the arithmetic `needed = 2 + buffer[1] + 1` is modelled.
- `Rfid2.h` holds only prototypes and the `RFID2_DEBUG_PRINT` macro. The `waitForCard(int)` overload it declares has no definition in `Rfid2.cpp`.
