/**
 * The NDEF text-record frame the RFID2 driver writes to and reads from an
 * NFC Forum Type 2 tag, and the paging arithmetic of its transfer loops,
 * as pure functions. The driver's methods (module Rfid2) are proved
 * against these definitions.
 *
 * Frame layout (offsets into the bytes stored from page 4 on):
 *   0  0x03   NDEF Message TLV (section 2.3, NFC Forum Type 2 Tag Operation Specification)
 *   1  n+7    TLV length: the record's byte count
 *   2  0xD1   record header MB|ME|SR, TNF well-known (NFC Forum NDEF Technical Specification)
 *   3  0x01   type length
 *   4  n+3    payload length: status + language + text
 *   5  'T'    record type Text (NFC Forum Text Record Type Definition)
 *   6  0x02   status: UTF-8, language code of length 2
 *   7  "en"   language code
 *   9  text   n bytes
 *   n+9 0xFE  Terminator TLV
 */
module NdefText {
  import opened Bytes

  const FirstPage: nat := 4       // pages 0-3 hold the UID, lock and capability bytes
  const PageSize: nat := 4        // one MIFARE_Ultralight_Write
  const BurstSize: nat := 16      // the data part of one MIFARE_Read
  const DataCapacity: nat := 64   // byte data[64] of the read path
  const MaxTextLen: nat := 240    // the write path's "too long" limit

  const TlvNdef: byte := 0x03
  const TlvTerminator: byte := 0xFE
  const RecordHeader: byte := 0xD1
  const TypeLength: byte := 0x01
  const TextType: byte := 0x54    // 'T'
  const StatusUtf8En: byte := 0x02
  const LangE: byte := 0x65       // 'e'
  const LangN: byte := 0x6E       // 'n'

  /** Why a driver call returned false. `Transfer` stands for any status the
      card library reports; `Truncated` is the bound check the read path lacks. */
  datatype Error = NotInit | Timeout | TooLong | Transfer | NoNdef | BadPayload | Truncated

  datatype Result<T> = Ok(value: T) | Err(error: Error)

  datatype Outcome = Pass | Fail(error: Error)

  /*************************** write path ***************************/

  /** The TLV-framed text record for `text` (Rfid2.cpp, lines 51-66). Both
      length bytes fit in a byte because the text is at most 240 bytes. */
  function Frame(text: seq<byte>): (f: seq<byte>)
    requires |text| <= MaxTextLen
    ensures |f| == |text| + 10
    ensures f[1] as int == |f| - 3
    ensures f[4] as int == f[1] as int - 4
  {
    [TlvNdef, (|text| + 7) as byte, RecordHeader, TypeLength, (|text| + 3) as byte,
     TextType, StatusUtf8En, LangE, LangN] + text + [TlvTerminator]
  }

  /** Number of page writes the loop `for (i = 0; i < totalLen; i += 4)` makes:
      the least page count whose pages hold `totalLen` bytes. */
  function PageCount(totalLen: nat): (pages: nat)
    ensures PageSize * pages >= totalLen
    ensures pages == 0 || PageSize * (pages - 1) < totalLen
  {
    (totalLen + 3) / 4
  }

  /** Byte `idx` of the padded frame: the frame's byte, or 0x00 past its end. */
  function PaddedByte(frame: seq<byte>, idx: nat): byte {
    if idx < |frame| then frame[idx] else 0
  }

  /** The four bytes written to page 4 + k. */
  function Chunk(frame: seq<byte>, k: nat): seq<byte> {
    var i := PageSize * k;
    [PaddedByte(frame, i), PaddedByte(frame, i + 1), PaddedByte(frame, i + 2), PaddedByte(frame, i + 3)]
  }

  /** The bytes the first `k` page writes put on the tag, in page order. */
  function Written(frame: seq<byte>, k: nat): seq<byte> {
    if k == 0 then [] else Written(frame, k - 1) + Chunk(frame, k - 1)
  }

  lemma {:induction false} WrittenBytes(frame: seq<byte>, k: nat)
    ensures |Written(frame, k)| == PageSize * k
    ensures forall i :: 0 <= i < PageSize * k ==> Written(frame, k)[i] == PaddedByte(frame, i)
  {
    if k > 0 {
      WrittenBytes(frame, k - 1);
    }
  }

  /** A sequence that agrees with the padded frame byte by byte is the frame
      followed by zeros. */
  lemma PaddedIsFramePlusZeros(frame: seq<byte>, w: seq<byte>)
    requires |w| >= |frame|
    requires forall i :: 0 <= i < |w| ==> w[i] == PaddedByte(frame, i)
    ensures w == frame + Zeros(|w| - |frame|)
  {
    var z := Zeros(|w| - |frame|);
    forall i | 0 <= i < |w|
      ensures w[i] == (frame + z)[i]
    {
      if i >= |frame| {
        assert (frame + z)[i] == z[i - |frame|];
      }
    }
  }

  /** All chunks together are the frame followed by zero padding to a whole page. */
  lemma ChunksPadFrame(frame: seq<byte>)
    ensures Written(frame, PageCount(|frame|))
         == frame + Zeros(PageSize * PageCount(|frame|) - |frame|)
  {
    var n := PageCount(|frame|);
    WrittenBytes(frame, n);
    PaddedIsFramePlusZeros(frame, Written(frame, n));
  }

  /** Tag memory (bytes from address 0) after the first `k` page writes of
      `frame` at pages 4, 5, ... succeeded. */
  function Stored(mem: seq<byte>, frame: seq<byte>, k: nat): (s: seq<byte>)
    requires PageSize * (FirstPage + k) <= |mem|
    ensures |s| == |mem|
    ensures s[..PageSize * FirstPage] == mem[..PageSize * FirstPage]
    ensures s[PageSize * (FirstPage + k)..] == mem[PageSize * (FirstPage + k)..]
  {
    WrittenBytes(frame, k);
    mem[..PageSize * FirstPage] + Written(frame, k) + mem[PageSize * (FirstPage + k)..]
  }

  /** Writing one more chunk to page 4 + k extends `Stored` by that chunk. */
  lemma StoredStep(mem: seq<byte>, frame: seq<byte>, k: nat)
    requires PageSize * (FirstPage + k + 1) <= |mem|
    ensures var s := Stored(mem, frame, k);
            var a := PageSize * (FirstPage + k);
            |s| == |mem|
            && s[..a] + Chunk(frame, k) + s[a + PageSize..] == Stored(mem, frame, k + 1)
  {
    WrittenBytes(frame, k);
    WrittenBytes(frame, k + 1);
    var s := Stored(mem, frame, k);
    var a := PageSize * (FirstPage + k);
    assert s[..a] == mem[..PageSize * FirstPage] + Written(frame, k);
    assert s[a + PageSize..] == mem[a + PageSize..];
  }

  /*************************** read path ***************************/

  /** Bytes the burst loop must gather for a TLV length byte `l`:
      2 header bytes, the record, the terminator (line 117). */
  function Needed(l: byte): nat {
    2 + l + 1
  }

  /** The value `readBytes` reaches when the loop of lines 120-133 runs
      from `readBytes` with every burst read succeeding. */
  function Accumulated(readBytes: nat, needed: nat): nat
    decreases DataCapacity - readBytes
  {
    if readBytes < needed && readBytes < DataCapacity then Accumulated(readBytes + BurstSize, needed)
    else readBytes
  }

  /** Bytes gathered from the tag: one burst at page 4, then more until `needed` is met or `data` is full. */
  function ReadLength(needed: nat): (r: nat)
    ensures BurstSize <= r <= DataCapacity && r % BurstSize == 0
    ensures r >= needed || r == DataCapacity
    ensures r == BurstSize || r - BurstSize < needed
  {
    AccumulatedBounds(BurstSize, needed);
    Accumulated(BurstSize, needed)
  }

  /** The loop stops on a whole number of bursts, never overfills `data`,
      stops as soon as `needed` is met or `data` is full, and issues no burst
      beyond the one that met `needed`. */
  lemma {:induction false} AccumulatedBounds(readBytes: nat, needed: nat)
    requires readBytes % BurstSize == 0 && BurstSize <= readBytes <= DataCapacity
    ensures var r := Accumulated(readBytes, needed);
            && r % BurstSize == 0
            && readBytes <= r <= DataCapacity
            && (r >= needed || r == DataCapacity)
            && (r == readBytes || r - BurstSize < needed)
    decreases DataCapacity - readBytes
  {
    if readBytes < needed && readBytes < DataCapacity {
      AccumulatedBounds(readBytes + BurstSize, needed);
    }
  }

  /** Closed form of `ReadLength`: one burst when the message fits in 16
      bytes, else the whole bursts covering `needed`, capped at 64. */
  lemma ReadLengthClosedForm(needed: nat)
    ensures ReadLength(needed)
         == if needed <= BurstSize then BurstSize
            else if needed > 48 then DataCapacity
            else BurstSize * ((needed + BurstSize - 1) / BurstSize)
  {
    AccumulatedBounds(BurstSize, needed);
  }

  /** The language-code length: the low six bits of the status byte (mask 0x3F). */
  function LangLen(status: byte): nat {
    ((status as bv8) & 0x3F) as nat
  }

  /** Byte 0 opens an NDEF TLV and bytes 2, 3, 5 are a short well-known 'T' record (line 138). */
  predicate HeaderOk(data: seq<byte>)
    requires |data| >= 7
  {
    data[0] == TlvNdef && data[2] == RecordHeader && data[3] == TypeLength && data[5] == TextType
  }

  /** Decoding of the bytes gathered from the tag (lines 138-158), with the
      text window bounded by what was read; see `ReadAsWritten` for the code as
      written, which indexes past the gathered bytes. */
  function DecodeText(data: seq<byte>): (r: Result<seq<byte>>)
    requires |data| >= 7
    ensures r == Err(NoNdef) <==> !HeaderOk(data)
    ensures r == Err(BadPayload) <==> HeaderOk(data) && data[4] < 1 + LangLen(data[6])
    ensures r.Ok? ==> 7 + LangLen(data[6]) + |r.value| == 6 + data[4] <= |data|
    ensures r.Ok? ==> r.value == data[7 + LangLen(data[6]) .. 6 + data[4]]
    ensures r == Err(Truncated) <==> HeaderOk(data) && data[4] >= 1 + LangLen(data[6]) && 6 + data[4] > |data|
    ensures r.Err? ==> r.error in {NoNdef, BadPayload, Truncated}
  {
    if !HeaderOk(data) then Err(NoNdef)
    else
      var payloadLen := data[4] as int;
      var langLen := LangLen(data[6]);
      if payloadLen < 1 + langLen then Err(BadPayload)
      else if 6 + payloadLen > |data| then Err(Truncated)
      else Ok(data[7 + langLen .. 6 + payloadLen])
  }

  /*************************** round trips ***************************/

  /** The codec's round trip: decoding a whole frame gives back the text, for every text the write path accepts. */
  lemma DecodeFrame(text: seq<byte>)
    requires |text| <= MaxTextLen
    ensures DecodeText(Frame(text)) == Ok(text)
  {
    var f := Frame(text);
    assert LangLen(StatusUtf8En) == 2;
    assert f[9..9 + |text|] == text;
  }

  /** Decoding looks only at the first `6 + data[4]` bytes (the terminator
      position and beyond are never consulted). */
  lemma DecodePrefix(data: seq<byte>, more: seq<byte>, k: nat)
    requires 7 <= k <= |data| && 7 <= k <= |more| && data[..k] == more[..k]
    requires 6 + data[4] <= k
    ensures DecodeText(data) == DecodeText(more)
  {
    assert forall i :: 0 <= i < k ==> data[i] == more[i] by {
      forall i | 0 <= i < k ensures data[i] == more[i] {
        assert data[..k][i] == more[..k][i];
      }
    }
    if HeaderOk(data) && data[4] >= 1 + LangLen(data[6]) {
      assert data[7 + LangLen(data[6]) .. 6 + data[4]] == more[7 + LangLen(data[6]) .. 6 + data[4]];
    }
  }

  /** The TLV length byte (offset 1) only sizes the read; decoding never
      looks at it, so a record whose TLV length disagrees with its payload
      length decodes all the same. */
  lemma IgnoresTlvLength(data: seq<byte>, b: byte)
    requires |data| >= 7
    ensures DecodeText(data) == DecodeText(data[1 := b])
  {
    var other := data[1 := b];
    assert other[0] == data[0] && other[2] == data[2] && other[3] == data[3];
    assert other[4] == data[4] && other[5] == data[5] && other[6] == data[6];
    if HeaderOk(data) && data[4] >= 1 + LangLen(data[6]) && 6 + data[4] <= |data| {
      assert other[7 + LangLen(data[6]) .. 6 + data[4]] == data[7 + LangLen(data[6]) .. 6 + data[4]];
    }
  }

  /** What the read path decodes from tag memory `mem`: the bytes at pages 4, 5, ...
      gathered according to the TLV length byte at address 17. */
  function ReadBack(mem: seq<byte>): (r: Result<seq<byte>>)
    requires PageSize * FirstPage + BurstSize <= |mem|
    requires PageSize * FirstPage + ReadLength(Needed(mem[PageSize * FirstPage + 1])) <= |mem|
  {
    var start := PageSize * FirstPage;
    DecodeText(mem[start .. start + ReadLength(Needed(mem[start + 1]))])
  }

  /** A worked example: "hello" is framed as 03 0C D1 01 08 54 02 65 6E
      68 65 6C 6C 6F FE, written as four pages (the last padded with one
      0x00), read back in one burst, and decoded to "hello". A 37-byte frame
      takes ten page writes; a TLV length of 20 takes two bursts. */
  lemma HelloExample()
    ensures var hello: seq<byte> := [0x68, 0x65, 0x6C, 0x6C, 0x6F];
            var f := Frame(hello);
            && f == [0x03, 0x0C, 0xD1, 0x01, 0x08, 0x54, 0x02, 0x65, 0x6E, 0x68, 0x65, 0x6C, 0x6C, 0x6F, 0xFE]
            && PageCount(|f|) == 4
            && Written(f, 4) == f + [0x00]
            && ReadLength(Needed(f[1])) == BurstSize
            && DecodeText(f) == Ok(hello)
            && PageCount(37) == 10
            && ReadLength(Needed(20)) == 2 * BurstSize
  {
    var hello: seq<byte> := [0x68, 0x65, 0x6C, 0x6C, 0x6F];
    DecodeFrame(hello);
    ChunksPadFrame(Frame(hello));
    assert Zeros(1) == [0x00];
  }

  /** After every page of `frame` is written, the bytes from address 16 on begin with the frame. */
  lemma StoredHoldsFrame(mem: seq<byte>, frame: seq<byte>)
    requires PageSize * (FirstPage + PageCount(|frame|)) <= |mem|
    ensures forall i :: 0 <= i < |frame| ==>
              Stored(mem, frame, PageCount(|frame|))[PageSize * FirstPage + i] == frame[i]
  {
    var n := PageCount(|frame|);
    WrittenBytes(frame, n);
    var s := Stored(mem, frame, n);
    forall i | 0 <= i < |frame| ensures s[PageSize * FirstPage + i] == frame[i] {
      assert s[PageSize * FirstPage + i] == Written(frame, n)[i];
    }
  }

  /** Decoding bytes that agree with the frame for `text` as far as both go:
      the text comes back when its last byte (offset n + 8) was gathered,
      otherwise the decode reports truncation. */
  lemma DecodeFramePrefix(text: seq<byte>, data: seq<byte>)
    requires |text| <= MaxTextLen && 7 <= |data|
    requires forall i :: 0 <= i < |data| && i < |text| + 10 ==> data[i] == Frame(text)[i]
    ensures DecodeText(data) == if |text| + 9 <= |data| then Ok(text) else Err(Truncated)
  {
    var f := Frame(text);
    assert data[0] == f[0] && data[2] == f[2] && data[3] == f[3] && data[5] == f[5];
    assert data[4] == f[4] && data[6] == f[6];
    assert LangLen(StatusUtf8En) == 2;
    if |text| + 9 <= |data| {
      assert data[9 .. 9 + |text|] == text by {
        forall i | 0 <= i < |text| ensures data[9 + i] == text[i] {
          assert data[9 + i] == f[9 + i];
        }
      }
    }
  }

  /** The last text byte of an n-byte text's frame (offset n + 8) is among
      the bytes the read gathers exactly when n <= 55. */
  lemma TextFitsRead(n: nat)
    ensures n <= 55 <==> n + 9 <= ReadLength(n + 10)
  {
  }

  /** Write then read: after every page of the frame for `text` is written,
      reading the tag back gives the text exactly when the text is at most
      55 bytes; a longer text does not fit the 64-byte read buffer and is
      reported as truncated. */
  lemma WriteThenRead(text: seq<byte>, mem: seq<byte>)
    requires |text| <= MaxTextLen
    requires PageSize * (FirstPage + PageCount(|text| + 10)) <= |mem|
    requires PageSize * FirstPage + ReadLength(|text| + 10) <= |mem|
    ensures var s := Stored(mem, Frame(text), PageCount(|text| + 10));
            && Needed(s[PageSize * FirstPage + 1]) == |text| + 10
            && ReadBack(s) == if |text| <= 55 then Ok(text) else Err(Truncated)
  {
    var f := Frame(text);
    StoredHoldsFrame(mem, f);
    ReadBackFrame(text, Stored(mem, f, PageCount(|f|)));
  }

  /** Reading back a tag whose bytes from address 16 on start with the frame
      for `text`. */
  lemma ReadBackFrame(text: seq<byte>, s: seq<byte>)
    requires |text| <= MaxTextLen
    requires 16 + |text| + 10 <= |s|
    requires forall i :: 0 <= i < |text| + 10 ==> s[16 + i] == Frame(text)[i]
    requires 16 + ReadLength(|text| + 10) <= |s|
    ensures Needed(s[17]) == |text| + 10
    ensures ReadBack(s) == if |text| <= 55 then Ok(text) else Err(Truncated)
  {
    var f := Frame(text);
    assert s[16 + 1] == f[1];
    var len := ReadLength(|f|);
    TextFitsRead(|text|);
    var data := s[16 .. 16 + len];
    assert forall i :: 0 <= i < |data| && i < |f| ==> data[i] == f[i] by {
      forall i | 0 <= i < |data| && i < |f| ensures data[i] == f[i] {
        assert data[i] == s[16 + i];
      }
    }
    DecodeFramePrefix(text, data);
  }
}
