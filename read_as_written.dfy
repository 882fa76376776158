/**
 * The read path as written in Rfid2.cpp, where it differs from the model in
 * NdefText: lines 151-155 copy the text from `data[7 + langLen]` up to
 * `data[6 + payloadLen - 1]` without comparing that window with the bytes
 * the burst loop gathered (`readBytes`) or with the 64-byte `data` array.
 * The window is computed here, and the lemmas exhibit inputs for which it
 * leaves both; `NdefText.DecodeText` is the corrected decoding, which
 * reports `Truncated` for exactly those inputs.
 */
module ReadAsWritten {
  import opened Bytes
  import opened NdefText

  /** The index window [start, end) the copy loop of lines 151-155 reads, as
      written: the header and payload checks of lines 138-150, then no bound. */
  function TextWindowAsWritten(data: seq<byte>): (w: Result<(nat, nat)>)
    requires |data| >= 7
    ensures w.Err? <==> DecodeText(data) == Err(NoNdef) || DecodeText(data) == Err(BadPayload)
    ensures w.Ok? ==> w.value.0 <= w.value.1
    ensures w.Ok? ==> (DecodeText(data).Ok? <==> w.value.1 <= |data|)
    ensures DecodeText(data).Ok? ==> DecodeText(data).value == data[w.value.0 .. w.value.1]
  {
    if !HeaderOk(data) then Err(NoNdef)
    else
      var payloadLen := data[4] as int;
      var langLen := LangLen(data[6]);
      if payloadLen < 1 + langLen then Err(BadPayload)
      else Ok((7 + langLen, 7 + langLen + (payloadLen - 1 - langLen)))
  }

  /** A tag whose first burst is 03 00 D1 01 FF 54 02 followed by zeros: the
      TLV length 0 makes `needed` 3, so one burst is read (16 bytes), yet the
      copy loop reads data[9] .. data[260], past the 64-byte array. The
      corrected decoding reports truncation. */
  lemma AsWrittenTextOverrunsData()
    ensures var d := [TlvNdef, 0x00, RecordHeader, TypeLength, 0xFF, TextType, StatusUtf8En] + Zeros(9);
            && |d| == BurstSize
            && ReadLength(Needed(d[1])) == BurstSize
            && TextWindowAsWritten(d) == Ok((9, 261))
            && 261 > DataCapacity
            && DecodeText(d) == Err(Truncated)
  {
    var d := [TlvNdef, 0x00, RecordHeader, TypeLength, 0xFF, TextType, StatusUtf8En] + Zeros(9);
    assert d[1] == 0 && d[4] == 0xFF && d[6] == StatusUtf8En;
    assert LangLen(StatusUtf8En) == 2;
    assert HeaderOk(d);
  }

  /** Write/read mismatch: the write path accepts up to 240 bytes of text, but
      for every text of 56 bytes or more the 64 bytes the read path can gather
      end before the text does, and the copy loop as written reads past
      `data[63]`. The corrected decoding reports truncation instead. */
  lemma AsWrittenLongTextOverruns(text: seq<byte>)
    requires 56 <= |text| <= MaxTextLen
    ensures var d := Frame(text)[..DataCapacity];
            && ReadLength(Needed(Frame(text)[1])) == DataCapacity
            && TextWindowAsWritten(d).Ok?
            && TextWindowAsWritten(d).value.0 == 9 && TextWindowAsWritten(d).value.1 == |text| + 9
            && |text| + 9 > DataCapacity
            && DecodeText(d) == Err(Truncated)
  {
    var f := Frame(text);
    var d := f[..DataCapacity];
    assert forall i :: 0 <= i < |d| && i < |text| + 10 ==> d[i] == f[i];
    DecodeFramePrefix(text, d);
    assert d[4] == f[4] && d[6] == f[6] && HeaderOk(d);
    assert LangLen(StatusUtf8En) == 2;
  }

  /** The bound check also rejects an empty text whose language code runs
      past the gathered bytes: with status 0x3F (a 63-byte language code) and
      payload length 64, the text is empty and the copy loop as written reads
      nothing, returning "", while the corrected decoding reports truncation
      because the record ends at offset 70, past the 16 bytes read. */
  lemma EmptyTextLanguageOverrun()
    ensures var d := [TlvNdef, 0x00, RecordHeader, TypeLength, 0x40, TextType, 0x3F] + Zeros(9);
            && |d| == BurstSize
            && ReadLength(Needed(d[1])) == BurstSize
            && TextWindowAsWritten(d) == Ok((70, 70))
            && DecodeText(d) == Err(Truncated)
  {
    var d := [TlvNdef, 0x00, RecordHeader, TypeLength, 0x40, TextType, 0x3F] + Zeros(9);
    assert d[1] == 0 && d[4] == 0x40 && d[6] == 0x3F;
    assert LangLen(0x3F) == 63;
    assert HeaderOk(d);
  }
}
